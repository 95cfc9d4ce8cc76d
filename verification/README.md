# Bulk Firefish emoji upload, modelled in Dafny

`bulk-firefish-emoji-upload.py` is a straight-line script. It syncs a
directory of image files into one emoji category on a Firefish instance in
three steps:

1. **Catalog fetch** (lines 13-55). The script pages through
   `admin/emoji/list` with the category as query and a page size of 100.
   Each follow-up request carries the id of the last record of the page
   just consumed as the `untilId` cursor. Every name on every consumed page
   is appended to `emojinames`.
2. **Diff** (line 66). Local files whose stem is not a collected name
   become the candidates, in their original order.
3. **Batch** (lines 68-141). For each candidate the script:
   - looks the file up with `drive/files/find`;
   - uploads it with `drive/files/create` only when the find result is
     empty;
   - registers it with `admin/emoji/add`;
   - sets name, category and aliases with `admin/emoji/update`.

   The aliases are the directory names of the file's path relative to the
   root (lines 118-125). The first refused answer (`break`) ends the whole
   batch.

The model treats every server answer as an input:

- The catalog fetch receives the finite sequence of list replies, one per
  request, in order.
- The batch receives an oracle that gives the answers for the candidate at
  each position.

Everything else is pure functions over immutable sequences and datatypes.
The modules follow the script's steps:

- `Base`: `Option` and the two success status codes, 200 and 204.
- `EmojiList`: the pagination loop as a function of the replies. Its
  reference definitions are stated over the replies alone:
  - `LatestPage` is the value `emojidata` holds;
  - `Collected` is the names appended so far;
  - `FetchedNames` is the names carried by the successful replies.
- `Files`: local files, `str.split` on a one-character separator, its
  inverse `Join`, and alias derivation.
- `Diff`: the candidate filter.
- `Upload`: the per-file call sequence and the halting batch. Each call is
  recorded as an `Event` with the request fields it sent and the answer it
  got.
- `Sync`: the whole script, from list replies and local files to the
  catalog, the candidates and the batch.

Two behaviours of the code are worth spelling out, because a reader
might expect otherwise:

- A failed follow-up catalog fetch does not end the loop, as long as the
  refused reply's body is JSON (see "## Left out"). It leaves
  `emojidata` unchanged (lines 50-55), so the loop appends the same names
  again and re-sends the same request. The model follows this
  (`FailedFetchRepeatsRequest`, `FailedFetchDuplicatesNames`). Only a
  failed *first* fetch ends the loop, with nothing collected
  (`InitialFailureCollectsNothing`).
- The known names are kept as a list, not a set, so the model keeps a
  sequence. Membership is what the diff uses
  (`FinishedFetchKnowsFetchedNames`).

Relative paths in the model are relative to the root directory
(`os.path.relpath(file, directory)`, line 118). In the example
`Sync.WaveScenario`, `fun/wave.png` is a file `wave.png` in the
sub-directory `fun` of the root, so its only alias is `fun`.

## Model

| member | source | states |
|---|---|---|
| EmojiList.FetchLoop | bulk-firefish-emoji-upload.py:34-55 | Its own contract only bounds the requests sent by the replies available. Its behaviour is stated by `FetchLoopSpec`. |
| EmojiList.FetchCatalog | bulk-firefish-emoji-upload.py:13-55 | Its own contract only bounds the requests sent by the replies available. Its behaviour is stated by `FetchCatalogSpec`, `FailedFetchRepeatsRequest` and `FinishedFetchKnowsFetchedNames`. |
| EmojiList.ScanPage | bulk-firefish-emoji-upload.py:36-39 | Scanning a page appends its names in order. The cursor it leaves is the id of the page's last record, or stays unset for an empty page. |
| EmojiList.FetchLoopSpec | bulk-firefish-emoji-upload.py:34-55 | From any state reachable by the loop: the requests follow the cursor discipline, the loop stops exactly when the page in hand is empty or missing, and the names are those of every consumed page. |
| EmojiList.FetchCatalogSpec | bulk-firefish-emoji-upload.py:13-55 | The first request has no cursor. Each later request was sent because the latest successful page was non-empty, and it carries that page's last id. A request is made iff a reply exists. The fetch finishes exactly when the latest page is empty or missing. Otherwise every reply was used. The names are the in-order concatenation of the consumed pages. |
| EmojiList.InitialFailureCollectsNothing | bulk-firefish-emoji-upload.py:21-34 | When the first list request is refused, one request is made, the loop never runs and no name is collected. |
| EmojiList.FailedFetchRepeatsRequest | bulk-firefish-emoji-upload.py:41-55 | A refused follow-up request is re-sent with the same cursor. A finished fetch with follow-ups ends on an accepted reply. |
| EmojiList.CollectedCoversFetched | bulk-firefish-emoji-upload.py:34-55 | The names collected, plus those of the page in hand, are as a set exactly the names of the accepted replies. |
| EmojiList.FinishedFetchKnowsFetchedNames | bulk-firefish-emoji-upload.py:34-55 | After a finished fetch, a name is known iff some accepted reply carried it. Repeated pages add duplicates but never change membership. |
| EmojiList.FailedFetchDuplicatesNames | bulk-firefish-emoji-upload.py:50-55 | Example: a page with "blob", then a refused reply, then an empty page. The collected names are ["blob", "blob"]. |
| Files.Split | bulk-firefish-emoji-upload.py:119 | Splitting on the separator yields at least one piece. |
| Files.SplitPiecesAvoidSeparator | bulk-firefish-emoji-upload.py:119 | No piece of a split contains the separator. |
| Files.JoinSplit | bulk-firefish-emoji-upload.py:119 | Joining the pieces of a split with the separator gives back the path. |
| Files.SplitJoin | bulk-firefish-emoji-upload.py:119 | Splitting a join of separator-free pieces gives back the pieces. |
| Files.Aliases | bulk-firefish-emoji-upload.py:121-125 | Alias derivation always removes at least one segment. |
| Files.AliasesAreTrailingSegments | bulk-firefish-emoji-upload.py:121-125 | The aliases are the segments just before the last one. Exactly one segment is dropped iff there is no leading "." or it is the only segment. Two are dropped iff a leading "." precedes more segments. |
| Files.AliasesOf | bulk-firefish-emoji-upload.py:118-125 | A file's aliases are fewer than the segments of its relative path, and none contains the separator. `AliasesAreDirectories` states exactly which they are. |
| Files.AliasesAreDirectories | bulk-firefish-emoji-upload.py:118-125 | A file at dirs/name gets exactly the directory names as aliases. A file directly under the root gets none. |
| Files.AliasesSkipCurrentDirectory | bulk-firefish-emoji-upload.py:121-125 | A leading "." segment is dropped before the file name, so ./dirs/name also gets exactly dirs. |
| Files.CurrentDirectoryHasNoAliases | bulk-firefish-emoji-upload.py:121-125 | The path "." yields no aliases: the length guard keeps the emptied list from being popped. |
| Files.AliasExamples | bulk-firefish-emoji-upload.py:118-125 | "a/b/name.png" gives ["a", "b"] and "name.png" gives []. |
| Diff.Candidates | bulk-firefish-emoji-upload.py:66 | The diff never yields more files than it was given. |
| Diff.CandidatesMembership | bulk-firefish-emoji-upload.py:66 | A file is a candidate iff it is a local file whose stem is not a known name. |
| Diff.CandidatesAreKeptSubsequence | bulk-firefish-emoji-upload.py:66 | The candidates are the local files at ascending positions. A position is kept iff its stem is not a known name, so the result is the order-preserving filter. |
| Diff.AllKnownNothingToAdd | bulk-firefish-emoji-upload.py:66-68 | When every stem is already known there are no candidates. |
| Diff.RerunAddsNothing | bulk-firefish-emoji-upload.py:66-68 | Once the candidates' stems are added to the known names, a second diff yields nothing (idempotent re-run). |
| Upload.MetaFor | bulk-firefish-emoji-upload.py:127-134 | The update for a file sets its stem as name and the configured category. Its aliases never contain the separator; `Files.AliasesAreDirectories` states which they are. |
| Upload.ProcessFile | bulk-firefish-emoji-upload.py:69-141 | One file makes one to four calls, starting with a find for its name, in protocol order. Every call records the server's answer to that call. Upload follows only an accepted, empty find. Add registers the found or uploaded file id. Update follows only an accepted add and targets its emoji. Only the last call can be refused. The file completes iff the find, the upload when needed, and the add were answered 200 and the update 204. Any update, accepted or refused, carries the stem, the category and the path aliases. |
| Upload.ProcessFileSummary | bulk-firefish-emoji-upload.py:69-141 | Per file: exactly one lookup, for its name. There is one successful update, carrying the file's metadata, exactly when the file completed. |
| Upload.FileTraces | bulk-firefish-emoji-upload.py:68-141 | There is one call sequence per candidate. Sequence i starts with a find for candidate i's name and completes iff the server accepted all of that candidate's calls. |
| Upload.Halting | bulk-firefish-emoji-upload.py:68-141 | Its own contract only bounds the completed count by the number of files. Its behaviour is stated by `HaltingIsConcat`, `HaltingProtocol`, `HaltingStopsAtFirstIncomplete`, `HaltingUpdates` and `HaltingLookups`. |
| Upload.HaltingIsConcat | bulk-firefish-emoji-upload.py:68-141 | The batch's calls are exactly the begun files' calls concatenated in order: every completed file, plus the file it halted on when it halted early. |
| Upload.HaltingStopsAtFirstIncomplete | bulk-firefish-emoji-upload.py:68-141 | Every file before the halting point completed. The file at the halting point, if any, did not. |
| Upload.HaltingProtocol | bulk-firefish-emoji-upload.py:68-141 | Running file call sequences in order until the first incomplete one keeps the call protocol across file boundaries. The batch stops early iff its last answer was refused. |
| Upload.HaltingUpdates | bulk-firefish-emoji-upload.py:127-141 | The successful updates of a halting batch are exactly one per completed file, in order. |
| Upload.HaltingLookups | bulk-firefish-emoji-upload.py:68-82 | The lookups of a halting batch are one per completed file, plus one for the file that halted it. |
| Upload.Batch | bulk-firefish-emoji-upload.py:68-141 | Its own contract only bounds the completed count by the number of candidates. Its behaviour is stated by `BatchIsConcat`, `BatchStopsAtFirstRefusal`, `BatchHaltsAtFirstFailure`, `BatchCompletesPrefix` and `BatchLooksUpBegunFiles`. |
| Upload.BatchIsConcat | bulk-firefish-emoji-upload.py:68-141 | The batch's calls are the `ProcessFile` call sequences of the candidates it began, candidate k answered by its own answers, concatenated in candidate order. Every answer in the batch is therefore the server's answer for that candidate. |
| Upload.BatchStopsAtFirstRefusal | bulk-firefish-emoji-upload.py:78-141 | In terms of the server's answers: every candidate before the halting point had all its calls accepted. When the batch halts early, the candidate it halted on had a refused find, upload, add or update. |
| Upload.BatchHaltsAtFirstFailure | bulk-firefish-emoji-upload.py:78-141 | In terms of the answers the calls record, which `ProcessFile` and `BatchIsConcat` tie to the server's: the batch starts with a find. Every upload follows an accepted empty find. Every update follows an accepted add. Every call but the last was accepted. Fewer than all files completed iff the last answer was refused. |
| Upload.BatchCompletesPrefix | bulk-firefish-emoji-upload.py:127-141 | The files that reached a successful update are a prefix of the candidates, in order. Update k carries candidate k's stem, the configured category and its aliases. |
| Upload.BatchLooksUpBegunFiles | bulk-firefish-emoji-upload.py:68-82 | Lookups were made, in order, for the completed prefix and for the file that halted the batch, and for nothing else. |
| Sync.RunSync | bulk-firefish-emoji-upload.py:13-141 | The script gets to the diff iff the catalog fetch finished. It is still paginating only when every list reply was used. A batch completes at most as many files as there are candidates, and there are at most as many candidates as local files. |
| Sync.SyncSkipsKnownNames | bulk-firefish-emoji-upload.py:34-66 | Every successful update sets the configured category. It names a stem that no accepted list reply carried. |
| Sync.SyncOfKnownFilesDoesNothing | bulk-firefish-emoji-upload.py:13-68 | When the catalog fetch finished and already holds every local stem, there are no candidates and no call after the list requests. |
| Sync.WaveScenario | bulk-firefish-emoji-upload.py:13-141 | Example: one file fun/wave.png and an empty catalog. The run makes one list request and then find, upload, add and update, setting name "wave", category "stickers" and aliases ["fun"]. |

## Left out

- HTTP and JSON: the requests, the API key, JSON decoding and the base URL
  are left out. Each call is reduced to a status code plus the fields the
  script reads.
- Refused replies are assumed to carry a JSON body. The script calls
  `response.json()` on a refused list reply (lines 30 and 55) and on a
  refused create, add or update (lines 99, 113 and 140). If such a body is
  not JSON (an HTML error page from a proxy, say), the script as written
  raises and ends there. After a refused first list reply it then never
  reaches the diff, whereas the model goes on with no known names. After a
  refused follow-up it stops instead of repeating the request.
- A list reply with status 200 is taken to carry a list of records. A JSON
  `null` or malformed body is not modelled.
- Filesystem enumeration (`glob`, `is_file`) and `open(file, "rb")` are left
  out. The local files are a given sequence of (relative path, name, stem)
  values.
- `os.path.relpath` is left out: a file's relative path is an input.
  `os.path.sep` is a one-character separator parameter.
- All `print` logging is left out.
- Line 101 reads `["id"]` from the last response. On the upload path that
  is the create response, and the model reads its file id from the create
  answer. On the find-hit path it is the find response, which the endpoint
  returns as an array. Indexing that array with `"id"` raises a TypeError
  in the script as written, which ends the whole run. This depends on the
  foreign API's response shape, so the model does not follow it: a find
  hit carries an opaque file id and the script goes on to the add call.
- Rate-limit backoff and MIME-type selection are not part of this script,
  so they are not part of this model.
- EmojiList.FetchCatalog: the replies are finite, so a fetch still asking
  for pages when they run out ends with `finished == false`. The script
  would keep requesting, and it never ends if a follow-up keeps being
  refused. `Sync.RunSync` then reports the run as still paginating.
- Upload.Halting: its own contract only bounds the completed count. Its
  behaviour is stated by `HaltingIsConcat`, `HaltingProtocol`,
  `HaltingStopsAtFirstIncomplete`, `HaltingUpdates` and `HaltingLookups`.
