/** The per-file upload pipeline and the batch that halts on the first
    failure (lines 67-141). Every server answer is an input. */
module Upload {
  import opened Base
  import opened Files

  type FileId = string
  type EmojiId = string

  /** `drive/files/find`: on status 200, `hit` is `None` when the result is
      empty and otherwise the drive file id the script goes on with. */
  datatype FindReply = FindReply(status: int, hit: Option<FileId>)

  /** `drive/files/create`: the uploaded drive file's id on status 200. */
  datatype CreateReply = CreateReply(status: int, fileId: FileId)

  /** `admin/emoji/add`: the new emoji's id on status 200. */
  datatype AddReply = AddReply(status: int, emojiId: EmojiId)

  /** `admin/emoji/update`: only the status matters (204 on success). */
  datatype UpdateReply = UpdateReply(status: int)

  /** What the server would answer to each call made for one file; the
      create answer is only read when the script uploads. */
  datatype Replies = Replies(find: FindReply, create: CreateReply, add: AddReply, update: UpdateReply)

  /** One call the script made, with the request fields it sent (the API key
      and the file bytes aside) and the answer it got. */
  datatype Event =
    | Find(name: string, found: FindReply)
    | Create(name: string, created: CreateReply)
    | Add(fileId: FileId, added: AddReply)
    | Update(emojiId: EmojiId, name: string, category: string, aliases: seq<string>, updated: UpdateReply)

  /** Whether the script accepts the answer to a call. */
  predicate Succeeded(e: Event) {
    match e
    case Find(_, reply) => reply.status == StatusOk
    case Create(_, reply) => reply.status == StatusOk
    case Add(_, reply) => reply.status == StatusOk
    case Update(_, _, _, _, reply) => reply.status == StatusNoContent
  }

  /** The order calls must come in: a find starts a file once the previous
      file's update succeeded; an upload follows only a successful find with
      an empty result, for the same name; an add follows a successful find
      hit or upload and registers that drive file; an update follows only a
      successful add and targets the emoji it created. */
  predicate Follows(prev: Event, next: Event) {
    && Succeeded(prev)
    && match next
       case Find(_, _) => prev.Update?
       case Create(name, _) => prev.Find? && prev.found.hit.None? && prev.name == name
       case Add(fileId, _) =>
         || (prev.Find? && prev.found.hit == Some(fileId))
         || (prev.Create? && prev.created.fileId == fileId)
       case Update(emojiId, _, _, _, _) => prev.Add? && prev.added.emojiId == emojiId
  }

  ghost predicate Protocol(t: seq<Event>) {
    && (|t| > 0 ==> t[0].Find?)
    // Each call follows the previous one; `j == i + 1` is bound separately
    // so that `t[i]` and `t[j]` can serve as triggers without a matching loop.
    && forall i, j :: 0 <= i && j == i + 1 && j < |t| ==> Follows(t[i], t[j])
  }

  /** A file's calls ended in a successful metadata update. */
  predicate Completed(t: seq<Event>) {
    |t| > 0 && t[|t| - 1].Update? && Succeeded(t[|t| - 1])
  }

  /** The metadata an update sets. */
  datatype Meta = Meta(name: string, category: string, aliases: seq<string>)

  /** What the update for `file` must set: its stem, the configured
      category, and the aliases derived from its relative path. */
  function MetaFor(file: LocalFile, category: string, sep: char): (m: Meta)
    ensures m.name == file.stem && m.category == category
    ensures forall k :: 0 <= k < |m.aliases| ==> sep !in m.aliases[k]
  {
    Meta(file.stem, category, AliasesOf(file.relPath, sep))
  }

  /** The server accepts every call the script makes for one file: the
      find, the upload when the find result is empty, the add and the
      update (lines 78-82, 95-100, 109-114, 136-141). */
  predicate AllAccepted(replies: Replies) {
    && replies.find.status == StatusOk
    && (replies.find.hit.Some? || replies.create.status == StatusOk)
    && replies.add.status == StatusOk
    && replies.update.status == StatusNoContent
  }

  /** The event records the server's answer to that kind of call. */
  predicate Answered(e: Event, replies: Replies) {
    match e
    case Find(_, reply) => reply == replies.find
    case Create(_, reply) => reply == replies.create
    case Add(_, reply) => reply == replies.add
    case Update(_, _, _, _, reply) => reply == replies.update
  }

  /** Lines 69-141 for one file: find; upload only if the find result is
      empty; add; update. The first refused answer ends the file's calls. */
  function ProcessFile(file: LocalFile, replies: Replies, category: string, sep: char): (t: seq<Event>)
    ensures 1 <= |t| <= 4 && t[0] == Find(file.name, replies.find)
    ensures forall j :: 0 <= j < |t| ==> Answered(t[j], replies)
    ensures Protocol(t)
    ensures forall j :: 0 < j < |t| ==> !t[j].Find?
    ensures forall j :: 0 <= j < |t| - 1 ==> !t[j].Update?
    ensures Succeeded(t[|t| - 1]) <==> Completed(t)
    ensures Completed(t) <==> AllAccepted(replies)
    ensures Completed(t) ==> UpdateMeta(t[|t| - 1]) == MetaFor(file, category, sep)
    ensures forall j :: 0 <= j < |t| && t[j].Update? ==> UpdateMeta(t[j]) == MetaFor(file, category, sep)
  {
    var find := Find(file.name, replies.find);
    if replies.find.status != StatusOk then [find]
    else
      var blob :=
        if replies.find.hit.None? then [find, Create(file.name, replies.create)] else [find];
      if replies.find.hit.None? && replies.create.status != StatusOk then blob
      else
        var fileId := if replies.find.hit.Some? then replies.find.hit.value else replies.create.fileId;
        var add := Add(fileId, replies.add);
        if replies.add.status != StatusOk then blob + [add]
        else
          var meta := MetaFor(file, category, sep);
          blob + [add, Update(replies.add.emojiId, meta.name, meta.category, meta.aliases, replies.update)]
  }

  /** The metadata of the successful updates in a trace, in order. */
  function SuccessfulUpdates(t: seq<Event>): seq<Meta> {
    if |t| == 0 then []
    else
      (if t[0].Update? && Succeeded(t[0]) then [UpdateMeta(t[0])] else [])
      + SuccessfulUpdates(t[1..])
  }

  /** The names looked up with find in a trace, in order. */
  function Lookups(t: seq<Event>): seq<string> {
    if |t| == 0 then [] else (if t[0].Find? then [t[0].name] else []) + Lookups(t[1..])
  }

  lemma {:induction false} SuccessfulUpdatesAppend(a: seq<Event>, b: seq<Event>)
    ensures SuccessfulUpdates(a + b) == SuccessfulUpdates(a) + SuccessfulUpdates(b)
    decreases |a|
  {
    if |a| > 0 {
      SuccessfulUpdatesAppend(a[1..], b);
      assert (a + b)[1..] == a[1..] + b;
    } else {
      assert a + b == b;
    }
  }

  lemma {:induction false} LookupsAppend(a: seq<Event>, b: seq<Event>)
    ensures Lookups(a + b) == Lookups(a) + Lookups(b)
    decreases |a|
  {
    if |a| > 0 {
      LookupsAppend(a[1..], b);
      assert (a + b)[1..] == a[1..] + b;
    } else {
      assert a + b == b;
    }
  }

  /** Per file: exactly one lookup, and a successful update exactly when the
      file completed, carrying that file's metadata. */
  lemma ProcessFileSummary(file: LocalFile, replies: Replies, category: string, sep: char)
    ensures var t := ProcessFile(file, replies, category, sep);
      && Lookups(t) == [file.name]
      && SuccessfulUpdates(t) == (if Completed(t) then [MetaFor(file, category, sep)] else [])
  {
    var t := ProcessFile(file, replies, category, sep);
    LookupsSingleFind(t);
    SuccessfulUpdatesFinalOnly(t);
  }

  lemma {:induction false} LookupsSingleFind(t: seq<Event>)
    requires |t| > 0 && t[0].Find?
    requires forall j :: 0 < j < |t| ==> !t[j].Find?
    ensures Lookups(t) == [t[0].name]
  {
    NoLookups(t[1..]);
  }

  lemma {:induction false} NoLookups(t: seq<Event>)
    requires forall j :: 0 <= j < |t| ==> !t[j].Find?
    ensures Lookups(t) == []
  {
    if |t| > 0 {
      NoLookups(t[1..]);
    }
  }

  lemma {:induction false} SuccessfulUpdatesFinalOnly(t: seq<Event>)
    requires forall j :: 0 <= j < |t| - 1 ==> !t[j].Update?
    ensures SuccessfulUpdates(t) ==
      (if Completed(t) then [UpdateMeta(t[|t| - 1])] else [])
  {
    if |t| > 1 {
      SuccessfulUpdatesFinalOnly(t[1..]);
      assert t[1..][|t| - 2] == t[|t| - 1];
    } else if |t| == 1 {
      assert t[1..] == [];
    }
  }

  /** The metadata a successful update event set. */
  function UpdateMeta(e: Event): Meta
    requires e.Update?
  {
    Meta(e.name, e.category, e.aliases)
  }

  /** A file's calls start with a find, follow the protocol, and end on a
      refused answer unless the file completed. */
  ghost predicate FileProtocol(t: seq<Event>) {
    && |t| >= 1 && t[0].Find?
    && Protocol(t)
    && (Succeeded(t[|t| - 1]) <==> Completed(t))
  }

  /** A file's calls hold one successful update, the last call, exactly
      when the file completed. */
  ghost predicate UpdatesOnce(t: seq<Event>) {
    SuccessfulUpdates(t) == (if Completed(t) then [UpdateMeta(t[|t| - 1])] else [])
  }

  /** A file's calls make one lookup, the first call. */
  ghost predicate LooksUpOnce(t: seq<Event>) {
    |t| >= 1 && t[0].Find? && Lookups(t) == [t[0].name]
  }

  /** The calls made for a batch, and how many files completed. */
  datatype BatchRun = BatchRun(trace: seq<Event>, completed: nat)

  /** Lines 68-141 over the files' call sequences in candidate order: each
      file's calls in turn, and the first file that does not complete ends
      the whole batch (`break`); later files make no call. */
  function Halting(traces: seq<seq<Event>>): (r: BatchRun)
    ensures r.completed <= |traces|
    decreases |traces|
  {
    if |traces| == 0 then BatchRun([], 0)
    else if !Completed(traces[0]) then BatchRun(traces[0], 0)
    else
      var rest := Halting(traces[1..]);
      BatchRun(traces[0] + rest.trace, rest.completed + 1)
  }

  /** The per-file call sequences: file `i` is answered by `oracle(i)`. */
  function FileTraces(files: seq<LocalFile>, oracle: nat -> Replies, category: string, sep: char)
    : (traces: seq<seq<Event>>)
    ensures |traces| == |files|
    ensures forall i :: 0 <= i < |traces| ==>
      && |traces[i]| >= 1 && traces[i][0] == Find(files[i].name, oracle(i).find)
      && (Completed(traces[i]) <==> AllAccepted(oracle(i)))
  {
    var traces := seq(|files|, i requires 0 <= i < |files| => ProcessFile(files[i], oracle(i), category, sep));
    assert forall i :: 0 <= i < |traces| ==> traces[i] == ProcessFile(files[i], oracle(i), category, sep);
    traces
  }

  /** A one-file batch runs that file's calls on the first answers. */
  lemma SingleFileTraces(file: LocalFile, oracle: nat -> Replies, category: string, sep: char)
    ensures FileTraces([file], oracle, category, sep) == [ProcessFile(file, oracle(0), category, sep)]
  {
  }

  /** A single completed file is the whole batch. */
  lemma SingleCompletedHalting(t: seq<Event>)
    requires Completed(t)
    ensures Halting([t]) == BatchRun(t, 1)
  {
    assert [t][1..] == [];
    assert t + [] == t;
  }

  /** The calls of several files, one file after the other. */
  function Flatten(traces: seq<seq<Event>>): seq<Event> {
    if |traces| == 0 then [] else traces[0] + Flatten(traces[1..])
  }

  /** How many files a batch began: the completed ones and, when it halted
      early, the one it halted on. */
  function Begun(r: BatchRun, total: nat): nat {
    if r.completed < total then r.completed + 1 else r.completed
  }

  /** The batch's calls are exactly the calls of the files it began, in
      order: nothing is dropped, reordered or added at the halting point. */
  lemma {:induction false} HaltingIsConcat(traces: seq<seq<Event>>)
    ensures var r := Halting(traces); var n := Begun(r, |traces|);
      n <= |traces| && r.trace == Flatten(traces[..n])
    decreases |traces|
  {
    if |traces| == 0 {
      assert traces[..0] == [];
    } else if !Completed(traces[0]) {
      assert traces[..1][1..] == [];
      assert traces[..1][0] + [] == traces[0];
    } else {
      var rest := Halting(traces[1..]);
      HaltingIsConcat(traces[1..]);
      var m := Begun(rest, |traces[1..]|);
      assert traces[..m + 1][1..] == traces[1..][..m];
      assert traces[..m + 1][0] == traces[0];
    }
  }

  /** The whole batch over the candidate list. */
  function Batch(files: seq<LocalFile>, oracle: nat -> Replies, category: string, sep: char): (r: BatchRun)
    ensures r.completed <= |files|
  {
    Halting(FileTraces(files, oracle, category, sep))
  }

  lemma ProtocolAppend(a: seq<Event>, b: seq<Event>)
    requires Protocol(a) && Protocol(b)
    requires Completed(a)
    ensures Protocol(a + b)
  {
    var t := a + b;
    forall i, j | 0 <= i && j == i + 1 && j < |t|
      ensures Follows(t[i], t[j])
    {
      if j < |a| {
        assert t[i] == a[i] && t[j] == a[j];
      } else if j == |a| {
        assert t[i] == a[|a| - 1] && t[j] == b[0];
      } else {
        assert t[i] == b[i - |a|] && t[j] == b[j - |a|];
      }
    }
  }

  /** The batch follows the protocol and halts exactly when a file's calls
      end on a refused answer. */
  lemma {:induction false} HaltingProtocol(traces: seq<seq<Event>>)
    requires forall i :: 0 <= i < |traces| ==> FileProtocol(traces[i])
    ensures var r := Halting(traces);
      && Protocol(r.trace)
      && (r.completed < |traces| <==> |r.trace| > 0 && !Succeeded(r.trace[|r.trace| - 1]))
    decreases |traces|
  {
    if |traces| > 0 && Completed(traces[0]) {
      var rest := Halting(traces[1..]);
      assert forall i :: 0 <= i < |traces[1..]| ==> traces[1..][i] == traces[i + 1];
      HaltingProtocol(traces[1..]);
      ProtocolAppend(traces[0], rest.trace);
      assert FileProtocol(traces[0]);
    } else if |traces| > 0 {
      assert FileProtocol(traces[0]);
    }
  }

  /** The successful updates of the batch are those of its completed files,
      one each, in order. */
  lemma {:induction false} HaltingUpdates(traces: seq<seq<Event>>)
    requires forall i :: 0 <= i < |traces| ==> UpdatesOnce(traces[i])
    ensures var r := Halting(traces); var u := SuccessfulUpdates(r.trace);
      && |u| == r.completed
      && forall k :: 0 <= k < |u| ==> Completed(traces[k]) && u[k] == UpdateMeta(traces[k][|traces[k]| - 1])
    decreases |traces|
  {
    if |traces| > 0 {
      var t := traces[0];
      assert UpdatesOnce(t);
      if Completed(t) {
        var later := traces[1..];
        var rest := Halting(later);
        var r := Halting(traces);
        assert r == BatchRun(t + rest.trace, rest.completed + 1);
        var u := SuccessfulUpdates(r.trace);
        assert |u| == r.completed
          && forall k :: 0 <= k < |u| ==> Completed(traces[k]) && u[k] == UpdateMeta(traces[k][|traces[k]| - 1])
        by {
          forall i | 0 <= i < |later|
            ensures UpdatesOnce(later[i])
          {
            assert later[i] == traces[i + 1];
          }
          HaltingUpdates(later);
          UpdatesConsStep(t, rest, later);
          assert traces == [t] + later;
        }
      }
    }
  }

  /** One step of `HaltingUpdates`: a completed file's update goes in front
      of the updates of the files after it. */
  lemma UpdatesConsStep(t: seq<Event>, rest: BatchRun, later: seq<seq<Event>>)
    requires Completed(t) && UpdatesOnce(t)
    requires rest.completed <= |later|
    requires var v := SuccessfulUpdates(rest.trace);
      && |v| == rest.completed
      && forall k :: 0 <= k < |v| ==> Completed(later[k]) && v[k] == UpdateMeta(later[k][|later[k]| - 1])
    ensures var u := SuccessfulUpdates(t + rest.trace); var all := [t] + later;
      && |u| == rest.completed + 1
      && forall k :: 0 <= k < |u| ==> Completed(all[k]) && u[k] == UpdateMeta(all[k][|all[k]| - 1])
  {
    var v := SuccessfulUpdates(rest.trace);
    var u := SuccessfulUpdates(t + rest.trace);
    var all := [t] + later;
    assert u == [UpdateMeta(t[|t| - 1])] + v by {
      SuccessfulUpdatesAppend(t, rest.trace);
    }
    forall k | 0 <= k < |u|
      ensures Completed(all[k]) && u[k] == UpdateMeta(all[k][|all[k]| - 1])
    {
      if k > 0 {
        assert u[k] == v[k - 1];
        assert all[k] == later[k - 1];
      }
    }
  }

  /** The batch looked up the names of the files it began, in order: the
      completed ones and the one that halted it, if any. */
  lemma {:induction false} HaltingLookups(traces: seq<seq<Event>>)
    requires forall i :: 0 <= i < |traces| ==> LooksUpOnce(traces[i])
    ensures var r := Halting(traces); var l := Lookups(r.trace);
      && |l| == r.completed + (if r.completed < |traces| then 1 else 0)
      && forall k :: 0 <= k < |l| ==> k < |traces| && |traces[k]| > 0 && traces[k][0].Find? && l[k] == traces[k][0].name
    decreases |traces|
  {
    if |traces| > 0 {
      var t := traces[0];
      assert LooksUpOnce(t);
      if Completed(t) {
        var rest := Halting(traces[1..]);
        HaltingLookups(traces[1..]);
        var l := Lookups(t + rest.trace);
        assert l == [t[0].name] + Lookups(rest.trace) by {
          LookupsAppend(t, rest.trace);
        }
        forall k | 1 <= k < |l|
          ensures k < |traces| && |traces[k]| > 0 && traces[k][0].Find? && l[k] == traces[k][0].name
        {
          assert traces[1..][k - 1] == traces[k];
        }
      }
    }
  }

  lemma FileTracesSummary(files: seq<LocalFile>, oracle: nat -> Replies, category: string, sep: char)
    ensures var traces := FileTraces(files, oracle, category, sep);
      && |traces| == |files|
      && forall i :: 0 <= i < |traces| ==>
           FileProtocol(traces[i]) && UpdatesOnce(traces[i]) && LooksUpOnce(traces[i])
  {
    var traces := FileTraces(files, oracle, category, sep);
    forall i | 0 <= i < |traces|
      ensures FileProtocol(traces[i]) && UpdatesOnce(traces[i]) && LooksUpOnce(traces[i])
    {
      ProcessFileSummary(files[i], oracle(i), category, sep);
    }
  }

  /** Lines 68-141: the batch calls the endpoints in protocol order: it
      uploads only after a successful find with an empty result, updates
      only after a successful add, and the first refused answer is the last
      call made; the batch halts early exactly when some answer was refused. */
  lemma BatchHaltsAtFirstFailure(files: seq<LocalFile>, oracle: nat -> Replies, category: string, sep: char)
    ensures var r := Batch(files, oracle, category, sep); var t := r.trace;
      && r.completed <= |files|
      && (|t| > 0 ==> t[0].Find?)
      && (forall i, j :: 0 <= i && j == i + 1 && j < |t| && t[j].Create? ==>
            t[i].Find? && Succeeded(t[i]) && t[i].found.hit.None?)
      && (forall i, j :: 0 <= i && j == i + 1 && j < |t| && t[j].Update? ==>
            t[i].Add? && Succeeded(t[i]))
      && (forall j :: 0 <= j < |t| - 1 ==> Succeeded(t[j]))
      && (r.completed < |files| <==> |t| > 0 && !Succeeded(t[|t| - 1]))
  {
    var traces := FileTraces(files, oracle, category, sep);
    var r := Batch(files, oracle, category, sep);
    var t := r.trace;
    assert Protocol(t) && |traces| == |files|
      && (r.completed < |files| <==> |t| > 0 && !Succeeded(t[|t| - 1])) by {
      FileTracesSummary(files, oracle, category, sep);
      HaltingProtocol(traces);
    }
    forall j | 0 <= j < |t| - 1
      ensures Succeeded(t[j])
    {
      assert Follows(t[j], t[j + 1]);
    }
  }

  /** The files before the halting point completed, and the file at it did not. */
  lemma {:induction false} HaltingStopsAtFirstIncomplete(traces: seq<seq<Event>>)
    ensures var r := Halting(traces);
      && (forall k :: 0 <= k < r.completed ==> Completed(traces[k]))
      && (r.completed < |traces| ==> !Completed(traces[r.completed]))
    decreases |traces|
  {
    if |traces| > 0 && Completed(traces[0]) {
      HaltingStopsAtFirstIncomplete(traces[1..]);
      var r := Halting(traces);
      forall k | 0 <= k < r.completed
        ensures Completed(traces[k])
      {
        if k > 0 {
          assert traces[k] == traces[1..][k - 1];
        }
      }
      if r.completed < |traces| {
        assert traces[r.completed] == traces[1..][r.completed - 1];
      }
    }
  }

  /** What the batch's view of file `k` says about that file. */
  lemma FileTraceAt(files: seq<LocalFile>, oracle: nat -> Replies, category: string, sep: char, k: nat)
    requires k < |files|
    ensures var t := FileTraces(files, oracle, category, sep)[k];
      && |t| > 0 && t[0] == Find(files[k].name, oracle(k).find)
      && (Completed(t) <==> AllAccepted(oracle(k)))
      && (Completed(t) ==> UpdateMeta(t[|t| - 1]) == MetaFor(files[k], category, sep))
  {
    assert FileTraces(files, oracle, category, sep)[k] == ProcessFile(files[k], oracle(k), category, sep);
  }

  /** Lines 68-141: the files that reached a successful update form a prefix
      of the candidate list, in order, each update carrying the file's stem,
      the configured category and its path aliases. */
  lemma BatchCompletesPrefix(files: seq<LocalFile>, oracle: nat -> Replies, category: string, sep: char)
    ensures var r := Batch(files, oracle, category, sep); var u := SuccessfulUpdates(r.trace);
      && r.completed <= |files|
      && |u| == r.completed
      && forall k :: 0 <= k < |u| ==> u[k] == MetaFor(files[k], category, sep)
  {
    var traces := FileTraces(files, oracle, category, sep);
    var u := SuccessfulUpdates(Batch(files, oracle, category, sep).trace);
    FileTracesSummary(files, oracle, category, sep);
    HaltingUpdates(traces);
    forall k | 0 <= k < |u|
      ensures u[k] == MetaFor(files[k], category, sep)
    {
      FileTraceAt(files, oracle, category, sep, k);
    }
  }

  /** Lines 68-82: lookups were made for the completed prefix of the
      candidates and the file that halted the batch, if any, in order. */
  lemma BatchLooksUpBegunFiles(files: seq<LocalFile>, oracle: nat -> Replies, category: string, sep: char)
    ensures var r := Batch(files, oracle, category, sep); var l := Lookups(r.trace);
      && |l| == r.completed + (if r.completed < |files| then 1 else 0)
      && forall k :: 0 <= k < |l| ==> l[k] == files[k].name
  {
    var traces := FileTraces(files, oracle, category, sep);
    var l := Lookups(Batch(files, oracle, category, sep).trace);
    FileTracesSummary(files, oracle, category, sep);
    HaltingLookups(traces);
    forall k | 0 <= k < |l|
      ensures l[k] == files[k].name
    {
      FileTraceAt(files, oracle, category, sep, k);
    }
  }

  /** Lines 78-82, 95-100, 109-114 and 136-141 against the server's answers:
      every file before the halting point had all its calls accepted, and
      when the batch halts early, the file it halted on had one refused. */
  lemma BatchStopsAtFirstRefusal(files: seq<LocalFile>, oracle: nat -> Replies, category: string, sep: char)
    ensures var r := Batch(files, oracle, category, sep);
      && r.completed <= |files|
      && (forall k :: 0 <= k < r.completed ==> AllAccepted(oracle(k)))
      && (r.completed < |files| ==> !AllAccepted(oracle(r.completed)))
  {
    var traces := FileTraces(files, oracle, category, sep);
    var r := Batch(files, oracle, category, sep);
    HaltingStopsAtFirstIncomplete(traces);
    forall k | 0 <= k < r.completed
      ensures AllAccepted(oracle(k))
    {
      FileTraceAt(files, oracle, category, sep, k);
    }
    if r.completed < |files| {
      FileTraceAt(files, oracle, category, sep, r.completed);
    }
  }

  /** Lines 68-141: the batch's calls are the per-file call sequences of the
      candidates it began, each answered by that candidate's own answers,
      concatenated in candidate order. */
  lemma BatchIsConcat(files: seq<LocalFile>, oracle: nat -> Replies, category: string, sep: char)
    ensures var r := Batch(files, oracle, category, sep); var n := Begun(r, |files|);
      && n <= |files|
      && r.trace == Flatten(seq(n, k requires 0 <= k < n => ProcessFile(files[k], oracle(k), category, sep)))
  {
    var traces := FileTraces(files, oracle, category, sep);
    var r := Batch(files, oracle, category, sep);
    var n := Begun(r, |files|);
    HaltingIsConcat(traces);
    assert traces[..n] == seq(n, k requires 0 <= k < n => ProcessFile(files[k], oracle(k), category, sep));
  }
}
