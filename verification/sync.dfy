/** The whole script: fetch the catalog, diff the local files against it,
    and run the upload batch over the candidates. */
module Sync {
  import opened Base
  import opened EmojiList
  import opened Files
  import opened Diff
  import opened Upload

  /** A run of the script on the given answers: still paginating when the
      list replies ran out first, otherwise the candidates and the batch. */
  datatype SyncRun =
    | Paginating(catalog: Catalog)
    | Synced(catalog: Catalog, candidates: seq<LocalFile>, batch: BatchRun)

  function RunSync(
    category: string, sep: char, listReplies: seq<ListReply>,
    files: seq<LocalFile>, oracle: nat -> Replies): (r: SyncRun)
    ensures r.Synced? <==> r.catalog.finished
    ensures r.Paginating? ==> |r.catalog.sent| == |listReplies|
    ensures r.Synced? ==> r.batch.completed <= |r.candidates| <= |files|
  {
    FetchCatalogSpec(category, listReplies);
    var catalog := FetchCatalog(category, listReplies);
    if !catalog.finished then Paginating(catalog)
    else
      var candidates := Candidates(files, catalog.names);
      Synced(catalog, candidates, Batch(candidates, oracle, category, sep))
  }

  /** Only files whose stem no successful list reply carried are uploaded:
      every successful update names a stem the catalog did not hold. */
  lemma SyncSkipsKnownNames(
    category: string, sep: char, listReplies: seq<ListReply>,
    files: seq<LocalFile>, oracle: nat -> Replies)
    ensures var r := RunSync(category, sep, listReplies, files, oracle);
      r.Synced? ==>
        forall m :: m in SuccessfulUpdates(r.batch.trace) ==>
          m.category == category && m.name !in FetchedNames(listReplies[..|r.catalog.sent|])
  {
    var r := RunSync(category, sep, listReplies, files, oracle);
    if r.Synced? {
      FinishedFetchKnowsFetchedNames(category, listReplies);
      BatchCompletesPrefix(r.candidates, oracle, category, sep);
      var u := SuccessfulUpdates(r.batch.trace);
      forall m | m in u
        ensures m.category == category && m.name !in FetchedNames(listReplies[..|r.catalog.sent|])
      {
        var k :| 0 <= k < |u| && u[k] == m;
        assert r.candidates[k] in r.candidates;
        CandidatesMembership(files, r.catalog.names);
      }
    }
  }

  /** Idempotent re-run: when every local stem is already in the catalog,
      the script makes no upload call at all. */
  lemma SyncOfKnownFilesDoesNothing(
    category: string, sep: char, listReplies: seq<ListReply>,
    files: seq<LocalFile>, oracle: nat -> Replies)
    requires var c := FetchCatalog(category, listReplies);
      c.finished && forall k :: 0 <= k < |files| ==> files[k].stem in FetchedNames(listReplies[..|c.sent|])
    ensures var r := RunSync(category, sep, listReplies, files, oracle);
      r.Synced? && r.candidates == [] && r.batch.trace == []
  {
    var c := FetchCatalog(category, listReplies);
    FinishedFetchKnowsFetchedNames(category, listReplies);
    AllKnownNothingToAdd(files, c.names);
  }

  /** The file of the scenario below and its answers. */
  const WaveFile := LocalFile("fun/wave.png", "wave.png", "wave")
  const WaveReplies := Replies(FindReply(200, None), CreateReply(200, "f1"), AddReply(200, "e1"), UpdateReply(204))
  function WaveOracle(i: nat): Replies { WaveReplies }

  /** The empty catalog answers the first request and ends the fetch. */
  lemma WaveCatalog()
    ensures FetchCatalog("stickers", [ListReply(200, [])])
      == Catalog([], [ListRequest("stickers", PageLimit, None)], true)
  {
  }

  /** The scenario file's update metadata. */
  lemma WaveMeta()
    ensures MetaFor(WaveFile, "stickers", '/') == Meta("wave", "stickers", ["fun"])
  {
    assert Join(["fun", "wave.png"], '/') == "fun/wave.png";
    assert ["fun"] + ["wave.png"] == ["fun", "wave.png"];
    AliasesAreDirectories(["fun"], "wave.png", '/');
  }

  /** The scenario file's calls, every answer accepted. */
  lemma WaveTrace()
    ensures ProcessFile(WaveFile, WaveReplies, "stickers", '/') == [
      Find("wave.png", WaveReplies.find),
      Create("wave.png", WaveReplies.create),
      Add("f1", WaveReplies.add),
      Update("e1", "wave", "stickers", ["fun"], WaveReplies.update)]
  {
    WaveMeta();
  }

  /** The one-file batch completes that file. */
  lemma WaveBatch()
    ensures Batch([WaveFile], WaveOracle, "stickers", '/')
      == BatchRun(ProcessFile(WaveFile, WaveReplies, "stickers", '/'), 1)
  {
    WaveTrace();
    SingleFileTraces(WaveFile, WaveOracle, "stickers", '/');
    SingleCompletedHalting(ProcessFile(WaveFile, WaveReplies, "stickers", '/'));
  }

  /** One new file `fun/wave.png` and an empty remote catalog: one list call,
      then find (empty), upload, add and an update setting name "wave",
      category "stickers" and aliases ["fun"]. */
  lemma WaveScenario()
    ensures
      var r := RunSync("stickers", '/', [ListReply(200, [])], [WaveFile], WaveOracle);
      && r.Synced?
      && r.catalog.sent == [ListRequest("stickers", PageLimit, None)]
      && r.batch.completed == 1
      && r.batch.trace == [
           Find("wave.png", WaveReplies.find),
           Create("wave.png", WaveReplies.create),
           Add("f1", WaveReplies.add),
           Update("e1", "wave", "stickers", ["fun"], WaveReplies.update)]
  {
    WaveCatalog();
    assert Candidates([WaveFile], []) == [WaveFile];
    WaveTrace();
    WaveBatch();
  }
}
