/** The paginated fetch of the remote emoji catalog (`admin/emoji/list`).

    Every response is an input: the script's run is driven by the finite
    sequence of replies it receives, one per request, in order. */
module EmojiList {
  import opened Base

  type Id = string

  /** A remote emoji record as the list endpoint returns it. */
  datatype Emoji = Emoji(id: Id, name: string)

  /** Page size every list request asks for. */
  const PageLimit := 100

  /** Body of one list request; the API key field is left out. The first
      request has no cursor, every later one pages on from `untilId`. */
  datatype ListRequest = ListRequest(query: string, limit: int, untilId: Option<Id>)

  /** One list response; its body is only read when the status is 200. */
  datatype ListReply = ListReply(status: int, body: seq<Emoji>)

  /** What the fetch produced from the replies it was given: the collected
      names, the requests sent (request j is answered by reply j), and
      whether the loop stopped before the replies ran out. */
  datatype Catalog = Catalog(names: seq<string>, sent: seq<ListRequest>, finished: bool)

  /** Loop state: `emojidata`, `emojinames` and the requests sent so far. */
  datatype Pager = Pager(data: Option<seq<Emoji>>, names: seq<string>, sent: seq<ListRequest>)

  predicate Fetched(reply: ListReply) {
    reply.status == StatusOk
  }

  /** `emojidata` after a reply: a failed fetch leaves it as it was. */
  function Refresh(data: Option<seq<Emoji>>, reply: ListReply): Option<seq<Emoji>> {
    if Fetched(reply) then Some(reply.body) else data
  }

  /** Truthiness of `emojidata`: neither `None` nor an empty list. */
  predicate Continues(data: Option<seq<Emoji>>) {
    data.Some? && |data.value| > 0
  }

  function NamesOf(page: seq<Emoji>): seq<string> {
    seq(|page|, i requires 0 <= i < |page| => page[i].name)
  }

  function NamesIn(data: Option<seq<Emoji>>): seq<string> {
    if data.Some? then NamesOf(data.value) else []
  }

  function LastId(page: seq<Emoji>): Id
    requires |page| > 0
  {
    page[|page| - 1].id
  }

  /** The inner `for emoji in emojidata` loop: appends every name to `names`
      and leaves `lastId` at the id of the last record (unchanged when the
      page is empty). */
  function ScanPage(page: seq<Emoji>, names: seq<string>, lastId: Option<Id>): (r: (seq<string>, Option<Id>))
    ensures r.0 == names + NamesOf(page)
    ensures |page| == 0 ==> r.1 == lastId
    ensures |page| > 0 ==> r.1 == Some(LastId(page))
    decreases |page|
  {
    if |page| == 0 then (names, lastId)
    else
      var r := ScanPage(page[1..], names + [page[0].name], Some(page[0].id));
      assert NamesOf(page) == [page[0].name] + NamesOf(page[1..]);
      r
  }

  /** The `while emojidata` loop; request number `|st.sent|` is answered by
      `replies[|st.sent|]`. */
  function FetchLoop(category: string, replies: seq<ListReply>, st: Pager): (r: Catalog)
    requires |st.sent| <= |replies|
    ensures |st.sent| <= |r.sent| <= |replies|
    decreases |replies| - |st.sent|
  {
    if !Continues(st.data) then Catalog(st.names, st.sent, true)
    else if |st.sent| == |replies| then Catalog(st.names, st.sent, false)
    else
      var (names, lastId) := ScanPage(st.data.value, st.names, None);
      var request := ListRequest(category, PageLimit, lastId);
      var data := Refresh(st.data, replies[|st.sent|]);
      FetchLoop(category, replies, Pager(data, names, st.sent + [request]))
  }

  /** The whole catalog fetch: the first request without a cursor, then the loop. */
  function FetchCatalog(category: string, replies: seq<ListReply>): (r: Catalog)
    ensures |r.sent| <= |replies|
  {
    if |replies| == 0 then Catalog([], [], false)
    else
      var first := ListRequest(category, PageLimit, None);
      FetchLoop(category, replies, Pager(Refresh(None, replies[0]), [], [first]))
  }

  // Reference definitions, stated over the replies alone.

  /** The body of the most recent successful reply, if there is one: the
      page `emojidata` holds once these replies have arrived. */
  function LatestPage(replies: seq<ListReply>): Option<seq<Emoji>> {
    if |replies| == 0 then None
    else if Fetched(replies[|replies| - 1]) then Some(replies[|replies| - 1].body)
    else LatestPage(replies[..|replies| - 1])
  }

  /** Names of the pages the loop consumed before sending request `n`:
      request j (j >= 1) is sent after consuming `LatestPage(replies[..j])`. */
  function Collected(replies: seq<ListReply>, n: nat): seq<string>
    requires n <= |replies|
  {
    if n <= 1 then [] else Collected(replies, n - 1) + NamesIn(LatestPage(replies[..n - 1]))
  }

  /** Names of every successful reply, each reply counted once. */
  function FetchedNames(replies: seq<ListReply>): seq<string> {
    if |replies| == 0 then []
    else
      var last := replies[|replies| - 1];
      FetchedNames(replies[..|replies| - 1]) + (if Fetched(last) then NamesOf(last.body) else [])
  }

  /** The requests sent follow the cursor discipline: the first carries no
      cursor, and each later one was sent because the page in hand was
      non-empty and carries that page's last id as `untilId`. */
  ghost predicate FollowsCursors(category: string, replies: seq<ListReply>, sent: seq<ListRequest>) {
    && |sent| <= |replies|
    && (|sent| > 0 ==> sent[0] == ListRequest(category, PageLimit, None))
    && forall j :: 0 < j < |sent| ==>
         && Continues(LatestPage(replies[..j]))
         && sent[j] == ListRequest(category, PageLimit, Some(LastId(LatestPage(replies[..j]).value)))
  }

  /** Loop state reached after sending `sent`, described by the reference definitions. */
  ghost predicate Consistent(category: string, replies: seq<ListReply>, st: Pager) {
    && 1 <= |st.sent| <= |replies|
    && FollowsCursors(category, replies, st.sent)
    && st.data == LatestPage(replies[..|st.sent|])
    && st.names == Collected(replies, |st.sent|)
  }

  lemma LatestPageStep(replies: seq<ListReply>, j: nat)
    requires j < |replies|
    ensures LatestPage(replies[..j + 1]) == Refresh(LatestPage(replies[..j]), replies[j])
  {
    assert replies[..j + 1][..j] == replies[..j];
  }

  lemma {:induction false} FetchLoopSpec(category: string, replies: seq<ListReply>, st: Pager)
    requires Consistent(category, replies, st)
    ensures var r := FetchLoop(category, replies, st);
      && FollowsCursors(category, replies, r.sent)
      && 1 <= |r.sent|
      && (r.finished <==> !Continues(LatestPage(replies[..|r.sent|])))
      && (!r.finished ==> |r.sent| == |replies|)
      && r.names == Collected(replies, |r.sent|)
    decreases |replies| - |st.sent|
  {
    if Continues(st.data) && |st.sent| < |replies| {
      var j := |st.sent|;
      var (names, lastId) := ScanPage(st.data.value, st.names, None);
      var request := ListRequest(category, PageLimit, lastId);
      var next := Pager(Refresh(st.data, replies[j]), names, st.sent + [request]);
      LatestPageStep(replies, j);
      assert next.sent[j] == ListRequest(category, PageLimit, Some(LastId(LatestPage(replies[..j]).value)));
      assert FollowsCursors(category, replies, next.sent);
      FetchLoopSpec(category, replies, next);
    }
  }

  /** Lines 13-55: the requests sent follow the cursor discipline, the loop
      stops exactly when the page in hand is empty or missing, and the names
      collected are those of every page consumed, in order. */
  lemma FetchCatalogSpec(category: string, replies: seq<ListReply>)
    ensures var r := FetchCatalog(category, replies);
      && FollowsCursors(category, replies, r.sent)
      && (|replies| > 0 <==> |r.sent| > 0)
      && (r.finished <==> |r.sent| > 0 && !Continues(LatestPage(replies[..|r.sent|])))
      && (!r.finished ==> |r.sent| == |replies|)
      && r.names == Collected(replies, |r.sent|)
  {
    if |replies| > 0 {
      var first := ListRequest(category, PageLimit, None);
      var st := Pager(Refresh(None, replies[0]), [], [first]);
      LatestPageStep(replies, 0);
      FetchLoopSpec(category, replies, st);
    }
  }

  /** Lines 23-34: when the first fetch fails `emojidata` stays `None`, the
      loop never runs and no name is collected. */
  lemma InitialFailureCollectsNothing(category: string, replies: seq<ListReply>)
    requires |replies| > 0 && !Fetched(replies[0])
    ensures FetchCatalog(category, replies) == Catalog([], [ListRequest(category, PageLimit, None)], true)
  {
  }

  /** Lines 50-55: a failed follow-up fetch leaves `emojidata` unchanged, so
      the loop consumes the same page again and re-sends the same request;
      hence a finished fetch never ends on a failed follow-up. */
  lemma FailedFetchRepeatsRequest(category: string, replies: seq<ListReply>)
    ensures var r := FetchCatalog(category, replies);
      forall j :: 1 <= j < |r.sent| - 1 && !Fetched(replies[j]) ==> r.sent[j + 1] == r.sent[j]
    ensures var r := FetchCatalog(category, replies);
      r.finished && |r.sent| > 1 ==> Fetched(replies[|r.sent| - 1])
  {
    var r := FetchCatalog(category, replies);
    FetchCatalogSpec(category, replies);
    forall j | 1 <= j < |r.sent| - 1 && !Fetched(replies[j])
      ensures r.sent[j + 1] == r.sent[j]
    {
      LatestPageStep(replies, j);
    }
    if r.finished && |r.sent| > 1 {
      var n := |r.sent|;
      LatestPageStep(replies, n - 1);
    }
  }

  lemma {:induction false} CollectedCoversFetched(replies: seq<ListReply>, n: nat)
    requires 1 <= n <= |replies|
    ensures forall x :: x in Collected(replies, n) || x in NamesIn(LatestPage(replies[..n]))
                    <==> x in FetchedNames(replies[..n])
  {
    if n == 1 {
      assert replies[..1][..0] == [];
    } else {
      var reply := replies[n - 1];
      var before := Collected(replies, n - 1) + NamesIn(LatestPage(replies[..n - 1]));
      assert Collected(replies, n) == before;
      assert FetchedNames(replies[..n])
        == FetchedNames(replies[..n - 1]) + (if Fetched(reply) then NamesOf(reply.body) else []) by {
        assert replies[..n][..n - 1] == replies[..n - 1];
      }
      assert NamesIn(LatestPage(replies[..n]))
        == if Fetched(reply) then NamesOf(reply.body) else NamesIn(LatestPage(replies[..n - 1])) by {
        LatestPageStep(replies, n - 1);
      }
      CollectedCoversFetched(replies, n - 1);
    }
  }

  /** Lines 34-55: duplicates from repeated pages aside, a finished fetch
      knows exactly the names carried by the successful replies it read. */
  lemma FinishedFetchKnowsFetchedNames(category: string, replies: seq<ListReply>)
    ensures var r := FetchCatalog(category, replies);
      r.finished ==> forall x :: x in r.names <==> x in FetchedNames(replies[..|r.sent|])
  {
    var r := FetchCatalog(category, replies);
    FetchCatalogSpec(category, replies);
    if r.finished {
      CollectedCoversFetched(replies, |r.sent|);
    }
  }

  /** A failed follow-up fetch makes the same names appear twice. */
  lemma FailedFetchDuplicatesNames()
    ensures var replies := [ListReply(200, [Emoji("1", "blob")]), ListReply(500, []), ListReply(200, [])];
      FetchCatalog("c", replies).names == ["blob", "blob"]
  {
    var replies := [ListReply(200, [Emoji("1", "blob")]), ListReply(500, []), ListReply(200, [])];
    var page := [Emoji("1", "blob")];
    var cursor := ListRequest("c", PageLimit, Some("1"));
    assert NamesOf(page) == ["blob"];
    assert LastId(page) == "1";
    assert [] + NamesOf(page) == ["blob"];
    assert ["blob"] + NamesOf(page) == ["blob", "blob"];
    assert ScanPage(page, [], None) == (["blob"], Some("1"));
    assert ScanPage(page, ["blob"], None) == (["blob", "blob"], Some("1"));
    var st0 := Pager(Some(page), [], [ListRequest("c", PageLimit, None)]);
    var st1 := Pager(Some(page), ["blob"], st0.sent + [cursor]);
    var st2 := Pager(Some([]), ["blob", "blob"], st1.sent + [cursor]);
    assert FetchCatalog("c", replies) == FetchLoop("c", replies, st0);
    assert FetchLoop("c", replies, st0) == FetchLoop("c", replies, st1);
    assert FetchLoop("c", replies, st1) == FetchLoop("c", replies, st2);
  }
}
