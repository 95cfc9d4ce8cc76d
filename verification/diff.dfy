/** The diff between the local files and the remote catalog (line 66). */
module Diff {
  import opened Files

  /** The files whose stem is not among the known names, in their original order. */
  function Candidates(files: seq<LocalFile>, names: seq<string>): (r: seq<LocalFile>)
    ensures |r| <= |files|
    decreases |files|
  {
    if |files| == 0 then []
    else
      var rest := Candidates(files[1..], names);
      if files[0].stem in names then rest else [files[0]] + rest
  }

  /** A file is a candidate exactly when it is one of the files and its stem
      is not a known name. */
  lemma {:induction false} CandidatesMembership(files: seq<LocalFile>, names: seq<string>)
    ensures forall f :: f in Candidates(files, names) <==> f in files && f.stem !in names
    decreases |files|
  {
    if |files| > 0 {
      CandidatesMembership(files[1..], names);
      assert forall f :: f in files <==> f == files[0] || f in files[1..];
    }
  }

  /** Positions `from <= i < |files|` of the files the diff keeps, ascending. */
  function KeptPositions(files: seq<LocalFile>, names: seq<string>, from: nat): seq<nat>
    requires from <= |files|
    decreases |files| - from
  {
    if from == |files| then []
    else (if files[from].stem in names then [] else [from]) + KeptPositions(files, names, from + 1)
  }

  ghost predicate Ascending(idx: seq<nat>) {
    forall j, k :: 0 <= j < k < |idx| ==> idx[j] < idx[k]
  }

  /** `r` picks from `files` exactly at positions `idx`, in order. */
  ghost predicate PicksAt(r: seq<LocalFile>, files: seq<LocalFile>, idx: seq<nat>) {
    && |idx| == |r|
    && Ascending(idx)
    && forall j :: 0 <= j < |idx| ==> idx[j] < |files| && r[j] == files[idx[j]]
  }

  lemma PicksAtCons(r: seq<LocalFile>, files: seq<LocalFile>, idx: seq<nat>, i: nat)
    requires PicksAt(r, files, idx)
    requires i < |files|
    requires forall j :: 0 <= j < |idx| ==> i < idx[j]
    ensures PicksAt([files[i]] + r, files, [i] + idx)
  {
    var r', idx' := [files[i]] + r, [i] + idx;
    forall j | 0 <= j < |idx'|
      ensures idx'[j] < |files| && r'[j] == files[idx'[j]]
    {
      if j > 0 {
        assert idx'[j] == idx[j - 1] && r'[j] == r[j - 1];
      }
    }
  }

  lemma {:induction false} CandidatesFrom(files: seq<LocalFile>, names: seq<string>, from: nat)
    requires from <= |files|
    ensures var idx := KeptPositions(files, names, from);
      && PicksAt(Candidates(files[from..], names), files, idx)
      && (forall j :: 0 <= j < |idx| ==> from <= idx[j])
      && (forall i :: from <= i < |files| ==> (i in idx <==> files[i].stem !in names))
    decreases |files| - from
  {
    if from < |files| {
      CandidatesFrom(files, names, from + 1);
      var tail := KeptPositions(files, names, from + 1);
      var rest := Candidates(files[from + 1..], names);
      assert files[from..][1..] == files[from + 1..];
      assert files[from..][0] == files[from];
      if files[from].stem !in names {
        assert Candidates(files[from..], names) == [files[from]] + rest;
        PicksAtCons(rest, files, tail, from);
      } else {
        assert Candidates(files[from..], names) == rest;
      }
    }
  }

  /** Line 66: the candidate list is the order-preserving subsequence of the
      files at exactly the positions whose stem is not a known name. */
  lemma CandidatesAreKeptSubsequence(files: seq<LocalFile>, names: seq<string>)
    ensures var idx := KeptPositions(files, names, 0);
      && PicksAt(Candidates(files, names), files, idx)
      && (forall i :: 0 <= i < |files| ==> (i in idx <==> files[i].stem !in names))
  {
    CandidatesFrom(files, names, 0);
    assert files[0..] == files;
  }

  /** Lines 66-68: when every stem is already a known name, nothing is a candidate. */
  lemma {:induction false} AllKnownNothingToAdd(files: seq<LocalFile>, names: seq<string>)
    requires forall k :: 0 <= k < |files| ==> files[k].stem in names
    ensures Candidates(files, names) == []
    decreases |files|
  {
    if |files| > 0 {
      AllKnownNothingToAdd(files[1..], names);
    }
  }

  /** Re-running the diff after the candidates' stems have become known
      names (every upload succeeded) leaves nothing to add. */
  lemma RerunAddsNothing(files: seq<LocalFile>, names: seq<string>)
    ensures Candidates(files, names + Stems(Candidates(files, names))) == []
  {
    var r := Candidates(files, names);
    var known := names + Stems(r);
    CandidatesMembership(files, names);
    forall k | 0 <= k < |files|
      ensures files[k].stem in known
    {
      if files[k].stem !in names {
        assert files[k] in r;
        var j :| 0 <= j < |r| && r[j] == files[k];
        assert Stems(r)[j] == files[k].stem;
      }
    }
    AllKnownNothingToAdd(files, known);
  }
}
