/** What a directory search finds, said without running it. */
module IsoSearch {
  import opened Common
  import opened IsoRecords
  import opened IsoDirectory

  function Extents(recs: seq<Record>, q: Query): (xs: seq<Extent>)
    ensures |xs| == |recs|
  {
    if recs == [] then [] else [ExtentOf(recs[0], q)] + Extents(recs[1..], q)
  }

  /** `k` is the first record that matches. */
  ghost predicate FirstMatch(recs: seq<Record>, q: Query, k: nat) {
    k < |recs| && RecordMatches(recs[k], q) && forall i :: 0 <= i < k ==> !RecordMatches(recs[i], q)
  }

  /** The records up to `j` all match, all but the last announce another extent. */
  ghost predicate Run(recs: seq<Record>, q: Query, j: nat) {
    && j < |recs| && !IsMultiExtent(recs[j])
    && (forall i :: 0 <= i < j ==> IsMultiExtent(recs[i]))
    && (forall i :: 0 <= i <= j ==> RecordMatches(recs[i], q))
  }

  /** The first match is a file, and its run of extents is complete and at most eight long. */
  ghost predicate FileAt(recs: seq<Record>, q: Query, k: nat, j: nat) {
    FirstMatch(recs, q, k) && !IsDir(recs[k]) && Run(recs[k..], q, j) && j < MAX_EXTENTS
  }

  /** Collecting succeeds with the extents of the rest of the run. */
  lemma {:induction false} CollectsRun(recs: seq<Record>, q: Query, fx: seq<Extent>, j: nat)
    requires Run(recs, q, j) && |fx| + j < MAX_EXTENTS
    ensures SearchPart(recs, q, Some(fx)) == Stop(Some(File(fx + Extents(recs[..j + 1], q))))
    decreases |recs|
  {
    hide RecordMatches, IsMultiExtent, ExtentOf;
    var fx' := fx + [ExtentOf(recs[0], q)];
    if j == 0 {
      assert recs[..1] == [recs[0]];
      assert Extents([recs[0]], q) == [ExtentOf(recs[0], q)];
    } else {
      assert IsMultiExtent(recs[0]);
      RunTail(recs, q, j);
      CollectsRun(recs[1..], q, fx', j - 1);
      assert recs[..j + 1][0] == recs[0] && recs[..j + 1][1..] == recs[1..][..j];
      assert fx' + Extents(recs[1..][..j], q) == fx + Extents(recs[..j + 1], q);
    }
  }

  lemma RunTail(recs: seq<Record>, q: Query, j: nat)
    requires Run(recs, q, j) && j > 0
    ensures Run(recs[1..], q, j - 1)
  {
    hide RecordMatches, IsMultiExtent;
  }

  /** Collecting can succeed only that way, and never yields a directory. */
  lemma {:induction false} CollectsOnlyRuns(recs: seq<Record>, q: Query, fx: seq<Extent>) returns (j: nat)
    requires SearchPart(recs, q, Some(fx)).Stop? && SearchPart(recs, q, Some(fx)).result.Some?
    ensures Run(recs, q, j) && |fx| + j < MAX_EXTENTS
    decreases |recs|
  {
    hide RecordMatches, IsMultiExtent, ExtentOf;
    if !IsMultiExtent(recs[0]) {
      j := 0;
    } else {
      var j' := CollectsOnlyRuns(recs[1..], q, fx + [ExtentOf(recs[0], q)]);
      j := j' + 1;
      assert forall i :: 0 < i <= j ==> recs[i] == recs[1..][i - 1];
    }
  }

  /** Records before the first match leave no trace. */
  lemma {:induction false} SkipsMisses(recs: seq<Record>, q: Query, k: nat)
    requires k <= |recs| && forall i :: 0 <= i < k ==> !RecordMatches(recs[i], q)
    ensures SearchPart(recs, q, None) == SearchPart(recs[k..], q, None)
    decreases |recs|
  {
    hide RecordMatches;
    if k > 0 {
      assert AtRecord(recs[0], q, None) == Go(None);
      SkipsMisses(recs[1..], q, k - 1);
      assert recs[1..][k - 1..] == recs[k..];
    } else {
      assert recs[0..] == recs;
    }
  }

  /** Either nothing matches and nothing is found, or there is a first match that decides. */
  lemma FirstMatchDecides(recs: seq<Record>, q: Query) returns (k: nat)
    ensures if k < |recs| then FirstMatch(recs, q, k) && SearchPart(recs, q, None) == SearchPart(recs[k..], q, None)
            else Search(recs, q) == None && forall i :: 0 <= i < |recs| ==> !RecordMatches(recs[i], q)
  {
    hide RecordMatches, AtRecord;
    k := 0;
    while k < |recs| && !RecordMatches(recs[k], q)
      invariant 0 <= k <= |recs| && forall i :: 0 <= i < k ==> !RecordMatches(recs[i], q)
    {
      k := k + 1;
    }
    SkipsMisses(recs, q, k);
    if k == |recs| { assert recs[k..] == []; }
  }

  lemma FirstMatchUnique(recs: seq<Record>, q: Query, k: nat, k': nat)
    requires FirstMatch(recs, q, k) && FirstMatch(recs, q, k')
    ensures k == k'
  {
    hide RecordMatches;
  }

  /** A file is found exactly when the first match starts a complete run of at most eight extents,
      and its extents are those of the run, in order. */
  lemma SearchFileExactly(recs: seq<Record>, q: Query, xs: seq<Extent>)
    ensures Search(recs, q) == Some(File(xs)) <==>
            exists k: nat, j: nat :: FileAt(recs, q, k, j) && xs == Extents(recs[k..][..j + 1], q)
  {
    hide RecordMatches, IsMultiExtent, IsDir, SearchPart;
    if Search(recs, q) == Some(File(xs)) {
      var k := FirstMatchDecides(recs, q);
      var j := FileNeedsRun(recs, q, k);
      FileRunFound(recs, q, k, j);
      assert FileAt(recs, q, k, j);
    }
    forall k: nat, j: nat | FileAt(recs, q, k, j)
      ensures Search(recs, q) == Some(File(Extents(recs[k..][..j + 1], q)))
    {
      FileRunFound(recs, q, k, j);
    }
  }

  lemma FileRunFound(recs: seq<Record>, q: Query, k: nat, j: nat)
    requires FileAt(recs, q, k, j)
    ensures Search(recs, q) == Some(File(Extents(recs[k..][..j + 1], q)))
  {
    hide RecordMatches, IsMultiExtent, IsDir, ExtentOf;
    SkipsMisses(recs, q, k);
    var rest := recs[k..];
    var first := [ExtentOf(rest[0], q)];
    if j == 0 {
      assert rest[..1] == [rest[0]];
      assert Extents([rest[0]], q) == first;
    } else {
      RunTail(rest, q, j);
      CollectsRun(rest[1..], q, first, j - 1);
      assert rest[..j + 1][0] == rest[0] && rest[..j + 1][1..] == rest[1..][..j];
    }
  }

  lemma FileNeedsRun(recs: seq<Record>, q: Query, k: nat) returns (j: nat)
    requires FirstMatch(recs, q, k) && SearchPart(recs, q, None) == SearchPart(recs[k..], q, None)
    requires Search(recs, q).Some? && Search(recs, q).value.File?
    ensures FileAt(recs, q, k, j)
  {
    hide RecordMatches, IsMultiExtent, IsDir, ExtentOf;
    var rest := recs[k..];
    if !IsMultiExtent(rest[0]) {
      j := 0;
    } else {
      var j' := CollectsOnlyRuns(rest[1..], q, [ExtentOf(rest[0], q)]);
      j := j' + 1;
      assert forall i :: 0 < i <= j ==> rest[i] == rest[1..][i - 1];
    }
  }

  /** A directory is found exactly when the first match is a single-extent directory. */
  lemma SearchDirExactly(recs: seq<Record>, q: Query, loc: DirLoc)
    ensures Search(recs, q) == Some(Dir(loc)) <==>
            exists k: nat :: FirstMatch(recs, q, k) && IsDir(recs[k]) && !IsMultiExtent(recs[k])
                        && loc == DirLoc(recs[k].lba, recs[k].size)
  {
    hide RecordMatches, IsMultiExtent, IsDir, ExtentOf;
    var k := FirstMatchDecides(recs, q);
    if k < |recs| {
      var rest := recs[k..];
      if !IsDir(rest[0]) && IsMultiExtent(rest[0]) && Search(recs, q).Some? {
        var j := CollectsOnlyRuns(rest[1..], q, [ExtentOf(rest[0], q)]);
        CollectsRun(rest[1..], q, [ExtentOf(rest[0], q)], j);
      }
      forall k': nat | FirstMatch(recs, q, k') ensures k' == k { FirstMatchUnique(recs, q, k, k'); }
    }
  }
}
