/** Paths against directory trees as they are written: a walk finds a file by its names and by nothing else. */
module IsoFiles {
  import opened Common
  import opened Bytes
  import opened IsoRecords
  import opened IsoNames
  import opened IsoDirectory
  import opened IsoSearch
  import opened IsoPaths
  import opened IsoLabels

  // ---------- components of a path ----------

  predicate AllSlashes(s: seq<byte>) { forall i :: 0 <= i < |s| ==> s[i] == 0x2f }

  /** The components between the separators. */
  function Weave(seps: seq<seq<byte>>, cs: seq<seq<byte>>): seq<byte> {
    if seps == [] then [] else if cs == [] then seps[0] else seps[0] + cs[0] + Weave(seps[1..], cs[1..])
  }

  /** Runs of slashes around the components; only the outer runs may be empty. */
  ghost predicate Separates(seps: seq<seq<byte>>, cs: seq<seq<byte>>) {
    && |seps| == |cs| + 1
    && (forall i :: 0 <= i < |seps| ==> AllSlashes(seps[i]))
    && (forall i :: 0 < i < |cs| ==> seps[i] != [])
    && (forall i :: 0 <= i < |cs| ==> cs[i] != [] && 0x2f !in cs[i])
  }

  /** The path consists of these components between slashes. */
  ghost predicate Splits(path: seq<byte>, cs: seq<seq<byte>>) {
    exists seps :: Separates(seps, cs) && path == Weave(seps, cs)
  }

  lemma {:induction false} SkipSlashes(s: seq<byte>, rest: seq<byte>)
    requires AllSlashes(s)
    ensures Components(s + rest) == Components(rest)
  {
    if s == [] {
      assert s + rest == rest;
    } else {
      assert (s + rest)[1..] == s[1..] + rest && (s + rest)[0] == SLASH;
      SkipSlashes(s[1..], rest);
    }
  }

  lemma {:induction false} TokenIs(c: seq<byte>, rest: seq<byte>)
    requires 0x2f !in c && (rest == [] || rest[0] == 0x2f)
    ensures TokenLength(c + rest) == |c|
  {
    if c != [] {
      assert (c + rest)[1..] == c[1..] + rest;
      TokenIs(c[1..], rest);
    } else {
      assert c + rest == rest;
    }
  }

  lemma {:induction false} WovenComponents(seps: seq<seq<byte>>, cs: seq<seq<byte>>)
    requires Separates(seps, cs)
    ensures Components(Weave(seps, cs)) == cs
    decreases |cs|
  {
    if cs == [] {
      SkipSlashes(seps[0], []);
      assert seps[0] + [] == seps[0];
    } else {
      var rest := Weave(seps[1..], cs[1..]);
      assert Separates(seps[1..], cs[1..]);
      WovenComponents(seps[1..], cs[1..]);
      SkipSlashes(seps[0], cs[0] + rest);
      assert seps[0] + cs[0] + rest == seps[0] + (cs[0] + rest);
      assert rest == [] || rest[0] == 0x2f by { RestStartsWithSlash(seps, cs); }
      TokenIs(cs[0], rest);
      var p := cs[0] + rest;
      assert p[0] != SLASH && p[..|cs[0]|] == cs[0] && p[|cs[0]|..] == rest;
    }
  }

  lemma RestStartsWithSlash(seps: seq<seq<byte>>, cs: seq<seq<byte>>)
    requires Separates(seps, cs) && cs != []
    ensures var rest := Weave(seps[1..], cs[1..]); rest == [] || rest[0] == 0x2f
  {
    assert AllSlashes(seps[1]);
    if |cs| > 1 { assert seps[1] != []; }
  }

  /** One more slash in front. */
  lemma SlashInFront(seps: seq<seq<byte>>, cs: seq<seq<byte>>) returns (more: seq<seq<byte>>)
    requires Separates(seps, cs)
    ensures Separates(more, cs) && Weave(more, cs) == [0x2f] + Weave(seps, cs)
  {
    more := [[0x2f] + seps[0]] + seps[1..];
    assert more[1..] == seps[1..];
    if cs != [] {
      assert [0x2f] + seps[0] + cs[0] + Weave(seps[1..], cs[1..]) == [0x2f] + (seps[0] + cs[0] + Weave(seps[1..], cs[1..]));
    }
  }

  /** One more component in front. */
  lemma ComponentInFront(c: seq<byte>, seps: seq<seq<byte>>, cs: seq<seq<byte>>)
    requires Separates(seps, cs) && c != [] && 0x2f !in c && (cs != [] ==> seps[0] != [])
    ensures Separates([[]] + seps, [c] + cs) && Weave([[]] + seps, [c] + cs) == c + Weave(seps, cs)
  {
    var more, all := [[]] + seps, [c] + cs;
    assert more[1..] == seps && all[1..] == cs && more[0] == [] && all[0] == c;
    assert forall i :: 0 < i < |more| ==> more[i] == seps[i - 1];
    assert forall i :: 0 < i < |all| ==> all[i] == cs[i - 1];
  }

  lemma {:induction false} TokenEnds(path: seq<byte>)
    ensures TokenLength(path) == |path| || path[TokenLength(path)] == SLASH
  {
    if path != [] && path[0] != SLASH { TokenEnds(path[1..]); }
  }

  lemma SlashFirst(seps: seq<seq<byte>>, cs: seq<seq<byte>>)
    requires Separates(seps, cs) && cs != []
    ensures seps[0] == [] ==> Weave(seps, cs)[..1] == [cs[0][0]] && cs[0][0] != 0x2f
  {
    assert cs[0] != [];
    if seps[0] == [] { assert seps[0] + cs[0] + Weave(seps[1..], cs[1..]) == cs[0] + Weave(seps[1..], cs[1..]); }
  }

  /** Every path is made of its components and slashes. */
  lemma {:induction false} PathSplits(path: seq<byte>) returns (seps: seq<seq<byte>>)
    ensures Separates(seps, Components(path)) && path == Weave(seps, Components(path))
    decreases |path|
  {
    hide Separates, Weave, TokenLength;
    if path == [] {
      seps := [[]];
      NothingSplits();
    } else if path[0] == SLASH {
      var more := PathSplits(path[1..]);
      seps := SlashInFront(more, Components(path[1..]));
      assert path == [0x2f] + path[1..];
    } else {
      var n := TokenLength(path);
      TokenEnds(path);
      var more := PathSplits(path[n..]);
      var cs := Components(path[n..]);
      if cs != [] {
        SlashFirst(more, cs) by { SeparatorCount(more, cs); }
        SeparatorCount(more, cs);
        assert n < |path| ==> path[n..][..1] == [path[n]];
      }
      seps := [[]] + more;
      ComponentInFront(path[..n], more, cs);
      assert path == path[..n] + path[n..];
    }
  }

  lemma SeparatorCount(seps: seq<seq<byte>>, cs: seq<seq<byte>>)
    requires Separates(seps, cs)
    ensures |seps| == |cs| + 1
  {
  }

  lemma NothingSplits()
    ensures Separates([[]], []) && Weave([[]], []) == []
  {
  }

  /** The components of a path are what stands between its slashes, for every path. */
  lemma ComponentsExactly(path: seq<byte>, cs: seq<seq<byte>>)
    ensures Components(path) == cs <==> Splits(path, cs)
  {
    hide Weave, Separates, Components;
    var seps := PathSplits(path);
    forall other: seq<seq<byte>> | Separates(other, cs) && path == Weave(other, cs) ensures Components(path) == cs {
      WovenComponents(other, cs);
    }
  }

  // ---------- which file a path leads to ----------

  /** The directory bit and the multi-extent bit of the flags. */
  predicate HasDirBit(r: Record) { r.flags / 2 % 2 == 1 }
  predicate HasMoreBit(r: Record) { r.flags >= 128 }

  lemma FlagsMean(r: Record)
    ensures IsDir(r) <==> HasDirBit(r)
    ensures IsMultiExtent(r) <==> HasMoreBit(r)
  {
  }

  ghost predicate CalledOn(v: Volume, e: Entry, c: seq<byte>) { Called(e.rec, v.ns, v.skip, c) }

  /** Entry `k` is the first one called `c`. */
  ghost predicate FirstCalled(es: seq<Entry>, v: Volume, c: seq<byte>, k: nat) {
    k < |es| && CalledOn(v, es[k], c) && forall i :: 0 <= i < k ==> !CalledOn(v, es[i], c)
  }

  /** From `k` to `k + j` all entries are called `c`, and all but the last announce another extent. */
  ghost predicate RunFrom(es: seq<Entry>, v: Volume, c: seq<byte>, k: nat, j: nat) {
    && k + j < |es| && j < 8
    && (forall i :: k <= i <= k + j ==> CalledOn(v, es[i], c))
    && (forall i :: k <= i < k + j ==> HasMoreBit(es[i].rec)) && !HasMoreBit(es[k + j].rec)
  }

  /** The byte ranges the records of the run state. */
  function RangesOf(es: seq<Entry>, v: Volume, k: nat, j: nat): seq<Extent>
    requires k + j < |es|
  {
    seq(j + 1, i requires 0 <= i <= j => Extent(es[k + i].rec.lba * v.blockSize, es[k + i].rec.size))
  }

  /** The components lead down directories of one extent to a non-empty file with these ranges, each time by the first
      entry of that name. */
  ghost predicate LeadsTo(t: Tree, v: Volume, cs: seq<seq<byte>>, xs: seq<Extent>)
    decreases |cs|
  {
    cs != [] &&
    var es := FlattenEntries(t.sectors);
    exists k: nat :: FirstCalled(es, v, cs[0], k) &&
      if |cs| == 1 then
        !HasDirBit(es[k].rec) && (exists x :: x in xs && x.size > 0) &&
        exists j: nat :: RunFrom(es, v, cs[0], k, j) && xs == RangesOf(es, v, k, j)
      else
        HasDirBit(es[k].rec) && !HasMoreBit(es[k].rec) && es[k].Sub? && LeadsTo(es[k].child, v, cs[1..], xs)
  }

  /** Every record of the tree can be written. */
  ghost predicate TreeFits(t: Tree)
    decreases t
  {
    forall i, j | 0 <= i < |t.sectors| && 0 <= j < |t.sectors[i].entries| ::
      var e := t.sectors[i].entries[j]; Fits(e.rec) && (e.Sub? ==> TreeFits(e.child))
  }

  lemma EntriesFit(t: Tree, k: nat)
    requires TreeFits(t) && k < |FlattenEntries(t.sectors)|
    ensures var e := FlattenEntries(t.sectors)[k]; Fits(e.rec) && (e.Sub? ==> TreeFits(e.child))
  {
    hide Fits;
    var i, j := EntryAt(t.sectors, k);
  }

  // ---------- one directory ----------

  /** In a directory whose records can be written, matching is being called. */
  ghost predicate Agrees(es: seq<Entry>, v: Volume, c: seq<byte>) {
    forall i :: 0 <= i < |es| ==> (RecordMatches(es[i].rec, Ask(v, c)) <==> CalledOn(v, es[i], c))
  }

  lemma DirectoryAgrees(t: Tree, v: Volume, c: seq<byte>)
    requires TreeFits(t)
    ensures Agrees(FlattenEntries(t.sectors), v, c)
  {
    hide RecordMatches, Called, TreeFits, FlattenEntries, Fits;
    var es := FlattenEntries(t.sectors);
    forall i | 0 <= i < |es| ensures RecordMatches(es[i].rec, Ask(v, c)) <==> CalledOn(v, es[i], c) {
      EntriesFit(t, i);
      MatchesIsCalled(es[i].rec, Ask(v, c));
    }
  }

  lemma FirstAgrees(es: seq<Entry>, v: Volume, c: seq<byte>, k: nat)
    requires Agrees(es, v, c)
    ensures FirstMatch(RecordsOf(es), Ask(v, c), k) <==> FirstCalled(es, v, c, k)
  {
    hide RecordMatches, CalledOn;
    var recs := RecordsOf(es);
    forall i | 0 <= i < |es| ensures RecordMatches(recs[i], Ask(v, c)) <==> CalledOn(v, es[i], c) {
      assert recs[i] == es[i].rec;
    }
  }

  lemma RunAgrees(es: seq<Entry>, v: Volume, c: seq<byte>, k: nat, j: nat)
    requires Agrees(es, v, c) && k <= |es|
    ensures Run(RecordsOf(es)[k..], Ask(v, c), j) && j < MAX_EXTENTS <==> RunFrom(es, v, c, k, j)
  {
    hide RecordMatches, CalledOn, IsMultiExtent, HasMoreBit;
    var rest := RecordsOf(es)[k..];
    forall i | 0 <= i < |rest|
      ensures RecordMatches(rest[i], Ask(v, c)) <==> CalledOn(v, es[k + i], c)
      ensures IsMultiExtent(rest[i]) <==> HasMoreBit(es[k + i].rec)
    {
      assert rest[i] == es[k + i].rec;
      FlagsMean(rest[i]);
    }
    if RunFrom(es, v, c, k, j) {
      forall i | 0 <= i < j ensures IsMultiExtent(rest[i]) { assert HasMoreBit(es[k + i].rec); }
      forall i | 0 <= i <= j ensures RecordMatches(rest[i], Ask(v, c)) { assert CalledOn(v, es[k + i], c); }
    }
    if Run(rest, Ask(v, c), j) {
      forall i | k <= i < k + j ensures HasMoreBit(es[i].rec) { assert IsMultiExtent(rest[i - k]); }
      forall i | k <= i <= k + j ensures CalledOn(v, es[i], c) { assert RecordMatches(rest[i - k], Ask(v, c)); }
    }
  }

  lemma {:induction false} ExtentsAt(recs: seq<Record>, q: Query, i: nat)
    requires i < |recs|
    ensures Extents(recs, q)[i] == Extent(recs[i].lba * q.blockSize, recs[i].size)
  {
    if i > 0 { ExtentsAt(recs[1..], q, i - 1); }
  }

  lemma RangesAgree(es: seq<Entry>, v: Volume, c: seq<byte>, k: nat, j: nat)
    requires k + j < |es|
    ensures Extents(RecordsOf(es)[k..][..j + 1], Ask(v, c)) == RangesOf(es, v, k, j)
  {
    hide Extents;
    var recs := RecordsOf(es)[k..][..j + 1];
    forall i | 0 <= i <= j ensures Extents(recs, Ask(v, c))[i] == RangesOf(es, v, k, j)[i] {
      assert recs[i] == es[k + i].rec;
      ExtentsAt(recs, Ask(v, c), i);
    }
  }

  lemma {:induction false} TotalPositive(xs: seq<Extent>)
    ensures TotalSize(xs) > 0 <==> exists x :: x in xs && x.size > 0
  {
    if xs != [] {
      TotalPositive(xs[1..]);
      assert forall x :: x in xs <==> x == xs[0] || x in xs[1..];
    }
  }

  /** A file in one directory, by name. */
  lemma FileExactly(es: seq<Entry>, v: Volume, c: seq<byte>, xs: seq<Extent>)
    requires Agrees(es, v, c)
    ensures Search(RecordsOf(es), Ask(v, c)) == Some(File(xs)) <==>
            exists k: nat :: FirstCalled(es, v, c, k) && !HasDirBit(es[k].rec) &&
              exists j: nat :: RunFrom(es, v, c, k, j) && xs == RangesOf(es, v, k, j)
  {
    hide Search, RecordMatches, CalledOn, Run, Extents, RangesOf, RunFrom;
    var recs, q := RecordsOf(es), Ask(v, c);
    SearchFileExactly(recs, q, xs);
    forall k: nat, j: nat
      ensures FileAt(recs, q, k, j) <==> FirstCalled(es, v, c, k) && !HasDirBit(es[k].rec) && RunFrom(es, v, c, k, j)
      ensures FileAt(recs, q, k, j) ==> k + j < |es| && Extents(recs[k..][..j + 1], q) == RangesOf(es, v, k, j)
    {
      FirstAgrees(es, v, c, k);
      if k < |es| {
        FlagsMean(es[k].rec);
        RunAgrees(es, v, c, k, j);
        if RunFrom(es, v, c, k, j) { RunInside(es, v, c, k, j); RangesAgree(es, v, c, k, j); }
      }
    }
  }

  lemma RunInside(es: seq<Entry>, v: Volume, c: seq<byte>, k: nat, j: nat)
    requires RunFrom(es, v, c, k, j)
    ensures k + j < |es|
  {
  }

  // ---------- whole paths ----------

  /** What the first entry of a name is when the search stops at a directory. */
  lemma DirAt(es: seq<Entry>, v: Volume, c: seq<byte>, loc: DirLoc) returns (k: nat)
    requires Agrees(es, v, c) && Search(RecordsOf(es), Ask(v, c)) == Some(Dir(loc))
    ensures FirstCalled(es, v, c, k) && HasDirBit(es[k].rec) && !HasMoreBit(es[k].rec)
    ensures FirstIndex(RecordsOf(es), Ask(v, c)) == k
  {
    hide Search, RecordMatches, CalledOn, IsDir, IsMultiExtent;
    var recs, q := RecordsOf(es), Ask(v, c);
    SearchDirExactly(recs, q, loc);
    k :| FirstMatch(recs, q, k) && IsDir(recs[k]) && !IsMultiExtent(recs[k]);
    FirstAgrees(es, v, c, k);
    FlagsMean(es[k].rec);
    FirstMatchUnique(recs, q, k, FirstIndex(recs, q)) by { assert FirstIndex(recs, q) <= k; }
  }

  lemma DirFound(es: seq<Entry>, v: Volume, c: seq<byte>, k: nat)
    requires Agrees(es, v, c) && FirstCalled(es, v, c, k) && HasDirBit(es[k].rec) && !HasMoreBit(es[k].rec)
    ensures Search(RecordsOf(es), Ask(v, c)) == Some(Dir(DirLoc(es[k].rec.lba, es[k].rec.size)))
    ensures FirstIndex(RecordsOf(es), Ask(v, c)) == k
  {
    hide Search, RecordMatches, CalledOn, IsDir, IsMultiExtent;
    var recs, q := RecordsOf(es), Ask(v, c);
    FirstAgrees(es, v, c, k);
    FlagsMean(es[k].rec);
    SearchDirExactly(recs, q, DirLoc(recs[k].lba, recs[k].size));
    FirstMatchUnique(recs, q, k, FirstIndex(recs, q)) by { assert FirstIndex(recs, q) <= k; }
  }

  lemma FirstCalledUnique(es: seq<Entry>, v: Volume, c: seq<byte>, k: nat, l: nat)
    requires FirstCalled(es, v, c, k) && FirstCalled(es, v, c, l)
    ensures k == l
  {
    hide CalledOn;
  }

  /** The last component. */
  lemma ResolveLast(t: Tree, v: Volume, c: seq<byte>, xs: seq<Extent>)
    requires TreeFits(t)
    ensures Resolve(t, v, [c]) == Some(xs) <==> LeadsTo(t, v, [c], xs)
  {
    hide Search, RunFrom, RangesOf, HasDirBit, CalledOn, TotalSize;
    var es := FlattenEntries(t.sectors);
    DirectoryAgrees(t, v, c);
    FileExactly(es, v, c, xs);
    TotalPositive(xs);
    assert [c][0] == c;
  }

  lemma {:induction false} ResolveExactly(t: Tree, v: Volume, cs: seq<seq<byte>>, xs: seq<Extent>)
    requires TreeFits(t)
    ensures Resolve(t, v, cs) == Some(xs) <==> LeadsTo(t, v, cs, xs)
    decreases |cs|
  {
    hide Search, RunFrom, RangesOf, HasDirBit, HasMoreBit, TotalSize, TreeFits, FlattenEntries, Agrees, FirstIndex;
    if |cs| == 1 {
      assert cs == [cs[0]];
      ResolveLast(t, v, cs[0], xs);
    } else if |cs| > 1 {
      var es, q := FlattenEntries(t.sectors), Ask(v, cs[0]);
      DirectoryAgrees(t, v, cs[0]);
      var found := Search(RecordsOf(es), q);
      if found.Some? && found.value.Dir? {
        var k := DirAt(es, v, cs[0], found.value.loc);
        if es[k].Sub? {
          EntriesFit(t, k);
          ResolveExactly(es[k].child, v, cs[1..], xs);
        }
        forall l: nat | FirstCalled(es, v, cs[0], l) ensures l == k { FirstCalledUnique(es, v, cs[0], k, l); }
      } else {
        forall l: nat | FirstCalled(es, v, cs[0], l) ensures !(HasDirBit(es[l].rec) && !HasMoreBit(es[l].rec)) {
          if HasDirBit(es[l].rec) && !HasMoreBit(es[l].rec) { DirFound(es, v, cs[0], l); }
        }
      }
    }
  }

  /** The image holds the tree: directories in packed sectors, subtrees where their records say, and a subtree behind
      every directory that one of the components names. */
  ghost predicate TreeWritten(img: seq<byte>, v: Volume, dir: DirLoc, t: Tree, cs: seq<seq<byte>>)
    decreases t
  {
    && Laid(img, dir, v.blockSize, RecordSectors(t))
    && (forall i, j, c | 0 <= i < |t.sectors| && 0 <= j < |t.sectors[i].entries| && c in cs ::
          var e := t.sectors[i].entries[j]; HasDirBit(e.rec) && CalledOn(v, e, c) ==> e.Sub?)
    && (forall i, j | 0 <= i < |t.sectors| && 0 <= j < |t.sectors[i].entries| && t.sectors[i].entries[j].Sub? ::
          var e := t.sectors[i].entries[j];
          HasDirBit(e.rec) && TreeWritten(img, v, DirLoc(e.rec.lba, e.rec.size), e.child, cs))
  }

  lemma {:induction false} PackedFits(chunk: seq<byte>, off: nat, recs: seq<Record>, k: nat)
    requires Packed(chunk, off, recs) && k < |recs|
    ensures Fits(recs[k])
    decreases |recs|
  {
    hide Fits, Prints;
    if k > 0 { PackedFits(chunk, off + RecLen(recs[0]), recs[1..], k - 1); }
  }

  lemma LaidFits(img: seq<byte>, v: Volume, dir: DirLoc, t: Tree, i: nat, j: nat)
    requires Laid(img, dir, v.blockSize, RecordSectors(t)) && i < |t.sectors| && j < |t.sectors[i].entries|
    ensures Fits(t.sectors[i].entries[j].rec)
  {
    hide Packed, Fits;
    var sectors := RecordSectors(t);
    assert Packed(Chunk(img, dir, v.blockSize, i), 0, sectors[i]);
    PackedFits(Chunk(img, dir, v.blockSize, i), 0, sectors[i], j);
    assert sectors[i][j] == t.sectors[i].entries[j].rec;
  }

  lemma {:induction false} WrittenFits(img: seq<byte>, v: Volume, dir: DirLoc, t: Tree, cs: seq<seq<byte>>)
    requires TreeWritten(img, v, dir, t, cs)
    ensures TreeFits(t)
    decreases t
  {
    hide Laid, Fits, CalledOn, HasDirBit;
    forall i, j | 0 <= i < |t.sectors| && 0 <= j < |t.sectors[i].entries|
      ensures var e := t.sectors[i].entries[j]; Fits(e.rec) && (e.Sub? ==> TreeFits(e.child))
    {
      var e := t.sectors[i].entries[j];
      LaidFits(img, v, dir, t, i, j);
      if e.Sub? { WrittenFits(img, v, DirLoc(e.rec.lba, e.rec.size), e.child, cs); }
    }
  }

  lemma {:induction false} WrittenIsLaid(img: seq<byte>, v: Volume, dir: DirLoc, t: Tree, cs: seq<seq<byte>>)
    requires TreeWritten(img, v, dir, t, cs)
    ensures TreeLaid(img, v, dir, t, cs)
    decreases t
  {
    hide Laid, Fits, RecordMatches, Called, IsDir, HasDirBit;
    forall i, j, c | 0 <= i < |t.sectors| && 0 <= j < |t.sectors[i].entries| && c in cs
      ensures var e := t.sectors[i].entries[j]; IsDir(e.rec) && RecordMatches(e.rec, Ask(v, c)) ==> e.Sub?
    {
      var e := t.sectors[i].entries[j];
      LaidFits(img, v, dir, t, i, j);
      MatchesIsCalled(e.rec, Ask(v, c));
      FlagsMean(e.rec);
    }
    forall i, j | 0 <= i < |t.sectors| && 0 <= j < |t.sectors[i].entries| && t.sectors[i].entries[j].Sub?
      ensures var e := t.sectors[i].entries[j];
              IsDir(e.rec) && TreeLaid(img, v, DirLoc(e.rec.lba, e.rec.size), e.child, cs)
    {
      var e := t.sectors[i].entries[j];
      FlagsMean(e.rec);
      WrittenIsLaid(img, v, DirLoc(e.rec.lba, e.rec.size), e.child, cs);
    }
  }

  /** What the root's first record says about skipping; only the primary namespace asks. */
  ghost predicate RootStates(t: Tree, ns: Namespace, skip: nat) {
    if ns == Primary && t.sectors != [] && t.sectors[0].entries != []
    then SkipStated(t.sectors[0].entries[0].rec.su, skip) else skip == 0
  }

  lemma RootSkipAgrees(img: seq<byte>, blockSize: nat, root: DirLoc, t: Tree, ns: Namespace, skip: nat)
    requires Laid(img, root, blockSize, RecordSectors(t)) && RootStates(t, ns, skip)
    ensures VolumeOf(img, blockSize, root, ns) == Volume(ns, skip, blockSize)
  {
    hide RrSkipLen, RootSkip, Packed;
    if ns == Primary {
      var sectors := RecordSectors(t);
      if t.sectors[0].entries != [] {
        RootSkipOfTree(img, blockSize, root, sectors);
        SkipExactly(t.sectors[0].entries[0].rec.su, skip);
      } else {
        EmptyRoot(img, blockSize, root, sectors);
      }
    }
  }

  lemma EmptyRoot(img: seq<byte>, blockSize: nat, root: DirLoc, sectors: seq<seq<Record>>)
    requires Laid(img, root, blockSize, sectors) && sectors[0] == []
    ensures RootSkip(img, blockSize, root) == 0
  {
    hide ParseDirRecord;
    var chunk := Chunk(img, root, blockSize, 0);
    assert 0 * LOGICAL_SECTOR == 0 && Packed(chunk, 0, sectors[0]);
    assert ReadFull(img, root.lba * blockSize, Min(LOGICAL_SECTOR, root.size)) == Some(chunk);
    PaddingOrEnd(chunk, 0);
  }

  /** In an image that holds a directory tree, an absolute path is resolved exactly to the file its components lead
      to by the names the records were written with, down to eight components. */
  lemma WalkFindsExactly(img: seq<byte>, blockSize: nat, root: DirLoc, t: Tree, path: seq<byte>, cs: seq<seq<byte>>,
                         ns: Namespace, skip: nat, xs: seq<Extent>)
    requires path != [] && path[0] == 0x2f && Splits(path, cs)
    requires RootStates(t, ns, skip) && TreeWritten(img, Volume(ns, skip, blockSize), root, t, cs)
    ensures Walk(img, blockSize, root, path, ns) == Some(xs) <==>
            |cs| <= 8 && LeadsTo(t, Volume(ns, skip, blockSize), cs, xs)
  {
    hide Descend, Resolve, TreeLaid, Components, VolumeOf, LeadsTo, TreeFits, Splits, RootStates;
    var v := Volume(ns, skip, blockSize);
    ComponentsExactly(path, cs);
    assert Laid(img, root, blockSize, RecordSectors(t)) by { WrittenLays(img, v, root, t, cs); }
    RootSkipAgrees(img, blockSize, root, t, ns, skip);
    WrittenIsLaid(img, v, root, t, cs);
    WrittenFits(img, v, root, t, cs);
    ResolveExactly(t, v, cs, xs);
    if |path| >= 2 {
      WalkResolves(img, blockSize, root, t, path, ns);
    } else {
      OnlySlash(path);
      assert !LeadsTo(t, v, cs, xs) by { NowhereToGo(t, v, xs); }
    }
  }

  lemma WrittenLays(img: seq<byte>, v: Volume, dir: DirLoc, t: Tree, cs: seq<seq<byte>>)
    requires TreeWritten(img, v, dir, t, cs)
    ensures Laid(img, dir, v.blockSize, RecordSectors(t))
  {
  }

  lemma OnlySlash(path: seq<byte>)
    requires |path| == 1 && path[0] == 0x2f
    ensures Components(path) == []
  {
    assert path[1..] == [];
  }

  lemma NowhereToGo(t: Tree, v: Volume, xs: seq<Extent>)
    ensures !LeadsTo(t, v, [], xs)
  {
  }
}
