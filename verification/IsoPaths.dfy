/** Walking a path down a volume: `walkPath`, against directory trees as they are written. */
module IsoPaths {
  import opened Common
  import opened Bytes
  import opened IsoRecords
  import opened IsoNames
  import opened IsoDirectory
  import opened IsoSearch

  const SLASH: byte := 0x2f
  const MAX_PATH_DEPTH := 8

  /** The non-empty pieces of a path between slashes. */
  function Components(path: seq<byte>): (cs: seq<seq<byte>>)
    ensures forall c :: c in cs ==> c != [] && SLASH !in c
    decreases |path|
  {
    if path == [] then []
    else if path[0] == SLASH then Components(path[1..])
    else
      var n := TokenLength(path);
      [path[..n]] + Components(path[n..])
  }

  function TokenLength(path: seq<byte>): (n: nat)
    ensures n <= |path| && SLASH !in path[..n] && (path != [] && path[0] != SLASH ==> n > 0)
  {
    if path == [] || path[0] == SLASH then 0 else 1 + TokenLength(path[1..])
  }

  function TotalSize(xs: seq<Extent>): nat {
    if xs == [] then 0 else xs[0].size + TotalSize(xs[1..])
  }

  /** The fixed part of a lookup on one volume. */
  datatype Volume = Volume(ns: Namespace, skip: nat, blockSize: nat)

  function Ask(v: Volume, c: seq<byte>): Query { Query(c, v.ns, v.skip, v.blockSize) }

  // ---------- the walk over bytes ----------

  function RootSkip(img: seq<byte>, blockSize: nat, root: DirLoc): nat {
    var n := Min(LOGICAL_SECTOR, root.size);
    if n == 0 then 0 else
    var chunk := ReadFull(img, root.lba * blockSize, n);
    if chunk.None? then 0 else
    var first := ParseDirRecord(chunk.value, 0);
    if first.Rec? then RrSkipLen(first.rec.su) else 0
  }

  /** Go down from `cur` along `comps`, having already gone `depth` levels. */
  function Descend(img: seq<byte>, v: Volume, cur: DirLoc, comps: seq<seq<byte>>, depth: nat): Option<seq<Extent>>
    decreases |comps|
  {
    if comps == [] || depth >= MAX_PATH_DEPTH then None else
    var found := FindIn(img, cur, Ask(v, comps[0]));
    if found.None? then None else
    match found.value
    case Dir(d) => if |comps| == 1 then None else Descend(img, v, d, comps[1..], depth + 1)
    case File(xs) => if |comps| > 1 || TotalSize(xs) == 0 then None else Some(xs)
  }

  function VolumeOf(img: seq<byte>, blockSize: nat, root: DirLoc, ns: Namespace): Volume {
    Volume(ns, if ns == Primary then RootSkip(img, blockSize, root) else 0, blockSize)
  }

  function Walk(img: seq<byte>, blockSize: nat, root: DirLoc, path: seq<byte>, ns: Namespace): Option<seq<Extent>> {
    if |path| < 2 || path[0] != SLASH then None
    else Descend(img, VolumeOf(img, blockSize, root, ns), root, Components(path), 0)
  }

  method WalkPath(img: seq<byte>, blockSize: nat, root: DirLoc, path: seq<byte>, ns: Namespace)
    returns (r: Option<seq<Extent>>)
    ensures r == Walk(img, blockSize, root, path, ns)
  {
    hide FindIn, RootSkip, Components;
    if |path| < 2 || path[0] != SLASH {
      return None;
    }
    var v := VolumeOf(img, blockSize, root, ns);
    var cur, depth: nat := root, 0;
    var comps := Components(path);
    var i := 0;
    assert comps[0..] == comps;
    while i < |comps|
      invariant 0 <= i <= |comps| && i == depth <= MAX_PATH_DEPTH
      invariant Walk(img, blockSize, root, path, ns) == Descend(img, v, cur, comps[i..], depth)
    {
      assert comps[i..][0] == comps[i] && comps[i..][1..] == comps[i + 1..];
      if depth + 1 > MAX_PATH_DEPTH {
        return None;
      }
      depth := depth + 1;
      var found := FindInDirectory(img, cur, Ask(v, comps[i]));
      if found.None? {
        return None;
      }
      var isLast := i + 1 == |comps|;
      match found.value {
        case Dir(d) =>
          if isLast {
            return None;
          }
          cur := d;
        case File(xs) =>
          if !isLast || TotalSize(xs) == 0 {
            return None;
          }
          return Some(xs);
      }
      i := i + 1;
    }
    r := None;
  }

  // ---------- directory trees ----------

  /** A directory: its records, sector by sector; entries that lead on carry a subtree. */
  datatype Tree = Tree(sectors: seq<Sector>)
  datatype Sector = Sector(entries: seq<Entry>)
  datatype Entry = Plain(rec: Record) | Sub(rec: Record, child: Tree)

  function RecordsOf(es: seq<Entry>): (rs: seq<Record>)
    ensures |rs| == |es| && forall i :: 0 <= i < |es| ==> rs[i] == es[i].rec
  {
    seq(|es|, i requires 0 <= i < |es| => es[i].rec)
  }

  function RecordSectors(t: Tree): (rs: seq<seq<Record>>)
    ensures |rs| == |t.sectors|
  {
    seq(|t.sectors|, i requires 0 <= i < |t.sectors| => RecordsOf(t.sectors[i].entries))
  }

  function FlattenEntries(ss: seq<Sector>): seq<Entry> {
    if ss == [] then [] else ss[0].entries + FlattenEntries(ss[1..])
  }

  /** The image holds the tree at `dir`: every directory is laid out as packed sectors, subtrees
      hang off directory records at their extents, and every directory record that one of the
      names in `comps` could select has its subtree. */
  ghost predicate TreeLaid(img: seq<byte>, v: Volume, dir: DirLoc, t: Tree, comps: seq<seq<byte>>)
    decreases t
  {
    && Laid(img, dir, v.blockSize, RecordSectors(t))
    && (forall i, j, c | 0 <= i < |t.sectors| && 0 <= j < |t.sectors[i].entries| && c in comps ::
          var e := t.sectors[i].entries[j]; IsDir(e.rec) && RecordMatches(e.rec, Ask(v, c)) ==> e.Sub?)
    && (forall i, j | 0 <= i < |t.sectors| && 0 <= j < |t.sectors[i].entries| && t.sectors[i].entries[j].Sub? ::
          var e := t.sectors[i].entries[j];
          IsDir(e.rec) && TreeLaid(img, v, DirLoc(e.rec.lba, e.rec.size), e.child, comps))
  }

  /** Position of the first matching record, or the length. */
  function FirstIndex(recs: seq<Record>, q: Query): (k: nat)
    ensures k <= |recs| && (k < |recs| ==> RecordMatches(recs[k], q))
    ensures forall i :: 0 <= i < k ==> !RecordMatches(recs[i], q)
  {
    if recs == [] || RecordMatches(recs[0], q) then 0 else
    var k := FirstIndex(recs[1..], q);
    assert forall i :: 0 < i < k + 1 ==> recs[i] == recs[1..][i - 1];
    k + 1
  }

  /** What the tree says a path names: the extents of a non-empty file, found by always taking the
      first matching record. */
  function Resolve(t: Tree, v: Volume, comps: seq<seq<byte>>): Option<seq<Extent>>
    decreases |comps|
  {
    if comps == [] then None else
    var es := FlattenEntries(t.sectors);
    var q := Ask(v, comps[0]);
    var found := Search(RecordsOf(es), q);
    if found.None? then None else
    match found.value
    case File(xs) => if |comps| > 1 || TotalSize(xs) == 0 then None else Some(xs)
    case Dir(_) =>
      var k := FirstIndex(RecordsOf(es), q);
      if |comps| == 1 || k >= |es| || !es[k].Sub? then None
      else Resolve(es[k].child, v, comps[1..])
  }

  lemma {:induction false} FlattenAgrees(ss: seq<Sector>)
    ensures Flatten(RecordSectors(Tree(ss))) == RecordsOf(FlattenEntries(ss))
  {
    if ss != [] {
      FlattenAgrees(ss[1..]);
      assert RecordSectors(Tree(ss))[1..] == RecordSectors(Tree(ss[1..]));
    }
  }

  lemma {:induction false} EntryAt(ss: seq<Sector>, k: nat) returns (i: nat, j: nat)
    requires k < |FlattenEntries(ss)|
    ensures i < |ss| && j < |ss[i].entries| && ss[i].entries[j] == FlattenEntries(ss)[k]
  {
    if k < |ss[0].entries| {
      i, j := 0, k;
    } else {
      var i', j' := EntryAt(ss[1..], k - |ss[0].entries|);
      i, j := i' + 1, j';
    }
  }

  /** The child a directory match leads to is laid out where the record says. */
  lemma ChildLaid(img: seq<byte>, v: Volume, dir: DirLoc, t: Tree, comps: seq<seq<byte>>, c: seq<byte>, d: DirLoc)
      returns (child: Tree)
    requires TreeLaid(img, v, dir, t, comps) && c in comps
    requires Search(RecordsOf(FlattenEntries(t.sectors)), Ask(v, c)) == Some(Dir(d))
    ensures var es := FlattenEntries(t.sectors);
            var k := FirstIndex(RecordsOf(es), Ask(v, c));
            k < |es| && es[k].Sub? && es[k].child == child && TreeLaid(img, v, d, child, comps)
  {
    hide Laid, RecordMatches, IsDir, IsMultiExtent, Search;
    var es, q := FlattenEntries(t.sectors), Ask(v, c);
    var recs := RecordsOf(es);
    SearchDirExactly(recs, q, d);
    var k: nat :| FirstMatch(recs, q, k) && IsDir(recs[k]) && !IsMultiExtent(recs[k]) && d == DirLoc(recs[k].lba, recs[k].size);
    FirstMatchUnique(recs, q, k, FirstIndex(recs, q)) by { assert FirstIndex(recs, q) <= k; }
    var i, j := EntryAt(t.sectors, k);
    child := es[k].child;
  }

  lemma {:induction false} DescendResolves(img: seq<byte>, v: Volume, dir: DirLoc, t: Tree,
                                           names: seq<seq<byte>>, comps: seq<seq<byte>>, depth: nat)
    requires TreeLaid(img, v, dir, t, names) && (forall c :: c in comps ==> c in names)
    requires depth + |comps| <= MAX_PATH_DEPTH
    ensures Descend(img, v, dir, comps, depth) == Resolve(t, v, comps)
    decreases |comps|
  {
    hide FindIn, Search, TreeLaid, FirstIndex, FlattenEntries;
    if comps != [] {
      var q := Ask(v, comps[0]);
      assert Laid(img, dir, q.blockSize, RecordSectors(t)) by { TreeIsLaid(img, v, dir, t, names); }
      FindInLaid(img, dir, RecordSectors(t), q);
      FlattenAgrees(t.sectors);
      assert Tree(t.sectors) == t;
      var found := FindIn(img, dir, q);
      if found.Some? && found.value.Dir? {
        var child := ChildLaid(img, v, dir, t, names, comps[0], found.value.loc);
        if |comps| > 1 {
          DescendResolves(img, v, found.value.loc, child, names, comps[1..], depth + 1);
        }
      }
    }
  }

  lemma TreeIsLaid(img: seq<byte>, v: Volume, dir: DirLoc, t: Tree, comps: seq<seq<byte>>)
    requires TreeLaid(img, v, dir, t, comps)
    ensures Laid(img, dir, v.blockSize, RecordSectors(t))
  {
  }

  /** More than eight components are never resolved. */
  lemma {:induction false} TooDeep(img: seq<byte>, v: Volume, cur: DirLoc, comps: seq<seq<byte>>, depth: nat)
    requires depth + |comps| > MAX_PATH_DEPTH
    ensures Descend(img, v, cur, comps, depth) == None
    decreases |comps|
  {
    hide FindIn;
    if comps != [] && depth < MAX_PATH_DEPTH {
      var found := FindIn(img, cur, Ask(v, comps[0]));
      if found.Some? && found.value.Dir? {
        TooDeep(img, v, found.value.loc, comps[1..], depth + 1);
      }
    }
  }

  /** For any directory tree laid out in packed, padded sectors, `walkPath` returns exactly what
      the tree says the path names, down to eight components. */
  lemma WalkResolves(img: seq<byte>, blockSize: nat, root: DirLoc, t: Tree, path: seq<byte>, ns: Namespace)
    requires |path| >= 2 && path[0] == SLASH
    requires TreeLaid(img, VolumeOf(img, blockSize, root, ns), root, t, Components(path))
    ensures Walk(img, blockSize, root, path, ns) ==
            if |Components(path)| <= MAX_PATH_DEPTH
            then Resolve(t, VolumeOf(img, blockSize, root, ns), Components(path)) else None
  {
    hide Descend, Resolve, TreeLaid, Components, VolumeOf;
    var v := VolumeOf(img, blockSize, root, ns);
    if |Components(path)| <= MAX_PATH_DEPTH {
      DescendResolves(img, v, root, t, Components(path), Components(path), 0);
    } else {
      TooDeep(img, v, root, Components(path), 0);
    }
  }

  /** The Rock Ridge skip is read from the first record of the root directory. */
  lemma RootSkipOfTree(img: seq<byte>, blockSize: nat, root: DirLoc, sectors: seq<seq<Record>>)
    requires Laid(img, root, blockSize, sectors) && sectors[0] != []
    ensures RootSkip(img, blockSize, root) == RrSkipLen(sectors[0][0].su)
  {
    hide ParseDirRecord, RrSkipLen, Fits, Prints;
    var chunk := Chunk(img, root, blockSize, 0);
    assert 0 * LOGICAL_SECTOR == 0 && Packed(chunk, 0, sectors[0]);
    assert ReadFull(img, root.lba * blockSize, Min(LOGICAL_SECTOR, root.size)) == Some(chunk);
    ParsePrinted(chunk, 0, sectors[0][0]);
  }

  /** The entries for a directory itself and its parent select nothing, in the Joliet namespace and
      wherever they carry no Rock Ridge name. */
  lemma SpecialNeverMatches(r: Record, v: Volume, c: seq<byte>)
    requires IsSpecialId(r.name) && (v.ns == Joliet || !RrNameOf(r.su, v.skip).Name?)
    ensures !RecordMatches(r, Ask(v, c))
  {
  }
}
