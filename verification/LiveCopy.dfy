/** Copying located extents off the device: the nested read and write loops. */
module LiveCopy {
  import opened Common
  import opened Bytes
  import opened IsoDirectory
  import opened IsoPaths
  import opened IsoFiles

  const COPY_BUFFER := 16384

  /** A failed or empty read or write halts the machine. */
  datatype Outcome = Halted | Copied(out: seq<byte>)

  ghost predicate OnDevice(img: seq<byte>, xs: seq<Extent>) {
    forall x :: x in xs ==> Readable(img, x)
  }

  /** An empty extent is never read. */
  predicate Readable(img: seq<byte>, x: Extent) { x.size == 0 || x.start + x.size <= |img| }

  function SliceOf(img: seq<byte>, x: Extent): (bs: seq<byte>)
    requires Readable(img, x)
    ensures |bs| == x.size
  {
    if x.size == 0 then [] else img[x.start..x.start + x.size]
  }

  /** The image slices of the extents, in order. */
  ghost function Gather(img: seq<byte>, xs: seq<Extent>): (bs: seq<byte>)
    requires OnDevice(img, xs)
    ensures |bs| == TotalSize(xs)
  {
    if xs == [] then [] else
    assert xs[0] in xs && forall x :: x in xs[1..] ==> x in xs;
    SliceOf(img, xs[0]) + Gather(img, xs[1..])
  }

  lemma {:induction false} GatherSnoc(img: seq<byte>, xs: seq<Extent>, x: Extent)
    requires OnDevice(img, xs + [x])
    ensures OnDevice(img, xs) && Gather(img, xs + [x]) == Gather(img, xs) + SliceOf(img, x)
    ensures TotalSize(xs + [x]) == TotalSize(xs) + x.size
  {
    hide Readable, SliceOf;
    assert forall y :: y in xs ==> y in xs + [x];
    assert x in xs + [x];
    if xs == [] {
      assert xs + [x] == [x];
      assert Gather(img, [x]) == SliceOf(img, x) + Gather(img, []);
    } else {
      assert (xs + [x])[1..] == xs[1..] + [x];
      assert forall y :: y in xs[1..] + [x] ==> y in xs + [x];
      GatherSnoc(img, xs[1..], x);
    }
  }

  lemma GatherCons(img: seq<byte>, xs: seq<Extent>)
    requires OnDevice(img, xs) && xs != []
    ensures Readable(img, xs[0]) && OnDevice(img, xs[1..])
    ensures Gather(img, xs) == SliceOf(img, xs[0]) + Gather(img, xs[1..])
  {
    hide Readable, SliceOf;
    assert xs[0] in xs && forall x :: x in xs[1..] ==> x in xs;
  }

  lemma SizeCons(xs: seq<Extent>, k: nat)
    requires 0 < k <= |xs|
    ensures TotalSize(xs[..k]) == xs[0].size + TotalSize(xs[1..][..k - 1])
  {
    assert xs[..k][1..] == xs[1..][..k - 1];
  }

  lemma NoSize(xs: seq<Extent>)
    ensures TotalSize(xs[..0]) == 0
  {
  }

  /** Byte `i` of extent `k` stands behind all bytes of the extents before it, and is the device's byte `i` of it. */
  lemma {:induction false} GatherAt(img: seq<byte>, xs: seq<Extent>, k: nat, i: nat)
    requires OnDevice(img, xs) && k < |xs| && i < xs[k].size
    ensures var at := TotalSize(xs[..k]) + i;
            at < |Gather(img, xs)| && xs[k].start + i < |img| && Gather(img, xs)[at] == img[xs[k].start + i]
  {
    hide Gather, TotalSize;
    GatherCons(img, xs);
    if k > 0 {
      GatherAt(img, xs[1..], k - 1, i);
      SizeCons(xs, k);
    } else {
      NoSize(xs);
    }
  }

  /** Write all of `data`, however short each write falls; `writes(i)` is what call `i` would take. */
  method WriteAll(data: seq<byte>, out0: seq<byte>, writes: nat -> nat, w0: nat)
    returns (ok: bool, out: seq<byte>, w: nat)
    ensures ok ==> out == out0 + data
    ensures (forall i :: writes(i) > 0) ==> ok
  {
    out, w := out0, w0;
    var woff := 0;
    while woff < |data|
      invariant 0 <= woff <= |data| && out == out0 + data[..woff]
      decreases |data| - woff
    {
      var n := Min(writes(w), |data| - woff);
      w := w + 1;
      if n == 0 {
        return false, out, w;
      }
      out := out + data[woff..woff + n];
      woff := woff + n;
    }
    ok := true;
  }

  /** Copy one extent in chunks, however short each read falls. */
  method CopyExtent(img: seq<byte>, x: Extent, out0: seq<byte>, preads: nat -> nat, writes: nat -> nat, p0: nat, w0: nat)
    returns (ok: bool, out: seq<byte>, p: nat, w: nat)
    ensures ok ==> Readable(img, x) && out == out0 + SliceOf(img, x)
    ensures Readable(img, x) && (forall i :: preads(i) > 0 && writes(i) > 0) ==> ok
  {
    out, p, w := out0, p0, w0;
    var done := 0;
    while done < x.size
      invariant 0 <= done <= x.size
      invariant done > 0 ==> x.start + done <= |img| && out == out0 + img[x.start..x.start + done]
      invariant done == 0 ==> out == out0
      decreases x.size - done
    {
      var remain := x.size - done;
      var chunk := Min(COPY_BUFFER, remain);
      var at := x.start + done;
      var rd := if at >= |img| then 0 else Min(preads(p), Min(chunk, |img| - at));
      p := p + 1;
      if rd == 0 {
        return false, out, p, w;
      }
      var before := out;
      ok, out, w := WriteAll(img[at..at + rd], out, writes, w);
      if !ok {
        return;
      }
      assert before + img[at..at + rd] == out0 + img[x.start..x.start + (done + rd)];
      done := done + rd;
    }
    ok := true;
  }

  /** On success exactly the in-order concatenation of the extents has been written; it succeeds
      whenever reads and writes make progress, the extents lie on the device and are not all empty. */
  method CopySquash(img: seq<byte>, xs: seq<Extent>, preads: nat -> nat, writes: nat -> nat) returns (r: Outcome)
    ensures r.Copied? ==> OnDevice(img, xs) && r.out == Gather(img, xs) && |r.out| == TotalSize(xs) > 0
    ensures OnDevice(img, xs) && TotalSize(xs) > 0 && (forall i :: preads(i) > 0 && writes(i) > 0) ==> r.Copied?
  {
    var out: seq<byte>, p: nat, w: nat := [], 0, 0;
    for k := 0 to |xs|
      invariant OnDevice(img, xs[..k]) && out == Gather(img, xs[..k])
    {
      var x := xs[k];
      assert xs[..k + 1] == xs[..k] + [x];
      var ok;
      ok, out, p, w := CopyExtent(img, x, out, preads, writes, p, w);
      if !ok {
        return Halted;
      }
      assert OnDevice(img, xs[..k] + [x]);
      GatherSnoc(img, xs[..k], x);
    }
    assert xs[..|xs|] == xs;
    r := if |out| == 0 then Halted else Copied(out);
  }

  // ---------- from a path to its bytes ----------

  lemma {:induction false} DescendNotEmpty(img: seq<byte>, v: Volume, cur: DirLoc, comps: seq<seq<byte>>, depth: nat)
    ensures var r := Descend(img, v, cur, comps, depth); r.Some? ==> TotalSize(r.value) > 0
    decreases |comps|
  {
    hide FindIn, TotalSize;
    if comps != [] && depth < MAX_PATH_DEPTH {
      var found := FindIn(img, cur, Ask(v, comps[0]));
      if found.Some? && found.value.Dir? && |comps| > 1 {
        DescendNotEmpty(img, v, found.value.loc, comps[1..], depth + 1);
      }
    }
  }

  /** Locate a file and copy it: what is written is exactly what the walk names, and a file found on the device is
      copied whenever reads and writes make progress. */
  method CopyFile(img: seq<byte>, blockSize: nat, root: DirLoc, path: seq<byte>, ns: Namespace,
                  preads: nat -> nat, writes: nat -> nat)
    returns (r: Option<Outcome>)
    ensures var w := Walk(img, blockSize, root, path, ns);
            && (r.None? <==> w.None?)
            && (r.Some? && r.value.Copied? ==> OnDevice(img, w.value) && r.value.out == Gather(img, w.value))
            && (w.Some? && OnDevice(img, w.value) && (forall i :: preads(i) > 0 && writes(i) > 0) ==> r.value.Copied?)
  {
    hide Descend;
    var xs := WalkPath(img, blockSize, root, path, ns);
    if xs.None? {
      return None;
    }
    DescendNotEmpty(img, VolumeOf(img, blockSize, root, ns), root, Components(path), 0);
    var copied := CopySquash(img, xs.value, preads, writes);
    r := Some(copied);
  }

  /** For a tree written to the device: something is copied only if the path leads to a file there, and then exactly
      that file's bytes; a file on the device is copied whenever reads and writes make progress. */
  method CopyNamed(img: seq<byte>, blockSize: nat, root: DirLoc, ghost t: Tree, path: seq<byte>, ghost cs: seq<seq<byte>>,
                   ns: Namespace, ghost skip: nat, preads: nat -> nat, writes: nat -> nat)
    returns (r: Option<Outcome>)
    requires path != [] && path[0] == 0x2f && Splits(path, cs)
    requires RootStates(t, ns, skip) && TreeWritten(img, Volume(ns, skip, blockSize), root, t, cs)
    ensures r.Some? <==> |cs| <= 8 && exists xs :: LeadsTo(t, Volume(ns, skip, blockSize), cs, xs)
    ensures r.Some? ==>
      exists xs :: LeadsTo(t, Volume(ns, skip, blockSize), cs, xs) &&
        (r.value.Copied? ==> OnDevice(img, xs) && r.value.out == Gather(img, xs)) &&
        (OnDevice(img, xs) && (forall i :: preads(i) > 0 && writes(i) > 0) ==> r.value.Copied?)
  {
    hide TreeWritten, Walk, Gather, Splits, RootStates, LeadsTo;
    ghost var v := Volume(ns, skip, blockSize);
    r := CopyFile(img, blockSize, root, path, ns, preads, writes);
    ghost var w := Walk(img, blockSize, root, path, ns);
    if w.Some? {
      WalkFindsExactly(img, blockSize, root, t, path, cs, ns, skip, w.value);
      assert LeadsTo(t, v, cs, w.value);
    } else {
      forall xs | LeadsTo(t, v, cs, xs) ensures |cs| > 8 {
        WalkFindsExactly(img, blockSize, root, t, path, cs, ns, skip, xs);
      }
    }
  }
}
