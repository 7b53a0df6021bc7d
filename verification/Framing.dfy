/** The wire frame both sides speak, and how each side cuts a byte stream into payloads. */
module Framing {
  import opened Bytes

  const MAGIC: seq<byte> := [0x44, 0x4D]
  const HEADER_SIZE := 6
  const MAX_MESSAGE_SIZE := 0x1_0000
  const CAPACITY := MAX_MESSAGE_SIZE + HEADER_SIZE

  function Frame(payload: seq<byte>): (f: seq<byte>)
    ensures |f| == HEADER_SIZE + |payload|
  {
    MAGIC + WriteLE(|payload|, 4) + payload
  }

  function Frames(payloads: seq<seq<byte>>): seq<byte> {
    if payloads == [] then [] else Frame(payloads[0]) + Frames(payloads[1..])
  }

  ghost predicate Sendable(payloads: seq<seq<byte>>) {
    forall p :: p in payloads ==> |p| <= MAX_MESSAGE_SIZE
  }

  // ---------- init side ----------

  /** The next payload and the bytes after it, or nothing yet and the bytes kept. */
  datatype Pop = Payload(payload: seq<byte>, rest: seq<byte>) | Wait(rest: seq<byte>)

  predicate MagicAt(c: seq<byte>, i: nat) { i + 1 < |c| && c[i] == MAGIC[0] && c[i + 1] == MAGIC[1] }

  /** First position at or after `i` where the magic starts; `|c|` if there is none. */
  function FindMagic(c: seq<byte>, i: nat): (k: nat)
    requires i <= |c|
    ensures i <= k <= |c| && (k < |c| ==> MagicAt(c, k)) && forall j :: i <= j < k ==> !MagicAt(c, j)
    decreases |c| - i
  {
    if i == |c| || MagicAt(c, i) then i else FindMagic(c, i + 1)
  }

  /** `nextMessage` on the buffered bytes, before the payload is interpreted. */
  function NextFrame(c: seq<byte>): (r: Pop)
    ensures r.Payload? ==> |r.payload| + |r.rest| + HEADER_SIZE <= |c|
    ensures |r.rest| <= |c|
    decreases |c|
  {
    if |c| < HEADER_SIZE then Wait(c)
    else if !MagicAt(c, 0) then
      var k := FindMagic(c, 1);
      if k < |c| then NextFrame(c[k..]) else Wait([])
    else
      var len := ReadLE(c[2..6]);
      if len > MAX_MESSAGE_SIZE then Wait([])
      else if |c| < HEADER_SIZE + len then Wait(c)
      else Payload(c[6..6 + len], c[6 + len..])
  }

  /** Take payloads until none is complete. */
  function Drain(c: seq<byte>): (r: (seq<seq<byte>>, seq<byte>))
    ensures |r.1| <= |c|
    decreases |c|
  {
    var next := NextFrame(c);
    if next.Wait? then ([], next.rest)
    else var (more, rest) := Drain(next.rest); ([next.payload] + more, rest)
  }

  lemma FrameHeader(p: seq<byte>, rest: seq<byte>)
    requires |p| <= MAX_MESSAGE_SIZE
    ensures var c := Frame(p) + rest;
            MagicAt(c, 0) && ReadLE(c[2..6]) == |p| && c[6..6 + |p|] == p && c[6 + |p|..] == rest
  {
    Widths();
    hide ReadLE, WriteLE, Pow256;
    ReadWriteLE(|p|, 4);
    var c := Frame(p) + rest;
    assert c[2..6] == WriteLE(|p|, 4);
  }

  /** A whole frame at the front is taken, whatever follows. */
  lemma TakesWholeFrame(p: seq<byte>, rest: seq<byte>)
    requires |p| <= MAX_MESSAGE_SIZE
    ensures NextFrame(Frame(p) + rest) == Payload(p, rest)
  {
    hide ReadLE, Frame;
    FrameHeader(p, rest);
  }

  /** A proper prefix of a frame is kept untouched. */
  lemma KeepsPartialFrame(p: seq<byte>, n: nat)
    requires |p| <= MAX_MESSAGE_SIZE && n < |Frame(p)|
    ensures NextFrame(Frame(p)[..n]) == Wait(Frame(p)[..n])
  {
    hide ReadLE, Frame;
    FrameHeader(p, []);
    assert Frame(p) + [] == Frame(p);
    var c := Frame(p)[..n];
    if n >= HEADER_SIZE {
      assert c[2..6] == Frame(p)[2..6];
    }
  }

  /** A prefix of a frame stream splits into whole frames and an incomplete remainder. */
  lemma {:induction false} SplitPrefix(ps: seq<seq<byte>>, n: nat) returns (m: nat, k: nat)
    requires n <= |Frames(ps)|
    ensures m <= |ps| && if m < |ps| then k < |Frame(ps[m])| else k == 0
    ensures Frames(ps)[..n] == Frames(ps[..m]) + (if m < |ps| then Frame(ps[m])[..k] else [])
    ensures |Frames(ps[..m])| + k == n
  {
    hide Frame;
    if ps == [] {
      m, k := 0, 0;
    } else if n < |Frame(ps[0])| {
      m, k := 0, n;
    } else {
      var f, rest := Frame(ps[0]), Frames(ps[1..]);
      var m', k' := SplitPrefix(ps[1..], n - |f|);
      m, k := m' + 1, k';
      assert (f + rest)[..n] == f + rest[..n - |f|];
      assert ps[..m][1..] == ps[1..][..m'];
    }
  }

  /** Draining whole frames and an incomplete remainder yields the frames and keeps the remainder. */
  lemma {:induction false} DrainFrames(ps: seq<seq<byte>>, partial: seq<byte>)
    requires Sendable(ps) && NextFrame(partial) == Wait(partial)
    ensures Drain(Frames(ps) + partial) == (ps, partial)
  {
    hide NextFrame, Frame;
    if ps == [] {
      assert Frames(ps) + partial == partial;
    } else {
      var rest := Frames(ps[1..]) + partial;
      assert Frames(ps) + partial == Frame(ps[0]) + rest;
      TakesWholeFrame(ps[0], rest);
      DrainFrames(ps[1..], partial);
      assert ps == [ps[0]] + ps[1..];
    }
  }

  /** Drain any prefix of a stream of sendable frames: a whole number of payloads comes out, in
      order, and what stays is less than one frame. */
  lemma DrainPrefix(ps: seq<seq<byte>>, n: nat) returns (m: nat)
    requires Sendable(ps) && n <= |Frames(ps)|
    ensures m <= |ps| && Drain(Frames(ps)[..n]).0 == ps[..m]
    ensures Frames(ps)[..n] == Frames(ps[..m]) + Drain(Frames(ps)[..n]).1
    ensures |Drain(Frames(ps)[..n]).1| < CAPACITY
    ensures n == |Frames(ps)| ==> m == |ps| && Drain(Frames(ps)[..n]).1 == []
  {
    hide Drain, Frame, NextFrame;
    var k;
    m, k := SplitPrefix(ps, n);
    assert Sendable(ps[..m]);
    if m < |ps| {
      KeepsPartialFrame(ps[m], k);
      DrainFrames(ps[..m], Frame(ps[m])[..k]);
      FramesLonger(ps, m);
    } else {
      assert ps[..m] == ps;
      KeepsNothing();
      DrainFrames(ps, []);
    }
  }

  lemma KeepsNothing()
    ensures NextFrame([]) == Wait([])
  {
  }

  lemma {:induction false} FramesConcat(ps: seq<seq<byte>>, qs: seq<seq<byte>>)
    ensures Frames(ps + qs) == Frames(ps) + Frames(qs)
  {
    hide Frame;
    if ps == [] {
      assert ps + qs == qs;
    } else {
      FramesConcat(ps[1..], qs);
      assert (ps + qs)[1..] == ps[1..] + qs;
    }
  }

  lemma FramesLonger(ps: seq<seq<byte>>, m: nat)
    requires m < |ps|
    ensures |Frames(ps)| >= |Frames(ps[..m])| + |Frame(ps[m])|
  {
    hide Frame;
    FramesConcat(ps[..m], ps[m..]);
    assert ps == ps[..m] + ps[m..];
  }

  lemma SkipsToMagic(c: seq<byte>, k: nat)
    requires 1 <= k && MagicAt(c, k) && HEADER_SIZE <= |c| && forall i :: 0 <= i < k ==> !MagicAt(c, i)
    ensures NextFrame(c) == NextFrame(c[k..])
  {
    hide ReadLE, MagicAt;
    assert FindMagic(c, 1) == k by { assert k < |c| by { MagicInside(c, k); } }
  }

  lemma MagicInside(c: seq<byte>, k: nat)
    requires MagicAt(c, k)
    ensures k + 1 < |c|
  {
  }

  lemma MagicOfPrefix(c: seq<byte>, d: seq<byte>, i: nat)
    requires i + 1 < |c|
    ensures MagicAt(c + d, i) <==> MagicAt(c, i)
  {
  }

  /** Garbage in front of a frame is skipped when no magic starts inside it. */
  lemma ResyncRecovers(garbage: seq<byte>, p: seq<byte>, rest: seq<byte>)
    requires |p| <= MAX_MESSAGE_SIZE
    requires forall i :: 0 <= i < |garbage| ==> !MagicAt(garbage + Frame(p), i)
    ensures NextFrame(garbage + Frame(p) + rest) == Payload(p, rest)
  {
    hide ReadLE, Frame, MagicAt, NextFrame;
    var c := garbage + Frame(p) + rest;
    FrameHeader(p, rest);
    TakesWholeFrame(p, rest);
    assert c[|garbage|..] == Frame(p) + rest;
    if garbage != [] {
      MagicAfter(garbage, Frame(p) + rest);
      assert garbage + (Frame(p) + rest) == c;
      forall i | 0 <= i < |garbage| ensures !MagicAt(c, i) {
        MagicOfPrefix(garbage + Frame(p), rest, i);
      }
      SkipsToMagic(c, |garbage|);
    } else {
      assert c == Frame(p) + rest;
    }
  }

  lemma MagicAfter(front: seq<byte>, c: seq<byte>)
    requires MagicAt(c, 0)
    ensures MagicAt(front + c, |front|)
  {
  }

  /** No magic starts in garbage that runs into a frame, so none starts there in the part read so far. */
  lemma NoMagicInPart(garbage: seq<byte>, p: seq<byte>, k: nat, i: nat)
    requires k <= |Frame(p)| && i < |garbage| && !MagicAt(garbage + Frame(p), i)
    ensures !MagicAt(garbage + Frame(p)[..k], i)
  {
  }

  /** With both magic bytes there, the garbage goes and the part of the frame stays. */
  lemma CutAfterMagic(garbage: seq<byte>, p: seq<byte>, k: nat)
    requires |p| <= MAX_MESSAGE_SIZE && 2 <= k < |Frame(p)| && garbage != [] && |garbage| + k >= HEADER_SIZE
    requires forall i :: 0 <= i < |garbage| ==> !MagicAt(garbage + Frame(p)[..k], i)
    ensures NextFrame(garbage + Frame(p)[..k]) == Wait(Frame(p)[..k])
  {
    hide ReadLE, Frame, MagicAt, NextFrame;
    var part := Frame(p)[..k];
    FrameHeader(p, []);
    assert Frame(p) + [] == Frame(p) == part + Frame(p)[k..];
    MagicOfPrefix(part, Frame(p)[k..], 0);
    MagicAfter(garbage, part);
    SkipsToMagic(garbage + part, |garbage|);
    assert (garbage + part)[|garbage|..] == part;
    KeepsPartialFrame(p, k);
  }

  /** A buffer without the magic is dropped. */
  lemma NoMagicDropsAll(c: seq<byte>)
    requires |c| >= HEADER_SIZE && forall i :: 0 <= i < |c| - 1 ==> !MagicAt(c, i)
    ensures NextFrame(c) == Wait([])
  {
    hide ReadLE, MagicAt;
    var m := FindMagic(c, 1);
    if m < |c| { MagicInside(c, m); }
  }

  /** Garbage, then a frame of which a read has brought the first `k` bytes: with less than a header everything
      stays; otherwise the garbage goes, and with it a lone first magic byte. */
  lemma CutFrameKept(garbage: seq<byte>, p: seq<byte>, k: nat)
    requires |p| <= MAX_MESSAGE_SIZE && k < |Frame(p)| && garbage != []
    requires forall i :: 0 <= i < |garbage| ==> !MagicAt(garbage + Frame(p), i)
    ensures NextFrame(garbage + Frame(p)[..k]) ==
            Wait(if |garbage| + k < HEADER_SIZE then garbage + Frame(p)[..k] else if k == 1 then [] else Frame(p)[..k])
  {
    hide Frame, MagicAt, NextFrame;
    var c := garbage + Frame(p)[..k];
    forall i | 0 <= i < |garbage| ensures !MagicAt(c, i) { NoMagicInPart(garbage, p, k, i); }
    if |c| < HEADER_SIZE {
      KeepsShort(c);
    } else if k >= 2 {
      CutAfterMagic(garbage, p, k);
    } else {
      NoMagicDropsAll(c);
    }
  }

  lemma KeepsShort(c: seq<byte>)
    requires |c| < HEADER_SIZE
    ensures NextFrame(c) == Wait(c)
  {
  }

  /** The shortest such loss. */
  lemma SplitMagicIsLost()
    ensures NextFrame([0, 0, 0, 0, 0, MAGIC[0]]) == Wait([])
  {
    var c: seq<byte> := [0, 0, 0, 0, 0, 0x44];
    assert FindMagic(c, 1) == |c|;
  }
}
