/** Why the decoder refuses: a buffer is cut short exactly when more bytes can complete it. */
module MsgpackErrors {
  import opened Bytes
  import opened Msgpack
  import opened MsgpackProofs

  /** A refusal for an unknown tag stands whatever follows. */
  lemma {:induction false} UnsupportedStays(buf: seq<byte>, tail: seq<byte>)
    requires Decode(buf) == UnsupportedType
    ensures Decode(buf + tail) == UnsupportedType
    decreases |buf|, 1
  {
    hide ReadBE;
    var all := buf + tail;
    assert all[0] == buf[0] && all[1..] == buf[1..] + tail;
    if 0x80 <= buf[0] <= 0x8f {
      SkipUnsupportedStays(buf[1..], 2 * (buf[0] - 0x80), tail);
    } else if 0x90 <= buf[0] <= 0x9f {
      SkipUnsupportedStays(buf[1..], buf[0] - 0x90, tail);
    } else if buf[0] == 0xdc || buf[0] == 0xde {
      WideUnsupportedStays(buf, tail);
    }
  }

  /** The number of values a wide array or map announces. */
  function WideCount(tag: byte, size: seq<byte>): nat { if tag == 0xdc then ReadBE(size) else 2 * ReadBE(size) }

  lemma WideUnsupportedStays(buf: seq<byte>, tail: seq<byte>)
    requires Decode(buf) == UnsupportedType && buf != [] && (buf[0] == 0xdc || buf[0] == 0xde)
    ensures Decode(buf + tail) == UnsupportedType
    decreases |buf|, 0
  {
    hide WideCount, Skip, Decode;
    var all := buf + tail;
    WideNeedsCount(buf);
    WideDecodes(buf);
    WideDecodes(all);
    assert all[0] == buf[0] && all[1..3] == buf[1..3] && all[3..] == buf[3..] + tail;
    SkipUnsupportedStays(buf[3..], WideCount(buf[0], buf[1..3]), tail);
  }

  lemma WideNeedsCount(buf: seq<byte>)
    requires Decode(buf) == UnsupportedType && buf != [] && (buf[0] == 0xdc || buf[0] == 0xde)
    ensures |buf| >= 3
  {
    hide Skip, ReadBE;
  }

  lemma {:induction false} SkipUnsupportedStays(buf: seq<byte>, count: nat, tail: seq<byte>)
    requires Skip(buf, count) == UnsupportedType
    ensures Skip(buf + tail, count) == UnsupportedType
    decreases |buf|, count + 2
  {
    var first := Decode(buf);
    if first == UnsupportedType {
      UnsupportedStays(buf, tail);
    } else {
      OkStays(buf, tail);
      assert (buf + tail)[first.consumed..] == buf[first.consumed..] + tail;
      SkipUnsupportedStays(buf[first.consumed..], count - 1, tail);
    }
  }

  lemma OkStays(buf: seq<byte>, tail: seq<byte>)
    requires Decode(buf).Ok?
    ensures Decode(buf + tail) == Decode(buf)
  {
    hide Decode;
    var n := Decode(buf).consumed;
    DependsOnlyOnConsumed(buf, buf[n..] + tail);
    assert buf[..n] + (buf[n..] + tail) == buf + tail;
  }

  // ---------- completing a buffer ----------

  function Zeros(n: nat): seq<byte> { seq(n, i => 0) }

  lemma ZeroDecodes(n: nat)
    requires n > 0
    ensures Decode(Zeros(n)) == Ok(UInt(0), 1) && Zeros(n)[1..] == Zeros(n - 1)
  {
  }

  lemma {:induction false} ZerosSkip(n: nat, count: nat)
    requires count <= n
    ensures Skip(Zeros(n), count) == Ok(Nil, count)
  {
    hide Decode;
    if count > 0 {
      ZeroDecodes(n);
      ZerosSkip(n - 1, count - 1);
    }
  }

  /** What is decoded only with more bytes takes some of them. */
  lemma TakesMore(buf: seq<byte>, n: nat)
    requires !Decode(buf).Ok? && Decode(buf + Zeros(n)).Ok?
    ensures Decode(buf + Zeros(n)).consumed > |buf|
  {
    hide Decode, Zeros;
    var all := buf + Zeros(n);
    var m := Decode(all).consumed;
    if m <= |buf| {
      assert all[..m] == buf[..m] && buf[..m] + buf[m..] == buf;
      DependsOnlyOnConsumed(all, buf[m..]);
      assert false;
    }
  }

  /** A container whose values are cut short is completed with zeros. */
  lemma {:induction false} SkipCompletes(buf: seq<byte>, count: nat) returns (n: nat)
    requires Skip(buf, count) == UnexpectedEof
    ensures Skip(buf + Zeros(n), count).Ok?
    decreases |buf|, count + 1
  {
    hide Zeros, Decode;
    SkipFails(buf, count);
    var first := Decode(buf);
    if first.Ok? {
      n := SkipCompletes(buf[first.consumed..], count - 1);
      OkStays(buf, Zeros(n));
      assert (buf + Zeros(n))[first.consumed..] == buf[first.consumed..] + Zeros(n);
      SkipSucceeds(buf + Zeros(n), count);
    } else {
      var k := Completes(buf);
      n := k + count;
      FirstThenZeros(buf, k, count);
    }
  }

  lemma SkipFails(buf: seq<byte>, count: nat)
    requires Skip(buf, count) == UnexpectedEof
    ensures count > 0
    ensures var first := Decode(buf);
            if first.Ok? then Skip(buf[first.consumed..], count - 1) == UnexpectedEof else first == UnexpectedEof
  {
    hide Decode;
  }

  lemma SkipSucceeds(buf: seq<byte>, count: nat)
    requires count > 0 && Decode(buf).Ok? && Skip(buf[Decode(buf).consumed..], count - 1).Ok?
    ensures Skip(buf, count).Ok?
  {
    hide Decode;
  }

  /** Once enough zeros complete the first value, more zeros are the other ones. */
  lemma FirstThenZeros(buf: seq<byte>, k: nat, count: nat)
    requires count > 0 && !Decode(buf).Ok? && Decode(buf + Zeros(k)).Ok?
    ensures Skip(buf + Zeros(k + count), count).Ok?
  {
    hide Zeros, Decode, Skip;
    var n := k + count;
    TakesMore(buf, k);
    var some, all := buf + Zeros(k), buf + Zeros(n);
    ZerosSum(k, count);
    assert all == some + Zeros(count);
    OkStays(some, Zeros(count));
    var m := Decode(some).consumed;
    ZerosSlice(n, m - |buf|);
    assert all[m..] == Zeros(n)[m - |buf|..];
    ZerosSkip(n - (m - |buf|), count - 1);
    SkipSucceeds(all, count);
  }

  lemma ZerosSum(a: nat, b: nat)
    ensures Zeros(a + b) == Zeros(a) + Zeros(b) && |Zeros(a)| == a
  {
  }

  lemma ZerosSlice(n: nat, m: nat)
    requires m <= n
    ensures |Zeros(n)| == n && Zeros(n)[m..] == Zeros(n - m)
  {
  }

  lemma ShortCompletes(buf: seq<byte>)
    requires Decode(buf) == UnexpectedEof && buf != [] && !(0x80 <= buf[0] <= 0x9f) && buf[0] != 0xdc && buf[0] != 0xde
    ensures Decode(buf + Zeros(0x1_0003)).Ok?
  {
    hide ReadBE, Zeros, Pow256;
    var all := buf + Zeros(0x1_0003);
    ZerosSum(0x1_0003, 0);
    assert all[0] == buf[0] && |all| >= 0x1_0003;
    Widths();
    if buf[0] == 0xd9 { assert ReadBE(all[1..2]) < Pow256(1); }
    if buf[0] == 0xda { assert ReadBE(all[1..3]) < Pow256(2); }
  }

  /** A cut-short buffer is completed with zeros. */
  lemma {:induction false} Completes(buf: seq<byte>) returns (n: nat)
    requires Decode(buf) == UnexpectedEof
    ensures Decode(buf + Zeros(n)).Ok?
    decreases |buf|, 0
  {
    hide ReadBE, Zeros;
    if buf == [] {
      n := 1;
      ZeroDecodes(1);
      assert buf + Zeros(1) == Zeros(1);
    } else if 0x80 <= buf[0] <= 0x9f {
      var count := if buf[0] <= 0x8f then 2 * (buf[0] - 0x80) else buf[0] - 0x90;
      n := SkipCompletes(buf[1..], count);
      assert (buf + Zeros(n))[1..] == buf[1..] + Zeros(n);
    } else if buf[0] == 0xdc || buf[0] == 0xde {
      n := WideCompletes(buf);
    } else {
      n := 0x1_0003;
      ShortCompletes(buf);
    }
  }

  lemma WideDecodes(buf: seq<byte>)
    requires |buf| >= 3 && (buf[0] == 0xdc || buf[0] == 0xde)
    ensures Decode(buf) == Shifted(Skip(buf[3..], WideCount(buf[0], buf[1..3])), 3)
  {
    hide ReadBE;
    if buf[0] == 0xdc {
      assert Decode(buf) == Shifted(Skip(buf[3..], ReadBE(buf[1..3])), 3);
    } else {
      assert Decode(buf) == Shifted(Skip(buf[3..], 2 * ReadBE(buf[1..3])), 3);
    }
  }

  lemma {:induction false} WideCompletes(buf: seq<byte>) returns (n: nat)
    requires Decode(buf) == UnexpectedEof && buf != [] && (buf[0] == 0xdc || buf[0] == 0xde)
    ensures Decode(buf + Zeros(n)).Ok?
    decreases |buf|, 0, 0
  {
    hide ReadBE, Zeros, Decode;
    if |buf| >= 3 {
      WideDecodes(buf);
      n := SkipCompletes(buf[3..], WideCount(buf[0], buf[1..3]));
      assert (buf + Zeros(n))[1..3] == buf[1..3] && (buf + Zeros(n))[3..] == buf[3..] + Zeros(n);
      WideDecodes(buf + Zeros(n));
    } else {
      var head := (buf + Zeros(2))[1..3] by { ZerosSum(2, 0); }
      var count := WideCount(buf[0], head);
      var pad := 3 - |buf|;
      n := pad + count;
      var all := buf + Zeros(n);
      ZerosSum(pad, count);
      ZerosSum(2, 0);
      ZerosHead(buf, n);
      assert all[3..] == Zeros(count);
      ZerosSkip(count, count);
      WideDecodes(all);
    }
  }

  lemma ZerosHead(buf: seq<byte>, n: nat)
    requires 1 <= |buf| < 3 && n >= 3 - |buf|
    ensures |buf + Zeros(n)| >= 3 && (buf + Zeros(n))[1..3] == (buf + Zeros(2))[1..3]
  {
    assert forall i :: 1 <= i < 3 ==> (buf + Zeros(n))[i] == (buf + Zeros(2))[i];
  }

  /** The decoder says that a buffer is cut short exactly when it does not decode it but some continuation, and that a
      type is unsupported exactly when no continuation helps. */
  lemma RefusalExactly(buf: seq<byte>)
    ensures Decode(buf) == UnexpectedEof <==> !Decode(buf).Ok? && exists tail :: Decode(buf + tail).Ok?
    ensures Decode(buf) == UnsupportedType <==> forall tail :: !Decode(buf + tail).Ok?
  {
    hide Decode;
    assert buf + [] == buf;
    if Decode(buf) == UnexpectedEof {
      var n := Completes(buf);
    } else if Decode(buf) == UnsupportedType {
      forall tail ensures !Decode(buf + tail).Ok? { UnsupportedStays(buf, tail); }
    } else {
      assert Decode(buf + []).Ok?;
    }
  }
}
