/** The decoder accepts exactly the encodings of wire values and reads back what they mean. */
module MsgpackProofs {
  import opened Bytes
  import opened Msgpack

  lemma SignedUnsigned(i: int, width: nat)
    requires 0 <= 2 * i + Pow256(width) && 2 * i < Pow256(width)
    ensures 0 <= Unsigned(i, width) < Pow256(width) && Signed(Unsigned(i, width), width) == i
  {
  }

  lemma UnsignedSigned(n: nat, width: nat)
    requires n < Pow256(width)
    ensures var i := Signed(n, width);
            0 <= 2 * i + Pow256(width) && 2 * i < Pow256(width) && Unsigned(i, width) == n
  {
  }

  lemma ScalarRoundTrip(w: Wire, tail: seq<byte>)
    requires Valid(w) && !w.WArr? && !w.WMap?
    ensures Decode(Encode(w) + tail) == Ok(Meaning(w), |Encode(w)|)
  {
    hide ReadBE, WriteBE, Pow256, Skip;
    var buf := Encode(w) + tail;
    match w
    case WNil =>
    case WBool(_) =>
    case WUint(n, width) =>
      if width != 0 {
        ReadWriteBE(n, width);
        assert buf[1..1 + width] == WriteBE(n, width);
      }
    case WInt(i, width) =>
      if width != 0 {
        SignedUnsigned(i, width);
        ReadWriteBE(Unsigned(i, width), width);
        assert buf[1..1 + width] == WriteBE(Unsigned(i, width), width);
      }
    case WStr(s, width) =>
      if width == 0 {
        assert buf[1..1 + |s|] == s;
      } else {
        ReadWriteBE(|s|, width);
        assert buf[1..1 + width] == WriteBE(|s|, width);
        assert buf[1 + width..1 + width + |s|] == s;
      }
  }

  /** Decoding inverts encoding, whatever follows. */
  lemma {:induction false} RoundTrip(w: Wire, tail: seq<byte>)
    requires Valid(w)
    ensures Decode(Encode(w) + tail) == Ok(Meaning(w), |Encode(w)|)
    decreases w, 1
  {
    hide Encode, Decode, Skip, EncodeAll;
    match w
    case WArr(items, wide) =>
      SkipRoundTrip(items, tail);
      ContainerRoundTrip(w, tail);
    case WMap(items, wide) =>
      SkipRoundTrip(items, tail);
      ContainerRoundTrip(w, tail);
    case _ =>
      ScalarRoundTrip(w, tail);
  }

  lemma ContainerRoundTrip(w: Wire, tail: seq<byte>)
    requires Valid(w) && (w.WArr? || w.WMap?)
    requires Skip(EncodeAll(w.items) + tail, |w.items|) == Ok(Nil, |EncodeAll(w.items)|)
    ensures Decode(Encode(w) + tail) == Ok(Nil, |Encode(w)|)
  {
    hide ReadBE, WriteBE, Skip, EncodeAll;
    var count := if w.WArr? then |w.items| else |w.items| / 2;
    var header := if w.WArr? then CountHeader(count, w.wide, 0x90, 0xdc) else CountHeader(count, w.wide, 0x80, 0xde);
    var buf := Encode(w) + tail;
    assert buf == header + (EncodeAll(w.items) + tail);
    assert buf[|header|..] == EncodeAll(w.items) + tail;
    if w.wide {
      Widths();
      hide Pow256;
      ReadWriteBE(count, 2);
      assert buf[1..3] == WriteBE(count, 2);
    }
  }

  lemma {:induction false} SkipRoundTrip(items: seq<Wire>, tail: seq<byte>)
    requires forall x :: x in items ==> Valid(x)
    ensures Skip(EncodeAll(items) + tail, |items|) == Ok(Nil, |EncodeAll(items)|)
    decreases items, 0
  {
    hide Encode, Decode;
    if items != [] {
      var rest := EncodeAll(items[1..]) + tail;
      var buf := EncodeAll(items) + tail;
      assert buf == Encode(items[0]) + rest;
      RoundTrip(items[0], rest);
      assert buf[|Encode(items[0])|..] == rest;
      SkipRoundTrip(items[1..], tail);
    }
  }

  // ---------- only encodings are accepted ----------

  /** The tags that introduce arrays and maps. */
  predicate ContainerTag(tag: byte) { 0x80 <= tag <= 0x9f || tag == 0xdc || tag == 0xde }

  lemma ScalarParsed(buf: seq<byte>) returns (w: Wire)
    requires buf != [] && Decode(buf).Ok? && !ContainerTag(buf[0])
    ensures Valid(w) && Encode(w) == buf[..Decode(buf).consumed] && Meaning(w) == Decode(buf).value
  {
    hide ReadBE, WriteBE, Pow256, Skip;
    var tag: int := buf[0];
    if tag <= 0x7f {
      w := WUint(tag, 0);
    } else if tag >= 0xe0 {
      w := WInt(tag - 256, 0);
    } else if tag <= 0xbf {
      w := WStr(buf[1..1 + (tag - 0xa0)], 0);
    } else if tag == 0xc0 {
      w := WNil;
    } else if tag <= 0xc3 {
      w := WBool(tag == 0xc3);
    } else if tag <= 0xcf {
      w := UintParsed(buf, if tag == 0xcc then 1 else if tag == 0xcd then 2 else if tag == 0xce then 4 else 8);
    } else if tag <= 0xd3 {
      w := IntParsed(buf, if tag == 0xd0 then 1 else if tag == 0xd1 then 2 else if tag == 0xd2 then 4 else 8);
    } else {
      w := StrParsed(buf, if tag == 0xd9 then 1 else 2);
    }
  }

  lemma UintParsed(buf: seq<byte>, width: nat) returns (w: Wire)
    requires IntWidth(width) && |buf| >= 1 + width && buf[0] == UintTag(width)
    ensures Valid(w) && Encode(w) == buf[..1 + width] && Meaning(w) == DecodeUint(buf, width).value
  {
    hide ReadBE, WriteBE, Pow256;
    var bs := buf[1..1 + width];
    WriteReadBE(bs);
    w := WUint(ReadBE(bs), width);
    assert buf[..1 + width] == [buf[0]] + bs;
  }

  lemma IntParsed(buf: seq<byte>, width: nat) returns (w: Wire)
    requires IntWidth(width) && |buf| >= 1 + width && buf[0] == IntTag(width)
    ensures Valid(w) && Encode(w) == buf[..1 + width] && Meaning(w) == DecodeInt(buf, width).value
  {
    hide ReadBE, WriteBE, Pow256;
    var bs := buf[1..1 + width];
    WriteReadBE(bs);
    UnsignedSigned(ReadBE(bs), width);
    w := WInt(Signed(ReadBE(bs), width), width);
    assert buf[..1 + width] == [buf[0]] + bs;
  }

  lemma StrParsed(buf: seq<byte>, width: nat) returns (w: Wire)
    requires width == 1 || width == 2
    requires buf != [] && buf[0] == (if width == 1 then 0xd9 else 0xda) && DecodeStr(buf, width).Ok?
    ensures Valid(w) && Encode(w) == buf[..DecodeStr(buf, width).consumed]
    ensures Meaning(w) == DecodeStr(buf, width).value
  {
    hide ReadBE, WriteBE, Pow256;
    var bs := buf[1..1 + width];
    WriteReadBE(bs);
    var s := buf[1 + width..1 + width + ReadBE(bs)];
    w := WStr(s, width);
    assert buf[..1 + width + |s|] == [buf[0]] + bs + s;
  }

  /** Whatever the decoder accepts is the encoding of a valid wire value with that meaning. */
  lemma {:induction false} Parsed(buf: seq<byte>) returns (w: Wire)
    requires Decode(buf).Ok?
    ensures Valid(w) && Encode(w) == buf[..Decode(buf).consumed] && Meaning(w) == Decode(buf).value
    decreases |buf|, 0
  {
    hide Encode, Skip, EncodeAll, ReadBE, Pow256, DecodeUint, DecodeInt, DecodeStr;
    if !ContainerTag(buf[0]) {
      w := ScalarParsed(buf);
    } else {
      var tag: int := buf[0];
      var wide, isMap := tag >= 0xdc, tag <= 0x8f || tag == 0xde;
      var header := if wide then 3 else 1;
      var count := if wide then ReadBE(buf[1..3]) else if isMap then tag - 0x80 else tag - 0x90;
      var n := if isMap then 2 * count else count;
      assert Decode(buf) == Shifted(Skip(buf[header..], n), header);
      var items := SkipParsed(buf[header..], n);
      w := if isMap then WMap(items, wide) else WArr(items, wide);
      ContainerParsed(buf, w, count, header, Skip(buf[header..], n).consumed);
    }
  }

  lemma ContainerParsed(buf: seq<byte>, w: Wire, count: nat, header: nat, size: nat)
    requires w.WArr? || w.WMap?
    requires (forall x :: x in w.items ==> Valid(x)) && |w.items| == if w.WMap? then 2 * count else count
    requires header == (if w.wide then 3 else 1) && header + size <= |buf|
    requires EncodeAll(w.items) == buf[header..][..size]
    requires if w.wide then buf[0] == (if w.WMap? then 0xde else 0xdc) && count == ReadBE(buf[1..3])
             else buf[0] == (if w.WMap? then 0x80 else 0x90) + count && count < 16
    ensures Valid(w) && Encode(w) == buf[..header + size]
  {
    hide ReadBE, WriteBE, EncodeAll;
    if w.wide {
      Widths();
      WriteReadBE(buf[1..3]);
      assert buf[..header + size] == [buf[0]] + buf[1..3] + buf[header..][..size];
    } else {
      assert buf[..header + size] == [buf[0]] + buf[header..][..size];
    }
  }

  lemma {:induction false} SkipParsed(buf: seq<byte>, count: nat) returns (items: seq<Wire>)
    requires Skip(buf, count).Ok?
    ensures |items| == count && (forall x :: x in items ==> Valid(x))
    ensures EncodeAll(items) == buf[..Skip(buf, count).consumed]
    decreases |buf|, count + 1
  {
    hide Encode, Decode;
    if count == 0 {
      items := [];
    } else {
      var w := Parsed(buf);
      var c := Decode(buf).consumed;
      var rest := SkipParsed(buf[c..], count - 1);
      items := [w] + rest;
      assert items[1..] == rest;
      var d := Skip(buf[c..], count - 1).consumed;
      assert buf[..c + d] == buf[..c] + buf[c..][..d];
    }
  }

  /** `decode` accepts a buffer exactly when it starts with the encoding of a wire value,
      and then returns that value's meaning and length. */
  lemma DecodeExactly(buf: seq<byte>, v: Value, n: nat)
    ensures Decode(buf) == Ok(v, n) <==>
            n <= |buf| && exists w :: Valid(w) && Encode(w) == buf[..n] && Meaning(w) == v
  {
    hide Encode, Decode, Meaning, Valid;
    if Decode(buf) == Ok(v, n) {
      var w := Parsed(buf);
    }
    if n <= |buf| {
      forall w | Valid(w) && Encode(w) == buf[..n] && Meaning(w) == v
        ensures Decode(buf) == Ok(v, n)
      {
        RoundTrip(w, buf[n..]);
        assert buf == Encode(w) + buf[n..];
      }
    }
  }

  /** The result depends only on the bytes consumed. */
  lemma DependsOnlyOnConsumed(buf: seq<byte>, tail: seq<byte>)
    requires Decode(buf).Ok?
    ensures Decode(buf[..Decode(buf).consumed] + tail) == Decode(buf)
  {
    hide Encode, Decode, Meaning, Valid;
    var w := Parsed(buf);
    RoundTrip(w, tail);
  }
}
