/** The scalar formats of the MessagePack specification, byte by byte, as the decoder reads them. */
module MsgpackFormats {
  import opened Bytes
  import opened Msgpack

  /** One byte: positive and negative fixint, nil, false, true, and the bytes that are no format here. */
  lemma OneByte(x: byte)
    ensures x <= 0x7f ==> Decode([x]) == Ok(UInt(x), 1)
    ensures x >= 0xe0 ==> Decode([x]) == Ok(Int(x - 0x100), 1)
    ensures Decode([0xc0]) == Ok(Nil, 1) && Decode([0xc2]) == Ok(Boolean(false), 1)
    ensures Decode([0xc3]) == Ok(Boolean(true), 1)
    ensures x in {0xc1, 0xc4, 0xc5, 0xc6, 0xc7, 0xc8, 0xc9, 0xca, 0xcb, 0xd4, 0xd5, 0xd6, 0xd7, 0xd8, 0xdb, 0xdd, 0xdf}
            ==> Decode([x]) == UnsupportedType
  {
    hide Skip;
  }

  /** uint 8, 16 and 32, most significant byte first. */
  lemma Unsigned32(a: byte, b: byte, c: byte, d: byte)
    ensures Decode([0xcc, a]) == Ok(UInt(a), 2)
    ensures Decode([0xcd, a, b]) == Ok(UInt(0x100 * a + b), 3)
    ensures Decode([0xce, a, b, c, d]) == Ok(UInt(0x100_0000 * a + 0x1_0000 * b + 0x100 * c + d), 5)
  {
    hide ReadBE;
    OrdersMean(a, b, c, d);
    OneByteMeans(a);
    var one, two, four := [0xcc, a], [0xcd, a, b], [0xce, a, b, c, d];
    assert one[1..2] == [a];
    assert two[1..3] == [a, b];
    assert four[1..5] == [a, b, c, d];
  }

  /** int 8, 16 and 32: the same bytes, in two's complement. */
  lemma Signed32(a: byte, b: byte, c: byte, d: byte)
    ensures Decode([0xd0, a]) == Ok(Int(if a < 0x80 then a else a - 0x100), 2)
    ensures var n := 0x100 * a + b; Decode([0xd1, a, b]) == Ok(Int(if a < 0x80 then n else n - 0x1_0000), 3)
    ensures var n := 0x100_0000 * a + 0x1_0000 * b + 0x100 * c + d;
            Decode([0xd2, a, b, c, d]) == Ok(Int(if a < 0x80 then n else n - 0x1_0000_0000), 5)
  {
    hide ReadBE, Pow256;
    Widths();
    OrdersMean(a, b, c, d);
    OneByteMeans(a);
    var one, two, four := [0xd0, a], [0xd1, a, b], [0xd2, a, b, c, d];
    assert one[1..2] == [a];
    assert two[1..3] == [a, b];
    assert four[1..5] == [a, b, c, d];
  }

  lemma EightBytes(bs: seq<byte>)
    requires |bs| == 8
    ensures Decode([0xcf] + bs) == Ok(UInt(ReadBE(bs)), 9) && Decode([0xd3] + bs) == Ok(Int(Signed(ReadBE(bs), 8)), 9)
  {
    hide ReadBE, Signed;
    assert ([0xcf] + bs)[1..9] == bs && ([0xd3] + bs)[1..9] == bs;
  }

  /** uint 64 and int 64, as two halves. */
  lemma Wide64(hi: seq<byte>, lo: seq<byte>)
    requires |hi| == |lo| == 4
    ensures var n := 0x1_0000_0000 * ReadBE(hi) + ReadBE(lo);
            && Decode([0xcf] + hi + lo) == Ok(UInt(n), 9)
            && Decode([0xd3] + hi + lo) == Ok(Int(if hi[0] < 0x80 then n else n - 0x1_0000_0000_0000_0000), 9)
  {
    hide ReadBE, Pow256, Decode;
    Widths();
    HalvesMean(hi, lo);
    TopBit(hi);
    EightBytes(hi + lo);
    assert [0xcf] + (hi + lo) == [0xcf] + hi + lo && [0xd3] + (hi + lo) == [0xd3] + hi + lo;
  }

  /** fixstr, str 8 and str 16: the length in bytes, then the bytes; what follows is not touched. */
  lemma Strings(s: seq<byte>, a: byte, b: byte, rest: seq<byte>)
    ensures |s| <= 31 ==> Decode([0xa0 + |s|] + s + rest) == Ok(Str(s), 1 + |s|)
    ensures |s| == a ==> Decode([0xd9, a] + s + rest) == Ok(Str(s), 2 + |s|)
    ensures |s| == 0x100 * a + b ==> Decode([0xda, a, b] + s + rest) == Ok(Str(s), 3 + |s|)
  {
    hide ReadBE;
    OrdersMean(a, b, 0, 0);
    OneByteMeans(a);
    if |s| <= 31 { assert ([0xa0 + |s|] + s + rest)[1..1 + |s|] == s; }
    if |s| == a {
      var buf := [0xd9, a] + s + rest;
      assert buf[1..2] == [a] && buf[2..2 + |s|] == s;
    }
    if |s| == 0x100 * a + b {
      var buf := [0xda, a, b] + s + rest;
      assert buf[1..3] == [a, b] && buf[3..3 + |s|] == s;
    }
  }

  lemma OneByteMeans(a: byte)
    ensures ReadBE([a]) == a
  {
    assert [a][..0] == [];
  }

  lemma HalvesMean(hi: seq<byte>, lo: seq<byte>)
    requires |lo| == 4
    ensures ReadBE(hi + lo) == 0x1_0000_0000 * ReadBE(hi) + ReadBE(lo)
  {
    var a := hi + lo;
    assert a[..|hi| + 3] == hi + lo[..3] && a[..|hi| + 3][..|hi| + 2] == hi + lo[..2];
    assert (hi + lo[..2])[..|hi| + 1] == hi + lo[..1] && (hi + lo[..1])[..|hi|] == hi;
    assert lo[..3][..2] == lo[..2] && lo[..2][..1] == lo[..1] && lo[..1][..0] == [];
    assert ReadBE(lo[..1]) == lo[0];
    assert ReadBE(hi + lo[..1]) == 0x100 * ReadBE(hi) + lo[0];
    assert ReadBE(hi + lo[..2]) == 0x1_0000 * ReadBE(hi) + ReadBE(lo[..2]);
    assert ReadBE(hi + lo[..3]) == 0x100_0000 * ReadBE(hi) + ReadBE(lo[..3]);
  }

  lemma TopBit(hi: seq<byte>)
    requires |hi| == 4
    ensures ReadBE(hi) < 0x1_0000_0000 && (hi[0] < 0x80 <==> ReadBE(hi) < 0x8000_0000)
  {
    hide ReadBE;
    OrdersMean(hi[0], hi[1], hi[2], hi[3]);
    assert hi == [hi[0], hi[1], hi[2], hi[3]];
  }
}
