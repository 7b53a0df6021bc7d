/** The decoding loops of the init side and the lookup of a map field. */
module MsgpackReader {
  import opened Common
  import opened Bytes
  import opened Msgpack
  import opened MsgpackProofs

  // ---------- decode, decodeMap, decodeArray ----------

  method DecodeArray(buf: seq<byte>, count: nat, headerSize: nat) returns (r: Decoded)
    ensures r == Shifted(Skip(buf, count), headerSize)
    decreases |buf|, 1
  {
    hide Decode, Skip;
    var offset: nat, i: nat := 0, 0;
    ghost var whole := Skip(buf, count);
    assert buf[0..] == buf;
    while i < count
      invariant i <= count && offset <= |buf|
      invariant whole == Shifted(Skip(buf[offset..], count - i), offset)
    {
      SkipUnfold(buf[offset..], count - i);
      var item := DecodeBuffer(buf[offset..]);
      if !item.Ok? {
        return item;
      }
      assert buf[offset..][item.consumed..] == buf[offset + item.consumed..];
      offset := offset + item.consumed;
      i := i + 1;
    }
    SkipNothing(buf[offset..]);
    r := Ok(Nil, headerSize + offset);
  }

  method DecodeMap(buf: seq<byte>, count: nat, headerSize: nat) returns (r: Decoded)
    ensures r == Shifted(Skip(buf, 2 * count), headerSize)
    decreases |buf|, 1
  {
    hide Decode, Skip;
    var offset: nat, i: nat := 0, 0;
    ghost var whole := Skip(buf, 2 * count);
    assert buf[0..] == buf;
    while i < count
      invariant i <= count && offset <= |buf|
      invariant whole == Shifted(Skip(buf[offset..], 2 * (count - i)), offset)
    {
      SkipUnfold(buf[offset..], 2 * (count - i));
      var key := DecodeBuffer(buf[offset..]);
      if !key.Ok? {
        return key;
      }
      assert buf[offset..][key.consumed..] == buf[offset + key.consumed..];
      offset := offset + key.consumed;
      SkipUnfold(buf[offset..], 2 * (count - i) - 1);
      var val := DecodeBuffer(buf[offset..]);
      if !val.Ok? {
        return val;
      }
      assert buf[offset..][val.consumed..] == buf[offset + val.consumed..];
      offset := offset + val.consumed;
      i := i + 1;
    }
    SkipNothing(buf[offset..]);
    r := Ok(Nil, headerSize + offset);
  }

  lemma SkipNothing(buf: seq<byte>)
    ensures Skip(buf, 0) == Ok(Nil, 0)
  {
  }

  lemma SkipUnfold(buf: seq<byte>, count: nat)
    requires count > 0
    ensures Skip(buf, count) ==
            if !Decode(buf).Ok? then Decode(buf)
            else Shifted(Skip(buf[Decode(buf).consumed..], count - 1), Decode(buf).consumed)
  {
  }

  /** `decode`, with its tag dispatch and its loops. */
  method DecodeBuffer(buf: seq<byte>) returns (r: Decoded)
    ensures r == Decode(buf)
    decreases |buf|, 0
  {
    hide Skip, ReadBE, DecodeUint, DecodeInt, DecodeStr;
    if |buf| == 0 {
      return UnexpectedEof;
    }
    var tag: int := buf[0];
    if 0x80 <= tag <= 0x8f {
      r := DecodeMap(buf[1..], tag - 0x80, 1);
    } else if 0x90 <= tag <= 0x9f {
      r := DecodeArray(buf[1..], tag - 0x90, 1);
    } else if tag == 0xdc {
      if |buf| < 3 {
        return UnexpectedEof;
      }
      r := DecodeArray(buf[3..], ReadBE(buf[1..3]), 3);
    } else if tag == 0xde {
      if |buf| < 3 {
        return UnexpectedEof;
      }
      r := DecodeMap(buf[3..], ReadBE(buf[1..3]), 3);
    } else if tag <= 0x7f {
      r := Ok(UInt(tag), 1);
    } else if tag >= 0xe0 {
      r := Ok(Int(tag - 256), 1);
    } else if tag <= 0xbf {
      var len := tag - 0xa0;
      r := if |buf| < 1 + len then UnexpectedEof else Ok(Str(buf[1..1 + len]), 1 + len);
    } else {
      match tag {
        case 0xc0 => r := Ok(Nil, 1);
        case 0xc2 => r := Ok(Boolean(false), 1);
        case 0xc3 => r := Ok(Boolean(true), 1);
        case 0xcc => r := DecodeUint(buf, 1);
        case 0xcd => r := DecodeUint(buf, 2);
        case 0xce => r := DecodeUint(buf, 4);
        case 0xcf => r := DecodeUint(buf, 8);
        case 0xd0 => r := DecodeInt(buf, 1);
        case 0xd1 => r := DecodeInt(buf, 2);
        case 0xd2 => r := DecodeInt(buf, 4);
        case 0xd3 => r := DecodeInt(buf, 8);
        case 0xd9 => r := DecodeStr(buf, 1);
        case 0xda => r := DecodeStr(buf, 2);
        case _ => r := UnsupportedType;
      }
    }
  }

  // ---------- lookupMapString ----------

  function LookupFrom(buf: seq<byte>, count: nat, key: seq<byte>): Option<seq<byte>>
    decreases count
  {
    if count == 0 then None else
    var k := Decode(buf);
    if !k.Ok? then None else
    var v := Decode(buf[k.consumed..]);
    if !v.Ok? then None
    else if k.value == Str(key) then Some(buf[k.consumed..k.consumed + v.consumed])
    else LookupFrom(buf[k.consumed + v.consumed..], count - 1, key)
  }

  function Lookup(buf: seq<byte>, key: seq<byte>): Option<seq<byte>> {
    if |buf| == 0 then None
    else if 0x80 <= buf[0] <= 0x8f then LookupFrom(buf[1..], buf[0] - 0x80, key)
    else if buf[0] == 0xde && |buf| >= 3 then LookupFrom(buf[3..], ReadBE(buf[1..3]), key)
    else None
  }

  /** A slice of a buffer: the zero-copy result of a lookup. */
  datatype Span = Span(start: nat, len: nat)

  predicate Within(sp: Span, buf: seq<byte>) { sp.start + sp.len <= |buf| }

  function Slice(buf: seq<byte>, sp: Span): seq<byte>
    requires Within(sp, buf)
  {
    buf[sp.start..sp.start + sp.len]
  }

  function SpanFrom(buf: seq<byte>, offset: nat, count: nat, key: seq<byte>): (r: Option<Span>)
    requires offset <= |buf|
    ensures r.Some? ==> Within(r.value, buf)
    decreases count
  {
    if count == 0 then None else
    var k := Decode(buf[offset..]);
    if !k.Ok? then None else
    var keyEnd := offset + k.consumed;
    var v := Decode(buf[keyEnd..]);
    if !v.Ok? then None
    else if k.value == Str(key) then Some(Span(keyEnd, v.consumed))
    else SpanFrom(buf, keyEnd + v.consumed, count - 1, key)
  }

  function LookupSpan(buf: seq<byte>, key: seq<byte>): (r: Option<Span>)
    ensures r.Some? ==> Within(r.value, buf)
  {
    if |buf| == 0 then None
    else if 0x80 <= buf[0] <= 0x8f then SpanFrom(buf, 1, buf[0] - 0x80, key)
    else if buf[0] == 0xde && |buf| >= 3 then SpanFrom(buf, 3, ReadBE(buf[1..3]), key)
    else None
  }

  function SliceOption(buf: seq<byte>, sp: Option<Span>): Option<seq<byte>>
    requires sp.Some? ==> Within(sp.value, buf)
  {
    if sp.Some? then Some(Slice(buf, sp.value)) else None
  }

  lemma {:induction false} SpanFromIsLookup(buf: seq<byte>, offset: nat, count: nat, key: seq<byte>)
    requires offset <= |buf|
    ensures SliceOption(buf, SpanFrom(buf, offset, count, key)) == LookupFrom(buf[offset..], count, key)
    decreases count
  {
    hide Decode;
    if count > 0 {
      var k := Decode(buf[offset..]);
      if k.Ok? {
        assert buf[offset..][k.consumed..] == buf[offset + k.consumed..];
        var v := Decode(buf[offset + k.consumed..]);
        if v.Ok? {
          var next := offset + k.consumed + v.consumed;
          assert buf[offset..][k.consumed..k.consumed + v.consumed] == buf[offset + k.consumed..next];
          assert buf[offset..][k.consumed + v.consumed..] == buf[next..];
          SpanFromIsLookup(buf, next, count - 1, key);
        }
      }
    }
  }

  lemma SpanIsLookup(buf: seq<byte>, key: seq<byte>)
    ensures SliceOption(buf, LookupSpan(buf, key)) == Lookup(buf, key)
  {
    hide SpanFrom, LookupFrom, SliceOption;
    if |buf| >= 1 {
      SpanFromIsLookup(buf, 1, if 0x80 <= buf[0] <= 0x8f then buf[0] - 0x80 else 0, key);
      if |buf| >= 3 { SpanFromIsLookup(buf, 3, ReadBE(buf[1..3]), key); }
    }
    SliceNone(buf);
  }

  lemma SliceNone(buf: seq<byte>)
    ensures SliceOption(buf, None) == None
  {
  }

  method LookupMapString(buf: seq<byte>, key: seq<byte>) returns (r: Option<Span>)
    ensures r == LookupSpan(buf, key)
  {
    hide Decode, ReadBE;
    if |buf| == 0 {
      return None;
    }
    var count: nat, dataStart: nat := 0, 0;
    if 0x80 <= buf[0] <= 0x8f {
      count, dataStart := buf[0] - 0x80, 1;
    } else if buf[0] == 0xde {
      if |buf| < 3 {
        return None;
      }
      count, dataStart := ReadBE(buf[1..3]), 3;
    } else {
      return None;
    }
    var offset: nat, i: nat := dataStart, 0;
    while i < count
      invariant i <= count && offset <= |buf|
      invariant LookupSpan(buf, key) == SpanFrom(buf, offset, count - i, key)
    {
      var k := DecodeBuffer(buf[offset..]);
      if !k.Ok? {
        return None;
      }
      var keyEnd := offset + k.consumed;
      var v := DecodeBuffer(buf[keyEnd..]);
      if !v.Ok? {
        return None;
      }
      if k.value == Str(key) {
        return Some(Span(keyEnd, v.consumed));
      }
      offset, i := keyEnd + v.consumed, i + 1;
    }
    r := None;
  }

  /** The first value stored under a string key equal to `key`. */
  function FirstValue(items: seq<Wire>, key: seq<byte>): Option<Wire> {
    if |items| < 2 then None
    else if Meaning(items[0]) == Str(key) then Some(items[1])
    else FirstValue(items[2..], key)
  }

  ghost function EncodedOption(v: Option<Wire>): Option<seq<byte>>
    requires v.Some? ==> Valid(v.value)
  {
    if v.Some? then Some(Encode(v.value)) else None
  }

  lemma {:induction false} FirstValueValid(items: seq<Wire>, key: seq<byte>)
    requires forall x :: x in items ==> Valid(x)
    ensures FirstValue(items, key).Some? ==> FirstValue(items, key).value in items
  {
    if |items| >= 2 && Meaning(items[0]) != Str(key) {
      FirstValueValid(items[2..], key);
    }
  }

  lemma {:induction false} LookupFromFinds(items: seq<Wire>, tail: seq<byte>, key: seq<byte>)
    requires |items| % 2 == 0 && forall x :: x in items ==> Valid(x)
    requires FirstValue(items, key).Some? ==> Valid(FirstValue(items, key).value)
    ensures LookupFrom(EncodeAll(items) + tail, |items| / 2, key) == EncodedOption(FirstValue(items, key))
  {
    hide Encode, Decode, Meaning, Valid, EncodeAll;
    if items == [] {
    } else {
      var rest := items[2..];
      EncodeAllPair(items);
      LookupPair(items[0], items[1], EncodeAll(rest) + tail, |items| / 2, key);
      assert EncodeAll(items) + tail == Encode(items[0]) + (Encode(items[1]) + (EncodeAll(rest) + tail));
      if Meaning(items[0]) != Str(key) {
        LookupFromFinds(rest, tail, key);
      }
    }
  }

  lemma EncodeAllPair(items: seq<Wire>)
    requires |items| >= 2 && forall x :: x in items ==> Valid(x)
    ensures EncodeAll(items) == Encode(items[0]) + (Encode(items[1]) + EncodeAll(items[2..]))
  {
    hide Encode, Valid;
    assert items[1..][0] == items[1] && items[1..][1..] == items[2..];
  }

  lemma NarrowMap(items: seq<Wire>)
    requires |items| % 2 == 0 && |items| < 32 && forall x :: x in items ==> Valid(x)
    ensures Valid(WMap(items, false))
    ensures Encode(WMap(items, false)) == [0x80 + |items| / 2] + EncodeAll(items)
  {
    hide EncodeAll;
  }

  lemma EncodePair(k: Wire, v: Wire)
    requires Valid(k) && Valid(v)
    ensures EncodeAll([k, v]) == Encode(k) + Encode(v)
  {
    hide Encode, Valid;
    EncodeAllPair([k, v]);
    assert [k, v][2..] == [];
  }

  lemma EncodeNothing()
    ensures EncodeAll([]) == []
  {
  }

  lemma LookupPair(k: Wire, v: Wire, rest: seq<byte>, count: nat, key: seq<byte>)
    requires Valid(k) && Valid(v) && count > 0
    ensures LookupFrom(Encode(k) + (Encode(v) + rest), count, key) ==
            if Meaning(k) == Str(key) then Some(Encode(v)) else LookupFrom(rest, count - 1, key)
  {
    hide Encode, Decode, Meaning, Valid;
    var buf := Encode(k) + (Encode(v) + rest);
    RoundTrip(k, Encode(v) + rest);
    RoundTrip(v, rest);
    var kc, vc := |Encode(k)|, |Encode(v)|;
    assert buf[kc..] == Encode(v) + rest;
    assert buf[kc..kc + vc] == Encode(v);
    assert buf[kc + vc..] == rest;
  }

  /** Looking a key up in an encoded map yields exactly the encoding of the first value under it. */
  lemma LookupFinds(m: Wire, tail: seq<byte>, key: seq<byte>)
    requires Valid(m) && m.WMap?
    ensures FirstValue(m.items, key).Some? ==> Valid(FirstValue(m.items, key).value)
    ensures Lookup(Encode(m) + tail, key) == EncodedOption(FirstValue(m.items, key))
  {
    hide ReadBE, WriteBE, LookupFrom, EncodeAll, EncodedOption, FirstValue;
    FirstValueValid(m.items, key);
    LookupFromFinds(m.items, tail, key);
    var count := |m.items| / 2;
    var header := CountHeader(count, m.wide, 0x80, 0xde);
    var buf := Encode(m) + tail;
    assert buf == header + (EncodeAll(m.items) + tail);
    assert buf[|header|..] == EncodeAll(m.items) + tail;
    if m.wide {
      Widths();
      ReadWriteBE(count, 2);
      assert buf[1..3] == WriteBE(count, 2);
    }
  }

  /** The span found in an encoded map is exactly the encoding of the first value under the key. */
  lemma SpanFinds(m: Wire, key: seq<byte>)
    requires Valid(m) && m.WMap?
    ensures FirstValue(m.items, key).Some? ==> Valid(FirstValue(m.items, key).value)
    ensures SliceOption(Encode(m), LookupSpan(Encode(m), key)) == EncodedOption(FirstValue(m.items, key))
  {
    hide Encode, Lookup, LookupSpan, Valid;
    LookupFinds(m, [], key);
    assert Encode(m) + [] == Encode(m);
    SpanIsLookup(Encode(m), key);
  }
}
