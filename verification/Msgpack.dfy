/** The MessagePack subset spoken between init and the service manager: decoder and lookup.
    Wire formats: the nil, bool, int, str, array and map families of the "Formats" section
    of the MessagePack specification. */
module Msgpack {
  import opened Bytes

  datatype Value = Nil | Boolean(b: bool) | UInt(n: nat) | Int(i: int) | Str(s: seq<byte>)

  /** `decode`: a value and the bytes it took, or one of the two errors it can raise. */
  datatype Decoded = Ok(value: Value, consumed: nat) | UnexpectedEof | UnsupportedType

  function Signed(n: nat, width: nat): int {
    if 2 * n < Pow256(width) then n else n - Pow256(width)
  }

  function Unsigned(i: int, width: nat): int {
    if i >= 0 then i else i + Pow256(width)
  }

  function DecodeUint(buf: seq<byte>, width: nat): (r: Decoded)
    ensures r.Ok? ==> 1 <= r.consumed <= |buf|
  {
    if |buf| < 1 + width then UnexpectedEof else Ok(UInt(ReadBE(buf[1..1 + width])), 1 + width)
  }

  function DecodeInt(buf: seq<byte>, width: nat): (r: Decoded)
    ensures r.Ok? ==> 1 <= r.consumed <= |buf|
  {
    if |buf| < 1 + width then UnexpectedEof
    else Ok(Int(Signed(ReadBE(buf[1..1 + width]), width)), 1 + width)
  }

  function DecodeStr(buf: seq<byte>, width: nat): (r: Decoded)
    ensures r.Ok? ==> 1 <= r.consumed <= |buf| && r.value.Str? && |r.value.s| < r.consumed
  {
    if |buf| < 1 + width then UnexpectedEof else
    var len := ReadBE(buf[1..1 + width]);
    if |buf| < 1 + width + len then UnexpectedEof
    else Ok(Str(buf[1 + width..1 + width + len]), 1 + width + len)
  }

  /** Consume `count` consecutive values; containers are skipped, not built. */
  function Skip(buf: seq<byte>, count: nat): (r: Decoded)
    ensures r.Ok? ==> count <= r.consumed <= |buf| && r.value == Nil
    decreases |buf|, count + 1
  {
    if count == 0 then Ok(Nil, 0) else
    var first := Decode(buf);
    if !first.Ok? then first else
    var rest := Skip(buf[first.consumed..], count - 1);
    if !rest.Ok? then rest else Ok(Nil, first.consumed + rest.consumed)
  }

  function Shifted(r: Decoded, header: nat): Decoded {
    if r.Ok? then r.(consumed := header + r.consumed) else r
  }

  function Decode(buf: seq<byte>): (r: Decoded)
    ensures r.Ok? ==> 1 <= r.consumed <= |buf|
    ensures r.Ok? && r.value.Str? ==> |r.value.s| < r.consumed
    decreases |buf|, 0
  {
    if |buf| == 0 then UnexpectedEof else
    var tag: int := buf[0];
    if tag <= 0x7f then Ok(UInt(tag), 1)
    else if tag >= 0xe0 then Ok(Int(tag - 256), 1)
    else if tag <= 0x8f then Shifted(Skip(buf[1..], 2 * (tag - 0x80)), 1)
    else if tag <= 0x9f then Shifted(Skip(buf[1..], tag - 0x90), 1)
    else if tag <= 0xbf then
      var len := tag - 0xa0;
      if |buf| < 1 + len then UnexpectedEof else Ok(Str(buf[1..1 + len]), 1 + len)
    else if tag == 0xc0 then Ok(Nil, 1)
    else if tag == 0xc2 then Ok(Boolean(false), 1)
    else if tag == 0xc3 then Ok(Boolean(true), 1)
    else if tag == 0xcc then DecodeUint(buf, 1)
    else if tag == 0xcd then DecodeUint(buf, 2)
    else if tag == 0xce then DecodeUint(buf, 4)
    else if tag == 0xcf then DecodeUint(buf, 8)
    else if tag == 0xd0 then DecodeInt(buf, 1)
    else if tag == 0xd1 then DecodeInt(buf, 2)
    else if tag == 0xd2 then DecodeInt(buf, 4)
    else if tag == 0xd3 then DecodeInt(buf, 8)
    else if tag == 0xd9 then DecodeStr(buf, 1)
    else if tag == 0xda then DecodeStr(buf, 2)
    else if tag == 0xdc then
      if |buf| < 3 then UnexpectedEof else Shifted(Skip(buf[3..], ReadBE(buf[1..3])), 3)
    else if tag == 0xde then
      if |buf| < 3 then UnexpectedEof else Shifted(Skip(buf[3..], 2 * ReadBE(buf[1..3])), 3)
    else UnsupportedType
  }

  // ---------- what is on the wire ----------

  /** A value together with the format chosen for it; `width` 0 is the one-byte form.
      The items of a map alternate keys and values. */
  datatype Wire =
    | WNil
    | WBool(b: bool)
    | WUint(n: nat, width: nat)
    | WInt(i: int, width: nat)
    | WStr(s: seq<byte>, width: nat)
    | WArr(items: seq<Wire>, wide: bool)
    | WMap(items: seq<Wire>, wide: bool)

  predicate IntWidth(width: nat) { width == 1 || width == 2 || width == 4 || width == 8 }

  ghost predicate Valid(w: Wire) decreases w {
    match w
    case WNil => true
    case WBool(_) => true
    case WUint(n, width) => if width == 0 then n <= 0x7f else IntWidth(width) && n < Pow256(width)
    case WInt(i, width) =>
      if width == 0 then -32 <= i < 0
      else IntWidth(width) && 0 <= 2 * i + Pow256(width) && 2 * i < Pow256(width)
    case WStr(s, width) =>
      if width == 0 then |s| <= 31 else (width == 1 || width == 2) && |s| < Pow256(width)
    case WArr(items, wide) =>
      |items| < (if wide then 0x1_0000 else 16) && forall x :: x in items ==> Valid(x)
    case WMap(items, wide) =>
      |items| % 2 == 0 && |items| / 2 < (if wide then 0x1_0000 else 16) && forall x :: x in items ==> Valid(x)
  }

  function Meaning(w: Wire): Value {
    match w
    case WBool(b) => Boolean(b)
    case WUint(n, _) => UInt(n)
    case WInt(i, _) => Int(i)
    case WStr(s, _) => Str(s)
    case _ => Nil
  }

  function UintTag(width: nat): byte {
    if width == 1 then 0xcc else if width == 2 then 0xcd else if width == 4 then 0xce else 0xcf
  }

  function IntTag(width: nat): byte {
    if width == 1 then 0xd0 else if width == 2 then 0xd1 else if width == 4 then 0xd2 else 0xd3
  }

  ghost function CountHeader(count: nat, wide: bool, narrowTag: byte, wideTag: byte): (h: seq<byte>)
    requires wide || narrowTag + count < 256
    ensures |h| == if wide then 3 else 1
  {
    if wide then [wideTag] + WriteBE(count, 2) else [narrowTag + count]
  }

  ghost function Encode(w: Wire): (bs: seq<byte>)
    requires Valid(w)
    ensures |bs| >= 1
    decreases w, 1
  {
    match w
    case WNil => [0xc0]
    case WBool(b) => [if b then 0xc3 else 0xc2]
    case WUint(n, width) => if width == 0 then [n] else [UintTag(width)] + WriteBE(n, width)
    case WInt(i, width) => if width == 0 then [i + 256] else [IntTag(width)] + WriteBE(Unsigned(i, width), width)
    case WStr(s, width) =>
      if width == 0 then [0xa0 + |s|] + s
      else [if width == 1 then 0xd9 else 0xda] + WriteBE(|s|, width) + s
    case WArr(items, wide) => CountHeader(|items|, wide, 0x90, 0xdc) + EncodeAll(items)
    case WMap(items, wide) => CountHeader(|items| / 2, wide, 0x80, 0xde) + EncodeAll(items)
  }

  ghost function EncodeAll(items: seq<Wire>): seq<byte>
    requires forall x :: x in items ==> Valid(x)
    decreases items, 0
  {
    if items == [] then [] else Encode(items[0]) + EncodeAll(items[1..])
  }
}
