/** The encoders, which write into a caller's buffer. */
module MsgpackWriter {
  import opened Bytes
  import opened Msgpack

  datatype Written = Wrote(n: nat) | BufferTooSmall

  /** `s` with the bytes from `off` replaced by `bs`. */
  function Overwritten(s: seq<byte>, off: nat, bs: seq<byte>): (r: seq<byte>)
    requires off + |bs| <= |s|
    ensures |r| == |s|
  {
    s[..off] + bs + s[off + |bs|..]
  }

  /** The smallest unsigned form. */
  function UintWire(val: nat): (w: Wire)
    ensures w.WUint? && w.n == val && (w.width == 0 || IntWidth(w.width))
  {
    WUint(val, if val <= 0x7f then 0 else if val <= 0xff then 1 else if val <= 0xffff then 2
               else if val <= 0xffff_ffff then 4 else 8)
  }

  /** The smallest string form. */
  function StrWire(s: seq<byte>): Wire {
    WStr(s, if |s| <= 31 then 0 else if |s| <= 0xff then 1 else 2)
  }

  lemma UintWireValid(val: nat)
    requires val < Pow256(8)
    ensures Valid(UintWire(val)) && |Encode(UintWire(val))| <= 9
  {
    Widths();
    hide WriteBE, Pow256;
  }

  lemma StrWireValid(s: seq<byte>)
    requires |s| <= 0xffff
    ensures Valid(StrWire(s))
    ensures |Encode(StrWire(s))| == |s| + (if |s| <= 31 then 1 else if |s| <= 0xff then 2 else 3)
  {
    Widths();
    hide WriteBE, Pow256;
  }

  /** What an encoder does: all of the bytes if they fit behind `off`, nothing otherwise. */
  twostate predicate Puts(out: array<byte>, off: nat, bs: seq<byte>, r: Written)
    requires off <= out.Length
    reads out
  {
    if off + |bs| <= out.Length
    then r == Wrote(|bs|) && out[..] == Overwritten(old(out[..]), off, bs)
    else r == BufferTooSmall && out[..] == old(out[..])
  }

  /** The first `off` bytes are as before and `bs` follows them. */
  ghost predicate Appended(now: seq<byte>, before: seq<byte>, off: nat, bs: seq<byte>) {
    off + |bs| <= |now| && off <= |before| && now[..off + |bs|] == before[..off] + bs
  }

  method Put(out: array<byte>, off: nat, bs: seq<byte>) returns (r: Written)
    requires off <= out.Length
    modifies out
    ensures Puts(out, off, bs, r)
    ensures r.Wrote? ==> Appended(out[..], old(out[..]), off, bs)
  {
    if out.Length - off < |bs| {
      return BufferTooSmall;
    }
    for i := 0 to |bs|
      invariant forall j :: 0 <= j < i ==> out[off + j] == bs[j]
      invariant forall j :: 0 <= j < out.Length && !(off <= j < off + i) ==> out[j] == old(out[j])
    {
      out[off + i] := bs[i];
    }
    r := Wrote(|bs|);
  }

  method EncodeUint(out: array<byte>, off: nat, val: nat) returns (r: Written)
    requires off <= out.Length && val < Pow256(8)
    modifies out
    ensures Valid(UintWire(val)) && Puts(out, off, Encode(UintWire(val)), r)
    ensures r.Wrote? ==> Appended(out[..], old(out[..]), off, Encode(UintWire(val)))
  {
    hide WriteBE, Pow256, Puts;
    UintWireValid(val);
    if val <= 0x7f {
      r := Put(out, off, [val]);
    } else if val <= 0xff {
      r := Put(out, off, [0xcc] + WriteBE(val, 1));
    } else if val <= 0xffff {
      r := Put(out, off, [0xcd] + WriteBE(val, 2));
    } else if val <= 0xffff_ffff {
      r := Put(out, off, [0xce] + WriteBE(val, 4));
    } else {
      r := Put(out, off, [0xcf] + WriteBE(val, 8));
    }
  }

  /** A string of 65536 bytes or more has no encoding here: with room for it the length cast would trap. */
  method EncodeString(out: array<byte>, off: nat, str: seq<byte>) returns (r: Written)
    requires off <= out.Length && (|str| <= 0xffff || out.Length - off < 3 + |str|)
    modifies out
    ensures |str| <= 0xffff ==>
              && Valid(StrWire(str)) && Puts(out, off, Encode(StrWire(str)), r)
              && (r.Wrote? ==> Appended(out[..], old(out[..]), off, Encode(StrWire(str))))
    ensures |str| > 0xffff ==> r == BufferTooSmall && out[..] == old(out[..])
  {
    hide WriteBE, Pow256, Puts;
    if |str| > 0xffff {
      return BufferTooSmall;
    }
    StrWireValid(str);
    if |str| <= 31 {
      r := Put(out, off, [0xa0 + |str|] + str);
    } else if |str| <= 0xff {
      r := Put(out, off, [0xd9] + WriteBE(|str|, 1) + str);
    } else {
      r := Put(out, off, [0xda] + WriteBE(|str|, 2) + str);
    }
  }

  method EncodeMapHeader(out: array<byte>, off: nat, count: nat) returns (r: Written)
    requires off <= out.Length
    modifies out
    ensures count <= 15 ==> Puts(out, off, [0x80 + count], r)
    ensures r.Wrote? ==> count <= 15 && Appended(out[..], old(out[..]), off, [0x80 + count])
    ensures count > 15 ==> r == BufferTooSmall && out[..] == old(out[..])
  {
    if count > 15 {
      return BufferTooSmall;
    }
    r := Put(out, off, [0x80 + count]);
  }
}
