/** Directory records of an ISO 9660 volume (ECMA-119, section 9.1): parser and printer. */
module IsoRecords {
  import opened Bytes

  const FLAG_DIR := 0x02
  const FLAG_MULTI_EXTENT := 0x80

  /** What a directory record states: extent, size, flags, identifier and system-use area. */
  datatype Record = Record(lba: nat, size: nat, flags: byte, name: seq<byte>, su: seq<byte>)

  predicate IsDir(r: Record) { r.flags / FLAG_DIR % 2 == 1 }
  predicate IsMultiExtent(r: Record) { r.flags / FLAG_MULTI_EXTENT % 2 == 1 }

  datatype Parsed = Padding | Malformed | Rec(recLen: nat, rec: Record)

  /** An even-length name is followed by one filler byte, so that what comes next starts at an even offset. */
  function Pad(nameLen: nat): nat { 1 - nameLen % 2 }

  function ParseDirRecord(buf: seq<byte>, off: nat): (r: Parsed)
    ensures r.Rec? ==> 34 <= r.recLen && off + r.recLen <= |buf|
  {
    if off >= |buf| then Malformed else
    var recLen: nat := buf[off];
    if recLen == 0 then Padding
    else if recLen < 34 || off + recLen > |buf| then Malformed else
    var nameLen: nat := buf[off + 32];
    if nameLen == 0 || 33 + nameLen > recLen then Malformed else
    var suStart := off + 33 + nameLen + Pad(nameLen);
    Rec(recLen, Record(
      ReadLE(buf[off + 2..off + 6]),
      ReadLE(buf[off + 10..off + 14]),
      buf[off + 25],
      buf[off + 33..off + 33 + nameLen],
      if suStart < off + recLen then buf[suStart..off + recLen] else []))
  }

  function RecLen(r: Record): nat { 33 + |r.name| + Pad(|r.name|) + |r.su| }

  /** Records the on-disc format can hold. */
  ghost predicate Fits(r: Record) {
    r.lba < Pow256(4) && r.size < Pow256(4) && r.name != [] && RecLen(r) <= 255
  }

  /** `bs` stands in `b` from position `at`. */
  ghost predicate Holds(b: seq<byte>, at: nat, bs: seq<byte>) {
    at + |bs| <= |b| && forall i :: at <= i < at + |bs| ==> b[i] == bs[i - at]
  }

  /** The numbers of a record: length, both-endian extent and size, flags, volume, name length. */
  ghost predicate PrintsNumbers(b: seq<byte>, off: nat, r: Record) {
    && off + 33 <= |b|
    && b[off] == RecLen(r)
    && Holds(b, off + 2, WriteLE(r.lba, 4)) && Holds(b, off + 6, WriteBE(r.lba, 4))
    && Holds(b, off + 10, WriteLE(r.size, 4)) && Holds(b, off + 14, WriteBE(r.size, 4))
    && b[off + 25] == r.flags && b[off + 28] == 1 && b[off + 31] == 1
    && b[off + 32] == |r.name|
  }

  /** The bytes of `b` from `off` print `r`. */
  ghost predicate Prints(b: seq<byte>, off: nat, r: Record) {
    && off + RecLen(r) <= |b|
    && PrintsNumbers(b, off, r)
    && Holds(b, off + 33, r.name)
    && Holds(b, off + RecLen(r) - |r.su|, r.su)
  }

  lemma HoldsSlice(b: seq<byte>, at: nat, bs: seq<byte>)
    requires Holds(b, at, bs)
    ensures b[at..at + |bs|] == bs
  {
  }

  /** A printed record parses back to itself. */
  lemma ParsePrinted(b: seq<byte>, off: nat, r: Record)
    requires Fits(r) && Prints(b, off, r)
    ensures ParseDirRecord(b, off) == Rec(RecLen(r), r)
  {
    hide ReadLE, WriteLE, WriteBE, Pow256, Holds;
    HoldsSlice(b, off + 2, WriteLE(r.lba, 4));
    HoldsSlice(b, off + 10, WriteLE(r.size, 4));
    HoldsSlice(b, off + 33, r.name);
    HoldsSlice(b, off + RecLen(r) - |r.su|, r.su);
    ReadWriteLE(r.lba, 4);
    ReadWriteLE(r.size, 4);
  }

  /** `now` differs from `before` only inside `lo..hi`. */
  ghost predicate SameOutside(now: seq<byte>, before: seq<byte>, lo: nat, hi: nat) {
    |now| == |before| && forall i :: 0 <= i < |now| && !(lo <= i < hi) ==> now[i] == before[i]
  }

  lemma HoldsKept(now: seq<byte>, before: seq<byte>, lo: nat, hi: nat, at: nat, bs: seq<byte>)
    requires SameOutside(now, before, lo, hi) && Holds(before, at, bs) && (at + |bs| <= lo || hi <= at)
    ensures Holds(now, at, bs)
  {
  }

  method WriteAt(buf: array<byte>, off: nat, bs: seq<byte>)
    requires off + |bs| <= buf.Length
    modifies buf
    ensures Holds(buf[..], off, bs) && SameOutside(buf[..], old(buf[..]), off, off + |bs|)
  {
    for k := 0 to |bs|
      invariant forall i :: off <= i < off + k ==> buf[i] == bs[i - off]
      invariant forall i :: 0 <= i < buf.Length && !(off <= i < off + k) ==> buf[i] == old(buf[i])
    {
      buf[off + k] := bs[k];
    }
  }

  /** `wBoth32`: little-endian, then big-endian. */
  method WriteBoth32(buf: array<byte>, off: nat, v: nat)
    requires off + 8 <= buf.Length
    modifies buf
    ensures Holds(buf[..], off, WriteLE(v, 4)) && Holds(buf[..], off + 4, WriteBE(v, 4))
    ensures SameOutside(buf[..], old(buf[..]), off, off + 8)
  {
    hide WriteLE, WriteBE;
    WriteAt(buf, off, WriteLE(v, 4));
    ghost var mid := buf[..];
    WriteAt(buf, off + 4, WriteBE(v, 4));
    HoldsKept(buf[..], mid, off + 4, off + 8, off, WriteLE(v, 4));
  }

  /** The one-byte fields of the fixed part. */
  method PutBytes(buf: array<byte>, off: nat, r: Record)
    requires Fits(r) && off + RecLen(r) <= buf.Length
    modifies buf
    ensures buf[off] == RecLen(r) && buf[off + 25] == r.flags && buf[off + 32] == |r.name|
    ensures buf[off + 28] == 1 && buf[off + 31] == 1
    ensures forall i :: 0 <= i < buf.Length && i !in {off, off + 25, off + 28, off + 31, off + 32} ==> buf[i] == old(buf[i])
  {
    hide Pow256;
    buf[off] := RecLen(r);
    buf[off + 25] := r.flags;
    buf[off + 28] := 1;
    buf[off + 31] := 1;
    buf[off + 32] := |r.name|;
  }

  method PutNumbers(buf: array<byte>, off: nat, r: Record)
    requires Fits(r) && off + RecLen(r) <= buf.Length
    modifies buf
    ensures PrintsNumbers(buf[..], off, r) && SameOutside(buf[..], old(buf[..]), off, off + 33)
  {
    hide WriteLE, WriteBE, Pow256;
    WriteBoth32(buf, off + 2, r.lba);
    WriteBoth32(buf, off + 10, r.size);
    PutBytes(buf, off, r);
  }

  /** The record writer: prints the record, touches nothing outside it, returns the next offset. */
  method PutDirRecord(buf: array<byte>, off: nat, r: Record) returns (end: nat)
    requires Fits(r) && off + RecLen(r) <= buf.Length
    modifies buf
    ensures Prints(buf[..], off, r) && end == off + RecLen(r)
    ensures SameOutside(buf[..], old(buf[..]), off, end)
  {
    hide Pow256, WriteLE, WriteBE, PrintsNumbers;
    end := off + RecLen(r);
    PutNumbers(buf, off, r);
    ghost var numbered := buf[..];
    WriteAt(buf, off + 33, r.name);
    ghost var named := buf[..];
    WriteAt(buf, end - |r.su|, r.su);
    NumbersKept(buf[..], numbered, off, r);
    HoldsKept(buf[..], named, end - |r.su|, end, off + 33, r.name);
  }

  lemma NumbersKept(now: seq<byte>, before: seq<byte>, off: nat, r: Record)
    requires PrintsNumbers(before, off, r) && SameOutside(now, before, off + 33, off + RecLen(r))
    ensures PrintsNumbers(now, off, r)
  {
    hide WriteLE, WriteBE;
  }
}
