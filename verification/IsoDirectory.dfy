/** Looking a component up in a directory extent: `findInDirectory`. */
module IsoDirectory {
  import opened Common
  import opened Bytes
  import opened IsoRecords
  import opened IsoNames

  const LOGICAL_SECTOR := 2048
  const MAX_DIR_BYTES := 0x400_0000
  const MAX_EXTENTS := 8

  datatype Namespace = Joliet | Primary
  datatype DirLoc = DirLoc(lba: nat, size: nat)
  datatype Extent = Extent(start: nat, size: nat)
  datatype Found = Dir(loc: DirLoc) | File(extents: seq<Extent>)

  /** What is looked for, and how names and extents are read on this volume. */
  datatype Query = Query(component: seq<byte>, ns: Namespace, skip: nat, blockSize: nat)

  predicate RecordMatches(r: Record, q: Query) {
    match q.ns
    case Joliet => JolietMatches(r.name, q.component)
    case Primary =>
      var rr := RrNameOf(r.su, q.skip);
      if rr.Name? then rr.name == q.component else PlainMatches(r.name, q.component)
  }

  function ExtentOf(r: Record, q: Query): Extent { Extent(r.lba * q.blockSize, r.size) }

  // ---------- one record, one sector, one directory ----------

  /** The scan is over, with or without a result, or goes on with the extents collected so far. */
  datatype Scan = Stop(result: Option<Found>) | Go(collecting: Option<seq<Extent>>)

  function AtRecord(r: Record, q: Query, collecting: Option<seq<Extent>>): Scan {
    if collecting.Some? then
      if !RecordMatches(r, q) || |collecting.value| >= MAX_EXTENTS then Stop(None) else
      var fx := collecting.value + [ExtentOf(r, q)];
      if IsMultiExtent(r) then Go(Some(fx)) else Stop(Some(File(fx)))
    else if !RecordMatches(r, q) then Go(None)
    else if IsDir(r) then
      if IsMultiExtent(r) then Stop(None) else Stop(Some(Dir(DirLoc(r.lba, r.size))))
    else if IsMultiExtent(r) then Go(Some([ExtentOf(r, q)]))
    else Stop(Some(File([ExtentOf(r, q)])))
  }

  function ScanSector(chunk: seq<byte>, off: nat, q: Query, collecting: Option<seq<Extent>>): Scan
    decreases |chunk| - off
  {
    if off >= |chunk| then Go(collecting) else
    match ParseDirRecord(chunk, off)
    case Padding => Go(collecting)
    case Malformed => Stop(None)
    case Rec(recLen, r) =>
      var step := AtRecord(r, q, collecting);
      if step.Stop? then step else ScanSector(chunk, off + recLen, q, step.collecting)
  }

  /** `readFull` on a memory image. */
  function ReadFull(img: seq<byte>, off: nat, n: nat): (r: Option<seq<byte>>)
    ensures r.Some? ==> |r.value| == n
  {
    if off >= |img| || |img| - off < n then None else Some(img[off..off + n])
  }

  function ScanDir(img: seq<byte>, dir: DirLoc, sec: nat, q: Query, collecting: Option<seq<Extent>>): Option<Found>
    decreases dir.size - sec
  {
    if sec >= dir.size then None else
    var chunk := ReadFull(img, dir.lba * q.blockSize + sec, Min(LOGICAL_SECTOR, dir.size - sec));
    if chunk.None? then None else
    var step := ScanSector(chunk.value, 0, q, collecting);
    if step.Stop? then step.result else ScanDir(img, dir, sec + LOGICAL_SECTOR, q, step.collecting)
  }

  function FindIn(img: seq<byte>, dir: DirLoc, q: Query): Option<Found> {
    if dir.size == 0 || dir.size > MAX_DIR_BYTES then None else ScanDir(img, dir, 0, q, None)
  }

  method FindInDirectory(img: seq<byte>, dir: DirLoc, q: Query) returns (found: Option<Found>)
    ensures found == FindIn(img, dir, q)
  {
    hide ParseDirRecord, AtRecord;
    if dir.size == 0 || dir.size > MAX_DIR_BYTES {
      return None;
    }
    var collecting: Option<seq<Extent>> := None;
    var sec: nat := 0;
    while sec < dir.size
      invariant FindIn(img, dir, q) == ScanDir(img, dir, sec, q, collecting)
    {
      var size := Min(LOGICAL_SECTOR, dir.size - sec);
      var chunk := ReadFull(img, dir.lba * q.blockSize + sec, size);
      if chunk.None? {
        return None;
      }
      ghost var whole := ScanSector(chunk.value, 0, q, collecting);
      var off: nat := 0;
      while off < size
        invariant off <= size
        invariant whole == ScanSector(chunk.value, off, q, collecting)
        decreases size - off
      {
        var parsed := ParseDirRecord(chunk.value, off);
        if parsed.Padding? {
          break;
        }
        if parsed.Malformed? {
          return None;
        }
        var step := AtRecord(parsed.rec, q, collecting);
        if step.Stop? {
          return step.result;
        }
        collecting := step.collecting;
        off := off + parsed.recLen;
      }
      assert whole == Go(collecting);
      sec := sec + LOGICAL_SECTOR;
    }
    found := None;
  }

  // ---------- directories as they are written ----------

  /** From `off`, `chunk` holds `recs` back to back and then padding or its end. */
  ghost predicate Packed(chunk: seq<byte>, off: nat, recs: seq<Record>)
    decreases |recs|
  {
    if recs == [] then off == |chunk| || (off < |chunk| && chunk[off] == 0)
    else Fits(recs[0]) && Prints(chunk, off, recs[0]) && Packed(chunk, off + RecLen(recs[0]), recs[1..])
  }

  /** Run the records of a list through the scan. */
  function SearchPart(recs: seq<Record>, q: Query, collecting: Option<seq<Extent>>): Scan
    decreases |recs|
  {
    if recs == [] then Go(collecting) else
    var step := AtRecord(recs[0], q, collecting);
    if step.Stop? then step else SearchPart(recs[1..], q, step.collecting)
  }

  function Search(recs: seq<Record>, q: Query): Option<Found> {
    var s := SearchPart(recs, q, None);
    if s.Stop? then s.result else None
  }

  /** Scanning a packed sector is searching its records. */
  lemma {:induction false} ScanPacked(chunk: seq<byte>, off: nat, recs: seq<Record>, q: Query, collecting: Option<seq<Extent>>)
    requires Packed(chunk, off, recs)
    ensures ScanSector(chunk, off, q, collecting) == SearchPart(recs, q, collecting)
    decreases |recs|
  {
    hide AtRecord, Fits, Prints;
    if recs == [] {
      PaddingOrEnd(chunk, off);
    } else {
      ParsePrinted(chunk, off, recs[0]);
      var step := AtRecord(recs[0], q, collecting);
      if step.Go? {
        ScanPacked(chunk, off + RecLen(recs[0]), recs[1..], q, step.collecting);
      }
    }
  }

  lemma PaddingOrEnd(chunk: seq<byte>, off: nat)
    requires off == |chunk| || (off < |chunk| && chunk[off] == 0)
    ensures off < |chunk| ==> ParseDirRecord(chunk, off) == Padding
  {
  }

  lemma {:induction false} SearchConcat(a: seq<Record>, b: seq<Record>, q: Query, collecting: Option<seq<Extent>>)
    ensures SearchPart(a + b, q, collecting) ==
            var s := SearchPart(a, q, collecting);
            if s.Stop? then s else SearchPart(b, q, s.collecting)
    decreases |a|
  {
    hide AtRecord;
    if a == [] {
      assert a + b == b;
    } else {
      assert (a + b)[1..] == a[1..] + b;
      var step := AtRecord(a[0], q, collecting);
      if step.Go? { SearchConcat(a[1..], b, q, step.collecting); }
    }
  }

  function Flatten(sectors: seq<seq<Record>>): seq<Record> {
    if sectors == [] then [] else sectors[0] + Flatten(sectors[1..])
  }

  /** The bytes of sector `i` of a directory extent. */
  function Chunk(img: seq<byte>, dir: DirLoc, blockSize: nat, i: nat): seq<byte>
    requires i * LOGICAL_SECTOR < dir.size && dir.lba * blockSize + dir.size <= |img|
  {
    var start := dir.lba * blockSize + i * LOGICAL_SECTOR;
    img[start..start + Min(LOGICAL_SECTOR, dir.size - i * LOGICAL_SECTOR)]
  }

  /** The directory extent consists of these sectors, each a packed run of records. */
  ghost predicate Laid(img: seq<byte>, dir: DirLoc, blockSize: nat, sectors: seq<seq<Record>>) {
    && sectors != [] && (|sectors| - 1) * LOGICAL_SECTOR < dir.size <= |sectors| * LOGICAL_SECTOR
    && dir.size <= MAX_DIR_BYTES && dir.lba * blockSize + dir.size <= |img|
    && forall i :: 0 <= i < |sectors| ==> Packed(Chunk(img, dir, blockSize, i), 0, sectors[i])
  }

  lemma {:induction false} ScanLaid(img: seq<byte>, dir: DirLoc, sectors: seq<seq<Record>>, k: nat, q: Query,
                                    collecting: Option<seq<Extent>>)
    requires Laid(img, dir, q.blockSize, sectors) && k <= |sectors|
    ensures ScanDir(img, dir, k * LOGICAL_SECTOR, q, collecting) ==
            var s := SearchPart(Flatten(sectors[k..]), q, collecting);
            if s.Stop? then s.result else None
    decreases |sectors| - k
  {
    hide Packed, ScanSector, SearchPart;
    if k == |sectors| {
      SearchNothing(q, collecting);
    } else {
      var chunk := Chunk(img, dir, q.blockSize, k);
      var sec := k * LOGICAL_SECTOR;
      assert ReadFull(img, dir.lba * q.blockSize + sec, Min(LOGICAL_SECTOR, dir.size - sec)) == Some(chunk);
      ScanPacked(chunk, 0, sectors[k], q, collecting);
      assert sectors[k..][1..] == sectors[k + 1..];
      SearchConcat(sectors[k], Flatten(sectors[k + 1..]), q, collecting);
      var step := ScanSector(chunk, 0, q, collecting);
      if step.Go? {
        ScanLaid(img, dir, sectors, k + 1, q, step.collecting);
        assert sec + LOGICAL_SECTOR == (k + 1) * LOGICAL_SECTOR;
      }
    }
  }

  lemma SearchNothing(q: Query, collecting: Option<seq<Extent>>)
    ensures SearchPart([], q, collecting) == Go(collecting)
  {
  }

  /** In a directory laid out as packed sectors the byte scan finds what a search of its records,
      sector boundaries forgotten, finds. */
  lemma FindInLaid(img: seq<byte>, dir: DirLoc, sectors: seq<seq<Record>>, q: Query)
    requires Laid(img, dir, q.blockSize, sectors)
    ensures FindIn(img, dir, q) == Search(Flatten(sectors), q)
  {
    hide ScanDir, SearchPart, Packed;
    assert sectors[0..] == sectors && 0 * LOGICAL_SECTOR == 0;
    ScanLaid(img, dir, sectors, 0, q, None);
  }

  // ---------- writing such a sector ----------

  function TotalLen(recs: seq<Record>): nat {
    if recs == [] then 0 else RecLen(recs[0]) + TotalLen(recs[1..])
  }

  lemma PrintsKept(now: seq<byte>, before: seq<byte>, off: nat, r: Record)
    requires Prints(before, off, r) && SameOutside(now, before, off + RecLen(r), |before|)
    ensures Prints(now, off, r)
  {
    hide WriteLE, WriteBE;
    HoldsKept(now, before, off + RecLen(r), |before|, off + 33, r.name);
    HoldsKept(now, before, off + RecLen(r), |before|, off + RecLen(r) - |r.su|, r.su);
  }

  /** Put the records one after the other into zeroed space. */
  method PutRecords(buf: array<byte>, off: nat, recs: seq<Record>)
    requires (forall r :: r in recs ==> Fits(r)) && off + TotalLen(recs) <= buf.Length
    requires forall i :: off <= i < buf.Length ==> buf[i] == 0
    modifies buf
    ensures Packed(buf[..], off, recs) && SameOutside(buf[..], old(buf[..]), off, buf.Length)
    decreases |recs|
  {
    hide Fits, Prints;
    if recs != [] {
      var end := PutDirRecord(buf, off, recs[0]);
      ghost var first := buf[..];
      PutRecords(buf, end, recs[1..]);
      PrintsKept(buf[..], first, off, recs[0]);
    }
  }

  /** Any records that fit fill a zero-padded sector the scan reads back. */
  method WriteSector(recs: seq<Record>) returns (sector: seq<byte>)
    requires (forall r :: r in recs ==> Fits(r)) && TotalLen(recs) <= LOGICAL_SECTOR
    ensures |sector| == LOGICAL_SECTOR && Packed(sector, 0, recs)
  {
    var buf := new byte[LOGICAL_SECTOR](i => 0);
    PutRecords(buf, 0, recs);
    sector := buf[..];
  }

  /** An empty directory extent and one above 64 MiB are refused unread. */
  lemma SizeRefused(img: seq<byte>, dir: DirLoc, q: Query)
    requires dir.size == 0 || dir.size > 64 * 1024 * 1024
    ensures FindIn(img, dir, q).None?
  {
  }
}
