/** The two messages init sends: heartbeat acknowledgements and shutdown notices. */
module InitReplies {
  import opened Common
  import opened Bytes
  import opened Msgpack
  import opened MsgpackReader
  import opened MsgpackWriter
  import opened InitMessages
  import opened Framing

  const BUFFER_SIZE := 256

  const EVENT: seq<byte> := [0x45, 0x76, 0x65, 0x6e, 0x74]
  const SIGNAL: seq<byte> := [0x73, 0x69, 0x67, 0x6e, 0x61, 0x6c]
  const SHUTDOWN_SIGNAL: seq<byte> :=
    [0x53, 0x68, 0x75, 0x74, 0x64, 0x6f, 0x77, 0x6e, 0x53, 0x69, 0x67, 0x6e, 0x61, 0x6c]

  lemma RepliesSpelled()
    ensures Spells(EVENT, "Event") && Spells(SIGNAL, "signal") && Spells(SHUTDOWN_SIGNAL, "ShutdownSignal")
    ensures Spells(RESPONSE, "Response") && Spells(IN_REPLY_TO, "in_reply_to")
  {
  }

  // ---------- the acknowledgement as a value tree ----------

  const RESPONSE: seq<byte> := [0x52, 0x65, 0x73, 0x70, 0x6f, 0x6e, 0x73, 0x65]
  const IN_REPLY_TO: seq<byte> := [0x69, 0x6e, 0x5f, 0x72, 0x65, 0x70, 0x6c, 0x79, 0x5f, 0x74, 0x6f]

  function ResponseWire(id: nat): Wire {
    WMap([StrWire(RESPONSE), WMap([StrWire(IN_REPLY_TO), UintWire(id)], false)], false)
  }

  /** A response message that carries the id twice: as its own and as the one it replies to. */
  function AckWire(id: nat): Wire {
    WMap([StrWire(ID), UintWire(id), StrWire(KIND), ResponseWire(id), StrWire(BODY), StrWire(HEARTBEAT_ACK)], false)
  }

  lemma ResponseValid(id: nat)
    requires id < Pow256(8)
    ensures Valid(ResponseWire(id))
    ensures Valid(StrWire(RESPONSE)) && Valid(StrWire(IN_REPLY_TO)) && Valid(UintWire(id))
    ensures Encode(ResponseWire(id)) ==
            [0x81] + (Encode(StrWire(RESPONSE)) + ([0x81] + (Encode(StrWire(IN_REPLY_TO)) + Encode(UintWire(id)))))
  {
    hide Encode, EncodeAll, Valid, UintWire, StrWire;
    UintWireValid(id);
    StrWireValid(RESPONSE);
    StrWireValid(IN_REPLY_TO);
    var inner := WMap([StrWire(IN_REPLY_TO), UintWire(id)], false);
    NarrowMap([StrWire(IN_REPLY_TO), UintWire(id)]);
    EncodePair(StrWire(IN_REPLY_TO), UintWire(id));
    NarrowMap([StrWire(RESPONSE), inner]);
    EncodePair(StrWire(RESPONSE), inner);
  }

  /** The acknowledgement is the concatenation of what its encoders write. */
  lemma AckValid(id: nat)
    requires id < Pow256(8)
    ensures Valid(AckWire(id)) && Valid(ResponseWire(id)) && Valid(UintWire(id))
    ensures Valid(StrWire(ID)) && Valid(StrWire(KIND)) && Valid(StrWire(BODY)) && Valid(StrWire(HEARTBEAT_ACK))
    ensures Encode(AckWire(id)) ==
            [0x83] + Encode(StrWire(ID)) + Encode(UintWire(id)) + Encode(StrWire(KIND)) + Encode(ResponseWire(id))
            + Encode(StrWire(BODY)) + Encode(StrWire(HEARTBEAT_ACK))
  {
    hide Encode, EncodeAll, Valid, UintWire, StrWire, ResponseWire;
    UintWireValid(id);
    StrWireValid(ID);
    StrWireValid(KIND);
    StrWireValid(BODY);
    StrWireValid(HEARTBEAT_ACK);
    ResponseValid(id);
    var items := [StrWire(ID), UintWire(id), StrWire(KIND), ResponseWire(id), StrWire(BODY), StrWire(HEARTBEAT_ACK)];
    NarrowMap(items);
    EncodeAllPair(items);
    EncodeAllPair(items[2..]);
    EncodeAllPair(items[4..]);
    assert items[2..][2..] == items[4..] && items[4..][2..] == [];
    EncodeNothing();
  }

  // ---------- writing step by step ----------

  /** `acc` has been written behind the room left for the header. */
  ghost predicate Filled(buf: seq<byte>, offset: nat, acc: seq<byte>) {
    offset == HEADER_SIZE + |acc| <= |buf| && buf[HEADER_SIZE..offset] == acc
  }

  /** An encoder step succeeded exactly when there was room, and then only appended. */
  ghost predicate Stepped(ok: bool, buf: seq<byte>, offset: nat, acc: seq<byte>, bs: seq<byte>) {
    if HEADER_SIZE + |acc| + |bs| <= |buf| then ok && Filled(buf, offset, acc + bs) else !ok
  }

  lemma PutsSteps(before: seq<byte>, now: seq<byte>, off: nat, acc: seq<byte>, bs: seq<byte>)
    requires Filled(before, off, acc) && |before| == |now| && Appended(now, before, off, bs)
    ensures Filled(now, off + |bs|, acc + bs)
  {
    var end := off + |bs|;
    assert now[HEADER_SIZE..end] == now[..end][HEADER_SIZE..];
    assert before[..off][HEADER_SIZE..] == before[HEADER_SIZE..off];
    assert (before[..off] + bs)[HEADER_SIZE..] == before[..off][HEADER_SIZE..] + bs;
  }

  method AddString(buf: array<byte>, off: nat, str: seq<byte>, ghost acc: seq<byte>) returns (ok: bool, offset: nat)
    requires Filled(buf[..], off, acc) && (|str| <= 0xffff || buf.Length < |str|)
    modifies buf
    ensures |str| <= 0xffff ==> Valid(StrWire(str)) && Stepped(ok, buf[..], offset, acc, Encode(StrWire(str)))
    ensures |str| > 0xffff ==> !ok
  {
    hide Encode, Valid, StrWire, Appended, Overwritten;
    ghost var before := buf[..];
    var w := EncodeString(buf, off, str);
    ok, offset := w.Wrote?, if w.Wrote? then off + w.n else off;
    if ok { PutsSteps(before, buf[..], off, acc, Encode(StrWire(str))); }
  }

  method AddUint(buf: array<byte>, off: nat, val: nat, ghost acc: seq<byte>) returns (ok: bool, offset: nat)
    requires Filled(buf[..], off, acc) && val < Pow256(8)
    modifies buf
    ensures Valid(UintWire(val)) && Stepped(ok, buf[..], offset, acc, Encode(UintWire(val)))
  {
    hide Encode, Valid, UintWire, Appended, Overwritten, Pow256;
    ghost var before := buf[..];
    var w := EncodeUint(buf, off, val);
    ok, offset := w.Wrote?, if w.Wrote? then off + w.n else off;
    if ok { PutsSteps(before, buf[..], off, acc, Encode(UintWire(val))); }
  }

  method AddMap(buf: array<byte>, off: nat, count: nat, ghost acc: seq<byte>) returns (ok: bool, offset: nat)
    requires Filled(buf[..], off, acc) && count <= 15
    modifies buf
    ensures Stepped(ok, buf[..], offset, acc, [0x80 + count])
  {
    hide Appended, Overwritten;
    ghost var before := buf[..];
    var w := EncodeMapHeader(buf, off, count);
    ok, offset := w.Wrote?, if w.Wrote? then off + w.n else off;
    if ok { PutsSteps(before, buf[..], off, acc, [0x80 + count]); }
  }

  /** Fill in the six header bytes in front of a payload that ends at `offset`. */
  method Finish(buf: array<byte>, offset: nat, ghost payload: seq<byte>) returns (frame: seq<byte>)
    requires Filled(buf[..], offset, payload)
    modifies buf
    ensures frame == Frame(payload)
  {
    hide WriteLE;
    var header := MAGIC + WriteLE(offset - HEADER_SIZE, 4);
    var r := Put(buf, 0, header);
    frame := buf[..offset];
    assert frame == header + payload;
  }

  lemma StartsFilled(buf: seq<byte>)
    requires |buf| >= HEADER_SIZE
    ensures Filled(buf, HEADER_SIZE, [])
  {
  }

  /** For every 64-bit id the acknowledgement fits and is one frame of the wire tree above. */
  method SendHeartbeatAck(id: nat) returns (sent: Option<seq<byte>>)
    requires id < Pow256(8)
    ensures Valid(AckWire(id)) && sent == Some(Frame(Encode(AckWire(id))))
  {
    hide Encode, Valid, Frame, UintWire, StrWire, AckWire, ResponseWire, Pow256, Filled, EncodeAll, CountHeader, WriteLE;
    AckValid(id);
    ResponseValid(id);
    UintWireValid(id);
    StrWireValid(ID); StrWireValid(KIND); StrWireValid(BODY); StrWireValid(HEARTBEAT_ACK);
    StrWireValid(RESPONSE); StrWireValid(IN_REPLY_TO);
    var buf := new byte[BUFFER_SIZE];
    StartsFilled(buf[..]);
    ghost var a0 := [];
    var ok, offset := AddMap(buf, HEADER_SIZE, 3, a0);
    ghost var a1 := a0 + [0x80 + 3];
    ok, offset := AddString(buf, offset, ID, a1);
    ghost var a2 := a1 + Encode(StrWire(ID));
    ok, offset := AddUint(buf, offset, id, a2);
    ghost var a3 := a2 + Encode(UintWire(id));
    ok, offset := AddString(buf, offset, KIND, a3);
    ghost var a4 := a3 + Encode(StrWire(KIND));
    // kind: {"Response": {"in_reply_to": id}}
    ok, offset := AddMap(buf, offset, 1, a4);
    ghost var a5 := a4 + [0x80 + 1];
    ok, offset := AddString(buf, offset, RESPONSE, a5);
    ghost var a6 := a5 + Encode(StrWire(RESPONSE));
    ok, offset := AddMap(buf, offset, 1, a6);
    ghost var a7 := a6 + [0x80 + 1];
    ok, offset := AddString(buf, offset, IN_REPLY_TO, a7);
    ghost var a8 := a7 + Encode(StrWire(IN_REPLY_TO));
    ok, offset := AddUint(buf, offset, id, a8);
    ghost var a9 := a8 + Encode(UintWire(id));
    ok, offset := AddString(buf, offset, BODY, a9);
    ghost var a10 := a9 + Encode(StrWire(BODY));
    ok, offset := AddString(buf, offset, HEARTBEAT_ACK, a10);
    ghost var a11 := a10 + Encode(StrWire(HEARTBEAT_ACK));
    assert a11 == Encode(AckWire(id)) by {
      assert a9 == a4 + Encode(ResponseWire(id));
    }
    var frame := Finish(buf, offset, a11);
    sent := Some(frame);
  }

  // ---------- reading the acknowledgement back ----------

  lemma FirstOfSix(a: Wire, b: Wire, c: Wire, d: Wire, e: Wire, f: Wire, key: seq<byte>)
    ensures FirstValue([a, b, c, d, e, f], key) ==
            if Meaning(a) == Str(key) then Some(b)
            else if Meaning(c) == Str(key) then Some(d)
            else if Meaning(e) == Str(key) then Some(f)
            else None
  {
    hide Meaning;
    var items := [a, b, c, d, e, f];
    assert items[2..] == [c, d, e, f];
    assert [c, d, e, f][2..] == [e, f];
    FirstOfTwo(e, f, key);
    assert FirstValue([c, d, e, f], key) == if Meaning(c) == Str(key) then Some(d) else FirstValue([e, f], key);
  }

  lemma FirstOfTwo(a: Wire, b: Wire, key: seq<byte>)
    ensures FirstValue([a, b], key) == if Meaning(a) == Str(key) then Some(b) else None
  {
    hide Meaning;
    assert [a, b][2..] == [];
  }

  lemma LookupInMap(m: Wire, key: seq<byte>, v: Wire)
    requires Valid(m) && m.WMap? && FirstValue(m.items, key) == Some(v)
    ensures Valid(v) && Lookup(Encode(m), key) == Some(Encode(v))
  {
    hide Encode, Lookup, FirstValue;
    LookupFinds(m, [], key);
    assert Encode(m) + [] == Encode(m);
  }

  /** The acknowledgement frame fits the 256-byte buffer, is read back as one message that takes
      the whole frame, and carries the id under kind, Response, in_reply_to. */
  lemma AckReadsBack(id: nat)
    requires id < Pow256(8)
    ensures Valid(AckWire(id)) && |Frame(Encode(AckWire(id)))| <= BUFFER_SIZE
    ensures NextFrame(Frame(Encode(AckWire(id)))) == Payload(Encode(AckWire(id)), [])
    ensures ParseMessage(Encode(AckWire(id))) == Heartbeat
    ensures var kind := Lookup(Encode(AckWire(id)), KIND);
            kind.Some? &&
            var response := Lookup(kind.value, RESPONSE);
            response.Some? &&
            var reply := Lookup(response.value, IN_REPLY_TO);
            reply.Some? && Decode(reply.value) == Ok(UInt(id), |reply.value|)
    ensures var own := Lookup(Encode(AckWire(id)), ID); own.Some? && Decode(own.value) == Ok(UInt(id), |own.value|)
  {
    hide Encode, Valid, Frame, NextFrame, ParseMessage, Decode, Lookup, Pow256, FirstValue;
    AckValid(id);
    ResponseValid(id);
    AckSize(id);
    TakesWholeFrame(Encode(AckWire(id)), []);
    assert Frame(Encode(AckWire(id))) + [] == Frame(Encode(AckWire(id)));
    AckIsHeartbeat(id);
    var inner := WMap([StrWire(IN_REPLY_TO), UintWire(id)], false);
    FirstOfSix(StrWire(ID), UintWire(id), StrWire(KIND), ResponseWire(id), StrWire(BODY), StrWire(HEARTBEAT_ACK), KIND);
    LookupInMap(AckWire(id), KIND, ResponseWire(id));
    FirstOfTwo(StrWire(RESPONSE), inner, RESPONSE);
    LookupInMap(ResponseWire(id), RESPONSE, inner);
    FirstOfTwo(StrWire(IN_REPLY_TO), UintWire(id), IN_REPLY_TO);
    LookupInMap(inner, IN_REPLY_TO, UintWire(id));
    EncodingDecodes(UintWire(id));
    FirstOfSix(StrWire(ID), UintWire(id), StrWire(KIND), ResponseWire(id), StrWire(BODY), StrWire(HEARTBEAT_ACK), ID);
    LookupInMap(AckWire(id), ID, UintWire(id));
  }

  lemma AckSize(id: nat)
    requires id < Pow256(8)
    ensures Valid(AckWire(id)) && |Encode(AckWire(id))| <= 68
  {
    hide Encode, Valid, UintWire, StrWire, AckWire, ResponseWire, Pow256;
    AckValid(id);
    ResponseValid(id);
    UintWireValid(id);
    StrWireValid(ID); StrWireValid(KIND); StrWireValid(BODY); StrWireValid(HEARTBEAT_ACK);
    StrWireValid(RESPONSE); StrWireValid(IN_REPLY_TO);
  }

  lemma AckIsHeartbeat(id: nat)
    requires id < Pow256(8)
    ensures Valid(AckWire(id)) && ParseMessage(Encode(AckWire(id))) == Heartbeat
  {
    hide Encode, Valid, ParseMessage, Pow256, FirstValue;
    AckValid(id);
    FirstOfSix(StrWire(ID), UintWire(id), StrWire(KIND), ResponseWire(id), StrWire(BODY), StrWire(HEARTBEAT_ACK), BODY);
    ParseMeansClassify(AckWire(id));
  }

  // ---------- shutdown notices ----------

  function SignalWire(name: seq<byte>): Wire {
    WMap([StrWire(SHUTDOWN_SIGNAL), WMap([StrWire(SIGNAL), StrWire(name)], false)], false)
  }

  /** An event message with id 0 whose body names the signal. */
  function NoticeWire(name: seq<byte>): Wire {
    WMap([StrWire(ID), UintWire(0), StrWire(KIND), StrWire(EVENT), StrWire(BODY), SignalWire(name)], false)
  }

  lemma SignalValid(name: seq<byte>)
    requires |name| <= 0xffff
    ensures Valid(SignalWire(name)) && Valid(StrWire(name))
    ensures Valid(StrWire(SHUTDOWN_SIGNAL)) && Valid(StrWire(SIGNAL))
    ensures Encode(SignalWire(name)) ==
            [0x81] + Encode(StrWire(SHUTDOWN_SIGNAL)) + [0x81] + Encode(StrWire(SIGNAL)) + Encode(StrWire(name))
  {
    hide Encode, EncodeAll, Valid, StrWire;
    StrWireValid(SHUTDOWN_SIGNAL); StrWireValid(SIGNAL); StrWireValid(name);
    var inner := WMap([StrWire(SIGNAL), StrWire(name)], false);
    NarrowMap([StrWire(SIGNAL), StrWire(name)]);
    EncodePair(StrWire(SIGNAL), StrWire(name));
    NarrowMap([StrWire(SHUTDOWN_SIGNAL), inner]);
    EncodePair(StrWire(SHUTDOWN_SIGNAL), inner);
  }

  lemma NoticeValid(name: seq<byte>)
    requires |name| <= 0xffff
    ensures Valid(NoticeWire(name)) && Valid(StrWire(name)) && Valid(UintWire(0))
    ensures Valid(StrWire(ID)) && Valid(StrWire(KIND)) && Valid(StrWire(EVENT)) && Valid(StrWire(BODY))
    ensures Valid(StrWire(SHUTDOWN_SIGNAL)) && Valid(StrWire(SIGNAL))
    ensures Encode(NoticeWire(name)) ==
            [0x83] + Encode(StrWire(ID)) + Encode(UintWire(0)) + Encode(StrWire(KIND)) + Encode(StrWire(EVENT))
            + Encode(StrWire(BODY)) + [0x81] + Encode(StrWire(SHUTDOWN_SIGNAL)) + [0x81] + Encode(StrWire(SIGNAL))
            + Encode(StrWire(name))
  {
    hide Encode, EncodeAll, Valid, UintWire, StrWire, Pow256, SignalWire;
    Widths();
    UintWireValid(0);
    StrWireValid(ID); StrWireValid(KIND); StrWireValid(EVENT); StrWireValid(BODY);
    SignalValid(name);
    var items := [StrWire(ID), UintWire(0), StrWire(KIND), StrWire(EVENT), StrWire(BODY), SignalWire(name)];
    NarrowMap(items);
    EncodeAllPair(items);
    EncodeAllPair(items[2..]);
    EncodeAllPair(items[4..]);
    assert items[2..][2..] == items[4..] && items[4..][2..] == [];
    EncodeNothing();
  }

  /** Exactly the notices that fit are sent, whole; one that does not fit is silently dropped. */
  method SendShutdownSignal(name: seq<byte>) returns (sent: Option<seq<byte>>)
    ensures |name| <= 0xffff ==>
              && Valid(NoticeWire(name))
              && var payload := Encode(NoticeWire(name));
                 sent == if HEADER_SIZE + |payload| <= BUFFER_SIZE then Some(Frame(payload)) else None
    ensures |name| > 0xffff ==> sent == None
  {
    hide Encode, Valid, Frame, UintWire, StrWire, NoticeWire, Pow256, Filled, SignalWire, EncodeAll, CountHeader, WriteLE;
    Widths();
    UintWireValid(0);
    StrWireValid(ID); StrWireValid(KIND); StrWireValid(EVENT); StrWireValid(BODY);
    StrWireValid(SHUTDOWN_SIGNAL); StrWireValid(SIGNAL);
    var buf := new byte[BUFFER_SIZE];
    StartsFilled(buf[..]);
    ghost var a0 := [];
    var ok, offset := AddMap(buf, HEADER_SIZE, 3, a0);
    ghost var a1 := a0 + [0x80 + 3];
    ok, offset := AddString(buf, offset, ID, a1);
    ghost var a2 := a1 + Encode(StrWire(ID));
    ok, offset := AddUint(buf, offset, 0, a2);
    ghost var a3 := a2 + Encode(UintWire(0));
    ok, offset := AddString(buf, offset, KIND, a3);
    ghost var a4 := a3 + Encode(StrWire(KIND));
    ok, offset := AddString(buf, offset, EVENT, a4);
    ghost var a5 := a4 + Encode(StrWire(EVENT));
    ok, offset := AddString(buf, offset, BODY, a5);
    ghost var a6 := a5 + Encode(StrWire(BODY));
    ok, offset := AddMap(buf, offset, 1, a6);
    ghost var a7 := a6 + [0x80 + 1];
    ok, offset := AddString(buf, offset, SHUTDOWN_SIGNAL, a7);
    ghost var a8 := a7 + Encode(StrWire(SHUTDOWN_SIGNAL));
    ok, offset := AddMap(buf, offset, 1, a8);
    ghost var a9 := a8 + [0x80 + 1];
    ok, offset := AddString(buf, offset, SIGNAL, a9);
    ghost var a10 := a9 + Encode(StrWire(SIGNAL));
    ok, offset := AddString(buf, offset, name, a10);
    if |name| <= 0xffff { NoticeValid(name); }
    if !ok {
      return None;
    }
    ghost var a11 := a10 + Encode(StrWire(name));
    assert a11 == Encode(NoticeWire(name));
    var frame := Finish(buf, offset, a11);
    sent := Some(frame);
  }

  /** A notice reads back as an event with id 0 whose body gives the signal's name under ShutdownSignal,
      signal. */
  lemma NoticeReadsBack(name: seq<byte>)
    requires |name| <= 0xffff
    ensures Valid(NoticeWire(name))
    ensures var payload := Encode(NoticeWire(name));
            var id, kind, body := Lookup(payload, ID), Lookup(payload, KIND), Lookup(payload, BODY);
            && id.Some? && Decode(id.value) == Ok(UInt(0), |id.value|)
            && kind.Some? && Decode(kind.value) == Ok(Str(EVENT), |kind.value|)
            && body.Some?
            && var signal := Lookup(body.value, SHUTDOWN_SIGNAL);
               signal.Some? &&
               var text := Lookup(signal.value, SIGNAL);
               text.Some? && Decode(text.value) == Ok(Str(name), |text.value|)
  {
    hide Encode, Valid, Decode, Lookup, FirstValue, Pow256, StrWire, UintWire;
    NoticeValid(name);
    SignalValid(name);
    StrMeans(ID); StrMeans(KIND); StrMeans(BODY); StrMeans(EVENT); StrMeans(SHUTDOWN_SIGNAL); StrMeans(SIGNAL);
    StrMeans(name);
    FirstOfSix(StrWire(ID), UintWire(0), StrWire(KIND), StrWire(EVENT), StrWire(BODY), SignalWire(name), ID);
    FirstOfSix(StrWire(ID), UintWire(0), StrWire(KIND), StrWire(EVENT), StrWire(BODY), SignalWire(name), KIND);
    FirstOfSix(StrWire(ID), UintWire(0), StrWire(KIND), StrWire(EVENT), StrWire(BODY), SignalWire(name), BODY);
    LookupInMap(NoticeWire(name), ID, UintWire(0));
    LookupInMap(NoticeWire(name), KIND, StrWire(EVENT));
    LookupInMap(NoticeWire(name), BODY, SignalWire(name));
    var inner := WMap([StrWire(SIGNAL), StrWire(name)], false);
    FirstOfTwo(StrWire(SHUTDOWN_SIGNAL), inner, SHUTDOWN_SIGNAL);
    LookupInMap(SignalWire(name), SHUTDOWN_SIGNAL, inner);
    FirstOfTwo(StrWire(SIGNAL), StrWire(name), SIGNAL);
    LookupInMap(inner, SIGNAL, StrWire(name));
    EncodingDecodes(UintWire(0));
    EncodingDecodes(StrWire(EVENT));
    EncodingDecodes(StrWire(name));
    ZeroMeans();
  }

  lemma StrMeans(s: seq<byte>)
    ensures Meaning(StrWire(s)) == Str(s)
  {
  }

  lemma ZeroMeans()
    ensures Meaning(UintWire(0)) == UInt(0)
  {
  }
}
