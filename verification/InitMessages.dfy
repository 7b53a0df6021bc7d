/** What init understands of a payload: `parseMessage` and its helpers, against the wire tree. */
module InitMessages {
  import opened Common
  import opened Bytes
  import opened Msgpack
  import opened MsgpackProofs
  import opened MsgpackReader

  // Field and variant names, in ASCII.
  const ID: seq<byte> := [0x69, 0x64]
  const KIND: seq<byte> := [0x6b, 0x69, 0x6e, 0x64]
  const BODY: seq<byte> := [0x62, 0x6f, 0x64, 0x79]
  const LEVEL: seq<byte> := [0x6c, 0x65, 0x76, 0x65, 0x6c]
  const MESSAGE: seq<byte> := [0x6d, 0x65, 0x73, 0x73, 0x61, 0x67, 0x65]
  const HEARTBEAT: seq<byte> := [0x48, 0x65, 0x61, 0x72, 0x74, 0x62, 0x65, 0x61, 0x74]
  const HEARTBEAT_ACK: seq<byte> := HEARTBEAT + [0x41, 0x63, 0x6b]
  const REQUEST_SHUTDOWN: seq<byte> :=
    [0x52, 0x65, 0x71, 0x75, 0x65, 0x73, 0x74, 0x53, 0x68, 0x75, 0x74, 0x64, 0x6f, 0x77, 0x6e]
  const LOG_TO_KMSG: seq<byte> := [0x4c, 0x6f, 0x67, 0x54, 0x6f, 0x4b, 0x6d, 0x73, 0x67]
  const POWEROFF: seq<byte> := [0x50, 0x6f, 0x77, 0x65, 0x72, 0x6f, 0x66, 0x66]
  const REBOOT: seq<byte> := [0x52, 0x65, 0x62, 0x6f, 0x6f, 0x74]
  const HALT: seq<byte> := [0x48, 0x61, 0x6c, 0x74]

  /** The bytes are the characters of the text. */
  predicate Spells(bs: seq<byte>, s: string) { |bs| == |s| && forall i :: 0 <= i < |s| ==> bs[i] == s[i] as int }

  lemma Spelled()
    ensures Spells(ID, "id") && Spells(KIND, "kind") && Spells(BODY, "body")
    ensures Spells(LEVEL, "level") && Spells(MESSAGE, "message")
    ensures Spells(HEARTBEAT, "Heartbeat") && Spells(HEARTBEAT_ACK, "HeartbeatAck")
    ensures Spells(REQUEST_SHUTDOWN, "RequestShutdown") && Spells(LOG_TO_KMSG, "LogToKmsg")
    ensures Spells(POWEROFF, "Poweroff") && Spells(REBOOT, "Reboot") && Spells(HALT, "Halt")
  {
  }

  /** `LevelCastFails` stands for the checked narrowing of a level above 255. */
  datatype Message<T> =
    | Heartbeat
    | RequestShutdown(kind: ShutdownKind)
    | LogToKmsg(level: nat, text: T)
    | LevelCastFails
    | Unknown

  // ---------- parsing, as the source does it ----------

  function ParseShutdownRequest(raw: seq<byte>): Message<Span> {
    var k := LookupSpan(raw, KIND);
    if k.None? then Unknown else
    KindNamed(Decode(Slice(raw, k.value)))
  }

  function KindNamed(d: Decoded): Message<Span> {
    if !d.Ok? || !d.value.Str? then Unknown
    else if d.value.s == POWEROFF then RequestShutdown(Poweroff)
    else if d.value.s == REBOOT then RequestShutdown(Reboot)
    else if d.value.s == HALT then RequestShutdown(Halt)
    else Unknown
  }

  /** The text is a slice of `raw`: the data bytes at the end of the encoded string. */
  function ParseLogToKmsg(raw: seq<byte>): (r: Message<Span>)
    ensures r.LogToKmsg? ==> Within(r.text, raw)
  {
    var l := LookupSpan(raw, LEVEL);
    if l.None? then Unknown else
    var level := Decode(Slice(raw, l.value));
    if !level.Ok? || !level.value.UInt? then Unknown else
    var m := LookupSpan(raw, MESSAGE);
    if m.None? then Unknown else
    var text := Decode(Slice(raw, m.value));
    if !text.Ok? || !text.value.Str? then Unknown
    else if level.value.n > 255 then LevelCastFails
    else LogToKmsg(level.value.n, Span(m.value.start + (text.consumed - |text.value.s|), |text.value.s|))
  }

  function Rebased(m: Message<Span>, base: nat): Message<Span> {
    if m.LogToKmsg? then m.(text := Span(base + m.text.start, m.text.len)) else m
  }

  function ParseMessage(payload: seq<byte>): (r: Message<Span>)
    ensures r.LogToKmsg? ==> Within(r.text, payload)
  {
    var b := LookupSpan(payload, BODY);
    if b.None? then Unknown else
    var body := Slice(payload, b.value);
    var d := Decode(body);
    if !d.Ok? then Unknown
    else if d.value.Str? then
      if d.value.s == HEARTBEAT || d.value.s == HEARTBEAT_ACK then Heartbeat else Unknown
    else
      var shutdown := LookupSpan(body, REQUEST_SHUTDOWN);
      if shutdown.Some? then ParseShutdownRequest(Slice(body, shutdown.value)) else
      var log := LookupSpan(body, LOG_TO_KMSG);
      if log.Some? then
        Rebased(ParseLogToKmsg(Slice(body, log.value)), b.value.start + log.value.start)
      else Unknown
  }

  // ---------- the meaning of a wire tree ----------

  function Field(w: Wire, key: seq<byte>): Option<Wire> {
    if w.WMap? then FirstValue(w.items, key) else None
  }

  function ClassifyShutdown(w: Wire): Message<seq<byte>> {
    var k := Field(w, KIND);
    if k.None? || !k.value.WStr? then Unknown
    else if k.value.s == POWEROFF then RequestShutdown(Poweroff)
    else if k.value.s == REBOOT then RequestShutdown(Reboot)
    else if k.value.s == HALT then RequestShutdown(Halt)
    else Unknown
  }

  function ClassifyLog(w: Wire): Message<seq<byte>> {
    var l, m := Field(w, LEVEL), Field(w, MESSAGE);
    if l.None? || !l.value.WUint? || m.None? || !m.value.WStr? then Unknown
    else if l.value.n > 255 then LevelCastFails
    else LogToKmsg(l.value.n, m.value.s)
  }

  function Classify(w: Wire): Message<seq<byte>> {
    var b := Field(w, BODY);
    if b.None? then Unknown
    else if b.value.WStr? then
      if b.value.s == HEARTBEAT || b.value.s == HEARTBEAT_ACK then Heartbeat else Unknown
    else if Field(b.value, REQUEST_SHUTDOWN).Some? then ClassifyShutdown(Field(b.value, REQUEST_SHUTDOWN).value)
    else if Field(b.value, LOG_TO_KMSG).Some? then ClassifyLog(Field(b.value, LOG_TO_KMSG).value)
    else Unknown
  }

  /** The parsed message, its text read out of the buffer it points into. */
  function Read(m: Message<Span>, buf: seq<byte>): Message<seq<byte>>
    requires m.LogToKmsg? ==> Within(m.text, buf)
  {
    match m
    case Heartbeat => Heartbeat
    case RequestShutdown(k) => RequestShutdown(k)
    case LogToKmsg(level, text) => LogToKmsg(level, Slice(buf, text))
    case LevelCastFails => LevelCastFails
    case Unknown => Unknown
  }

  // ---------- parsing means classifying ----------

  /** A lookup in any encoded value finds the field of the tree; only maps have fields. */
  lemma FieldFinds(w: Wire, key: seq<byte>)
    requires Valid(w)
    ensures Field(w, key).Some? ==> Valid(Field(w, key).value)
    ensures SliceOption(Encode(w), LookupSpan(Encode(w), key)) == EncodedOption(Field(w, key))
  {
    if w.WMap? {
      hide LookupSpan, Encode;
      SpanFinds(w, key);
    } else {
      hide SpanFrom, EncodeAll, WriteBE;
      assert !(0x80 <= Encode(w)[0] <= 0x8f) && Encode(w)[0] != 0xde;
    }
  }

  lemma EncodingDecodes(w: Wire)
    requires Valid(w)
    ensures Decode(Encode(w)) == Ok(Meaning(w), |Encode(w)|)
  {
    hide Decode, Encode, Meaning;
    RoundTrip(w, []);
    assert Encode(w) + [] == Encode(w);
  }

  /** String data sits at the end of its encoding. */
  lemma StringAtEnd(w: Wire)
    requires Valid(w) && w.WStr?
    ensures |w.s| <= |Encode(w)| && Encode(w)[|Encode(w)| - |w.s|..] == w.s
  {
    hide WriteBE;
  }

  lemma ShutdownParsed(w: Wire)
    requires Valid(w)
    ensures !ParseShutdownRequest(Encode(w)).LogToKmsg?
    ensures Read(ParseShutdownRequest(Encode(w)), []) == ClassifyShutdown(w)
  {
    hide Encode, Decode, LookupSpan, Field;
    FieldFinds(w, KIND);
    if Field(w, KIND).Some? {
      EncodingDecodes(Field(w, KIND).value);
    }
  }

  lemma SubSlice(buf: seq<byte>, a: nat, n: nat, b: nat, m: nat)
    requires a + n <= |buf| && b + m <= n
    ensures buf[a..a + n][b..b + m] == buf[a + b..a + b + m]
  {
    var left, right := buf[a..a + n][b..b + m], buf[a + b..a + b + m];
    assert forall i :: 0 <= i < m ==> left[i] == buf[a + b + i] == right[i];
  }

  /** The data of a string field, read at the end of the field's span. */
  lemma TextOfField(w: Wire, key: seq<byte>)
    requires Valid(w) && Field(w, key).Some? && Field(w, key).value.WStr?
    ensures LookupSpan(Encode(w), key).Some?
    ensures var sp, n := LookupSpan(Encode(w), key).value, |Field(w, key).value.s|;
            && n <= sp.len && sp.start + sp.len <= |Encode(w)|
            && Encode(w)[sp.start + sp.len - n..sp.start + sp.len] == Field(w, key).value.s
  {
    hide Encode, LookupSpan, Field, Valid;
    FieldFinds(w, key);
    var m := Field(w, key).value;
    StringAtEnd(m);
    var sp := LookupSpan(Encode(w), key).value;
    SubSlice(Encode(w), sp.start, sp.len, sp.len - |m.s|, |m.s|);
  }

  lemma LogParsed(w: Wire)
    requires Valid(w)
    ensures Read(ParseLogToKmsg(Encode(w)), Encode(w)) == ClassifyLog(w)
  {
    hide Encode, Decode, LookupSpan, Field, Valid;
    FieldFinds(w, LEVEL);
    FieldFinds(w, MESSAGE);
    if Field(w, LEVEL).Some? { EncodingDecodes(Field(w, LEVEL).value); }
    if Field(w, MESSAGE).Some? {
      EncodingDecodes(Field(w, MESSAGE).value);
      if Field(w, MESSAGE).value.WStr? { TextOfField(w, MESSAGE); }
    }
  }

  /** Init reads out of an encoded payload exactly the message its wire tree states. */
  lemma ParseMeansClassify(w: Wire)
    requires Valid(w)
    ensures Read(ParseMessage(Encode(w)), Encode(w)) == Classify(w)
  {
    hide Encode, Decode, LookupSpan, Field, ParseShutdownRequest, ParseLogToKmsg, ClassifyShutdown, ClassifyLog, Valid;
    FieldFinds(w, BODY);
    if Field(w, BODY).Some? {
      var b := Field(w, BODY).value;
      EncodingDecodes(b);
      FieldFinds(b, REQUEST_SHUTDOWN);
      FieldFinds(b, LOG_TO_KMSG);
      if b.WStr? {
        StringHasNoFields(b, REQUEST_SHUTDOWN);
      } else if Field(b, REQUEST_SHUTDOWN).Some? {
        ShutdownParsed(Field(b, REQUEST_SHUTDOWN).value);
      } else if Field(b, LOG_TO_KMSG).Some? {
        var l := Field(b, LOG_TO_KMSG).value;
        LogParsed(l);
        var bs, ls := LookupSpan(Encode(w), BODY).value, LookupSpan(Encode(b), LOG_TO_KMSG).value;
        SliceOfSlice(Encode(w), bs, ls, ParseLogToKmsg(Encode(l)));
      }
    }
  }

  lemma StringHasNoFields(w: Wire, key: seq<byte>)
    requires w.WStr?
    ensures Field(w, key) == None
  {
  }

  lemma SliceOfSlice(buf: seq<byte>, outer: Span, inner: Span, m: Message<Span>)
    requires Within(outer, buf) && Within(inner, Slice(buf, outer))
    requires m.LogToKmsg? ==> Within(m.text, Slice(Slice(buf, outer), inner))
    ensures Rebased(m, outer.start + inner.start).LogToKmsg? ==>
              Within(Rebased(m, outer.start + inner.start).text, buf)
    ensures Read(Rebased(m, outer.start + inner.start), buf) == Read(m, Slice(Slice(buf, outer), inner))
  {
    if m.LogToKmsg? {
      SubSlice(buf, outer.start, outer.len, inner.start, inner.len);
      SubSlice(buf, outer.start + inner.start, inner.len, m.text.start, m.text.len);
    }
  }
}
