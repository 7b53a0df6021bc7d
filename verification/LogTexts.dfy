/** The text of a log message, from the tree the service manager sends to what init reads out of its buffer. */
module LogTexts {
  import opened Common
  import opened Bytes
  import opened Msgpack
  import opened MsgpackReader
  import opened MsgpackWriter
  import opened InitMessages
  import opened Framing
  import opened IpcBuffers

  /** The tree fits a frame and states a log message. */
  ghost predicate SendsLog(w: Wire) {
    Valid(w) && |Encode(w)| <= MAX_MESSAGE_SIZE && Classify(w).LogToKmsg?
  }

  /** Where the text of the message stands in its frame. */
  ghost function TextSpan(w: Wire): (sp: Span)
    requires SendsLog(w)
    ensures HEADER_SIZE <= sp.start && Within(sp, Frame(Encode(w)))
    ensures Slice(Frame(Encode(w)), sp) == Classify(w).text
  {
    ParseMeansClassify(w);
    hide Encode, ParseMessage, Classify, Frame, Valid;
    var parsed := ParseMessage(Encode(w)).text;
    TextInFrame(Encode(w), parsed);
    Span(HEADER_SIZE + parsed.start, parsed.len)
  }

  lemma TextInFrame(payload: seq<byte>, sp: Span)
    requires Within(sp, payload)
    ensures var inFrame := Span(HEADER_SIZE + sp.start, sp.len);
            Within(inFrame, Frame(payload)) && Slice(Frame(payload), inFrame) == Slice(payload, sp)
  {
    hide WriteLE;
    SubSlice(Frame(payload), HEADER_SIZE, |payload|, sp.start, sp.len);
    assert Frame(payload)[HEADER_SIZE..HEADER_SIZE + |payload|] == payload;
  }

  /** Init pops the message off a buffer that starts with its frame, and reads its text where the frame was. */
  lemma PopsFrame(w: Wire, rest: seq<byte>)
    requires SendsLog(w)
    ensures var frame := Frame(Encode(w));
            && PopsLog(frame + rest)
            && TextAfter(frame + rest) == Slice(ShiftedBy(frame + rest, |frame|), TextSpan(w))
  {
    hide Encode, ParseMessage, Classify, Frame, Valid, ShiftedBy, NextFrame, Synced, MagicAt, ReadLE;
    ParseMeansClassify(w);
    var frame := Frame(Encode(w));
    TakesWholeFrame(Encode(w), rest);
    FrameHeader(Encode(w), rest);
    FrontIsSynced(frame + rest);
    assert |frame + rest| - |rest| == |frame|;
  }

  /** Init reads the text the tree states, whatever `n` bytes follow the frame, exactly when at most as many bytes
      follow as stand before the text, or the text is empty. */
  lemma LogTextSurvivesExactly(w: Wire, n: nat)
    requires SendsLog(w)
    ensures forall rest: seq<byte> :: PopsLog(Frame(Encode(w)) + rest)
    ensures (forall rest: seq<byte> | |rest| == n :: TextAfter(Frame(Encode(w)) + rest) == Classify(w).text)
            <==> n <= TextSpan(w).start || Classify(w).text == []
  {
    hide Valid, PopsLog, TextAfter, ShiftedBy, Encode, Classify, Frame;
    var frame, sp := Frame(Encode(w)), TextSpan(w);
    forall rest: seq<byte>
      ensures PopsLog(frame + rest) && TextAfter(frame + rest) == Slice(ShiftedBy(frame + rest, |frame|), sp)
    {
      PopsFrame(w, rest);
    }
    TextSurvivesExactly(frame, n, sp);
    assert sp.len == |Slice(frame, sp)|;
  }

  // ---------- two log messages in one read ----------

  /** A log message at level 6 whose text is the one byte `x`. */
  function OneByteLog(x: byte): Wire {
    var log := WMap([StrWire(LEVEL), UintWire(6), StrWire(MESSAGE), StrWire([x])], false);
    WMap([StrWire(BODY), WMap([StrWire(LOG_TO_KMSG), log], false)], false)
  }

  /** Everything in front of the text. */
  const LOG_PREFIX: seq<byte> :=
    [0x81] + ([0xa0 + |BODY|] + BODY) + [0x81] + ([0xa0 + |LOG_TO_KMSG|] + LOG_TO_KMSG)
    + [0x82] + ([0xa0 + |LEVEL|] + LEVEL) + [6] + ([0xa0 + |MESSAGE|] + MESSAGE) + [0xa1]

  lemma ShortString(s: seq<byte>)
    requires |s| <= 31
    ensures Valid(StrWire(s)) && Encode(StrWire(s)) == [0xa0 + |s|] + s
  {
    hide WriteBE;
  }

  lemma SmallUint(n: nat)
    requires n <= 0x7f
    ensures Valid(UintWire(n)) && Encode(UintWire(n)) == [n]
  {
    hide WriteBE, Pow256;
  }

  lemma InnerLog(x: byte)
    ensures var items := [StrWire(LEVEL), UintWire(6), StrWire(MESSAGE), StrWire([x])];
            && Valid(WMap(items, false))
            && Encode(WMap(items, false)) ==
               [0x82] + ([0xa0 + |LEVEL|] + LEVEL) + [6] + ([0xa0 + |MESSAGE|] + MESSAGE) + [0xa1] + [x]
  {
    hide Encode, EncodeAll, Valid, StrWire, UintWire;
    var items := [StrWire(LEVEL), UintWire(6), StrWire(MESSAGE), StrWire([x])];
    ShortString(LEVEL); ShortString(MESSAGE); ShortString([x]); SmallUint(6);
    NarrowMap(items);
    EncodeAllPair(items);
    EncodeAllPair(items[2..]);
    assert items[2..][2..] == [];
    EncodeNothing();
  }

  lemma LogEncoding(x: byte)
    ensures Valid(OneByteLog(x)) && Encode(OneByteLog(x)) == LOG_PREFIX + [x]
  {
    hide Encode, EncodeAll, Valid, StrWire, UintWire;
    var log := WMap([StrWire(LEVEL), UintWire(6), StrWire(MESSAGE), StrWire([x])], false);
    InnerLog(x);
    ShortString(BODY); ShortString(LOG_TO_KMSG);
    NarrowMap([StrWire(LOG_TO_KMSG), log]);
    EncodePair(StrWire(LOG_TO_KMSG), log);
    var body := WMap([StrWire(LOG_TO_KMSG), log], false);
    NarrowMap([StrWire(BODY), body]);
    EncodePair(StrWire(BODY), body);
  }

  lemma FirstPair(key: seq<byte>, v: Wire, rest: seq<Wire>, wanted: seq<byte>)
    ensures FirstValue([StrWire(key), v] + rest, wanted) == if key == wanted then Some(v) else FirstValue(rest, wanted)
  {
    var items := [StrWire(key), v] + rest;
    assert items[0] == StrWire(key) && items[1] == v && items[2..] == rest;
  }

  lemma LogMeaning(x: byte)
    ensures Classify(OneByteLog(x)) == LogToKmsg(6, [x])
  {
    hide FirstValue, LEVEL, MESSAGE, BODY, LOG_TO_KMSG, REQUEST_SHUTDOWN;
    NamesDiffer();
    var text := [StrWire(MESSAGE), StrWire([x])];
    var items := [StrWire(LEVEL), UintWire(6)] + text;
    var log := WMap([StrWire(LEVEL), UintWire(6), StrWire(MESSAGE), StrWire([x])], false);
    assert log.items == items && text == text + [];
    FirstPair(LEVEL, UintWire(6), text, LEVEL);
    FirstPair(LEVEL, UintWire(6), text, MESSAGE);
    FirstPair(MESSAGE, StrWire([x]), [], MESSAGE);
    var body := WMap([StrWire(LOG_TO_KMSG), log], false);
    assert body.items == body.items + [];
    FirstPair(LOG_TO_KMSG, log, [], REQUEST_SHUTDOWN);
    FirstPair(LOG_TO_KMSG, log, [], LOG_TO_KMSG);
    var whole := OneByteLog(x);
    assert whole.items == [StrWire(BODY), body] + [];
    FirstPair(BODY, body, [], BODY);
  }

  lemma NamesDiffer()
    ensures LEVEL != MESSAGE && LOG_TO_KMSG != REQUEST_SHUTDOWN && forall key :: FirstValue([], key) == None
  {
    assert |LOG_TO_KMSG| == 9 && |REQUEST_SHUTDOWN| == 15 && |LEVEL| == 5 && |MESSAGE| == 7;
  }

  /** The text stands at the end of the frame: nowhere else is there a byte that small. */
  lemma TextIsLast(x: byte)
    requires x == 1 || x == 2
    ensures SendsLog(OneByteLog(x)) && |Frame(Encode(OneByteLog(x)))| == HEADER_SIZE + |LOG_PREFIX| + 1
    ensures TextSpan(OneByteLog(x)) == Span(HEADER_SIZE + |LOG_PREFIX|, 1)
  {
    hide OneByteLog, Valid, Encode, Classify, TextSpan;
    LogEncoding(x);
    LogMeaning(x);
    var w := OneByteLog(x);
    var sp, frame := TextSpan(w), Frame(Encode(w));
    assert |Slice(frame, sp)| == 1 && Slice(frame, sp)[0] == frame[sp.start] == x;
    assert frame[HEADER_SIZE..] == LOG_PREFIX + [x];
    assert frame[HEADER_SIZE..][sp.start - HEADER_SIZE] == x;
    assert forall i :: 0 <= i < |LOG_PREFIX| ==> LOG_PREFIX[i] > 2;
  }

  /** Two log messages that arrive together: the text of the second is read for the first. */
  lemma SecondTextReadForFirst()
    ensures var first, second := OneByteLog(1), OneByteLog(2);
            && SendsLog(first) && SendsLog(second)
            && var c := Frame(Encode(first)) + Frame(Encode(second));
               PopsLog(c) && Classify(first).text == [1] && TextAfter(c) == [2]
  {
    hide OneByteLog, Valid, PopsLog, TextAfter, Encode, Classify, Frame, LOG_PREFIX, TextSpan;
    TextIsLast(1);
    TextIsLast(2);
    LogMeaning(1);
    LogMeaning(2);
    var a, b := Frame(Encode(OneByteLog(1))), Frame(Encode(OneByteLog(2)));
    PopsFrame(OneByteLog(1), b);
    var sp := TextSpan(OneByteLog(1));
    assert sp == TextSpan(OneByteLog(2));
    assert (a + b)[|a|..] == b;
    assert Slice(ShiftedBy(a + b, |a|), sp) == Slice(b, sp);
  }
}
