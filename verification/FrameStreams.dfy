/** Whole-stream correctness of the two frame readers, for every way reads may split the bytes. */
module FrameStreams {
  import opened Common
  import opened Bytes
  import opened Framing

  /** A reader in the middle of a stream: bytes still in the socket, bytes buffered, payloads out. */
  datatype Reader = Reader(pending: seq<byte>, buffer: seq<byte>, delivered: seq<seq<byte>>)

  // ---------- init: readFrom, then drain ----------

  /** One readable event on init's side; the kernel hands over at most `want` bytes. */
  function InitTurn(r: Reader, want: nat): Reader {
    if |r.buffer| >= CAPACITY then r.(buffer := []) else
    var n := Min(want, Min(CAPACITY - |r.buffer|, |r.pending|));
    var (out, rest) := Drain(r.buffer + r.pending[..n]);
    Reader(r.pending[n..], rest, r.delivered + out)
  }

  // ---------- service manager: try_recv ----------

  datatype FrameDecode = Incomplete | BadMagic | TooLarge | BadPayload | Decoded(payload: seq<byte>, total: nat)

  /** `protocol::decode`; `parses` is the payload deserializer. */
  function DecodeFrame(buf: seq<byte>, parses: seq<byte> -> bool): (r: FrameDecode)
    ensures r.Decoded? ==> HEADER_SIZE <= r.total <= |buf| && |r.payload| == r.total - HEADER_SIZE
  {
    if |buf| < HEADER_SIZE then Incomplete
    else if buf[0..2] != MAGIC then BadMagic
    else
      var len := ReadLE(buf[2..6]);
      if len > MAX_MESSAGE_SIZE then TooLarge
      else if |buf| < HEADER_SIZE + len then Incomplete
      else if !parses(buf[HEADER_SIZE..HEADER_SIZE + len]) then BadPayload
      else Decoded(buf[HEADER_SIZE..HEADER_SIZE + len], HEADER_SIZE + len)
  }

  const READ_CHUNK := 4096

  /** One `try_recv` call while the peer keeps the connection open. */
  function RecvTurn(r: Reader, want: nat, parses: seq<byte> -> bool): Reader {
    var n := Min(want, Min(READ_CHUNK, |r.pending|));
    var buf := r.buffer + r.pending[..n];
    match DecodeFrame(buf, parses)
    case Decoded(payload, total) => Reader(r.pending[n..], buf[total..], r.delivered + [payload])
    case Incomplete => Reader(r.pending[n..], buf, r.delivered)
    case _ => Reader(r.pending[n..], [], r.delivered)
  }

  // ---------- what every turn keeps ----------

  /** The first `m` payloads are out; buffered and pending bytes are exactly the other frames. */
  ghost predicate Progress(ps: seq<seq<byte>>, r: Reader, m: nat) {
    m <= |ps| && r.delivered == ps[..m] && r.buffer + r.pending == Frames(ps[m..])
  }

  /** The buffer holds less than one frame. */
  ghost predicate Drained(r: Reader) { |r.buffer| < CAPACITY }

  lemma InitTurnKeeps(ps: seq<seq<byte>>, r: Reader, m: nat, want: nat) returns (m': nat)
    requires Sendable(ps) && Progress(ps, r, m) && Drained(r)
    ensures m <= m' && Progress(ps, InitTurn(r, want), m') && Drained(InitTurn(r, want))
    ensures InitTurn(r, want).pending == r.pending[Min(want, Min(CAPACITY - |r.buffer|, |r.pending|))..]
    ensures InitTurn(r, want).pending == [] ==> m' == |ps|
  {
    hide Drain, Frames, NextFrame, Sendable;
    var n := Min(want, Min(CAPACITY - |r.buffer|, |r.pending|));
    assert Sendable(ps[m..]) by { SendableRest(ps, m); }
    var qs, taken := ps[m..], r.buffer + r.pending[..n];
    assert taken == Frames(qs)[..|taken|];
    var d := DrainPrefix(qs, |taken|);
    m' := m + d;
    FramesConcat(qs[..d], qs[d..]);
    assert qs == qs[..d] + qs[d..] && qs[d..] == ps[m'..];
    assert ps[..m'] == ps[..m] + qs[..d];
    var rest := Drain(taken).1;
    assert Frames(qs[..d]) + (rest + r.pending[n..]) == Frames(qs[..d]) + Frames(qs[d..]) by {
      assert Frames(qs[..d]) + rest + r.pending[n..] == taken + r.pending[n..] == r.buffer + r.pending;
    }
    SameSuffix(Frames(qs[..d]), rest + r.pending[n..], Frames(qs[d..]));
    if r.pending[n..] == [] {
      assert taken == Frames(qs);
    }
  }

  lemma SendableRest(ps: seq<seq<byte>>, m: nat)
    requires Sendable(ps) && m <= |ps|
    ensures Sendable(ps[m..])
  {
  }

  lemma SameSuffix(a: seq<byte>, x: seq<byte>, y: seq<byte>)
    requires a + x == a + y
    ensures x == y
  {
    assert (a + x)[|a|..] == x && (a + y)[|a|..] == y;
  }

  function InitRun(r: Reader, wants: seq<nat>): Reader
    decreases |wants|
  {
    if wants == [] then r else InitRun(InitTurn(r, wants[0]), wants[1..])
  }

  lemma {:induction false} InitRunKeeps(ps: seq<seq<byte>>, r: Reader, m: nat, wants: seq<nat>) returns (m': nat)
    requires Sendable(ps) && Progress(ps, r, m) && Drained(r) && (r.pending == [] ==> m == |ps|)
    ensures Progress(ps, InitRun(r, wants), m') && Drained(InitRun(r, wants))
    ensures InitRun(r, wants).pending == [] ==> m' == |ps|
    decreases |wants|
  {
    hide InitTurn, Progress;
    if wants == [] {
      m' := m;
    } else {
      var m1 := InitTurnKeeps(ps, r, m, wants[0]);
      m' := InitRunKeeps(ps, InitTurn(r, wants[0]), m1, wants[1..]);
    }
  }

  /** Init delivers each payload once and in order, never loses a buffered byte, never fills its
      buffer, and has delivered everything as soon as everything has been read. */
  lemma InitDeliversAll(ps: seq<seq<byte>>, wants: seq<nat>)
    requires Sendable(ps)
    ensures var r := InitRun(Reader(Frames(ps), [], []), wants);
            && r.delivered <= ps && Drained(r)
            && Frames(r.delivered) + r.buffer + r.pending == Frames(ps)
            && (r.pending == [] ==> r.delivered == ps)
  {
    hide InitRun, Frames, Drained;
    var start := Reader(Frames(ps), [], []);
    assert ps[0..] == ps && start.buffer + start.pending == Frames(ps);
    assert Drained(start) by { StartsDrained(Frames(ps)); }
    if Frames(ps) == [] { NoFramesNoPayloads(ps); }
    var m := InitRunKeeps(ps, start, 0, wants);
    FramesConcat(ps[..m], ps[m..]);
    assert ps == ps[..m] + ps[m..];
    var r := InitRun(start, wants);
    assert Frames(r.delivered) + r.buffer + r.pending == Frames(r.delivered) + (r.buffer + r.pending);
  }

  lemma StartsDrained(pending: seq<byte>)
    ensures Drained(Reader(pending, [], []))
  {
  }

  lemma NoFramesNoPayloads(ps: seq<seq<byte>>)
    requires Frames(ps) == []
    ensures ps == []
  {
  }

  // ---------- garbage in front of a frame ----------

  /** Whatever a buffer yields is shorter than it by a header. */
  lemma {:induction false} DrainShorter(c: seq<byte>, p: seq<byte>)
    requires p in Drain(c).0
    ensures |p| + HEADER_SIZE <= |c|
    decreases |c|
  {
    hide NextFrame;
    var next := NextFrame(c);
    if p != next.payload { DrainShorter(next.rest, p); }
  }

  lemma DrainStops(c: seq<byte>, kept: seq<byte>)
    requires NextFrame(c) == Wait(kept)
    ensures Drain(c) == ([], kept)
  {
  }

  lemma DrainOne(c: seq<byte>, p: seq<byte>)
    requires NextFrame(c) == Payload(p, [])
    ensures Drain(c) == ([p], [])
  {
    KeepsShort([]);
    hide NextFrame;
    DrainStops([], []);
    assert [p] + [] == [p];
  }

  /** Bytes that arrive in two reads. */
  function TwoReads(front: seq<byte>, back: seq<byte>): Reader {
    InitTurn(InitTurn(Reader(front + back, [], []), |front|), |back|)
  }

  /** A read of exactly the front `a` of what is pending. */
  lemma OneRead(a: seq<byte>, b: seq<byte>, buffer: seq<byte>, delivered: seq<seq<byte>>)
    requires |buffer| < CAPACITY && |buffer| + |a| <= CAPACITY
    ensures InitTurn(Reader(a + b, buffer, delivered), |a|) ==
            Reader(b, Drain(buffer + a).1, delivered + Drain(buffer + a).0)
  {
    hide Drain;
    assert (a + b)[..|a|] == a && (a + b)[|a|..] == b;
  }

  lemma TwoDrains(front: seq<byte>, back: seq<byte>)
    requires |front| <= CAPACITY && |Drain(front).1| < CAPACITY && |Drain(front).1| + |back| <= CAPACITY
    ensures TwoReads(front, back).delivered == Drain(front).0 + Drain(Drain(front).1 + back).0
  {
    hide Drain, InitTurn;
    OneRead(front, back, [], []);
    assert [] + front == front && [] + Drain(front).0 == Drain(front).0 && back + [] == back;
    OneRead(back, [], Drain(front).1, Drain(front).0);
  }

  /** Garbage in which no magic starts, then a frame, cut after the frame's first `k` bytes, such that each read fits
      behind what the buffer then holds: the payload is delivered exactly when the first read did not bring just the
      first magic byte, or brought less than a header in all. */
  lemma CutFrameDeliveredExactly(garbage: seq<byte>, p: seq<byte>, k: nat)
    requires garbage != [] && k < |Frame(p)| && |p| <= MAX_MESSAGE_SIZE && |garbage| + k <= CAPACITY
    requires |garbage| + k < HEADER_SIZE ==> |garbage| + |Frame(p)| <= CAPACITY
    requires forall i :: 0 <= i < |garbage| ==> !MagicAt(garbage + Frame(p), i)
    ensures TwoReads(garbage + Frame(p)[..k], Frame(p)[k..]).delivered == [p] <==> k != 1 || |garbage| + 1 < HEADER_SIZE
    ensures k == 1 && |garbage| + 1 >= HEADER_SIZE ==> p !in TwoReads(garbage + Frame(p)[..k], Frame(p)[k..]).delivered
  {
    hide NextFrame, Frame, MagicAt, TwoReads, Drain;
    var c := garbage + Frame(p)[..k];
    CutFrameKept(garbage, p, k);
    var kept := NextFrame(c).rest;
    DrainStops(c, kept);
    TwoDrains(c, Frame(p)[k..]);
    if k == 1 && |garbage| + 1 >= HEADER_SIZE {
      assert kept + Frame(p)[1..] == Frame(p)[1..];
      if p in Drain(Frame(p)[1..]).0 { DrainShorter(Frame(p)[1..], p); }
      assert [] + Drain(Frame(p)[1..]).0 == Drain(Frame(p)[1..]).0;
    } else {
      var g := if |c| < HEADER_SIZE then garbage else [];
      assert kept + Frame(p)[k..] == g + Frame(p) by {
        assert Frame(p)[..k] + Frame(p)[k..] == Frame(p);
        assert kept == g + Frame(p)[..k];
      }
      ResyncRecovers(g, p, []);
      assert g + Frame(p) + [] == g + Frame(p);
      DrainOne(g + Frame(p), p);
      assert [] + [p] == [p];
    }
  }

  // ---------- the same for try_recv ----------

  lemma DecodesWholeFrame(p: seq<byte>, rest: seq<byte>, parses: seq<byte> -> bool)
    requires |p| <= MAX_MESSAGE_SIZE && parses(p)
    ensures DecodeFrame(Frame(p) + rest, parses) == Decoded(p, |Frame(p)|)
  {
    hide ReadLE, Frame;
    FrameHeader(p, rest);
    var c := Frame(p) + rest;
    assert c[0..2] == MAGIC;
  }

  lemma PartialIsIncomplete(p: seq<byte>, n: nat, parses: seq<byte> -> bool)
    requires |p| <= MAX_MESSAGE_SIZE && n < |Frame(p)|
    ensures DecodeFrame(Frame(p)[..n], parses) == Incomplete
  {
    hide ReadLE, Frame;
    FrameHeader(p, []);
    assert Frame(p) + [] == Frame(p);
    var c := Frame(p)[..n];
    if n >= HEADER_SIZE {
      assert c[0..2] == MAGIC && c[2..6] == Frame(p)[2..6];
    }
  }

  /** A call delivers the next payload exactly when its frame has been buffered completely. */
  lemma RecvTurnKeeps(ps: seq<seq<byte>>, r: Reader, m: nat, want: nat, parses: seq<byte> -> bool) returns (m': nat)
    requires Sendable(ps) && (forall p :: p in ps ==> parses(p)) && Progress(ps, r, m)
    ensures m <= m' <= m + 1 && Progress(ps, RecvTurn(r, want, parses), m')
    ensures RecvTurn(r, want, parses).pending == [] && m' == m ==> m == |ps|
    ensures m' == m + 1 <==> m < |ps| && |Frames(ps[m..])| - |RecvTurn(r, want, parses).pending| >= |Frame(ps[m])|
  {
    hide Frame, DecodeFrame;
    var n := Min(want, Min(READ_CHUNK, |r.pending|));
    var buf := r.buffer + r.pending[..n];
    assert buf + r.pending[n..] == Frames(ps[m..]);
    if m == |ps| {
      assert buf == [] && r.pending[n..] == [];
      NothingIsIncomplete(parses);
      m' := m;
    } else {
      var f, others := Frame(ps[m]), Frames(ps[m + 1..]);
      assert ps[m..][1..] == ps[m + 1..];
      assert buf + r.pending[n..] == f + others;
      AlignSplit(buf, r.pending[n..], f, others);
      if |buf| < |f| {
        PartialIsIncomplete(ps[m], |buf|, parses);
        m' := m;
      } else {
        DecodesWholeFrame(ps[m], buf[|f|..], parses);
        assert ps[..m + 1] == ps[..m] + [ps[m]];
        m' := m + 1;
      }
    }
  }

  /** Two ways of cutting the same bytes. */
  lemma AlignSplit(a: seq<byte>, b: seq<byte>, f: seq<byte>, g: seq<byte>)
    requires a + b == f + g
    ensures |a| < |f| ==> a == f[..|a|]
    ensures |a| >= |f| ==> a == f + a[|f|..] && a[|f|..] + b == g
  {
    var whole := a + b;
    assert a == whole[..|a|] && f == whole[..|f|] && g == whole[|f|..];
    if |a| < |f| {
      assert whole[..|f|][..|a|] == whole[..|a|];
    } else {
      assert whole[..|a|][..|f|] == whole[..|f|];
      assert whole[|f|..] == a[|f|..] + b;
    }
  }

  lemma NothingIsIncomplete(parses: seq<byte> -> bool)
    ensures DecodeFrame([], parses) == Incomplete
  {
  }

  function RecvRun(r: Reader, wants: seq<nat>, parses: seq<byte> -> bool): Reader
    decreases |wants|
  {
    if wants == [] then r else RecvRun(RecvTurn(r, wants[0], parses), wants[1..], parses)
  }

  lemma {:induction false} RecvRunKeeps(ps: seq<seq<byte>>, r: Reader, m: nat, wants: seq<nat>, parses: seq<byte> -> bool)
    returns (m': nat)
    requires Sendable(ps) && (forall p :: p in ps ==> parses(p)) && Progress(ps, r, m)
    ensures Progress(ps, RecvRun(r, wants, parses), m')
    decreases |wants|
  {
    hide RecvTurn, Progress;
    if wants == [] {
      m' := m;
    } else {
      var m1 := RecvTurnKeeps(ps, r, m, wants[0], parses);
      m' := RecvRunKeeps(ps, RecvTurn(r, wants[0], parses), m1, wants[1..], parses);
    }
  }

  /** `try_recv` delivers the same payloads in the same order for every split; once everything has
      been read, the first call that returns nothing proves that everything has been delivered. */
  lemma RecvDeliversAll(ps: seq<seq<byte>>, wants: seq<nat>, want: nat, parses: seq<byte> -> bool)
    requires Sendable(ps) && forall p :: p in ps ==> parses(p)
    ensures var r := RecvRun(Reader(Frames(ps), [], []), wants, parses);
            var r' := RecvTurn(r, want, parses);
            && r.delivered <= ps
            && Frames(r.delivered) + r.buffer + r.pending == Frames(ps)
            && (r'.pending == [] && r'.delivered == r.delivered ==> r.delivered == ps)
  {
    hide RecvRun, Frames, RecvTurn;
    var start := Reader(Frames(ps), [], []);
    assert ps[0..] == ps && start.buffer + start.pending == Frames(ps);
    var m := RecvRunKeeps(ps, start, 0, wants, parses);
    FramesConcat(ps[..m], ps[m..]);
    assert ps == ps[..m] + ps[m..];
    var r := RecvRun(start, wants, parses);
    assert Frames(r.delivered) + r.buffer + r.pending == Frames(r.delivered) + (r.buffer + r.pending);
    var m' := RecvTurnKeeps(ps, r, m, want, parses);
  }

  // ---------- how many calls it takes ----------

  /** Bytes taken out of a stream of `total` bytes by a series of calls. */
  function BytesRead(total: nat, wants: seq<nat>): (n: nat)
    ensures n <= total
  {
    if wants == [] then 0 else
    var before := BytesRead(total, wants[..|wants| - 1]);
    before + Min(wants[|wants| - 1], Min(READ_CHUNK, total - before))
  }

  /** Bytes up to and including frame `m`. */
  ghost function EndOf(ps: seq<seq<byte>>, m: nat): nat
    requires m < |ps|
  {
    |Frames(ps[..m + 1])|
  }

  /** How many payloads a series of calls delivers: each delivers the next one, if it has been read completely. */
  ghost function Served(ps: seq<seq<byte>>, wants: seq<nat>): (m: nat)
    ensures m <= |ps|
  {
    if wants == [] then 0 else
    var m := Served(ps, wants[..|wants| - 1]);
    if m < |ps| && BytesRead(|Frames(ps)|, wants) >= EndOf(ps, m) then m + 1 else m
  }

  lemma {:induction false} RecvRunSnoc(r: Reader, wants: seq<nat>, want: nat, parses: seq<byte> -> bool)
    ensures RecvRun(r, wants + [want], parses) == RecvTurn(RecvRun(r, wants, parses), want, parses)
    decreases |wants|
  {
    hide RecvTurn;
    if wants == [] {
      assert ([] + [want])[1..] == [];
    } else {
      assert (wants + [want])[1..] == wants[1..] + [want];
      RecvRunSnoc(RecvTurn(r, wants[0], parses), wants[1..], want, parses);
    }
  }

  lemma PendingAfter(r: Reader, want: nat, parses: seq<byte> -> bool)
    ensures |RecvTurn(r, want, parses).pending| == |r.pending| - Min(want, Min(READ_CHUNK, |r.pending|))
  {
    hide DecodeFrame;
  }

  lemma FramesSplit(ps: seq<seq<byte>>, m: nat)
    requires m <= |ps|
    ensures |Frames(ps)| == |Frames(ps[..m])| + |Frames(ps[m..])|
    ensures m < |ps| ==> EndOf(ps, m) == |Frames(ps[..m])| + |Frame(ps[m])|
  {
    hide Frame;
    FramesConcat(ps[..m], ps[m..]);
    assert ps == ps[..m] + ps[m..];
    if m < |ps| {
      FramesConcat(ps[..m], [ps[m]]);
      assert ps[..m + 1] == ps[..m] + [ps[m]];
      var one := [ps[m]];
      assert one[1..] == [] && Frames(one) == Frame(ps[m]) + Frames(one[1..]);
    }
  }

  /** The receiver delivers exactly that many. */
  lemma {:induction false} RecvServes(ps: seq<seq<byte>>, wants: seq<nat>, parses: seq<byte> -> bool)
    requires Sendable(ps) && forall p :: p in ps ==> parses(p)
    ensures var r := RecvRun(Reader(Frames(ps), [], []), wants, parses);
            Progress(ps, r, Served(ps, wants)) && |r.pending| == |Frames(ps)| - BytesRead(|Frames(ps)|, wants)
  {
    hide RecvTurn, Frames, Sendable, EndOf;
    var start := Reader(Frames(ps), [], []);
    if wants == [] {
      assert ps[0..] == ps && start.buffer + start.pending == Frames(ps);
    } else {
      var k := |wants| - 1;
      assert wants == wants[..k] + [wants[k]];
      RecvServes(ps, wants[..k], parses);
      RecvRunSnoc(start, wants[..k], wants[k], parses);
      var r := RecvRun(start, wants[..k], parses);
      PendingAfter(r, wants[k], parses);
      var m := Served(ps, wants[..k]);
      FramesSplit(ps, m);
      var m' := RecvTurnKeeps(ps, r, m, wants[k], parses);
    }
  }

  /** Each call delivers at most one payload. */
  lemma {:induction false} ServedAtMost(ps: seq<seq<byte>>, wants: seq<nat>, k: nat)
    requires k <= |wants|
    ensures Served(ps, wants) <= Served(ps, wants[..k]) + (|wants| - k)
  {
    hide EndOf, BytesRead;
    if k < |wants| {
      var n := |wants| - 1;
      ServedAtMost(ps, wants[..n], k);
      assert wants[..n][..k] == wants[..k];
    } else {
      assert wants[..k] == wants;
    }
  }

  /** What has been delivered has been read. */
  lemma {:induction false} ServedIsRead(ps: seq<seq<byte>>, wants: seq<nat>, m: nat)
    requires m < Served(ps, wants)
    ensures BytesRead(|Frames(ps)|, wants) >= EndOf(ps, m)
  {
    hide EndOf, Frames;
    var n := |wants| - 1;
    var before := Served(ps, wants[..n]);
    if m < before { ServedIsRead(ps, wants[..n], m); }
  }

  /** The calls of a run suffice for all payloads: with as many calls left as there are payloads from frame `m` on,
      frame `m` must have been read when the first of them has read. */
  ghost predicate CallsSuffice(ps: seq<seq<byte>>, wants: seq<nat>) {
    |wants| >= |ps| &&
    forall m :: 0 <= m < |ps| ==> BytesRead(|Frames(ps)|, wants[..|wants| - |ps| + m + 1]) >= EndOf(ps, m)
  }

  lemma {:induction false} SufficeServes(ps: seq<seq<byte>>, wants: seq<nat>, m: nat)
    requires CallsSuffice(ps, wants) && m <= |ps|
    ensures Served(ps, wants[..|wants| - |ps| + m]) >= m
  {
    hide EndOf, BytesRead, Frames;
    if m > 0 {
      SufficeServes(ps, wants, m - 1);
      var upTo := wants[..|wants| - |ps| + m];
      assert upTo[..|upTo| - 1] == wants[..|wants| - |ps| + (m - 1)];
      assert BytesRead(|Frames(ps)|, wants[..|wants| - |ps| + (m - 1) + 1]) >= EndOf(ps, m - 1);
    }
  }

  /** All payloads are delivered exactly when the calls suffice, which is a matter of sizes alone. */
  lemma DeliversAllExactly(ps: seq<seq<byte>>, wants: seq<nat>, parses: seq<byte> -> bool)
    requires Sendable(ps) && forall p :: p in ps ==> parses(p)
    ensures RecvRun(Reader(Frames(ps), [], []), wants, parses).delivered == ps <==> CallsSuffice(ps, wants)
  {
    hide RecvRun, Frames, EndOf, BytesRead, Served;
    RecvServes(ps, wants, parses);
    if CallsSuffice(ps, wants) {
      SufficeServes(ps, wants, |ps|);
      assert wants[..|wants| - |ps| + |ps|] == wants;
    } else if |wants| < |ps| {
      NothingServed(ps, wants);
    } else {
      var m :| 0 <= m < |ps| && BytesRead(|Frames(ps)|, wants[..|wants| - |ps| + m + 1]) < EndOf(ps, m);
      var k := |wants| - |ps| + m + 1;
      if m < Served(ps, wants[..k]) { ServedIsRead(ps, wants[..k], m); }
      ServedAtMost(ps, wants, k);
    }
  }

  lemma NothingServed(ps: seq<seq<byte>>, wants: seq<nat>)
    ensures Served(ps, wants) <= |wants|
  {
    ServedAtMost(ps, wants, 0);
    assert wants[..0] == [];
  }

  /** At the end of the stream nothing buffered is returned any more. If everything has been read by then, a message is
      lost exactly when one could be decoded from the buffer, that is, exactly when the buffer is not empty. */
  lemma EndLosesBufferedExactly(ps: seq<seq<byte>>, wants: seq<nat>, parses: seq<byte> -> bool)
    requires Sendable(ps) && forall p :: p in ps ==> parses(p)
    ensures var r := RecvRun(Reader(Frames(ps), [], []), wants, parses);
            r.pending == [] ==>
              && (r.delivered != ps <==> DecodeFrame(r.buffer, parses).Decoded?)
              && (r.delivered != ps <==> r.buffer != [])
  {
    hide RecvRun, DecodeFrame, Frame;
    RecvServes(ps, wants, parses);
    var m, r := Served(ps, wants), RecvRun(Reader(Frames(ps), [], []), wants, parses);
    if r.pending == [] {
      assert r.buffer + [] == r.buffer;
      if m < |ps| {
        DecodesWholeFrame(ps[m], Frames(ps[m..][1..]), parses);
      } else {
        NothingIsIncomplete(parses);
      }
    }
  }

  /** Two frames that arrive in one read: one call delivers the first, and if the stream then ends the second is lost. */
  lemma SecondFrameIsLost(p: seq<byte>, q: seq<byte>, parses: seq<byte> -> bool)
    requires parses(p) && parses(q) && |Frame(p)| + |Frame(q)| <= READ_CHUNK
    ensures RecvRun(Reader(Frame(p) + Frame(q), [], []), [READ_CHUNK], parses) == Reader([], Frame(q), [p])
  {
    hide Frame, DecodeFrame;
    var all := Frame(p) + Frame(q);
    var r0 := Reader(all, [], []);
    assert all[..|all|] == all && [] + all == all && all[|all|..] == [];
    DecodesWholeFrame(p, Frame(q), parses);
    assert all[|Frame(p)|..] == Frame(q) && [] + [p] == [p];
    var r1 := RecvTurn(r0, READ_CHUNK, parses);
    assert r1 == Reader([], Frame(q), [p]);
    assert [READ_CHUNK][1..] == [] && RecvRun(r0, [READ_CHUNK], parses) == RecvRun(r1, [], parses);
  }

  // ---------- data that is not a stream of frames ----------

  /** A length beyond the limit makes init drop what it has buffered; what is read later is delivered as usual. */
  lemma OversizedRecovers(a: byte, b: byte, c: byte, d: byte, junk: seq<byte>, ps: seq<seq<byte>>, wants: seq<nat>)
    requires a + 0x100 * b + 0x1_0000 * c + 0x100_0000 * d > 0x1_0000 && 6 + |junk| <= CAPACITY && Sendable(ps)
    ensures var bad := [0x44, 0x4D, a, b, c, d] + junk;
            && InitTurn(Reader(bad + Frames(ps), [], []), |bad|) == Reader(Frames(ps), [], [])
            && InitRun(Reader(bad + Frames(ps), [], []), [|bad|] + wants) == InitRun(Reader(Frames(ps), [], []), wants)
  {
    hide ReadLE, Frames, Drain;
    var bad := [0x44, 0x4D, a, b, c, d] + junk;
    OrdersMean(a, b, c, d);
    assert bad[2..6] == [a, b, c, d] && MagicAt(bad, 0);
    assert NextFrame(bad) == Wait([]);
    DrainStops(bad, []);
    OneRead(bad, Frames(ps), [], []);
    assert [] + bad == bad;
    assert ([|bad|] + wants)[1..] == wants;
  }

  /** Data the service manager cannot use: no magic, a length beyond the limit, or a whole frame whose payload does not
      deserialize. */
  predicate Unusable(buf: seq<byte>, parses: seq<byte> -> bool) {
    |buf| >= 6 &&
    var len: nat := buf[2] as nat + 0x100 * buf[3] as nat + 0x1_0000 * buf[4] as nat + 0x100_0000 * buf[5] as nat;
    || buf[0] != 0x44 || buf[1] != 0x4D || len > 0x1_0000
    || (|buf| >= 6 + len && !parses(buf[6..6 + len]))
  }

  /** A call that ends up with unusable data in front drops everything buffered, good frames behind it included, and
      delivers nothing; otherwise no byte is dropped. */
  lemma RecvDropsExactly(r: Reader, want: nat, parses: seq<byte> -> bool)
    ensures var n := Min(want, Min(READ_CHUNK, |r.pending|));
            var buf, r' := r.buffer + r.pending[..n], RecvTurn(r, want, parses);
            && r'.pending == r.pending[n..]
            && (Unusable(buf, parses) ==> r'.buffer == [] && r'.delivered == r.delivered)
            && (!Unusable(buf, parses) ==>
                  || (r'.buffer == buf && r'.delivered == r.delivered)
                  || (exists p :: r'.delivered == r.delivered + [p] && parses(p) && buf == Frame(p) + r'.buffer))
  {
    hide ReadLE, WriteLE, Pow256;
    var n := Min(want, Min(READ_CHUNK, |r.pending|));
    var buf := r.buffer + r.pending[..n];
    if |buf| >= 6 {
      OrdersMean(buf[2], buf[3], buf[4], buf[5]);
      assert buf[2..6] == [buf[2], buf[3], buf[4], buf[5]] && buf[0..2] == [buf[0], buf[1]];
      var len := ReadLE(buf[2..6]);
      if !Unusable(buf, parses) && |buf| >= 6 + len {
        FrameOf(buf, len);
        assert RecvTurn(r, want, parses).delivered == r.delivered + [buf[6..6 + len]];
      }
    }
  }

  lemma FrameOf(buf: seq<byte>, len: nat)
    requires |buf| >= 6 + len && buf[0..2] == MAGIC && ReadLE(buf[2..6]) == len
    ensures buf == Frame(buf[6..6 + len]) + buf[6 + len..]
  {
    hide ReadLE, WriteLE;
    WriteReadLE(buf[2..6]);
    assert buf == buf[0..2] + buf[2..6] + buf[6..6 + len] + buf[6 + len..];
  }
}
