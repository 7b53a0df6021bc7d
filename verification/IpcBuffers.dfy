/** Init's fixed read buffer, shifted in place, and the service manager's growing one. */
module IpcBuffers {
  import opened Common
  import opened Bytes
  import opened MsgpackReader
  import opened InitMessages
  import opened Framing
  import opened FrameStreams

  /** The bytes of a buffer that held `c` after its tail from `total` has been copied to the front. */
  function ShiftedBy(c: seq<byte>, total: nat): (r: seq<byte>)
    requires total <= |c|
    ensures |r| == |c|
  {
    c[total..] + c[|c| - total..]
  }

  /** The bytes on which the frame that `nextMessage` finds starts, garbage removed. */
  function Synced(c: seq<byte>): (r: seq<byte>)
    ensures |r| <= |c|
    decreases |c|
  {
    if |c| < HEADER_SIZE || MagicAt(c, 0) then c else
    var k := FindMagic(c, 1);
    if k < |c| then Synced(c[k..]) else []
  }

  /** What the bytes from the frame on add up to. */
  lemma {:induction false} SyncedSize(c: seq<byte>)
    requires NextFrame(c).Payload?
    ensures |Synced(c)| == HEADER_SIZE + |NextFrame(c).payload| + |NextFrame(c).rest|
    decreases |c|
  {
    hide ReadLE;
    if !MagicAt(c, 0) { SyncedSize(c[FindMagic(c, 1)..]); }
  }

  /** The next message in the buffer is a log message. */
  predicate PopsLog(c: seq<byte>) { NextFrame(c).Payload? && ParseMessage(NextFrame(c).payload).LogToKmsg? }

  /** What stands where the text of that log message was parsed, once the bytes behind its frame have moved up. */
  function TextAfter(c: seq<byte>): seq<byte>
    requires PopsLog(c)
  {
    SyncedSize(c);
    var message := Rebased(ParseMessage(NextFrame(c).payload), HEADER_SIZE);
    Slice(ShiftedBy(Synced(c), |Synced(c)| - |NextFrame(c).rest|), message.text)
  }

  /** Reading that text out of a buffer whose front holds the shifted bytes. */
  lemma TextSpot(b: seq<byte>, c: seq<byte>, message: Message<Span>)
    requires NextFrame(c).Payload? && message == Rebased(ParseMessage(NextFrame(c).payload), HEADER_SIZE)
    requires |NextFrame(c).rest| <= |Synced(c)| <= |b|
    requires b[..|Synced(c)|] == ShiftedBy(Synced(c), |Synced(c)| - |NextFrame(c).rest|)
    ensures message.LogToKmsg? ==>
      var text := message.text;
      PopsLog(c) && text.start + text.len <= |b| && b[text.start..text.start + text.len] == TextAfter(c)
  {
    hide ParseMessage, ShiftedBy, NextFrame, Synced;
    SyncedSize(c);
    if message.LogToKmsg? {
      PrefixSlice(b, |Synced(c)|, message.text.start, message.text.start + message.text.len);
    }
  }

  lemma OutOfSync(c: seq<byte>)
    requires |c| >= HEADER_SIZE && !MagicAt(c, 0)
    ensures var k := FindMagic(c, 1);
            if k < |c| then NextFrame(c) == NextFrame(c[k..]) && Synced(c) == Synced(c[k..])
            else NextFrame(c) == Wait([])
  {
    hide ReadLE;
  }

  lemma FrontIsSynced(c: seq<byte>)
    requires MagicAt(c, 0)
    ensures Synced(c) == c
  {
    hide FindMagic, MagicAt;
  }

  lemma InSync(c: seq<byte>)
    requires |c| >= HEADER_SIZE && MagicAt(c, 0)
    ensures var len := ReadLE(c[2..6]);
            NextFrame(c) == if len > MAX_MESSAGE_SIZE then Wait([])
                            else if |c| < HEADER_SIZE + len then Wait(c)
                            else Payload(c[6..6 + len], c[6 + len..])
  {
    hide ReadLE, MagicAt, FindMagic;
  }

  lemma PrefixSlice(b: seq<byte>, n: nat, i: nat, j: nat)
    requires i <= j <= n <= |b|
    ensures b[..n][i..j] == b[i..j]
  {
  }

  class ReadBuffer {
    const buf: array<byte>
    var len: nat

    ghost predicate Valid() reads this { buf.Length == CAPACITY && len <= CAPACITY }

    function Contents(): seq<byte> reads this, buf requires len <= buf.Length { buf[..len] }

    constructor ()
      ensures Valid() && Contents() == [] && fresh(buf)
    {
      buf := new byte[CAPACITY];
      len := 0;
    }

    /** `readFrom` when the socket holds `available` and the kernel yields at most `want` bytes. */
    method ReadFrom(available: seq<byte>, want: nat) returns (n: nat)
      requires Valid()
      modifies this, buf
      ensures Valid() && n <= |available|
      ensures if old(len) == CAPACITY then n == 0 && Contents() == []
              else n == Min(want, Min(CAPACITY - old(len), |available|)) && Contents() == old(Contents()) + available[..n]
    {
      if len == CAPACITY {
        len := 0;
        return 0;
      }
      n := Min(want, Min(CAPACITY - len, |available|));
      for i := 0 to n
        invariant Valid() && len == old(len)
        invariant buf[..len] == old(buf[..len]) && buf[len..len + i] == available[..i]
      {
        buf[len + i] := available[i];
      }
      len := len + n;
      assert buf[..len] == buf[..old(len)] + buf[old(len)..len];
    }

    /** `copyForwards` of `buf[from..len]` to the front. */
    method Shift(from: nat)
      requires Valid() && from <= len
      modifies this, buf
      ensures Valid() && len == old(len) - from
      ensures buf[..old(len)] == ShiftedBy(old(Contents()), from) && Contents() == old(Contents())[from..]
    {
      ghost var c := Contents();
      var i := 0;
      while i < len - from
        invariant 0 <= i <= len - from && Valid() && len == old(len)
        invariant forall j :: 0 <= j < i ==> buf[j] == c[from + j]
        invariant forall j :: i <= j < len ==> buf[j] == c[j]
      {
        buf[i] := buf[from + i];
        i := i + 1;
      }
      len := len - from;
      assert buf[..old(len)] == ShiftedBy(c, from);
    }

    method Resync() returns (found: bool)
      requires Valid()
      modifies this, buf
      ensures Valid()
      ensures var c := old(Contents());
              if |c| >= 1 && FindMagic(c, 1) < |c| then found && Contents() == c[FindMagic(c, 1)..] && len < old(len)
              else !found && Contents() == c
    {
      hide ShiftedBy;
      ghost var c := Contents();
      var i := 1;
      while i + 1 < len
        invariant 1 <= i && Valid() && len == old(len) && Contents() == c
        invariant forall j :: 1 <= j < i ==> !MagicAt(c, j)
      {
        if buf[i] == MAGIC[0] && buf[i + 1] == MAGIC[1] {
          assert MagicAt(c, i);
          assert FindMagic(c, 1) == i;
          Shift(i);
          return true;
        }
        i := i + 1;
      }
      found := false;
      assert forall j :: 1 <= j ==> !MagicAt(c, j);
    }

    /** Whether the bytes start with the magic. */
    method AtMagic() returns (b: bool)
      requires Valid() && len >= HEADER_SIZE
      ensures b == MagicAt(Contents(), 0)
    {
      b := buf[0] == MAGIC[0] && buf[1] == MAGIC[1];
    }

    /** Parse the frame at the front and move what follows it up. */
    method TakeFrame(total: nat) returns (m: Message<Span>)
      requires Valid() && HEADER_SIZE <= total <= len
      modifies this, buf
      ensures Valid() && len == old(len) - total && Contents() == old(Contents())[total..]
      ensures m == Rebased(ParseMessage(old(Contents())[HEADER_SIZE..total]), HEADER_SIZE)
      ensures buf[..old(len)] == ShiftedBy(old(Contents()), total)
    {
      hide ParseMessage, ShiftedBy, Rebased;
      PrefixSlice(buf[..], len, HEADER_SIZE, total);
      var payload := buf[HEADER_SIZE..total];
      m := Rebased(ParseMessage(payload), HEADER_SIZE);
      Shift(total);
    }

    /** Take the next message: the frame is the next one of the specification, the bytes after it
        move to the front, and the text of a log message still points where it was parsed. */
    method NextMessage() returns (r: Option<Message<Span>>)
      requires Valid()
      modifies this, buf
      ensures Valid()
      ensures var next := NextFrame(old(Contents()));
              && Contents() == next.rest
              && r == (if next.Payload? then Some(Rebased(ParseMessage(next.payload), HEADER_SIZE)) else None)
      ensures r.Some? ==>
        var synced := Synced(old(Contents()));
        len <= |synced| <= buf.Length && buf[..|synced|] == ShiftedBy(synced, |synced| - len)
      ensures r.Some? && r.value.LogToKmsg? ==>
        var text := r.value.text;
        && PopsLog(old(Contents())) && text.start + text.len <= buf.Length
        && buf[text.start..text.start + text.len] == TextAfter(old(Contents()))
    {
      hide ParseMessage, ShiftedBy, ReadLE, NextFrame, Synced, FindMagic, PopsLog, TextAfter, Rebased, MagicAt;
      ghost var c := Contents();
      while len >= HEADER_SIZE
        invariant Valid() && NextFrame(Contents()) == NextFrame(c)
        invariant Synced(Contents()) == Synced(c)
        decreases len
      {
        var front := AtMagic();
        if !front {
          OutOfSync(Contents());
          var ok := Resync();
          if ok {
            continue;
          }
          len := 0;
          return None;
        }
        InSync(Contents());
        FrontIsSynced(Contents());
        PrefixSlice(buf[..], len, 2, 6);
        var payloadLen := ReadLE(buf[2..6]);
        if payloadLen > MAX_MESSAGE_SIZE {
          len := 0;
          return None;
        }
        var total := HEADER_SIZE + payloadLen;
        if len < total {
          return None;
        }
        var m := TakeFrame(total);
        TextSpot(buf[..], c, m);
        r := Some(m);
        return;
      }
      KeepsShort(Contents());
      r := None;
    }
  }

  /** A log text survives the shift, whatever bytes follow its frame, exactly when at most as many
      bytes follow as lie before it (or it is empty). */
  lemma TextSurvivesExactly(frame: seq<byte>, n: nat, text: Span)
    requires Within(text, frame)
    ensures (forall rest: seq<byte> | |rest| == n :: Slice(ShiftedBy(frame + rest, |frame|), text) == Slice(frame, text))
            <==> n <= text.start || text.len == 0
  {
    if n <= text.start || text.len == 0 {
      forall rest: seq<byte> | |rest| == n
        ensures Slice(ShiftedBy(frame + rest, |frame|), text) == Slice(frame, text)
      {
        ShiftKeepsTail(frame, rest, text);
      }
    } else {
      var other: byte := if frame[text.start] == 0 then 1 else 0;
      var rest: seq<byte> := seq(n, i => other);
      var s := ShiftedBy(frame + rest, |frame|);
      assert (frame + rest)[|frame|..] == rest;
      assert s[text.start] == other != frame[text.start];
      assert Slice(s, text)[0] == s[text.start] && Slice(frame, text)[0] == frame[text.start];
    }
  }

  lemma ShiftKeepsTail(frame: seq<byte>, rest: seq<byte>, text: Span)
    requires Within(text, frame) && (|rest| <= text.start || text.len == 0)
    ensures Slice(ShiftedBy(frame + rest, |frame|), text) == Slice(frame, text)
  {
    var c := frame + rest;
    var s := ShiftedBy(c, |frame|);
    forall i | text.start <= i < text.start + text.len ensures s[i] == frame[i] {
      assert s[i] == c[|rest|..][i - |rest|] == c[i];
    }
  }

  /** What a read on the connection finds: an open socket that holds `available` and yields at most `want` bytes
      (none means it would block), the end of the stream, or an error. */
  datatype Socket = Open(available: seq<byte>, want: nat) | Ended | Broken

  class InitChannel {
    var readBuf: seq<byte>

    constructor ()
      ensures readBuf == []
    {
      readBuf := [];
    }

    /** One read and, unless the stream has ended or is broken, one decode: a turn of the receiver. */
    method TryRecv(socket: Socket, parses: seq<byte> -> bool) returns (n: nat, r: Option<seq<byte>>)
      modifies this
      ensures socket.Open? ==>
        && n <= |socket.available|
        && forall delivered ::
             RecvTurn(Reader(socket.available, old(readBuf), delivered), socket.want, parses) ==
             Reader(socket.available[n..], readBuf, delivered + (if r.Some? then [r.value] else []))
      ensures !socket.Open? ==> n == 0 && r == None && readBuf == old(readBuf)
    {
      if !socket.Open? {
        return 0, None;
      }
      n := Min(socket.want, Min(READ_CHUNK, |socket.available|));
      readBuf := readBuf + socket.available[..n];
      match DecodeFrame(readBuf, parses) {
        case Decoded(payload, total) =>
          readBuf := readBuf[total..];
          r := Some(payload);
        case Incomplete =>
          r := None;
        case _ =>
          readBuf := [];
          r := None;
      }
    }
  }
}
