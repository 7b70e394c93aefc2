/** The read fields of Conn and the methods that update them in place (conn.go), proved against module Reader. */
module ReadConn {
  import opened Masking
  import opened Frames
  import opened Reader
  import Utf8

  const NO_FRAME := -1

  class Conn {
    const isServer: bool
    const inflate: bool
    const tail: ReadError
    const handler: Event -> Option<ReadError>

    // The processor, for the masking of memory.
    const wordSize: nat
    const bigEndian: bool

    var br: seq<byte>
    var readErr: Option<ReadError>
    var readRemaining: int
    var readFinal: bool
    var readLength: int
    var readLimit: int
    var readMaskPos: nat
    var readMaskKey: Key
    var readDecompress: bool
    var readErrCount: nat
    var panicked: bool
    var messageReader: MessageReader?

    // What the handlers have seen, and the codes of the Close frames handed to WriteControl.
    var events: seq<Event>
    var replies: seq<int>

    ghost predicate Valid()
      reads `readMaskPos
    {
      (wordSize == 4 || wordSize == 8) && readMaskPos < 4
    }

    ghost function Cfg(): Config
      reads `readLimit
    {
      Config(isServer, inflate, readLimit, tail, handler)
    }

    ghost function Abs(): State
      reads this
    {
      State(br, readRemaining, readFinal, readLength, readMaskPos, readMaskKey, readDecompress, events, replies)
    }

    constructor (isServer: bool, inflate: bool, limit: int, br: seq<byte>, tail: ReadError,
                 handler: Event -> Option<ReadError>, wordSize: nat, bigEndian: bool)
      requires wordSize == 4 || wordSize == 8
      ensures Valid() && Cfg() == Config(isServer, inflate, limit, tail, handler)
      ensures Abs() == Start(br) && readErr == None && messageReader == null
      ensures readErrCount == 0 && !panicked
    {
      this.isServer, this.inflate, this.tail, this.handler := isServer, inflate, tail, handler;
      this.wordSize, this.bigEndian := wordSize, bigEndian;
      this.br, readErr, readRemaining, readFinal, readLength := br, None, 0, true, 0;
      readLimit, readMaskPos, readMaskKey, readDecompress := limit, 0, [0, 0, 0, 0], false;
      readErrCount, panicked := 0, false;
      messageReader, events, replies := null, [], [];
    }

    /** Peek and Discard. */
    method ReadBytes(n: nat) returns (p: seq<byte>, err: Option<ReadError>)
      modifies `br
      ensures if n <= |old(br)| then p == old(br)[..n] && err == None && br == old(br)[n..]
              else br == [] && err == Some(Short(Cfg()))
    {
      if n <= |br| {
        p, err, br := br[..n], None, br[n..];
      } else {
        p, err, br := br, Some(if tail == EndOfFile then UnexpectedEOF else tail), [];
      }
    }

    method HandleProtocolError(message: string) returns (err: ReadError)
      modifies `replies
      ensures replies == old(replies) + [CLOSE_PROTOCOL_ERROR] && err == ProtocolError("websocket: " + message)
    {
      replies := replies + [CLOSE_PROTOCOL_ERROR];
      err := ProtocolError("websocket: " + message);
    }

    /** Unmask a payload that the buffered reader holds, in place. */
    method MaskPayload(payload: seq<byte>) returns (p: seq<byte>)
      requires Valid()
      ensures p == Mask(readMaskKey, 0, payload)
    {
      hide Mask;
      var b := new byte[|payload|](i requires 0 <= i < |payload| => payload[i]);
      assert b[..] == payload;
      var addr: nat := *;
      var _ := MaskBytes(readMaskKey, 0, b, 0, b.Length, addr, wordSize, bigEndian);
      p := b[..];
      WholeRange(readMaskKey, payload);
    }

    ghost predicate Agrees(r: Step, frameType: int, err: Option<ReadError>)
      reads this
    {
      match r
      case Failed(t, e) => err == Some(e) && frameType == NO_FRAME && Abs() == t
      case Got(t, k) => err == None && frameType == k && Abs() == t
    }

    method AdvanceFrame() returns (frameType: int, err: Option<ReadError>)
      requires Valid()
      modifies `br, `readRemaining, `readFinal, `readLength, `readMaskPos, `readMaskKey, `readDecompress, `events,
               `replies
      ensures Valid()
      ensures Agrees(Advance(Cfg(), old(Abs())), frameType, err)
    {
      // What is left of a frame that was not read to its end is passed over.
      if readRemaining > 0 {
        if readRemaining > |br| {
          br := [];
          return NO_FRAME, Some(tail);
        }
        br := br[readRemaining..];
      }

      var p;
      p, err := ReadBytes(2);
      if err.Some? {
        return NO_FRAME, err;
      }
      frameType, err := ParseFixed(p[0], p[1]);
    }

    /** advanceFrame, the rest of step 2: the first two bytes of the header. */
    method ParseFixed(b0: byte, b1: byte) returns (frameType: int, err: Option<ReadError>)
      requires Valid()
      modifies `br, `readRemaining, `readFinal, `readLength, `readMaskPos, `readMaskKey, `readDecompress, `events,
               `replies
      ensures Valid()
      ensures Agrees(CheckHeader(Cfg(), old(Abs()), b0, b1), frameType, err)
    {
      hide CheckOrder, HasBit, Opcode, Length7, ReservedHex;
      var final := HasBit(b0, FINAL_BIT);
      frameType := Opcode(b0);
      var mask := HasBit(b1, MASK_BIT);
      readRemaining := Length7(b1);
      readDecompress := inflate && HasBit(b0, RSV1_BIT);
      if (HasBit(b0, RSV1_BIT) && !inflate) || HasBit(b0, RSV2_BIT) || HasBit(b0, RSV3_BIT) {
        var e := HandleProtocolError("unexpected reserved bits 0x" + ReservedHex(b0, inflate));
        return NO_FRAME, Some(e);
      }
      frameType, err := ParseOrder(frameType, final, mask);
    }

    /** advanceFrame, the end of step 2: whether a frame of this type may come now. */
    method ParseOrder(kind: nat, final: bool, mask: bool) returns (frameType: int, err: Option<ReadError>)
      requires Valid() && kind < 16 && 0 <= readRemaining
      modifies `br, `readRemaining, `readFinal, `readLength, `readMaskPos, `readMaskKey, `events, `replies
      ensures Valid()
      ensures Agrees(CheckOrder(Cfg(), old(Abs()), final, kind, mask), frameType, err)
    {
      hide ReadLength, Decimal;
      if IsControl(kind) {
        if readRemaining > MAX_CONTROL_PAYLOAD {
          var e := HandleProtocolError("control frame length > 125");
          return NO_FRAME, Some(e);
        }
        if !final {
          var e := HandleProtocolError("control frame not final");
          return NO_FRAME, Some(e);
        }
      } else if IsData(kind) {
        if !readFinal {
          var e := HandleProtocolError("message start before final message frame");
          return NO_FRAME, Some(e);
        }
        readFinal := final;
      } else if kind == CONTINUATION {
        if readFinal {
          var e := HandleProtocolError("continuation after final message frame");
          return NO_FRAME, Some(e);
        }
        readFinal := final;
      } else {
        var e := HandleProtocolError("unknown opcode " + Decimal(kind));
        return NO_FRAME, Some(e);
      }
      frameType, err := ParseLengthAndMask(kind, mask);
    }

    /** advanceFrame, steps 3 and 4: the length and the mask. */
    method ParseLengthAndMask(kind: nat, mask: bool) returns (frameType: int, err: Option<ReadError>)
      requires Valid()
      requires IsControl(kind) ==> 0 <= readRemaining <= MAX_CONTROL_PAYLOAD
      modifies `br, `readRemaining, `readLength, `readMaskPos, `readMaskKey, `events, `replies
      ensures Valid()
      ensures Agrees(ReadLength(Cfg(), old(Abs()), kind, mask), frameType, err)
    {
      hide TakePayload, Int64, FromBigEndian;
      var p;
      if readRemaining == 126 {
        p, err := ReadBytes(2);
        if err.Some? {
          return NO_FRAME, err;
        }
        readRemaining := Int64(FromBigEndian(p));
      } else if readRemaining == 127 {
        p, err := ReadBytes(8);
        if err.Some? {
          return NO_FRAME, err;
        }
        readRemaining := Int64(FromBigEndian(p));
      }
      if mask != isServer {
        var e := HandleProtocolError("incorrect mask flag");
        return NO_FRAME, Some(e);
      }
      if mask {
        readMaskPos := 0;
        p, err := ReadBytes(4);
        if err.Some? {
          return NO_FRAME, err;
        }
        readMaskKey := p;
      }
      frameType, err := ParsePayload(kind);
    }

    /** advanceFrame, steps 5 and 6: the read limit, and the payload of control frames. */
    method ParsePayload(kind: nat) returns (frameType: int, err: Option<ReadError>)
      requires Valid()
      requires IsControl(kind) ==> 0 <= readRemaining <= MAX_CONTROL_PAYLOAD
      requires isServer ==> readMaskPos == 0
      modifies `br, `readRemaining, `readLength, `events, `replies
      ensures Valid()
      ensures Agrees(TakePayload(Cfg(), old(Abs()), kind), frameType, err)
    {
      hide Int64, Mask, Handle;
      if !IsControl(kind) {
        readLength := Int64(readLength + readRemaining);
        if readLimit > 0 && readLength > readLimit {
          replies := replies + [CLOSE_MESSAGE_TOO_BIG];
          return NO_FRAME, Some(ReadLimit);
        }
        return kind, None;
      }
      var payload := [];
      ghost var unread := br;
      if readRemaining > 0 {
        payload, err := ReadBytes(readRemaining);
        readRemaining := 0;
        if err.Some? {
          return NO_FRAME, err;
        }
        if isServer {
          payload := MaskPayload(payload);
        }
      } else {
        assert unread[..0] == [] && unread[0..] == unread;
        MaskNothing(readMaskKey);
      }
      frameType, err := ProcessControl(kind, payload);
    }

    /** advanceFrame, step 7: the handlers. */
    method ProcessControl(kind: nat, payload: seq<byte>) returns (frameType: int, err: Option<ReadError>)
      requires Valid() && IsControl(kind)
      modifies `events, `replies
      ensures Valid()
      ensures Agrees(Handle(Cfg(), old(Abs()), kind, payload), frameType, err)
    {
      hide Utf8.WellFormed, FromBigEndian, IsValidReceivedCloseCode;
      if kind == PONG {
        events := events + [PongSeen(payload)];
        err := handler(PongSeen(payload));
        return if err.Some? then NO_FRAME else kind, err;
      }
      if kind == PING {
        events := events + [PingSeen(payload)];
        err := handler(PingSeen(payload));
        return if err.Some? then NO_FRAME else kind, err;
      }
      var closeCode, closeText := CLOSE_NO_STATUS, [];
      if |payload| >= 2 {
        closeCode := FromBigEndian(payload[..2]);
        if !IsValidReceivedCloseCode(closeCode) {
          var e := HandleProtocolError("invalid close code");
          return NO_FRAME, Some(e);
        }
        closeText := payload[2..];
        if !Utf8.WellFormed(closeText) {
          var e := HandleProtocolError("invalid utf8 payload in close frame");
          return NO_FRAME, Some(e);
        }
      }
      events := events + [CloseSeen(closeCode, closeText)];
      err := handler(CloseSeen(closeCode, closeText));
      return NO_FRAME, if err.Some? then err else Some(CloseReceived(closeCode, closeText));
    }

    /** NextReader. The 1000th call that comes to an error panics, and so do all later ones. */
    method NextReader() returns (messageType: int, r: MessageReader?, err: Option<ReadError>)
      requires Valid()
      modifies this
      ensures Valid() && readLimit == old(readLimit) && (old(readErr).Some? ==> readErr == old(readErr))
      ensures old(readErr).Some? ==> messageType == NO_FRAME && r == messageReader == null && err == readErr
                                     && Abs() == old(Abs()).(length := 0)
      ensures old(readErr).None? ==>
                match NextMessage(Cfg(), old(Abs()))
                case Failed(t, e) =>
                  messageType == NO_FRAME && r == messageReader == null && err == readErr == Some(e) && Abs() == t
                case Got(t, k) => messageType == k && r == messageReader != null && fresh(r) && r.c == this
                                  && err == readErr == None && Abs() == t
      ensures readErrCount == old(readErrCount) + if err.Some? then 1 else 0
      ensures panicked == (old(panicked) || (err.Some? && readErrCount >= 1000))
    {
      hide NextData;
      messageReader := null;
      readLength := 0;
      var frameType := NextDataFrame();
      if frameType != NO_FRAME {
        r := new MessageReader(this);
        messageReader := r;
        return frameType, r, None;
      }
      readErrCount := readErrCount + 1;
      if readErrCount >= 1000 {
        panicked := true;
      }
      return NO_FRAME, null, readErr;
    }

    /** The loop of NextReader. */
    method NextDataFrame() returns (frameType: int)
      requires Valid()
      modifies `br, `readRemaining, `readFinal, `readLength, `readMaskPos, `readMaskKey, `readDecompress, `events,
               `replies,
               `readErr
      ensures Valid()
      ensures old(readErr).Some? ==> frameType == NO_FRAME && readErr == old(readErr) && Abs() == old(Abs())
      ensures old(readErr).None? ==>
                match NextData(Cfg(), old(Abs()))
                case Failed(t, e) => frameType == NO_FRAME && readErr == Some(e) && Abs() == t
                case Got(t, k) => frameType == k && readErr == None && Abs() == t
    {
      hide Advance;
      ghost var start := Abs();
      while readErr == None
        invariant readErr.Some? ==> old(readErr).Some? || NextData(Cfg(), start) == Failed(Abs(), readErr.value)
        invariant old(readErr).Some? ==> Abs() == start && readErr == old(readErr)
        invariant readErr.None? ==> NextData(Cfg(), start) == NextData(Cfg(), Abs())
        invariant Valid()
        decreases readErr == None, |br|
      {
        var err;
        frameType, err := AdvanceFrame();
        if err.Some? {
          readErr := err;
          break;
        }
        if IsData(frameType) {
          return;
        }
      }
      frameType := NO_FRAME;
    }

    /** What a Read of the current reader shows of an error that sticks to the connection. */
    static function Shown(e: ReadError): ReadError {
      if e == EndOfFile then UnexpectedEOF else e
    }
  }

  lemma WholeRange(key: Key, s: seq<byte>)
    ensures MaskRange(key, 0, s, 0, |s|) == Mask(key, 0, s)
  {
    hide Mask;
    assert s[..0] + Mask(key, 0, s[0..|s|]) + s[|s|..] == Mask(key, 0, s) by {
      assert s[0..|s|] == s;
    }
  }

  lemma PrefixRange(key: Key, pos: nat, s: seq<byte>, n: nat)
    requires n <= |s|
    ensures MaskRange(key, pos, s, 0, n)[..n] == Mask(key, pos, s[..n]) && MaskRange(key, pos, s, 0, n)[n..] == s[n..]
  {
    hide Mask;
    assert s[..0] == [] && s[0..n] == s[..n];
  }

  lemma UnmaskSplit(c: Config, s: State, n: nat, m: nat)
    requires n <= m <= |s.input|
    ensures Unmask(c, s, s.input[..m]) == Unmask(c, s, s.input[..n]) + Unmask(c, Consume(c, s, n), s.input[n..m])
  {
    hide Unmask;
    UnmaskConcat(c, s, Consume(c, s, n), s.input[..n], s.input[n..m]);
    assert s.input[..m] == s.input[..n] + s.input[n..m];
  }

  lemma UnmaskConcat(c: Config, s: State, t: State, p: seq<byte>, q: seq<byte>)
    requires c.isServer ==> t.key == s.key && t.pos == (s.pos + |p|) % 4
    ensures Unmask(c, s, p + q) == Unmask(c, s, p) + Unmask(c, t, q)
  {
    hide Mask;
    MaskConcat(s.key, s.pos, p, q);
  }

  lemma ConsumeTwice(c: Config, s: State, n: nat, m: nat)
    requires n <= m <= |s.input|
    ensures Consume(c, Consume(c, s, n), m - n) == Consume(c, s, m)
  {
    RotatedIndex(s.pos, n, m - n);
    assert s.input[n..][m - n..] == s.input[m..];
  }

  function After(bytes: seq<byte>, d: Drained): Drained {
    d.(data := bytes + d.data)
  }

  /** One step of Drain. */
  lemma DrainOnce(c: Config, s: State, m: nat)
    requires s.remaining > 0 && s.input != [] && m == (if s.remaining < |s.input| then s.remaining else |s.input|)
    ensures Drain(c, s) == After(Unmask(c, s, s.input[..m]), Drain(c, Consume(c, s, m)))
  {}

  /** Reading n bytes of the current frame first does not change what the message delivers. */
  lemma DrainSplit(c: Config, s: State, n: nat)
    requires n <= s.remaining && n <= |s.input| && s.pos < 4
    ensures Drain(c, s) == After(Unmask(c, s, s.input[..n]), Drain(c, Consume(c, s, n)))
  {
    hide Drain, Unmask;
    var t := Consume(c, s, n);
    var m := if s.remaining < |s.input| then s.remaining else |s.input|;
    if n == 0 {
      assert t == s;
      assert [] + Drain(c, s).data == Drain(c, s).data;
    } else if n == m {
      DrainOnce(c, s, m);
    } else {
      DrainOnce(c, s, m);
      DrainOnce(c, t, m - n);
      ConsumeTwice(c, s, n, m);
      UnmaskSplit(c, s, n, m);
      assert t.input[..m - n] == s.input[n..m];
    }
  }

  /** A read that delivers the bytes p, or, when there are none, comes to the end of the message or of the connection.
      */
  ghost predicate Delivers(c: Config, s: State, p: seq<byte>, t: State, broken: bool) {
    if p != [] then ReadSome(c, s, |p|) == Partly(p, t, false)
    else forall k: nat :: k > 0 ==> ReadSome(c, s, k) == Partly([], t, broken)
  }

  /** Reading goes on in the state t as it would in s. */
  ghost predicate ReadsLike(c: Config, s: State, t: State) {
    forall k: nat :: k > 0 ==> ReadSome(c, s, k) == ReadSome(c, t, k)
  }

  lemma DeliversPart(c: Config, s: State, n: nat)
    requires 0 < n <= s.remaining && n <= |s.input|
    ensures Delivers(c, s, Unmask(c, s, s.input[..n]), Consume(c, s, n), false)
  {
    hide Advance, Unmask;
    var p := Unmask(c, s, s.input[..n]);
    assert ReadSome(c, Consume(c, s, n), 0) == Partly([], Consume(c, s, n), false);
    assert p + [] == p;
  }

  lemma DeliversNothing(c: Config, s: State)
    requires if s.remaining > 0 then s.input == [] else s.final
    ensures Delivers(c, s, [], s, s.remaining > 0)
    ensures s.remaining <= 0 ==> Drain(c, s) == Drained([], s, Finished)
  {}

  /** Between the frames of a message: reading goes on in the next one, or ends with the error. */
  lemma ReadsNext(c: Config, s: State)
    requires s.remaining <= 0 && !s.final
    ensures var r := Advance(c, s);
            if r.Failed? then
              Delivers(c, s, [], r.s, true) && Drain(c, s) == Drained([], r.s, Broken(r.error))
            else if IsData(r.frameType) then
              Delivers(c, s, [], r.s, true) && Drain(c, s) == Drained([], r.s, Broken(UnexpectedMessageInReader))
            else
              ReadsLike(c, s, r.s) && Drain(c, s) == Drain(c, r.s)
  {
    hide Advance;
  }

  lemma ReadsSame(c: Config, s: State)
    ensures ReadsLike(c, s, s)
  {}

  lemma NextLike(c: Config, s: State, t: State, u: State)
    requires ReadsLike(c, s, t)
    ensures ReadsLike(c, t, u) ==> ReadsLike(c, s, u)
    ensures Delivers(c, t, [], u, true) ==> Delivers(c, s, [], u, true)
  {
    hide ReadSome;
  }

  lemma DeliversAfter(c: Config, s: State, t: State, p: seq<byte>, u: State, broken: bool)
    requires ReadsLike(c, s, t) && Delivers(c, t, p, u, broken)
    ensures Delivers(c, s, p, u, broken)
  {
    hide ReadSome;
  }

  lemma MaskNothing(key: Key)
    ensures Mask(key, 0, []) == []
  {}

  class MessageReader {
    const c: Conn

    constructor (c: Conn)
      ensures this.c == c
    {
      this.c := c;
    }

    /** Read. Whatever the length of b and however short the reads of the transport, it delivers the next bytes of
        the message, or reports its end or the error that keeps it from ending. */
    method Read(b: array<byte>) returns (n: nat, err: Option<ReadError>)
      requires c.Valid()
      modifies c, b
      ensures n <= b.Length && b[n..] == old(b[n..])
      ensures c.Valid() && c.readLimit == old(c.readLimit) && c.readErrCount == old(c.readErrCount)
      ensures old(c.messageReader) != this ==> n == 0 && err == Some(EndOfFile) && unchanged(c)
      ensures old(c.messageReader) == this && old(c.readErr).Some? ==>
                n == 0 && err == Some(Conn.Shown(old(c.readErr.value))) && unchanged(c)
      ensures old(c.messageReader) == this && old(c.readErr).None? ==>
                var d := old(Drain(c.Cfg(), c.Abs()));
                match err
                case None =>
                  && c.messageReader == this && c.readErr == None && (n > 0 || b.Length == 0)
                  && d == After(b[..n], Drain(c.Cfg(), c.Abs()))
                case Some(e) =>
                  && n == 0 && d.data == [] && c.Abs() == d.s
                  && if d.end.Finished? then e == EndOfFile && c.messageReader == null && c.readErr == None
                     else c.readErr == Some(d.end.error) && e == Conn.Shown(d.end.error) && c.messageReader == this
      ensures old(c.messageReader) == this && old(c.readErr).None? && (n > 0 || err.Some?) ==>
                Delivers(c.Cfg(), old(c.Abs()), b[..n], c.Abs(), c.readErr.Some?)
    {
      hide Advance, Drain, ReadSome, Delivers, ReadsLike;
      if c.messageReader != this {
        return 0, Some(EndOfFile);
      }
      ghost var d, start := Drain(c.Cfg(), c.Abs()), c.Abs();
      assert ReadsLike(c.Cfg(), start, start) by { ReadsSame(c.Cfg(), start); }
      while c.readErr == None
        invariant old(c.readErr).None? && c.readErr.None? ==> ReadsLike(c.Cfg(), start, c.Abs())
        invariant old(c.readErr).None? && c.readErr.Some? ==> Delivers(c.Cfg(), start, [], c.Abs(), true)
        invariant c.Valid() && c.readLimit == old(c.readLimit) && c.readErrCount == old(c.readErrCount)
        invariant b[..] == old(b[..]) && c.messageReader == this
        invariant old(c.readErr).Some? ==> unchanged(c)
        invariant old(c.readErr).None? && c.readErr.None? ==> Drain(c.Cfg(), c.Abs()) == d
        invariant old(c.readErr).None? && c.readErr.Some? ==> d == Drained([], c.Abs(), Broken(c.readErr.value))
        decreases c.readErr == None, |c.br|
      {
        ghost var before := c.Abs();
        if c.readRemaining > 0 {
          n, err := ReadPayload(b);
          if n > 0 || err.Some? {
            DeliversAfter(c.Cfg(), start, before, b[..n], c.Abs(), err.Some?);
          }
          return;
        }
        if c.readFinal {
          c.messageReader := null;
          DeliversNothing(c.Cfg(), before);
          DeliversAfter(c.Cfg(), start, before, [], before, false);
          return 0, Some(EndOfFile);
        }
        ReadsNext(c.Cfg(), before);
        var frameType, e := c.AdvanceFrame();
        NextLike(c.Cfg(), start, before, c.Abs());
        if e.Some? {
          c.readErr := e;
        } else if IsData(frameType) {
          c.readErr := Some(UnexpectedMessageInReader);
        }
      }
      n := 0;
      err := c.readErr;
      if err == Some(EndOfFile) && c.messageReader == this {
        err := Some(UnexpectedEOF);
      }
    }

    /** One read of the buffered reader into b[..k]: it delivers from one byte to as many as are asked for, and
        at the end of its bytes the transport's error. */
    method BufferedRead(b: array<byte>, k: nat) returns (n: nat, err: Option<ReadError>)
      requires k <= b.Length
      modifies c`br, b
      ensures n <= k && n <= |old(c.br)| && c.br == old(c.br)[n..]
      ensures b[..n] == old(c.br)[..n] && b[n..] == old(b[n..])
      ensures if k > 0 && old(c.br) == [] then err == Some(c.tail) else err == None && (n > 0 || k == 0)
    {
      n, err := 0, None;
      if k > 0 {
        if c.br == [] {
          err := Some(c.tail);
        } else {
          n :| 1 <= n <= k && n <= |c.br|;
          forall i | 0 <= i < n {
            b[i] := c.br[i];
          }
          c.br := c.br[n..];
        }
      }
    }

    /** Unmask the n bytes that a read has put into b, from the current mask position. */
    method UnmaskRead(b: array<byte>, n: nat)
      requires c.Valid() && n <= b.Length
      modifies c`readMaskPos, b
      ensures c.Valid() && b[n..] == old(b[n..])
      ensures b[..n] == if c.isServer then Mask(c.readMaskKey, old(c.readMaskPos), old(b[..n])) else old(b[..n])
      ensures c.readMaskPos == if c.isServer then (old(c.readMaskPos) + n) % 4 else old(c.readMaskPos)
    {
      hide Mask, MaskRange;
      if c.isServer {
        ghost var raw := b[..];
        var addr: nat := *;
        c.readMaskPos := MaskBytes(c.readMaskKey, c.readMaskPos, b, 0, n, addr, c.wordSize, c.bigEndian);
        PrefixRange(c.readMaskKey, old(c.readMaskPos), raw, n);
      }
    }

    /** One read of the current frame into b, unmasked. */
    method Fetch(b: array<byte>) returns (n: nat, err: Option<ReadError>)
      requires c.Valid() && c.readRemaining > 0
      modifies c`br, c`readMaskPos, c`readRemaining, b
      ensures c.Valid() && n <= b.Length && b[n..] == old(b[n..])
      ensures var s := old(c.Abs());
              && n <= s.remaining && n <= |s.input| && c.Abs() == Consume(c.Cfg(), s, n)
              && b[..n] == Unmask(c.Cfg(), s, s.input[..n])
              && if b.Length > 0 && s.input == [] then n == 0 && err == Some(c.tail)
                 else err == None && (n > 0 || b.Length == 0)
    {
      hide Mask;
      n, err := BufferedRead(b, if b.Length > c.readRemaining then c.readRemaining else b.Length);
      UnmaskRead(b, n);
      c.readRemaining := c.readRemaining - n;
    }

    /** The branch of Read for a frame of which bytes remain. */
    method ReadPayload(b: array<byte>) returns (n: nat, err: Option<ReadError>)
      requires c.Valid() && c.readErr == None && c.readRemaining > 0
      modifies c`br, c`readErr, c`readMaskPos, c`readRemaining, b
      ensures c.Valid() && n <= b.Length && b[n..] == old(b[n..])
      ensures var d := old(Drain(c.Cfg(), c.Abs()));
              match err
              case None => c.readErr == None && (n > 0 || b.Length == 0) && d == After(b[..n], Drain(c.Cfg(), c.Abs()))
              case Some(e) => n == 0 && d == Drained([], c.Abs(), Broken(e)) && c.readErr == Some(e) && e != EndOfFile
      ensures n > 0 || err.Some? ==> Delivers(c.Cfg(), old(c.Abs()), b[..n], c.Abs(), err.Some?)
    {
      hide Drain, Mask, Unmask, Advance, ReadSome, Delivers, Consume;
      ghost var s := c.Abs();
      n, err := Fetch(b);
      c.readErr := err;
      DrainSplit(c.Cfg(), s, n);
      if n > 0 {
        DeliversPart(c.Cfg(), s, n);
      } else if err.Some? {
        NothingToRead(c.Cfg(), s);
        DeliversNothing(c.Cfg(), s);
        assert b[..0] == [];
      }
      if c.readRemaining > 0 && c.readErr == Some(EndOfFile) {
        c.readErr := Some(UnexpectedEOF);
      }
      err := c.readErr;
    }
  }

  lemma NothingToRead(c: Config, s: State)
    requires s.remaining > 0 && s.pos < 4
    ensures s.input == [] ==> Drain(c, s) == Drained([], s, Broken(Short(c))) && Consume(c, s, 0) == s
  {}

  // Applications

  /** Read a message to its end with buffers of arbitrary sizes: the bytes obtained do not depend on the sizes, nor on
      how the transport cuts its reads. */
  method ReadAll(r: MessageReader) returns (p: seq<byte>, err: ReadError)
    requires r.c.Valid() && r.c.messageReader == r && r.c.readErr == None
    modifies r.c
    ensures r.c.Valid() && r.c.readLimit == old(r.c.readLimit) && r.c.readErrCount == old(r.c.readErrCount)
    ensures var d := old(Drain(r.c.Cfg(), r.c.Abs()));
            && p == d.data && r.c.Abs() == d.s
            && if d.end.Finished? then err == EndOfFile && r.c.readErr == None
               else err == Conn.Shown(d.end.error) && r.c.readErr == Some(d.end.error)
  {
    hide Drain;
    var c := r.c;
    ghost var d := Drain(c.Cfg(), c.Abs());
    p := [];
    while true
      invariant c.Valid() && c.messageReader == r && c.readErr == None
      invariant c.readLimit == old(c.readLimit) && c.readErrCount == old(c.readErrCount)
      invariant d == After(p, Drain(c.Cfg(), c.Abs()))
      decreases |Drain(c.Cfg(), c.Abs()).data|
    {
      var size :| size > 0;
      var b := new byte[size];
      ghost var e := Drain(c.Cfg(), c.Abs());
      var n, error := r.Read(b);
      if error.Some? {
        return p, error.value;
      }
      ghost var f := Drain(c.Cfg(), c.Abs());
      assert p + (b[..n] + f.data) == p + b[..n] + f.data;
      p := p + b[..n];
    }
  }

  /** The result of ReadMessage, and the readErr and state it leaves, when next is what NextReader comes to. */
  ghost predicate MessageRead(c: Config, next: Step, messageType: int, p: seq<byte>, err: Option<ReadError>,
                              readErr: Option<ReadError>, s: State)
  {
    if next.Failed? then
      messageType == NO_FRAME && p == [] && err == readErr == Some(next.error) && s == next.s
    else
      var d := Drain(c, next.s);
      && messageType == next.frameType && p == d.data && s == d.s
      && if d.end.Finished? then err == None && readErr == None
         else err == Some(Conn.Shown(d.end.error)) && readErr == Some(d.end.error)
  }

  /** ReadMessage (conn.go): NextReader and then everything the reader has. An error of the reader is returned with
      what came before it; its end is no error. */
  method ReadMessage(c: Conn) returns (messageType: int, p: seq<byte>, err: Option<ReadError>)
    requires c.Valid() && c.readErr == None
    modifies c
    ensures c.Valid() && c.readLimit == old(c.readLimit) && c.readErrCount <= old(c.readErrCount) + 1
    ensures err == None ==> c.readErr == None && c.readErrCount == old(c.readErrCount)
    ensures MessageRead(c.Cfg(), old(NextMessage(c.Cfg(), c.Abs())), messageType, p, err, c.readErr, c.Abs())
  {
    hide Drain, NextMessage;
    p := [];
    var r;
    messageType, r, err := c.NextReader();
    if err == None {
      var e;
      p, e := ReadAll(r);
      err := if e == EndOfFile then None else Some(e);
    }
  }

  function KindsAndPayloads(ms: seq<Message>): seq<(int, seq<byte>)> {
    seq(|ms|, i requires 0 <= i < |ms| => (ms[i].kind, ms[i].payload))
  }

  /** An application that calls ReadMessage until it reports an error gets the session of module Reader, whatever the
      buffers and the reads of the transport; the error it is shown is the one of the session. */
  method ReadMessages(c: Conn) returns (messages: seq<(int, seq<byte>)>, err: ReadError)
    requires c.Valid() && c.readErr == None
    modifies c
    ensures var o := old(Session(c.Cfg(), c.Abs()));
            && messages == KindsAndPayloads(o.messages)
            && c.Abs() == o.s
            && (err == o.error || err == Conn.Shown(o.error))
  {
    hide NextMessage, Drain;
    messages := [];
    ghost var o := Session(c.Cfg(), c.Abs());
    while true
      invariant c.Valid() && c.readErr == None && c.readLimit == old(c.readLimit)
      invariant var rest := Session(c.Cfg(), c.Abs());
                o.s == rest.s && o.error == rest.error
                && KindsAndPayloads(o.messages) == messages + KindsAndPayloads(rest.messages)
      decreases |c.br|
    {
      ghost var s := c.Abs();
      SessionOnce(c.Cfg(), s);
      var messageType, p, error := ReadMessage(c);
      if error.Some? {
        return messages, error.value;
      }
      messages := messages + [(messageType, p)];
    }
  }

  lemma SessionOnce(c: Config, s: State)
    ensures var o, next := Session(c, s), NextMessage(c, s);
            if next.Failed? then o == Outcome([], next.s, next.error)
            else
              var d := Drain(c, next.s);
              && |d.s.input| < |s.input|
              && if d.end.Broken? then o == Outcome([], d.s, d.end.error)
                 else
                   var rest := Session(c, d.s);
                   && o.s == rest.s && o.error == rest.error
                   && KindsAndPayloads(o.messages) == [(next.frameType, d.data)] + KindsAndPayloads(rest.messages)
  {
    hide NextMessage, Drain, Advance;
    var next := NextMessage(c, s);
    if next.Got? {
      var d := Drain(c, next.s);
      if d.end.Finished? {
        var rest := Session(c, d.s);
        KindsCons(Message(next.frameType, next.s.decompress, d.data), rest.messages);
      }
    }
  }

  lemma KindsCons(m: Message, ms: seq<Message>)
    ensures KindsAndPayloads([m] + ms) == [(m.kind, m.payload)] + KindsAndPayloads(ms)
  {}
}
