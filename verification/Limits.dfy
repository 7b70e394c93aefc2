/** The read limit over any input (conn.go): exactly when advanceFrame refuses a frame, and when the limit holds. The
    lengths in headers are unsigned, the limit and the running length of a message are of type int64. */
module Limits {
  import opened Masking
  import opened Frames
  import opened Reader
  import opened Reading
  import Utf8

  /** The length that the seven length bits stand for, with the octets behind them. */
  function AnnouncedBy(code: nat, rest: seq<byte>): nat {
    if code == 126 then (if |rest| < 2 then 0 else FromBigEndian(rest[..2]))
    else if code == 127 then (if |rest| < 8 then 0 else FromBigEndian(rest[..8]))
    else code
  }

  /** The payload length that the header at the beginning of the input announces, when all of the length is there. */
  function Announced(input: seq<byte>): nat {
    if |input| < 2 then 0 else AnnouncedBy(Length7(input[1]), input[2..])
  }

  lemma {:induction false} FromBigEndianFits(s: seq<byte>)
    ensures FromBigEndian(s) < Power256(|s|)
  {
    if s != [] {
      FromBigEndianFits(s[..|s| - 1]);
    }
  }

  lemma AnnouncedFits(code: nat, rest: seq<byte>)
    requires code < 128
    ensures AnnouncedBy(code, rest) < 2 * MAX_LENGTH
  {
    WidthsOf256();
    if code == 126 && |rest| >= 2 {
      FromBigEndianFits(rest[..2]);
    } else if code == 127 && |rest| >= 8 {
      FromBigEndianFits(rest[..8]);
    }
  }

  ghost predicate Limited(c: Config) {
    0 < c.limit < MAX_LENGTH
  }

  /** The result r of the limited reader, when a reader without a limit comes to free, for a frame that announces n
      bytes in a message of which length bytes were announced before. The limit concerns data frames only; one is
      refused exactly when it takes the message over the limit but not to 2^63 bytes. */
  ghost predicate Judged(c: Config, length: int, n: nat, r: Step, free: Step) {
    if free.Got? && !IsControl(free.frameType) then
      && free.s.remaining == Int64(n) && free.s.length == Int64(length + n)
      && r == if length + n <= c.limit || length + n >= MAX_LENGTH then free
              else Failed(free.s.(replies := free.s.replies + [CLOSE_MESSAGE_TOO_BIG]), ReadLimit)
    else
      r == free
  }

  /** The sum of lengths as the code has it. */
  lemma Sum(length: int, n: nat, limit: int)
    requires 0 < limit < MAX_LENGTH && 0 <= length <= limit && n < 2 * MAX_LENGTH
    ensures Int64(length + Int64(n)) == Int64(length + n)
    ensures Int64(length + n) <= limit <==> length + n <= limit || length + n >= MAX_LENGTH
    ensures length + n < MAX_LENGTH ==> Int64(length + n) == length + n && Int64(n) == n
  {}

  lemma PayloadJudged(c: Config, s: State, frameType: nat, n: nat)
    requires Limited(c) && 0 <= s.length <= c.limit && n < 2 * MAX_LENGTH && s.remaining == Int64(n)
    requires IsControl(frameType) ==> 0 <= s.remaining <= MAX_CONTROL_PAYLOAD
    ensures Judged(c, s.length, n, TakePayload(c, s, frameType), TakePayload(c.(limit := 0), s, frameType))
  {
    hide Unmask, Handle, Int64;
    if !IsControl(frameType) {
      Sum(s.length, n, c.limit);
    } else {
      ControlSame(c, s, frameType);
      assert IsControl(frameType);
      SameFrameType(c.(limit := 0), s, frameType);
    }
  }

  lemma SameFrameType(c: Config, s: State, frameType: nat)
    requires IsControl(frameType) && 0 <= s.remaining <= MAX_CONTROL_PAYLOAD
    ensures var r := TakePayload(c, s, frameType); r.Got? ==> r.frameType == frameType
  {
    hide Unmask, FromBigEndian, IsValidReceivedCloseCode, Utf8.WellFormed;
  }

  lemma ControlSame(c: Config, s: State, frameType: nat)
    requires IsControl(frameType) && 0 <= s.remaining <= MAX_CONTROL_PAYLOAD
    ensures TakePayload(c, s, frameType) == TakePayload(c.(limit := 0), s, frameType)
  {
    hide Unmask, Handle;
    if s.remaining <= |s.input| {
      var t := s.(remaining := 0);
      SameWithout(c, t, s.input[..s.remaining]);
      SameHandling(c, t.(input := s.input[s.remaining..]), frameType, Unmask(c, t, s.input[..s.remaining]));
    }
  }

  lemma SameWithout(c: Config, s: State, bytes: seq<byte>)
    ensures Unmask(c, s, bytes) == Unmask(c.(limit := 0), s, bytes)
  {
    hide Mask;
  }

  lemma SameHandling(c: Config, s: State, frameType: nat, payload: seq<byte>)
    ensures Handle(c, s, frameType, payload) == Handle(c.(limit := 0), s, frameType, payload)
  {
    hide FromBigEndian, IsValidReceivedCloseCode;
  }

  lemma MaskJudged(c: Config, s: State, frameType: nat, masked: bool, n: nat)
    requires Limited(c) && 0 <= s.length <= c.limit && n < 2 * MAX_LENGTH && s.remaining == Int64(n)
    requires IsControl(frameType) ==> 0 <= s.remaining <= MAX_CONTROL_PAYLOAD
    ensures Judged(c, s.length, n, ReadMask(c, s, frameType, masked), ReadMask(c.(limit := 0), s, frameType, masked))
  {
    hide TakePayload, Int64;
    if masked && |s.input| >= 4 {
      PayloadJudged(c, s.(input := s.input[4..], pos := 0, key := s.input[..4]), frameType, n);
    } else {
      PayloadJudged(c, s, frameType, n);
    }
  }

  lemma LengthJudged(c: Config, s: State, frameType: nat, masked: bool)
    requires Limited(c) && 0 <= s.length <= c.limit && 0 <= s.remaining < 128
    requires IsControl(frameType) ==> s.remaining <= MAX_CONTROL_PAYLOAD
    ensures Judged(c, s.length, AnnouncedBy(s.remaining, s.input),
                   ReadLength(c, s, frameType, masked), ReadLength(c.(limit := 0), s, frameType, masked))
  {
    hide ReadMask, FromBigEndian;
    var n := AnnouncedBy(s.remaining, s.input);
    AnnouncedFits(s.remaining, s.input);
    var k := if s.remaining == 126 then 2 else if s.remaining == 127 then 8 else 0;
    if k == 0 {
      assert Int64(n) == n;
      hide Int64;
      MaskJudged(c, s, frameType, masked, n);
    } else if |s.input| >= k {
      hide Int64;
      MaskJudged(c, s.(remaining := Int64(n), input := s.input[k..]), frameType, masked, n);
    }
  }

  lemma OrderJudged(c: Config, s: State, final: bool, frameType: nat, masked: bool)
    requires Limited(c) && 0 <= s.length <= c.limit && 0 <= s.remaining < 128 && frameType < 16
    ensures Judged(c, s.length, AnnouncedBy(s.remaining, s.input),
                   CheckOrder(c, s, final, frameType, masked), CheckOrder(c.(limit := 0), s, final, frameType, masked))
  {
    hide ReadLength, Int64, AnnouncedBy, Decimal;
    if IsControl(frameType) {
      if s.remaining <= MAX_CONTROL_PAYLOAD {
        LengthJudged(c, s, frameType, masked);
      }
    } else {
      LengthJudged(c, s.(final := final), frameType, masked);
    }
  }

  /** Over any input: with a limit, a data frame that would be accepted without one is refused if and only if it takes
      the announced length of its message over the limit, but not to 2^63 bytes, where int64 ends. */
  lemma LimitedAdvance(c: Config, s: State)
    requires Limited(c) && 0 <= s.length <= c.limit
    ensures Judged(c, s.length, Announced(FrameInput(s)), Advance(c, s), Advance(c.(limit := 0), s))
  {
    hide CheckHeader, Length7, AnnouncedBy, Int64, Judged;
    var input := FrameInput(s);
    if s.remaining > |s.input| || |input| < 2 {
      NothingJudged(c, s.length, Announced(input), Advance(c, s));
    } else {
      HeaderJudged(c, s.(input := input[2..]), input[0], input[1]);
    }
  }

  lemma NothingJudged(c: Config, length: int, n: nat, r: Step)
    requires r.Failed?
    ensures Judged(c, length, n, r, r)
  {}

  lemma HeaderJudged(c: Config, s: State, b0: byte, b1: byte)
    requires Limited(c) && 0 <= s.length <= c.limit
    ensures Judged(c, s.length, AnnouncedBy(Length7(b1), s.input),
                   CheckHeader(c, s, b0, b1), CheckHeader(c.(limit := 0), s, b0, b1))
  {
    hide CheckOrder, HasBit, Opcode, Length7, ReservedHex, AnnouncedBy, Int64, Judged;
    var t := s.(remaining := Length7(b1), decompress := c.inflate && HasBit(b0, RSV1_BIT));
    OrderJudged(c, t, HasBit(b0, FINAL_BIT), Opcode(b0), HasBit(b1, MASK_BIT));
    var r := CheckHeader(c, s, b0, b1);
    if r.Failed? {
      NothingJudged(c, s.length, AnnouncedBy(Length7(b1), s.input), r);
    }
  }

  // Messages and sessions

  /** A data frame does not take the announced length of its message over the bound. */
  predicate FrameUpTo(s: State, frameType: nat, bound: int) {
    IsControl(frameType) || s.length + Announced(FrameInput(s)) <= bound
  }

  /** No data frame that is accepted on the way to the end of the message takes its announced length over the bound. */
  ghost predicate MessageUpTo(c: Config, s: State, bound: int)
    decreases |s.input|
  {
    if s.remaining > 0 then
      s.input == [] || MessageUpTo(c, Consume(c, s, if s.remaining < |s.input| then s.remaining else |s.input|), bound)
    else if s.final then
      true
    else
      var r := Advance(c, s);
      r.Got? ==> FrameUpTo(s, r.frameType, bound) && MessageUpTo(c, r.s, bound)
  }

  /** The same for the frames that NextReader accepts. */
  ghost predicate HeadUpTo(c: Config, s: State, bound: int)
    decreases |s.input|
  {
    var r := Advance(c, s);
    r.Got? ==> FrameUpTo(s, r.frameType, bound) && (IsData(r.frameType) || HeadUpTo(c, r.s, bound))
  }

  /** The same for all frames of a session. */
  ghost predicate SessionUpTo(c: Config, s: State, bound: int)
    decreases |s.input|
  {
    && HeadUpTo(c, s.(length := 0), bound)
    && var r := NextMessage(c, s);
       r.Got? ==>
         && MessageUpTo(c, r.s, bound)
         && (Drain(c, r.s).end.Finished? ==> SessionUpTo(c, Drain(c, r.s).s, bound))
  }

  /** One accepted frame. */
  lemma FrameKept(c: Config, s: State)
    requires Limited(c) && 0 <= s.length <= c.limit
    ensures var r := Advance(c, s);
            r.Got? ==>
              && (FrameUpTo(s, r.frameType, c.limit) <==> FrameUpTo(s, r.frameType, MAX_LENGTH - 1))
              && (FrameUpTo(s, r.frameType, c.limit) ==>
                    if IsControl(r.frameType) then r.s.remaining == 0 && r.s.length == s.length
                    else 0 <= r.s.remaining && r.s.length == s.length + r.s.remaining <= c.limit)
  {
    hide Advance, Announced, Int64, NextFinal;
    LimitedAdvance(c, s);
    AdvanceInOrder(c, s);
    var n := Announced(FrameInput(s));
    AnnouncedBound(FrameInput(s));
    Sum(s.length, n, c.limit);
  }

  lemma AnnouncedBound(input: seq<byte>)
    ensures Announced(input) < 2 * MAX_LENGTH
  {
    hide AnnouncedBy;
    if |input| >= 2 {
      AnnouncedFits(Length7(input[1]), input[2..]);
    }
  }

  lemma {:induction false} MessageKept(c: Config, s: State)
    requires Limited(c) && 0 <= s.length <= c.limit
    ensures MessageUpTo(c, s, c.limit) <==> MessageUpTo(c, s, MAX_LENGTH - 1)
    decreases |s.input|
  {
    hide Advance, Announced, FrameUpTo;
    if s.remaining > 0 {
      if s.input != [] {
        MessageKept(c, Consume(c, s, if s.remaining < |s.input| then s.remaining else |s.input|));
      }
    } else if !s.final {
      FrameKept(c, s);
      var r := Advance(c, s);
      if r.Got? && FrameUpTo(s, r.frameType, c.limit) {
        MessageKept(c, r.s);
      }
    }
  }

  lemma {:induction false} HeadKept(c: Config, s: State)
    requires Limited(c) && 0 <= s.length <= c.limit
    ensures HeadUpTo(c, s, c.limit) <==> HeadUpTo(c, s, MAX_LENGTH - 1)
    ensures HeadUpTo(c, s, c.limit) ==>
              var r := NextData(c, s); r.Got? ==> 0 <= r.s.remaining <= r.s.length <= c.limit
    decreases |s.input|
  {
    hide Advance, Announced, FrameUpTo;
    FrameKept(c, s);
    var r := Advance(c, s);
    if r.Got? && FrameUpTo(s, r.frameType, c.limit) && !IsData(r.frameType) {
      HeadKept(c, r.s);
    }
  }

  /** Over any input, the exact condition: no accepted data frame takes the announced length of its message over the
      limit if and only if none takes it to 2^63 bytes. */
  lemma {:induction false} LimitKept(c: Config, s: State)
    requires Limited(c)
    ensures SessionUpTo(c, s, c.limit) <==> SessionUpTo(c, s, MAX_LENGTH - 1)
    decreases |s.input|
  {
    hide Advance, HeadUpTo, MessageUpTo, NextData, Drain;
    HeadKept(c, s.(length := 0));
    var r := NextMessage(c, s);
    if HeadUpTo(c, s.(length := 0), c.limit) && r.Got? {
      MessageKept(c, r.s);
      if Drain(c, r.s).end.Finished? {
        LimitKept(c, Drain(c, r.s).s);
      }
    }
  }

  /** A message of which no frame takes the announced length over the limit delivers no more than the limit. */
  lemma {:induction false} DeliversWithinLimit(c: Config, s: State, delivered: nat)
    requires Limited(c) && MessageUpTo(c, s, c.limit)
    requires delivered + (if s.remaining > 0 then s.remaining else 0) <= s.length <= c.limit
    ensures delivered + |Drain(c, s).data| <= c.limit
    decreases |s.input|
  {
    hide Advance, Mask, FrameUpTo;
    if s.remaining > 0 {
      if s.input != [] {
        var n := if s.remaining < |s.input| then s.remaining else |s.input|;
        DeliversWithinLimit(c, Consume(c, s, n), delivered + n);
      }
    } else if !s.final {
      FrameKept(c, s);
      if Advance(c, s).Got? {
        DeliversWithinLimit(c, Advance(c, s).s, delivered);
      }
    }
  }

  /** The data of the message that a session breaks off in. */
  function Torn(c: Config, s: State): seq<byte>
    decreases |s.input|
  {
    var r := NextMessage(c, s);
    if r.Failed? then []
    else
      var d := Drain(c, r.s);
      if d.end.Finished? then Torn(c, d.s) else d.data
  }

  /** Over any input in which no data frame takes the announced length of its message to 2^63 bytes: an application that
      reads every message to its end never gets more than the limit of any, nor of the one that the session breaks off
      in. */
  lemma {:induction false} SessionWithinLimit(c: Config, s: State)
    requires Limited(c) && SessionUpTo(c, s, MAX_LENGTH - 1)
    ensures forall m :: m in Session(c, s).messages ==> |m.payload| <= c.limit
    ensures |Torn(c, s)| <= c.limit
    decreases |s.input|
  {
    hide Advance, Drain, NextData, HeadUpTo, MessageUpTo;
    var r := NextMessage(c, s);
    if r.Got? {
      HeadKept(c, s.(length := 0));
      MessageKept(c, r.s);
      DeliversWithinLimit(c, r.s, 0);
      if Drain(c, r.s).end.Finished? {
        SessionWithinLimit(c, Drain(c, r.s).s);
      }
    }
  }

  // Inputs with which the limit fails

  /** A client with a limit of one byte. */
  function OneByte(handler: Event -> Option<ReadError>): Config {
    Config(false, false, 1, EndOfFile, handler)
  }

  lemma EightOctets(a: byte, b: byte, s: seq<byte>)
    requires s == [a, b, b, b, b, b, b, b]
    ensures FromBigEndian(s) == a as nat * 0x100_0000_0000_0000 + b as nat * 0x1_0101_0101_0101
  {
    hide FromBigEndian;
    OctetNone();
    OctetMore([], a);
    assert [] + [a] == [a];
    OctetMore([a], b);
    OctetMore([a] + [b], b);
    OctetMore([a] + [b] + [b], b);
    OctetMore([a] + [b] + [b] + [b], b);
    OctetMore([a] + [b] + [b] + [b] + [b], b);
    OctetMore([a] + [b] + [b] + [b] + [b] + [b], b);
    OctetMore([a] + [b] + [b] + [b] + [b] + [b] + [b], b);
    assert s == [a] + [b] + [b] + [b] + [b] + [b] + [b] + [b];
  }

  lemma OctetNone()
    ensures FromBigEndian([]) == 0
  {}

  lemma OctetMore(s: seq<byte>, b: byte)
    ensures FromBigEndian(s + [b]) == FromBigEndian(s) * 256 + b as nat
  {
    assert (s + [b])[..|s|] == s;
  }

  /** The two kinds of header that are used here. */
  lemma HeaderBits(b0: byte, b1: byte)
    requires (b0 == 0x01 || b0 == 0x80) && b1 < 0x80
    ensures Opcode(b0) == (if b0 == 0x01 then TEXT else CONTINUATION) && HasBit(b0, FINAL_BIT) == (b0 == 0x80)
    ensures !HasBit(b0, RSV1_BIT) && !HasBit(b0, RSV2_BIT) && !HasBit(b0, RSV3_BIT)
    ensures Length7(b1) == b1 as nat && !HasBit(b1, MASK_BIT)
  {}

  lemma HeaderTaken(c: Config, s: State, b0: byte, b1: byte, rest: seq<byte>)
    requires !c.isServer && !c.inflate && s.remaining <= 0 && s.input == [b0, b1] + rest && b1 < 0x80
    requires (b0 == 0x01 && s.final) || (b0 == 0x80 && !s.final)
    ensures var t := s.(input := rest, remaining := b1 as int, final := b0 == 0x80, decompress := false);
            Advance(c, s) == ReadLength(c, t, if b0 == 0x01 then TEXT else CONTINUATION, false)
  {
    hide ReadLength, HasBit, Opcode, Length7;
    HeaderBits(b0, b1);
    assert s.input[2..] == rest;
  }

  /** A data frame that a client accepts, with the extended length of eight octets. */
  lemma LongFrame(c: Config, s: State, b0: byte, a: byte, b: byte, rest: seq<byte>)
    requires !c.isServer && !c.inflate && s.remaining <= 0
    requires s.input == [b0, 0x7f] + ([a, b, b, b, b, b, b, b] + rest)
    requires (b0 == 0x01 && s.final) || (b0 == 0x80 && !s.final)
    ensures var n := a as nat * 0x100_0000_0000_0000 + b as nat * 0x1_0101_0101_0101;
            var t := s.(input := rest, remaining := Int64(n), final := b0 == 0x80, decompress := false,
                        length := Int64(s.length + Int64(n)));
            t.length <= c.limit ==> Advance(c, s) == Got(t, if b0 == 0x01 then TEXT else CONTINUATION)
  {
    hide Int64, FromBigEndian, Advance, ReadLength;
    var eight := [a, b, b, b, b, b, b, b];
    EightOctets(a, b, eight);
    HeaderTaken(c, s, b0, 0x7f, eight + rest);
    LengthTaken(c, s.(input := eight + rest, remaining := 127, final := b0 == 0x80, decompress := false),
                if b0 == 0x01 then TEXT else CONTINUATION, eight, rest);
  }

  lemma LengthTaken(c: Config, s: State, frameType: nat, eight: seq<byte>, rest: seq<byte>)
    requires !c.isServer && s.remaining == 127 && |eight| == 8 && s.input == eight + rest && !IsControl(frameType)
    ensures var n := Int64(FromBigEndian(eight));
            var t := s.(input := rest, remaining := n, length := Int64(s.length + n));
            t.length <= c.limit ==> ReadLength(c, s, frameType, false) == Got(t, frameType)
  {
    hide Int64, FromBigEndian;
    assert s.input[..8] == eight && s.input[8..] == rest;
  }

  /** A short one. */
  lemma ShortFrame(c: Config, s: State, b0: byte, b1: byte, rest: seq<byte>)
    requires !c.isServer && !c.inflate && s.remaining <= 0 && s.input == [b0, b1] + rest && b1 < 126
    requires (b0 == 0x01 && s.final) || (b0 == 0x80 && !s.final)
    ensures var t := s.(input := rest, remaining := b1 as int, final := b0 == 0x80, decompress := false,
                        length := Int64(s.length + b1 as int));
            t.length <= c.limit ==> Advance(c, s) == Got(t, if b0 == 0x01 then TEXT else CONTINUATION)
  {
    hide Int64, Advance;
    HeaderTaken(c, s, b0, b1, rest);
  }

  /** A first frame that announces 2^64 - 1 bytes, of which none come, and a last one with two: a message of two bytes
      is delivered, over the limit of one. */
  lemma LimitFails(handler: Event -> Option<ReadError>)
    ensures var c := OneByte(handler);
            var o := Session(c, Start([0x01, 0x7f] + ([0xff, 0xff, 0xff, 0xff, 0xff, 0xff, 0xff, 0xff]
                                                      + [0x80, 0x02, 0x61, 0x62])));
            o.messages == [Message(TEXT, false, [0x61, 0x62])] && o.error == UnexpectedEOF
  {
    hide Advance, Session;
    var c := OneByte(handler);
    var end: seq<byte> := [0x80, 0x02, 0x61, 0x62];
    var s := Start([0x01, 0x7f] + ([0xff, 0xff, 0xff, 0xff, 0xff, 0xff, 0xff, 0xff] + end));
    LongFrame(c, s, 0x01, 0xff, 0xff, end);
    var t := Advance(c, s).s;
    assert end == [0x80, 0x02] + [0x61, 0x62];
    ShortFrame(c, t, 0x80, 0x02, [0x61, 0x62]);
    var u := Advance(c, t).s;
    var v := Consume(c, u, 2);
    assert Drain(c, v) == Drained([], v, Finished);
    var data: seq<byte> := [0x61, 0x62];
    assert data + [] == data && [] + data == data;
    assert Drain(c, u) == Drained(data, v, Finished);
    MessageContinues(c, t, u);
    assert s.(length := 0) == s;
    MessageBegins(c, s, t, TEXT);
    NoMore(c, v);
    var m := Message(TEXT, false, data);
    assert Finish(c, Message(TEXT, false, []), Drain(c, t)) == Prepend([m], Session(c, v));
    assert [m] + [] == [m];
  }

  lemma NoMore(c: Config, s: State)
    requires s.input == [] && s.remaining <= 0 && c.tail == EndOfFile
    ensures Session(c, s).messages == [] && Session(c, s).error == UnexpectedEOF
  {}

  /** A header with the top bit of the length clear does the same: one byte, and then a frame that announces 2^63 - 1,
      of which two come before the end. */
  lemma LimitFailsWithinHeaders(handler: Event -> Option<ReadError>)
    ensures var c := OneByte(handler);
            var s := Start([0x01, 0x01, 0x61, 0x80, 0x7f]
                           + ([0x7f, 0xff, 0xff, 0xff, 0xff, 0xff, 0xff, 0xff] + [0x62, 0x63]));
            Torn(c, s) == [0x61, 0x62, 0x63] && Session(c, s).error == UnexpectedEOF
  {
    hide Advance, Session;
    var c := OneByte(handler);
    var long: seq<byte> := [0x7f, 0xff, 0xff, 0xff, 0xff, 0xff, 0xff, 0xff];
    var more := [0x80, 0x7f] + (long + [0x62, 0x63]);
    var s := Start([0x01, 0x01, 0x61, 0x80, 0x7f] + (long + [0x62, 0x63]));
    assert s.input == [0x01, 0x01] + ([0x61] + more);
    ShortFrame(c, s, 0x01, 0x01, [0x61] + more);
    var t := Advance(c, s).s;
    var u := Consume(c, t, 1);
    assert ([0x61] + more)[..1] == [0x61] && ([0x61] + more)[1..] == more;
    LongFrameTorn(c, u, long);
    assert Drain(c, t) == Drained([0x61] + [0x62, 0x63], Drain(c, u).s, Broken(UnexpectedEOF));
    assert s.(length := 0) == s;
    MessageBegins(c, s, t, TEXT);
  }

  lemma LongFrameTorn(c: Config, u: State, long: seq<byte>)
    requires !c.isServer && !c.inflate && c.limit == 1 && c.tail == EndOfFile
    requires long == [0x7f, 0xff, 0xff, 0xff, 0xff, 0xff, 0xff, 0xff]
    requires u.input == [0x80, 0x7f] + (long + [0x62, 0x63]) && u.remaining == 0 && !u.final && u.length == 1
    ensures Drain(c, u).data == [0x62, 0x63] && Drain(c, u).end == Broken(UnexpectedEOF)
  {
    hide Advance;
    LongFrame(c, u, 0x80, 0x7f, 0xff, [0x62, 0x63]);
    var v := Advance(c, u).s;
    var w := Consume(c, v, 2);
    assert Drain(c, w) == Drained([], w, Broken(UnexpectedEOF));
    assert Drain(c, v) == Drained([0x62, 0x63] + [], w, Broken(UnexpectedEOF));
    MessageContinues(c, u, v);
  }
}
