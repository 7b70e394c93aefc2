/** What is on the wire and what the reader makes of it, octet by octet and over any input (conn.go), with the numbers
    of RFC 6455 written out. */
module Conformance {
  import opened Masking
  import opened Frames
  import opened Reader
  import opened Reading
  import opened Limits
  import Utf8

  // Section 5.2 of RFC 6455: the two fixed octets, as numbers

  lemma FirstOctet(final: bool, rsv1: bool, opcode: int)
    requires 0 <= opcode < 16
    ensures FirstByte(final, rsv1, opcode) as int == (if final then 128 else 0) + (if rsv1 then 64 else 0) + opcode
  {}

  lemma SecondOctet(masked: bool, length7: int)
    requires 0 <= length7 < 128
    ensures SecondByte(masked, length7) as int == (if masked then 128 else 0) + length7
  {}

  /** The fields of the two fixed octets of section 5.2 of RFC 6455; reserved is RSV1, RSV2 and RSV3 as a number. */
  datatype Head = Head(final: bool, reserved: nat, opcode: nat, masked: bool, length7: nat)

  function HeadOf(b0: byte, b1: byte): (h: Head)
    ensures h.reserved < 8 && h.opcode < 16 && h.length7 < 128
  {
    Head(b0 >= 128, (b0 / 16 % 8) as nat, (b0 % 16) as nat, b1 >= 128, (b1 % 128) as nat)
  }

  /** The two fixed octets are there, with these fields. */
  predicate BeginsWith(input: seq<byte>, h: Head) {
    |input| >= 2 && h == HeadOf(input[0], input[1])
  }

  /** The reader's bit masks find these fields. */
  lemma HeadFields(b0: byte, b1: byte)
    ensures var h := HeadOf(b0, b1);
            && HasBit(b0, FINAL_BIT) == h.final && Opcode(b0) == h.opcode
            && HasBit(b0, RSV1_BIT) == (h.reserved >= 4)
            && HasBit(b0, RSV2_BIT) == (h.reserved in {2, 3, 6, 7})
            && HasBit(b0, RSV3_BIT) == (h.reserved in {1, 3, 5, 7})
            && HasBit(b1, MASK_BIT) == h.masked && Length7(b1) == h.length7
  {}

  /** The octets of a header, by their number, before the mask key. */
  lemma {:induction false} HeaderOctets(f: Frame)
    ensures var h, n := Header(f), |f.payload|;
            && h[0] as int == (if f.final then 128 else 0) + (if f.rsv1 then 64 else 0) + f.opcode
            && h[1] as int == (if f.key.Some? then 128 else 0)
                              + (if n <= 125 then n else if n < 65536 then 126 else 127)
            && |h| == 2 + (if n <= 125 then 0 else if n < 65536 then 2 else 8) + (if f.key.Some? then 4 else 0)
  {
    FirstOctet(f.final, f.rsv1, f.opcode);
    SecondOctet(f.key.Some?, LengthCode(|f.payload|));
    hide FirstByte, SecondByte, BigEndian;
  }

  /** A form of the length fits exactly when the reader finds the length in it. */
  lemma FormFitsExactly(code: nat, length: nat)
    requires length < MAX_LENGTH && code < 128
    ensures FormFits(code, length) <==> AnnouncedBy(code, LengthIn(code, length)) == length
  {
    WidthsOf256();
    var e := LengthIn(code, length);
    FromBigEndianFits(e);
    hide BigEndian, FromBigEndian, Power256;
    assert e[..|e|] == e;
    if code == 127 {
      BigEndianRoundTrip(length, 8);
    } else if code == 126 && length < 0x1_0000 {
      BigEndianRoundTrip(length, 2);
    }
  }

  /** Section 5.2 of RFC 6455: the length is sent in the fewest octets in which the reader finds it. */
  lemma FewestOctets(length: nat, code: nat)
    requires length < MAX_LENGTH && code < 128
    ensures FormFits(LengthCode(length), length) && ExtendedLength(length) == LengthIn(LengthCode(length), length)
    ensures FormFits(code, length) ==> |LengthIn(LengthCode(length), length)| <= |LengthIn(code, length)|
    ensures FormFits(code, length) && |LengthIn(code, length)| == |ExtendedLength(length)| ==>
              code == LengthCode(length)
  {
    hide BigEndian;
  }

  // The examples of section 5.7 of RFC 6455

  const HELLO: seq<byte> := [0x48, 0x65, 0x6c, 0x6c, 0x6f]
  const KEY: Key := [0x37, 0xfa, 0x21, 0x3d]

  lemma ShortEncoding(f: Frame, b0: byte, b1: byte)
    requires |f.payload| <= 125
    requires b0 as int == (if f.final then 128 else 0) + (if f.rsv1 then 64 else 0) + f.opcode
    requires b1 as int == (if f.key.Some? then 128 else 0) + |f.payload|
    ensures Encode(f) == [b0, b1] + ((if f.key.Some? then f.key.value else []) + Body(f))
  {
    FirstOctet(f.final, f.rsv1, f.opcode);
    SecondOctet(f.key.Some?, |f.payload|);
    SameNumber(FirstByte(f.final, f.rsv1, f.opcode), b0);
    SameNumber(SecondByte(f.key.Some?, |f.payload|), b1);
    hide FirstByte, SecondByte, Body;
  }

  lemma SameNumber(a: byte, b: byte)
    ensures a as int == b as int ==> a == b
  {}

  lemma HelloMasked()
    ensures Mask(KEY, 0, HELLO) == [0x7f, 0x9f, 0x4d, 0x51, 0x58]
  {}

  lemma TextExample()
    ensures Encode(FrameFields(true, false, TEXT, None, HELLO)) == [0x81, 0x05, 0x48, 0x65, 0x6c, 0x6c, 0x6f]
  {
    ShortEncoding(FrameFields(true, false, TEXT, None, HELLO), 0x81, 0x05);
    hide Encode;
  }

  lemma MaskedTextExample()
    ensures Encode(FrameFields(true, false, TEXT, Some(KEY), HELLO))
         == [0x81, 0x85, 0x37, 0xfa, 0x21, 0x3d, 0x7f, 0x9f, 0x4d, 0x51, 0x58]
  {
    HelloMasked();
    ShortEncoding(FrameFields(true, false, TEXT, Some(KEY), HELLO), 0x81, 0x85);
    hide Encode, Mask;
  }

  lemma FragmentedExample()
    ensures Encode(FrameFields(false, false, TEXT, None, [0x48, 0x65, 0x6c])) == [0x01, 0x03, 0x48, 0x65, 0x6c]
    ensures Encode(FrameFields(true, false, CONTINUATION, None, [0x6c, 0x6f])) == [0x80, 0x02, 0x6c, 0x6f]
  {
    ShortEncoding(FrameFields(false, false, TEXT, None, [0x48, 0x65, 0x6c]), 0x01, 0x03);
    ShortEncoding(FrameFields(true, false, CONTINUATION, None, [0x6c, 0x6f]), 0x80, 0x02);
    hide Encode;
  }

  lemma PingExample()
    ensures Encode(FrameFields(true, false, PING, None, HELLO)) == [0x89, 0x05, 0x48, 0x65, 0x6c, 0x6c, 0x6f]
  {
    ShortEncoding(FrameFields(true, false, PING, None, HELLO), 0x89, 0x05);
    hide Encode;
  }

  lemma PongExample()
    ensures Encode(FrameFields(true, false, PONG, Some(KEY), HELLO))
         == [0x8a, 0x85, 0x37, 0xfa, 0x21, 0x3d, 0x7f, 0x9f, 0x4d, 0x51, 0x58]
  {
    HelloMasked();
    ShortEncoding(FrameFields(true, false, PONG, Some(KEY), HELLO), 0x8a, 0x85);
    hide Encode, Mask;
  }

  /** Binary messages of 256 bytes and of 64 KiB. */
  lemma LongExamples(f: Frame)
    requires f.final && !f.rsv1 && f.opcode == BINARY && f.key == None
    ensures |f.payload| == 0x100 ==> Encode(f) == [0x82, 0x7e, 0x01, 0x00] + f.payload
    ensures |f.payload| == 0x1_0000 ==>
              Encode(f) == [0x82, 0x7f, 0x00, 0x00, 0x00, 0x00, 0x00, 0x01, 0x00, 0x00] + f.payload
  {
    EightOctetsOf64Ki();
    HeaderOctets(f);
    hide FirstByte, SecondByte, BigEndian;
    var h := Header(f);
    assert h == [h[0], h[1]] + ExtendedLength(|f.payload|);
    SameNumber(h[0], 0x82);
    SameNumber(h[1], 0x7e);
    SameNumber(h[1], 0x7f);
  }

  lemma EightOctetsOf64Ki()
    ensures BigEndian(0x100, 2) == [0x01, 0x00]
    ensures BigEndian(0x1_0000, 8) == [0x00, 0x00, 0x00, 0x00, 0x00, 0x01, 0x00, 0x00]
  {
    assert BigEndian(0, 5) == [0, 0, 0, 0, 0];
    assert BigEndian(1, 6) == BigEndian(0, 5) + [1];
  }

  // What the reader makes of any input

  function Numeral(opcode: nat): string
    requires opcode < 16
  {
    ["0", "1", "2", "3", "4", "5", "6", "7", "8", "9", "10", "11", "12", "13", "14", "15"][opcode]
  }

  /** What is wrong with a frame of this kind, when open says whether a fragmented message is unfinished: the first of
      sections 5.4 and 5.5 of RFC 6455 that it breaks. */
  function OrderFault(open: bool, final: bool, opcode: nat, length7: nat): string
    requires opcode < 16
  {
    if 8 <= opcode <= 10 && length7 > 125 then "control frame length > 125"
    else if 8 <= opcode <= 10 && !final then "control frame not final"
    else if 1 <= opcode <= 2 && open then "message start before final message frame"
    else if opcode == 0 && !open then "continuation after final message frame"
    else if opcode > 10 || 3 <= opcode <= 7 then "unknown opcode " + Numeral(opcode)
    else ""
  }

  /** What is wrong with the two fixed octets. RSV1 is not reserved where compression is negotiated. */
  function Fault(inflate: bool, open: bool, h: Head): string
    requires h.reserved < 8 && h.opcode < 16
  {
    var reserved := if inflate then h.reserved % 4 else h.reserved;
    if reserved > 0 then "unexpected reserved bits 0x" + Numeral(reserved) + "0"
    else OrderFault(open, h.final, h.opcode, h.length7)
  }

  predicate Flawless(inflate: bool, open: bool, h: Head) {
    h.reserved < 8 && h.opcode < 16 && Fault(inflate, open, h) == ""
  }

  /** The octets of the extended length. */
  function Extended(length7: nat): nat {
    if length7 == 126 then 2 else if length7 == 127 then 8 else 0
  }

  /** The frame is refused: a Close frame with code 1002 for the peer, the error for the application. */
  ghost predicate Refused(s: State, message: string, r: Step) {
    && r.Failed? && r.error == ProtocolError("websocket: " + message)
    && r.s.replies == s.replies + [1002] && r.s.events == s.events
  }

  /** The input ends too early. */
  ghost predicate CutOff(c: Config, s: State, r: Step) {
    && r.Failed? && r.error == (if c.tail == EndOfFile then UnexpectedEOF else c.tail)
    && r.s.replies == s.replies && r.s.events == s.events
  }

  /** The handler is told of the event, and its error, if it has one, is the reader's. */
  ghost predicate Told(c: Config, s: State, e: Event, otherwise: Step, r: Step) {
    r == if c.handler(e).Some? then Failed(s.(events := s.events + [e]), c.handler(e).value) else otherwise
  }

  /** The status codes of section 7.4 of RFC 6455 that may be received: the registered ones but those that are never
      sent, 1005, 1006 and 1015, and the reserved 1004 and 1014, and those for libraries and applications. */
  predicate CodeAllowed(code: nat) {
    (1000 <= code <= 1013 && !(1004 <= code <= 1006)) || 3000 <= code < 5000
  }

  lemma ReceivedCodes(code: nat)
    ensures IsValidReceivedCloseCode(code) <==> CodeAllowed(code)
  {}

  /** What comes of a Close frame with this payload, the state being the one behind it. */
  ghost predicate CloseVerdict(c: Config, s: State, payload: seq<byte>, r: Step) {
    if |payload| < 2 then
      Told(c, s, CloseSeen(1005, []),
           Failed(s.(events := s.events + [CloseSeen(1005, [])]), CloseReceived(1005, [])), r)
    else
      var code, text := payload[0] as nat * 256 + payload[1] as nat, payload[2..];
      if !CodeAllowed(code) then Refused(s, "invalid close code", r)
      else if !Utf8.WellFormed(text) then Refused(s, "invalid utf8 payload in close frame", r)
      else
        Told(c, s, CloseSeen(code, text),
             Failed(s.(events := s.events + [CloseSeen(code, text)]), CloseReceived(code, text)), r)
  }

  /** What comes of a whole control frame, the state being the one behind it. */
  ghost predicate ControlVerdict(c: Config, s: State, opcode: nat, payload: seq<byte>, r: Step) {
    if opcode == 9 then Told(c, s, PingSeen(payload), Got(s.(events := s.events + [PingSeen(payload)]), 9), r)
    else if opcode == 10 then Told(c, s, PongSeen(payload), Got(s.(events := s.events + [PongSeen(payload)]), 10), r)
    else CloseVerdict(c, s, payload, r)
  }

  /** What comes of the header of a data frame, the state being the one behind it. */
  ghost predicate DataVerdict(c: Config, s: State, opcode: nat, r: Step) {
    var t := s.(length := Int64(s.length + s.remaining));
    if c.limit > 0 && t.length > c.limit then
      r.Failed? && r.error == ReadLimit && r.s.replies == s.replies + [1009] && r.s.events == s.events
    else
      r == Got(t, opcode)
  }

  /** The payload octets without the mask. */
  function Unmasked(key: Option<Key>, bytes: seq<byte>): seq<byte> {
    if key.None? then bytes else seq(|bytes|, i requires 0 <= i < |bytes| => bytes[i] ^ key.value[i % 4])
  }

  /** The state behind the two fixed octets. */
  function BehindFixed(c: Config, s: State, h: Head, input: seq<byte>): State
    requires |input| >= 2
  {
    s.(input := input[2..], remaining := h.length7, decompress := c.inflate && h.reserved >= 4,
       final := if h.opcode < 8 then h.final else s.final)
  }

  /** The state behind the length and the mask key, if there is one; s is the one behind the fixed octets. */
  function BehindLength(s: State, masked: bool): State
    requires s.remaining >= 0 && |s.input| >= Extended(s.remaining) + if masked then 4 else 0
  {
    var k := Extended(s.remaining);
    var t := s.(remaining := Int64(AnnouncedBy(s.remaining, s.input)));
    if masked then t.(input := s.input[k + 4..], pos := 0, key := s.input[k..k + 4]) else t.(input := s.input[k..])
  }

  /** What comes of what is behind the header. */
  ghost predicate PayloadVerdict(c: Config, s: State, opcode: nat, r: Step) {
    if opcode < 8 then DataVerdict(c, s, opcode, r)
    else if |s.input| < s.remaining then CutOff(c, s, r)
    else
      s.remaining >= 0
      && ControlVerdict(c, s.(remaining := 0, input := s.input[s.remaining..]), opcode,
                        Unmasked(if c.isServer then Some(s.key) else None, s.input[..s.remaining]), r)
  }

  /** What comes of what is behind the two fixed octets. */
  ghost predicate LengthVerdict(c: Config, s: State, h: Head, r: Step)
    requires s.remaining >= 0
  {
    if |s.input| < Extended(s.remaining) then CutOff(c, s, r)
    else if h.masked != c.isServer then Refused(s, "incorrect mask flag", r)
    else if h.masked && |s.input| < Extended(s.remaining) + 4 then CutOff(c, s, r)
    else PayloadVerdict(c, BehindLength(s, h.masked), h.opcode, r)
  }

  /** What comes of an input of which the two fixed octets are there. */
  ghost predicate HeaderVerdict(c: Config, s: State, input: seq<byte>, r: Step)
    requires |input| >= 2
  {
    var h := HeadOf(input[0], input[1]);
    var fault := Fault(c.inflate, !s.final, h);
    if fault != "" then Refused(s, fault, r) else LengthVerdict(c, BehindFixed(c, s, h, input), h, r)
  }

  /** Over any input, in any state: what advanceFrame comes to. */
  ghost predicate Verdict(c: Config, s: State, r: Step) {
    if s.remaining > |s.input| then r == Failed(s.(input := []), c.tail)
    else if |FrameInput(s)| < 2 then CutOff(c, s, r)
    else HeaderVerdict(c, s, FrameInput(s), r)
  }

  lemma ClosePayload(c: Config, s: State, payload: seq<byte>)
    ensures CloseVerdict(c, s, payload, Handle(c, s, CLOSE, payload))
  {
    hide Utf8.WellFormed, IsValidReceivedCloseCode, CodeAllowed, FromBigEndian;
    if |payload| >= 2 {
      TwoOctets(payload[..2]);
      var code := FromBigEndian(payload[..2]);
      assert code == payload[0] as nat * 256 + payload[1] as nat;
      ReceivedCodes(code);
    }
  }

  lemma TwoOctets(s: seq<byte>)
    requires |s| == 2
    ensures FromBigEndian(s) == s[0] as nat * 256 + s[1] as nat
  {
    assert s[..1][..0] == [];
    assert FromBigEndian(s[..1]) == s[0] as nat;
  }

  lemma ControlPayload(c: Config, s: State, opcode: nat, payload: seq<byte>)
    requires IsControl(opcode)
    ensures ControlVerdict(c, s, opcode, payload, Handle(c, s, opcode, payload))
  {
    hide CloseVerdict;
    if opcode == CLOSE {
      ClosePayload(c, s, payload);
    }
  }

  lemma UnmaskedIs(c: Config, s: State, bytes: seq<byte>)
    requires s.pos == 0 || !c.isServer
    ensures Unmask(c, s, bytes) == Unmasked(if c.isServer then Some(s.key) else None, bytes)
  {}

  /** Steps 5 to 7, behind the header. */
  lemma PayloadStage(c: Config, s: State, opcode: nat)
    requires IsControl(opcode) ==> 0 <= s.remaining <= MAX_CONTROL_PAYLOAD
    requires opcode in {0, 1, 2, 8, 9, 10} && (s.pos == 0 || !c.isServer)
    ensures PayloadVerdict(c, s, opcode, TakePayload(c, s, opcode))
  {
    hide Handle, ControlVerdict, Unmask, Unmasked, Int64;
    if IsControl(opcode) && |s.input| >= s.remaining {
      var t := s.(remaining := 0);
      UnmaskedIs(c, t, s.input[..s.remaining]);
      ControlPayload(c, t.(input := s.input[s.remaining..]), opcode, Unmask(c, t, s.input[..s.remaining]));
    }
  }

  lemma LengthComplete(c: Config, s: State, opcode: nat)
    requires 0 <= s.remaining < 128 && (IsControl(opcode) ==> s.remaining <= MAX_CONTROL_PAYLOAD)
    requires |s.input| >= Extended(s.remaining) + if c.isServer then 4 else 0
    ensures IsControl(opcode) ==> BehindLength(s, c.isServer).remaining == s.remaining
    ensures ReadLength(c, s, opcode, c.isServer) == TakePayload(c, BehindLength(s, c.isServer), opcode)
  {
    hide FromBigEndian, TakePayload;
    var k := Extended(s.remaining);
    assert k == 0 ==> s.input[0..] == s.input && Int64(s.remaining) == s.remaining;
    if c.isServer {
      assert s.input[k..][..4] == s.input[k..k + 4] && s.input[k..][4..] == s.input[k + 4..];
    }
  }

  /** Steps 3 and 4. */
  lemma LengthStage(c: Config, s: State, h: Head)
    requires 0 <= s.remaining < 128 && (IsControl(h.opcode) ==> s.remaining <= MAX_CONTROL_PAYLOAD)
    requires h.opcode in {0, 1, 2, 8, 9, 10}
    ensures LengthVerdict(c, s, h, ReadLength(c, s, h.opcode, h.masked))
  {
    hide FromBigEndian, TakePayload, PayloadVerdict, Int64;
    if |s.input| >= Extended(s.remaining) + (if h.masked then 4 else 0) && h.masked == c.isServer {
      hide ReadLength;
      LengthComplete(c, s, h.opcode);
      PayloadStage(c, BehindLength(s, h.masked), h.opcode);
    }
  }

  /** Step 2, the rest of it. */
  lemma OrderStage(c: Config, s: State, final: bool, opcode: nat, masked: bool)
    requires opcode < 16 && 0 <= s.remaining
    ensures var fault, r := OrderFault(!s.final, final, opcode, s.remaining), CheckOrder(c, s, final, opcode, masked);
            if fault != "" then Refused(s, fault, r)
            else (IsControl(opcode) ==> s.remaining <= MAX_CONTROL_PAYLOAD)
                 && r == ReadLength(c, s.(final := if opcode < 8 then final else s.final), opcode, masked)
  {
    hide ReadLength, Decimal;
    UnknownOpcode(opcode);
  }

  lemma UnknownOpcode(opcode: nat)
    requires opcode < 16
    ensures Decimal(opcode) == Numeral(opcode)
  {}

  lemma ReservedStage(b0: byte, b1: byte, inflate: bool)
    ensures var reserved := if inflate then HeadOf(b0, b1).reserved % 4 else HeadOf(b0, b1).reserved;
            && (reserved > 0 <==> (HasBit(b0, RSV1_BIT) && !inflate) || HasBit(b0, RSV2_BIT) || HasBit(b0, RSV3_BIT))
            && (reserved > 0 ==> ReservedHex(b0, inflate) == Numeral(reserved) + "0")
  {
    hide HasBit;
    HeadFields(b0, b1);
  }

  lemma HeaderStage(c: Config, s: State, input: seq<byte>)
    requires |input| >= 2
    ensures HeaderVerdict(c, s, input, CheckHeader(c, s.(input := input[2..]), input[0], input[1]))
  {
    hide CheckOrder, ReadLength, OrderFault, LengthVerdict, HasBit, Opcode, Length7, ReservedHex, Numeral, HeadOf;
    var b0, b1 := input[0], input[1];
    var h := HeadOf(b0, b1);
    HeadFields(b0, b1);
    ReservedStage(b0, b1, c.inflate);
    if (if c.inflate then h.reserved % 4 else h.reserved) == 0 {
      var t := s.(input := input[2..], remaining := h.length7, decompress := c.inflate && h.reserved >= 4);
      OrderStage(c, t, h.final, h.opcode, h.masked);
      if OrderFault(!s.final, h.final, h.opcode, h.length7) == "" {
        KnownOpcode(!s.final, h);
        LengthStage(c, BehindFixed(c, s, h, input), h);
      }
    }
  }

  lemma KnownOpcode(open: bool, h: Head)
    requires h.opcode < 16 && OrderFault(open, h.final, h.opcode, h.length7) == ""
    ensures h.opcode in {0, 1, 2, 8, 9, 10} && (IsControl(h.opcode) ==> h.length7 <= 125)
  {}

  /** Over any input and in any state, advanceFrame comes to what sections 5.1 to 5.5 and 7.4 of RFC 6455 ask of the
      octets, with the error, the reply to the peer and the event for the handlers. */
  lemma AdvanceVerdict(c: Config, s: State)
    ensures Verdict(c, s, Advance(c, s))
  {
    hide CheckHeader, HeaderVerdict;
    if s.remaining <= |s.input| {
      var input := FrameInput(s);
      if |input| >= 2 {
        HeaderStage(c, s, input);
      }
    }
  }

  /** A frame with nothing else wrong whose mask flag is not what section 5.1 of RFC 6455 asks of its sender: refused as
      soon as its length is there. */
  lemma WrongMaskRefused(c: Config, s: State, input: seq<byte>, h: Head)
    requires s.remaining <= |s.input| && input == FrameInput(s) && BeginsWith(input, h)
    requires Flawless(c.inflate, !s.final, h) && |input| >= 2 + Extended(h.length7) && h.masked != c.isServer
    ensures Refused(s, "incorrect mask flag", Advance(c, s))
  {
    hide Advance, LengthVerdict, Fault, HeadOf;
    AdvanceVerdict(c, s);
    LengthRefuses(c, BehindFixed(c, s, h, input), h, Advance(c, s));
  }

  lemma LengthRefuses(c: Config, s: State, h: Head, r: Step)
    requires s.remaining >= 0 && |s.input| >= Extended(s.remaining) && h.masked != c.isServer
    requires LengthVerdict(c, s, h, r)
    ensures Refused(s, "incorrect mask flag", r)
  {}

  /** A Close frame of the peer with this payload. */
  ghost predicate ClosesWith(c: Config, f: Frame, payload: seq<byte>) {
    && f.opcode == 8 && f.final && !f.rsv1 && f.key.Some? == c.isServer
    && f.payload == payload && 2 <= |payload| <= 125
  }

  /** A Close frame with a code that is not allowed, or with text that is not UTF-8, after any stream: what came before
      is delivered, no handler sees the frame, the session ends with the error, and the peer is sent code 1002. */
  lemma CloseRefused(c: Config, fs: seq<Frame>, f: Frame, payload: seq<byte>, rest: seq<byte>)
    requires Quiet(c) && FollowAll(c, NOTHING, fs) && NoClose(fs) && ClosesWith(c, f, payload)
    ensures Assemble(NOTHING, fs).Assembly?
    ensures var o := Session(c, Start(EncodeAll(fs) + (Encode(f) + rest)));
            var allowed := CodeAllowed(payload[0] as nat * 256 + payload[1] as nat);
            if !allowed || !Utf8.WellFormed(payload[2..]) then
              && o.messages == Assemble(NOTHING, fs).done && o.s.events == EventsOfAll(fs) && o.s.replies == [1002]
              && o.error == ProtocolError("websocket: " + if !allowed then "invalid close code"
                                                          else "invalid utf8 payload in close frame")
            else o.error.CloseReceived?
  {
    hide Encode, Session, CloseVerdict, CodeAllowed, Utf8.WellFormed;
    var s := Start(EncodeAll(fs) + (Encode(f) + rest));
    var t := SessionOverFrames(c, s, NOTHING, fs, Encode(f) + rest);
    FollowAllAssembles(c, NOTHING, fs);
    var open := Assemble(NOTHING, fs).open;
    var u := CloseRead(c, if open.None? then t.(length := 0) else t, f, rest);
    ClosePayload(c, u, payload);
    CloseFails(c, u, payload, Handle(c, u, CLOSE, payload));
    EndsOnFailure(c, t, open);
    assert Resume(c, s, None) == Session(c, s);
  }

  lemma CloseFails(c: Config, s: State, payload: seq<byte>, r: Step)
    requires Quiet(c) && |payload| >= 2 && CloseVerdict(c, s, payload, r)
    ensures r.Failed?
    ensures var allowed := CodeAllowed(payload[0] as nat * 256 + payload[1] as nat);
            if !allowed then Refused(s, "invalid close code", r)
            else if !Utf8.WellFormed(payload[2..]) then Refused(s, "invalid utf8 payload in close frame", r)
            else r.error.CloseReceived?
  {
    hide CodeAllowed, Utf8.WellFormed;
  }

  /** The frames that advanceFrame accepts, one call after the other, until it fails. */
  ghost function AcceptedHeads(c: Config, s: State): seq<Head>
    decreases |s.input|
  {
    match Advance(c, s)
    case Failed(_, _) => []
    case Got(t, _) =>
      var input := FrameInput(s);
      (if |input| >= 2 then [HeadOf(input[0], input[1])] else []) + AcceptedHeads(c, t)
  }

  /** What sections 5.1 to 5.5 of RFC 6455 ask of the frames that a connection is sent before a Close frame: masks
      exactly from clients; no reserved bit, but RSV1 where compression is negotiated; pings and pongs anywhere, whole
      and of at most 125 bytes; else one data frame, continuation frames, and the last of them final. */
  ghost predicate Conforming(c: Config, open: bool, hs: seq<Head>)
    decreases |hs|
  {
    hs == [] ||
    var h := hs[0];
    && h.masked == c.isServer
    && (h.reserved == 0 || (h.reserved == 4 && c.inflate))
    && if h.opcode == 9 || h.opcode == 10 then h.final && h.length7 <= 125 && Conforming(c, open, hs[1..])
       else (if open then h.opcode == 0 else h.opcode == 1 || h.opcode == 2) && Conforming(c, !h.final, hs[1..])
  }

  /** One accepted frame. */
  lemma AcceptedConforms(c: Config, s: State)
    requires Advance(c, s).Got?
    ensures |FrameInput(s)| >= 2
    ensures var h, t := HeadOf(FrameInput(s)[0], FrameInput(s)[1]), Advance(c, s).s;
            && h.masked == c.isServer && (h.reserved == 0 || (h.reserved == 4 && c.inflate))
            && if h.opcode == 9 || h.opcode == 10 then h.final && h.length7 <= 125 && t.final == s.final
               else (if s.final then h.opcode == 1 || h.opcode == 2 else h.opcode == 0) && t.final == h.final
  {
    hide Advance, HeadOf, LengthVerdict, OrderFault, Numeral;
    AdvanceVerdict(c, s);
    var input := FrameInput(s);
    var h := HeadOf(input[0], input[1]);
    HeadAccepted(c.inflate, !s.final, h);
    LengthAccepted(c, BehindFixed(c, s, h, input), h, Advance(c, s));
  }

  lemma HeadAccepted(inflate: bool, open: bool, h: Head)
    requires h.reserved < 8 && h.opcode < 16 && Fault(inflate, open, h) == ""
    ensures h.reserved == 0 || (h.reserved == 4 && inflate)
    ensures if h.opcode in {8, 9, 10} then h.final && h.length7 <= 125
            else if open then h.opcode == 0 else h.opcode == 1 || h.opcode == 2
  {
    hide Numeral;
  }

  lemma LengthAccepted(c: Config, s: State, h: Head, r: Step)
    requires s.remaining >= 0 && LengthVerdict(c, s, h, r) && r.Got? && h.opcode in {0, 1, 2, 8, 9, 10}
    ensures h.masked == c.isServer && h.opcode != 8 && r.s.final == s.final
  {
    hide PayloadVerdict, AnnouncedBy, Int64;
    PayloadAccepted(c, BehindLength(s, h.masked), h.opcode, r);
  }

  lemma PayloadAccepted(c: Config, s: State, opcode: nat, r: Step)
    requires PayloadVerdict(c, s, opcode, r) && r.Got? && opcode in {0, 1, 2, 8, 9, 10}
    ensures opcode != 8 && r.s.final == s.final
  {
    hide Unmasked, CodeAllowed, Int64;
  }

  /** Over any input, readFinal is false exactly while a fragmented message is open, and the frames accepted are as RFC
      6455 wants them. */
  lemma {:induction false} AcceptsOnlyConforming(c: Config, s: State)
    ensures Conforming(c, !s.final, AcceptedHeads(c, s))
    decreases |s.input|
  {
    hide Advance, HeadOf;
    if Advance(c, s).Got? {
      var t := Advance(c, s).s;
      AcceptedConforms(c, s);
      AcceptsOnlyConforming(c, t);
      assert AcceptedHeads(c, s)[1..] == AcceptedHeads(c, t);
    }
  }
}
