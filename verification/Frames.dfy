/** WebSocket frames as section 5 of RFC 6455 defines them: their octets, and the messages
    that a stream of frames carries. The writer and the reader are both proved against this module. */
module Frames {
  import opened Masking

  datatype Option<+T> = None | Some(value: T)

  const CONTINUATION := 0
  const TEXT := 1
  const BINARY := 2
  const CLOSE := 8
  const PING := 9
  const PONG := 10

  const MAX_CONTROL_PAYLOAD := 125

  predicate IsControl(frameType: int) {
    frameType == CLOSE || frameType == PING || frameType == PONG
  }

  predicate IsData(frameType: int) {
    frameType == TEXT || frameType == BINARY
  }

  // Octets

  /** The k octets of n in network byte order; octets above the k lowest are cut off. */
  function BigEndian(n: nat, k: nat): (s: seq<byte>)
    ensures |s| == k
  {
    if k == 0 then [] else BigEndian(n / 256, k - 1) + [ByteOf(n % 256)]
  }

  function FromBigEndian(s: seq<byte>): nat {
    if s == [] then 0 else FromBigEndian(s[..|s| - 1]) * 256 + s[|s| - 1] as nat
  }

  function Power256(k: nat): nat {
    if k == 0 then 1 else 256 * Power256(k - 1)
  }

  lemma {:induction false} BigEndianRoundTrip(n: nat, k: nat)
    requires n < Power256(k)
    ensures FromBigEndian(BigEndian(n, k)) == n
  {
    if k > 0 {
      BigEndianRoundTrip(n / 256, k - 1);
      assert BigEndian(n, k)[..k - 1] == BigEndian(n / 256, k - 1);
    }
  }

  lemma WidthsOf256()
    ensures Power256(2) == 0x1_0000
    ensures Power256(8) == 0x1_0000_0000_0000_0000
  {
    assert Power256(4) == 0x1_0000_0000;
  }

  // Header octets

  const FINAL_BIT: byte := 0x80
  const RSV1_BIT: byte := 0x40
  const RSV2_BIT: byte := 0x20
  const RSV3_BIT: byte := 0x10
  const MASK_BIT: byte := 0x80

  /** 2 + 8 + 4: fixed header, length, mask. */
  const MAX_HEADER := 14

  function FirstByte(final: bool, rsv1: bool, opcode: int): byte
    requires 0 <= opcode < 16
  {
    ByteOf(opcode) | (if final then FINAL_BIT else 0) | (if rsv1 then RSV1_BIT else 0)
  }

  function SecondByte(masked: bool, length7: int): byte
    requires 0 <= length7 < 128
  {
    (if masked then MASK_BIT else 0) | ByteOf(length7)
  }

  function Opcode(b0: byte): (t: nat)
    ensures t < 16
  {
    (b0 & 0xf) as nat
  }

  function Length7(b1: byte): (n: nat)
    ensures n < 128
  {
    (b1 & 0x7f) as nat
  }

  predicate HasBit(b: byte, bit: byte) {
    b & bit != 0
  }

  lemma FirstByteFields(final: bool, rsv1: bool, opcode: int)
    requires 0 <= opcode < 16
    ensures var b0 := FirstByte(final, rsv1, opcode);
            && Opcode(b0) == opcode
            && HasBit(b0, FINAL_BIT) == final
            && HasBit(b0, RSV1_BIT) == rsv1
            && !HasBit(b0, RSV2_BIT) && !HasBit(b0, RSV3_BIT)
  {}

  lemma SecondByteFields(masked: bool, length7: int)
    requires 0 <= length7 < 128
    ensures var b1 := SecondByte(masked, length7);
            Length7(b1) == length7 && HasBit(b1, MASK_BIT) == masked
  {}

  // Frames

  /** Section 5.2 of RFC 6455: 64-bit frame lengths have the top bit clear. */
  const MAX_LENGTH := 0x8000_0000_0000_0000

  datatype FrameFields = FrameFields(final: bool, rsv1: bool, opcode: nat, key: Option<Key>, payload: seq<byte>)

  /** A frame, with its payload before masking; opcodes have four bits. */
  type Frame = f: FrameFields | f.opcode < 16 && |f.payload| < MAX_LENGTH
    witness FrameFields(true, false, PING, None, [])

  /** The seven length bits: the length itself, or the form of the extended length. */
  function LengthCode(length: nat): (n: nat)
    ensures n < 128
  {
    if length >= 65536 then 127 else if length > 125 then 126 else length
  }

  /** The extended length, in the shortest form that holds it. */
  function ExtendedLength(length: nat): seq<byte> {
    if length >= 65536 then BigEndian(length, 8) else if length > 125 then BigEndian(length, 2) else []
  }

  function Header(f: Frame): (h: seq<byte>)
    ensures 2 <= |h| <= MAX_HEADER
  {
    [FirstByte(f.final, f.rsv1, f.opcode), SecondByte(f.key.Some?, LengthCode(|f.payload|))]
    + ExtendedLength(|f.payload|)
    + (if f.key.Some? then f.key.value else [])
  }

  /** The payload as it is sent. */
  function Body(f: Frame): (b: seq<byte>)
    ensures |b| == |f.payload|
  {
    if f.key.Some? then Mask(f.key.value, 0, f.payload) else f.payload
  }

  function Encode(f: Frame): seq<byte> {
    Header(f) + Body(f)
  }

  function EncodeAll(fs: seq<Frame>): seq<byte> {
    if fs == [] then [] else Encode(fs[0]) + EncodeAll(fs[1..])
  }

  lemma EncodeAllCons(fs: seq<Frame>)
    ensures EncodeAll(fs) == if fs == [] then [] else Encode(fs[0]) + EncodeAll(fs[1..])
  {
    hide Encode;
  }

  lemma {:induction false} EncodeAllConcat(fs: seq<Frame>, gs: seq<Frame>)
    ensures EncodeAll(fs + gs) == EncodeAll(fs) + EncodeAll(gs)
  {
    hide Encode, EncodeAll;
    EncodeAllCons(fs);
    if fs == [] {
      assert fs + gs == gs;
    } else {
      EncodeAllConcat(fs[1..], gs);
      EncodeAllCons(fs + gs);
      assert (fs + gs)[0] == fs[0] && (fs + gs)[1..] == fs[1..] + gs;
      Associates(Encode(fs[0]), EncodeAll(fs[1..]), EncodeAll(gs));
    }
  }

  lemma Associates(a: seq<byte>, b: seq<byte>, c: seq<byte>)
    ensures a + b + c == a + (b + c)
  {}

  /** The payload of a Close frame (conn.go, FormatCloseMessage): nothing for the code that must not be sent. */
  function FormatCloseMessage(closeCode: int, text: seq<byte>): seq<byte> {
    if closeCode == 1005 then [] else BigEndian(closeCode % 0x1_0000, 2) + text
  }

  // Messages

  /** A data message; compressed is the RSV1 bit of its first frame. */
  datatype Message = Message(kind: int, compressed: bool, payload: seq<byte>)

  datatype Control = Control(kind: int, payload: seq<byte>)

  /** What a stream of frames carries: the complete messages, the message begun but not finished,
      and the control frames, each in order. Malformed: the stream breaks section 5.4 or 5.5 of RFC 6455. */
  datatype Assembly =
    | Malformed
    | Assembly(done: seq<Message>, open: Option<Message>, controls: seq<Control>)

  const NOTHING := Assembly([], None, [])

  function Continue(a: Assembly, m: Message, final: bool): Assembly
    requires a.Assembly?
  {
    if final then a.(done := a.done + [m], open := None) else a.(open := Some(m))
  }

  function AddFrame(a: Assembly, f: Frame): Assembly {
    if a.Malformed? then
      Malformed
    else if IsControl(f.opcode) then
      if f.final && !f.rsv1 && |f.payload| <= MAX_CONTROL_PAYLOAD
      then a.(controls := a.controls + [Control(f.opcode, f.payload)])
      else Malformed
    else if IsData(f.opcode) then
      if a.open.Some? then Malformed else Continue(a, Message(f.opcode, f.rsv1, f.payload), f.final)
    else if f.opcode == CONTINUATION then
      if a.open.None? || f.rsv1 then Malformed
      else Continue(a, a.open.value.(payload := a.open.value.payload + f.payload), f.final)
    else
      Malformed
  }

  function Assemble(a: Assembly, fs: seq<Frame>): Assembly
    decreases |fs|
  {
    if fs == [] then a else Assemble(AddFrame(a, fs[0]), fs[1..])
  }

  lemma {:induction false} AssembleConcat(a: Assembly, fs: seq<Frame>, gs: seq<Frame>)
    ensures Assemble(a, fs + gs) == Assemble(Assemble(a, fs), gs)
    decreases |fs|
  {
    if fs == [] {
      assert fs + gs == gs;
    } else {
      assert (fs + gs)[1..] == fs[1..] + gs;
      AssembleConcat(AddFrame(a, fs[0]), fs[1..], gs);
    }
  }

  lemma {:induction false} MalformedStays(fs: seq<Frame>)
    ensures Assemble(Malformed, fs) == Malformed
  {
    if fs != [] {
      MalformedStays(fs[1..]);
    }
  }

  /** No frame of the stream is a Close frame. */
  ghost predicate NoClose(fs: seq<Frame>) {
    forall f :: f in fs ==> f.opcode != CLOSE
  }

  /** Section 5.1 of RFC 6455: frames are masked exactly when a client sends them. */
  ghost predicate FromPeer(fs: seq<Frame>, senderIsServer: bool) {
    forall f :: f in fs ==> f.key.None? == senderIsServer
  }
}
