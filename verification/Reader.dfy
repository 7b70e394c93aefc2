/** The reading half of Conn (conn.go): advanceFrame, NextReader and messageReader.Read,
    as functions on the connection's read state. Module ReadConn has the class that updates it in place. */
module Reader {
  import opened Masking
  import opened Frames
  import Utf8

  // Close codes of section 7.4 of RFC 6455 that the reader uses.
  const CLOSE_PROTOCOL_ERROR := 1002
  const CLOSE_NO_STATUS := 1005
  const CLOSE_MESSAGE_TOO_BIG := 1009

  datatype ReadError =
    | EndOfFile
    | Network
    | UnexpectedEOF
    | ProtocolError(message: string)
    | ReadLimit
    | CloseReceived(code: nat, text: seq<byte>)
    | Handler(reason: nat)
    | UnexpectedMessageInReader

  /** What the handlers see: control frames after unmasking, close payloads taken apart. */
  datatype Event =
    | PingSeen(payload: seq<byte>)
    | PongSeen(payload: seq<byte>)
    | CloseSeen(code: nat, text: seq<byte>)

  /** What does not change while a connection is read. The transport delivers some bytes and then,
      with no further bytes, the error tail; handler is the application's reply to an event. */
  datatype Config = Config(
    isServer: bool, inflate: bool, limit: int, tail: ReadError, handler: Event -> Option<ReadError>)

  /** The read fields of Conn, with the bytes still to come, the events the handlers have seen, and the
      codes of the Close frames that advanceFrame has asked WriteControl to send. */
  datatype State = State(
    input: seq<byte>, remaining: int, final: bool, length: int, pos: nat, key: Key, decompress: bool,
    events: seq<Event>, replies: seq<int>)

  function Start(input: seq<byte>): State {
    State(input, 0, true, 0, 0, [0, 0, 0, 0], false, [], [])
  }

  datatype Step =
    | Failed(s: State, error: ReadError)
    | Got(s: State, frameType: nat)

  /** The error of a read that comes up short (conn.go, read). */
  function Short(c: Config): ReadError {
    if c.tail == EndOfFile then UnexpectedEOF else c.tail
  }

  /** handleProtocolError: a Close frame to the peer, an error to the application. */
  function ProtocolFail(s: State, message: string): Step {
    Failed(s.(replies := s.replies + [CLOSE_PROTOCOL_ERROR]), ProtocolError("websocket: " + message))
  }

  /** Conversion of an unsigned number to int64. */
  function Int64(n: int): int {
    (n + MAX_LENGTH) % (2 * MAX_LENGTH) - MAX_LENGTH
  }

  function Decimal(opcode: nat): string
    requires opcode < 16
  {
    (if opcode >= 10 then "1" else "") + ["0123456789"[opcode % 10]]
  }

  /** The reserved bits that are set, in hexadecimal; RSV1 is cleared first when it marks compression. */
  function ReservedHex(b0: byte, inflate: bool): string {
    var high := (if HasBit(b0, RSV1_BIT) && !inflate then 4 else 0)
                + (if HasBit(b0, RSV2_BIT) then 2 else 0) + (if HasBit(b0, RSV3_BIT) then 1 else 0);
    ["01234567"[high], '0']
  }

  /** advanceFrame, steps 1 and 2: skip the rest of the previous frame, read the first two bytes. */
  function Advance(c: Config, s: State): (r: Step)
    ensures |r.s.input| <= |s.input|
    ensures r.Got? ==> |r.s.input| < |s.input|
  {
    if s.remaining > |s.input| then
      Failed(s.(input := []), c.tail)
    else
      var s := if s.remaining > 0 then s.(input := s.input[s.remaining..]) else s;
      if |s.input| < 2 then Failed(s.(input := []), Short(c))
      else CheckHeader(c, s.(input := s.input[2..]), s.input[0], s.input[1])
  }

  function CheckHeader(c: Config, s0: State, b0: byte, b1: byte): (r: Step)
    ensures |r.s.input| <= |s0.input|
  {
    var s := s0.(remaining := Length7(b1), decompress := c.inflate && HasBit(b0, RSV1_BIT));
    if (HasBit(b0, RSV1_BIT) && !c.inflate) || HasBit(b0, RSV2_BIT) || HasBit(b0, RSV3_BIT)
    then ProtocolFail(s, "unexpected reserved bits 0x" + ReservedHex(b0, c.inflate))
    else CheckOrder(c, s, HasBit(b0, FINAL_BIT), Opcode(b0), HasBit(b1, MASK_BIT))
  }

  /** Whether a frame of this type may come now. */
  function CheckOrder(c: Config, s: State, final: bool, frameType: nat, masked: bool): (r: Step)
    requires frameType < 16 && 0 <= s.remaining
    ensures |r.s.input| <= |s.input|
  {
    if IsControl(frameType) then
      if s.remaining > MAX_CONTROL_PAYLOAD then ProtocolFail(s, "control frame length > 125")
      else if !final then ProtocolFail(s, "control frame not final")
      else ReadLength(c, s, frameType, masked)
    else if IsData(frameType) then
      if !s.final then ProtocolFail(s, "message start before final message frame")
      else ReadLength(c, s.(final := final), frameType, masked)
    else if frameType == CONTINUATION then
      if s.final then ProtocolFail(s, "continuation after final message frame")
      else ReadLength(c, s.(final := final), frameType, masked)
    else
      ProtocolFail(s, "unknown opcode " + Decimal(frameType))
  }

  /** Step 3: the extended length. */
  function ReadLength(c: Config, s: State, frameType: nat, masked: bool): (r: Step)
    requires IsControl(frameType) ==> 0 <= s.remaining <= MAX_CONTROL_PAYLOAD
    ensures |r.s.input| <= |s.input|
  {
    var k := if s.remaining == 126 then 2 else if s.remaining == 127 then 8 else 0;
    if |s.input| < k then
      Failed(s.(input := []), Short(c))
    else if k == 0 then
      ReadMask(c, s, frameType, masked)
    else
      ReadMask(c, s.(remaining := Int64(FromBigEndian(s.input[..k])), input := s.input[k..]), frameType, masked)
  }

  /** Step 4: the mask flag and key. */
  function ReadMask(c: Config, s: State, frameType: nat, masked: bool): (r: Step)
    requires IsControl(frameType) ==> 0 <= s.remaining <= MAX_CONTROL_PAYLOAD
    ensures |r.s.input| <= |s.input|
  {
    if masked != c.isServer then
      ProtocolFail(s, "incorrect mask flag")
    else if !masked then
      TakePayload(c, s, frameType)
    else if |s.input| < 4 then
      Failed(s.(input := [], pos := 0), Short(c))
    else
      TakePayload(c, s.(input := s.input[4..], pos := 0, key := s.input[..4]), frameType)
  }

  /** Steps 5 and 6: the read limit of data frames; the payload of control frames. */
  function TakePayload(c: Config, s0: State, frameType: nat): (r: Step)
    requires IsControl(frameType) ==> 0 <= s0.remaining <= MAX_CONTROL_PAYLOAD
    ensures |r.s.input| <= |s0.input|
  {
    if !IsControl(frameType) then
      var s := s0.(length := Int64(s0.length + s0.remaining));
      if c.limit > 0 && s.length > c.limit
      then Failed(s.(replies := s.replies + [CLOSE_MESSAGE_TOO_BIG]), ReadLimit)
      else Got(s, frameType)
    else
      var n, s := s0.remaining, s0.(remaining := 0);
      if n > |s.input| then Failed(s.(input := []), Short(c))
      else Handle(c, s.(input := s.input[n..]), frameType, Unmask(c, s, s.input[..n]))
  }

  function Unmask(c: Config, s: State, bytes: seq<byte>): (r: seq<byte>)
    ensures |r| == |bytes|
  {
    if c.isServer then Mask(s.key, s.pos, bytes) else bytes
  }

  /** Step 7: the handlers. */
  function Handle(c: Config, s: State, frameType: nat, payload: seq<byte>): (r: Step)
    ensures |r.s.input| <= |s.input|
  {
    if frameType == PONG then Notify(c, s, PongSeen(payload), frameType)
    else if frameType == PING then Notify(c, s, PingSeen(payload), frameType)
    else if |payload| < 2 then HandleClose(c, s, CLOSE_NO_STATUS, [])
    else
      var code := FromBigEndian(payload[..2]);
      if !IsValidReceivedCloseCode(code) then ProtocolFail(s, "invalid close code")
      else if !Utf8.WellFormed(payload[2..]) then ProtocolFail(s, "invalid utf8 payload in close frame")
      else HandleClose(c, s, code, payload[2..])
  }

  function Notify(c: Config, s: State, e: Event, frameType: nat): Step {
    var s := s.(events := s.events + [e]);
    if c.handler(e).Some? then Failed(s, c.handler(e).value) else Got(s, frameType)
  }

  function HandleClose(c: Config, s: State, code: nat, text: seq<byte>): Step {
    var r := Notify(c, s, CloseSeen(code, text), CLOSE);
    if r.Got? then Failed(r.s, CloseReceived(code, text)) else r
  }

  predicate IsValidReceivedCloseCode(code: nat) {
    code in {1000, 1001, 1002, 1003, 1007, 1008, 1009, 1010, 1011, 1012, 1013} || 3000 <= code <= 4999
  }

  /** The loop of NextReader: frames are skipped until one starts a message. */
  function NextData(c: Config, s: State): (r: Step)
    ensures |r.s.input| <= |s.input|
    ensures r.Got? ==> |r.s.input| < |s.input| && IsData(r.frameType)
    decreases |s.input|
  {
    var r := Advance(c, s);
    if r.Got? && !IsData(r.frameType) then NextData(c, r.s) else r
  }

  /** NextReader. */
  function NextMessage(c: Config, s: State): (r: Step)
    ensures r.Got? ==> |r.s.input| < |s.input| && IsData(r.frameType)
  {
    NextData(c, s.(length := 0))
  }

  /** The state after n payload bytes of the current frame have been read. */
  function Consume(c: Config, s: State, n: nat): State
    requires n <= |s.input|
  {
    s.(input := s.input[n..], remaining := s.remaining - n, pos := if c.isServer then (s.pos + n) % 4 else s.pos)
  }

  /** How reading a message to its end comes out: io.EOF, or an error that sticks to the connection. */
  datatype End = Finished | Broken(error: ReadError)

  datatype Drained = Drained(data: seq<byte>, s: State, end: End)

  /** The bytes that an application gets by reading the current message to its end. */
  function Drain(c: Config, s: State): (d: Drained)
    ensures |d.s.input| <= |s.input|
    ensures d.end.Finished? ==> d.s.final && d.s.remaining <= 0
    decreases |s.input|
  {
    if s.remaining > 0 then
      if s.input == [] then
        Drained([], s, Broken(Short(c)))
      else
        var n := if s.remaining < |s.input| then s.remaining else |s.input|;
        var d := Drain(c, Consume(c, s, n));
        d.(data := Unmask(c, s, s.input[..n]) + d.data)
    else if s.final then
      Drained([], s, Finished)
    else
        match Advance(c, s)
      case Failed(s', e) => Drained([], s', Broken(e))
      case Got(s', frameType) =>
        if IsData(frameType) then Drained([], s', Broken(UnexpectedMessageInReader)) else Drain(c, s')
  }

  /** What reading some bytes of a message comes to; broken when that ended in an error of the connection. */
  datatype Partly = Partly(data: seq<byte>, s: State, broken: bool)

  /** Reading n bytes of the current message, or fewer when it ends before. */
  function ReadSome(c: Config, s: State, n: nat): (d: Partly)
    ensures |d.s.input| <= |s.input|
    decreases |s.input|
  {
    if n == 0 then
      Partly([], s, false)
    else if s.remaining > 0 then
      if s.input == [] then
        Partly([], s, true)
      else
        var k := if s.remaining < |s.input| then s.remaining else |s.input|;
        var m := if n < k then n else k;
        var d := ReadSome(c, Consume(c, s, m), n - m);
        d.(data := Unmask(c, s, s.input[..m]) + d.data)
    else if s.final then
      Partly([], s, false)
    else
      match Advance(c, s)
      case Failed(s', _) => Partly([], s', true)
      case Got(s', frameType) => if IsData(frameType) then Partly([], s', true) else ReadSome(c, s', n)
  }

  datatype Outcome = Outcome(messages: seq<Message>, s: State, error: ReadError)

  /** An application that reads every message to its end, until the connection reports an error. */
  function Session(c: Config, s: State): Outcome
    decreases |s.input|
  {
    match NextMessage(c, s)
    case Failed(s', e) => Outcome([], s', e)
    case Got(s', frameType) =>
      var d := Drain(c, s');
      match d.end
      case Broken(e) => Outcome([], d.s, e)
      case Finished =>
        var o := Session(c, d.s);
        o.(messages := [Message(frameType, s'.decompress, d.data)] + o.messages)
  }
}
