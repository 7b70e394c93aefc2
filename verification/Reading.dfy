/** What the reader makes of a stream of frames, cut off anywhere. */
module Reading {
  import opened Masking
  import opened Frames
  import opened Reader
  import Utf8

  /** The frame is one the peer may send now: section 5.4 of RFC 6455, masked exactly towards a server,
      RSV1 only where compression was negotiated. */
  predicate Expected(c: Config, s: State, f: Frame) {
    && s.remaining == 0
    && f.key.Some? == c.isServer
    && (f.rsv1 ==> c.inflate)
    && if IsControl(f.opcode) then f.final && !f.rsv1 && |f.payload| <= MAX_CONTROL_PAYLOAD
       else if IsData(f.opcode) then s.final
       else f.opcode == CONTINUATION && !s.final && !f.rsv1
  }

  /** advanceFrame accepts a frame of the given type and leaves the state t. */
  ghost predicate Accepts(c: Config, s: State, t: State, frameType: nat) {
    Advance(c, s) == Got(t, frameType)
  }

  /** A whole frame is next, and then rest. */
  ghost predicate Next(s: State, f: Frame, rest: seq<byte>) {
    s.input == Encode(f) + rest
  }

  /** The header of a frame is next, and then rest. */
  ghost predicate HeaderNext(s: State, f: Frame, rest: seq<byte>) {
    s.input == Header(f) + rest
  }

  /** The body of a frame is next, and then rest. */
  ghost predicate BodyNext(s: State, f: Frame, rest: seq<byte>) {
    s.input == Body(f) + rest
  }

  lemma NextHeader(s: State, f: Frame, rest: seq<byte>)
    requires Next(s, f, rest)
    ensures HeaderNext(s, f, Body(f) + rest)
  {
    hide Header, Body;
    assert Header(f) + Body(f) + rest == Header(f) + (Body(f) + rest);
  }

  /** The state when the header of f has been read and rest is still to come. */
  function AfterHeader(c: Config, s: State, f: Frame, rest: seq<byte>): State {
    s.(input := rest, remaining := |f.payload|, final := if IsControl(f.opcode) then s.final else f.final,
       decompress := f.rsv1, pos := if f.key.Some? then 0 else s.pos, key := if f.key.Some? then f.key.value else s.key)
  }

  /** The seven length bits may announce a length in this form; the shortest form is not the only one. */
  predicate FormFits(code: nat, length: nat) {
    code == 127 || (code == 126 && length < 0x1_0000) || (code == length && length <= 125)
  }

  function LengthIn(code: nat, length: nat): seq<byte> {
    if code == 127 then BigEndian(length, 8) else if code == 126 then BigEndian(length, 2) else []
  }

  /** The first two bytes of the header, with the length in the form of the code. */
  function FirstTwo(f: Frame, code: nat): seq<byte>
    requires code < 128
  {
    [FirstByte(f.final, f.rsv1, f.opcode), SecondByte(f.key.Some?, code)]
  }

  function HeaderIn(f: Frame, code: nat): seq<byte>
    requires code < 128
  {
    FirstTwo(f, code) + LengthIn(code, |f.payload|) + if f.key.Some? then f.key.value else []
  }

  /** The state after the first two bytes of the header. */
  function AfterFixed(c: Config, s: State, f: Frame, code: nat): State {
    s.(remaining := code, final := if IsControl(f.opcode) then s.final else f.final, decompress := f.rsv1)
  }

  lemma FixedRead(c: Config, s: State, f: Frame, code: nat, rest: seq<byte>)
    requires Expected(c, s, f) && code < 128 && (IsControl(f.opcode) ==> code <= MAX_CONTROL_PAYLOAD)
    requires s.input == FirstTwo(f, code) + rest
    ensures Advance(c, s) == ReadLength(c, AfterFixed(c, s, f, code).(input := rest), f.opcode, c.isServer)
  {
    FirstByteFields(f.final, f.rsv1, f.opcode);
    SecondByteFields(f.key.Some?, code);
    hide FirstByte, SecondByte, HasBit, Opcode, Length7, ReadLength;
    assert s.input[2..] == rest;
  }

  lemma LengthFields(code: nat, length: nat)
    requires length < MAX_LENGTH && FormFits(code, length)
    ensures var e := LengthIn(code, length);
            && |e| == (if code == 126 then 2 else if code == 127 then 8 else 0)
            && (if e == [] then code else Int64(FromBigEndian(e))) == length
  {
    WidthsOf256();
    hide BigEndian, FromBigEndian, Power256;
    if code == 127 {
      BigEndianRoundTrip(length, 8);
    } else if code == 126 {
      BigEndianRoundTrip(length, 2);
    }
  }

  /** A complete header is read back exactly, whatever form its length has; what the payload holds does not matter. */
  lemma HeaderReadIn(c: Config, s: State, f: Frame, code: nat, rest: seq<byte>)
    requires Expected(c, s, f) && FormFits(code, |f.payload|) && code < 128
    requires IsControl(f.opcode) ==> code <= MAX_CONTROL_PAYLOAD
    requires s.input == HeaderIn(f, code) + rest
    ensures Advance(c, s) == TakePayload(c, AfterHeader(c, s, f, rest), f.opcode)
  {
    hide FirstTwo, Int64, Advance, FromBigEndian, BigEndian;
    var e, k := LengthIn(code, |f.payload|), if f.key.Some? then f.key.value else [];
    LengthFields(code, |f.payload|);
    hide LengthIn;
    Regroup(FirstTwo(f, code), e, k, rest);
    FixedRead(c, s, f, code, e + (k + rest));
    assert (e + (k + rest))[..|e|] == e && (e + (k + rest))[|e|..] == k + rest;
    assert (k + rest)[..|k|] == k && (k + rest)[|k|..] == rest;
  }

  lemma Regroup(a: seq<byte>, b: seq<byte>, c: seq<byte>, d: seq<byte>)
    ensures a + b + c + d == a + (b + (c + d))
  {}

  /** The form of the length that Encode uses. */
  lemma ShortestForm(f: Frame)
    ensures var code := LengthCode(|f.payload|);
            FormFits(code, |f.payload|) && HeaderIn(f, code) == Header(f)
    ensures |f.payload| <= MAX_CONTROL_PAYLOAD ==> LengthCode(|f.payload|) <= MAX_CONTROL_PAYLOAD
  {
    hide BigEndian, FirstByte, SecondByte;
  }

  lemma HeaderRead(c: Config, s: State, f: Frame, rest: seq<byte>)
    requires Expected(c, s, f)
    requires HeaderNext(s, f, rest)
    ensures Advance(c, s) == TakePayload(c, AfterHeader(c, s, f, rest), f.opcode)
  {
    hide Header, HeaderIn, Advance, TakePayload;
    ShortestForm(f);
    HeaderReadIn(c, s, f, LengthCode(|f.payload|), rest);
  }

  /** The error of a short read: the handlers have seen nothing new. */
  ghost predicate CutShort(c: Config, s: State, r: Step) {
    r.Failed? && r.error == Short(c) && r.s.events == s.events
  }

  lemma RestCut(c: Config, s: State, frameType: nat)
    requires IsControl(frameType) ==> 0 <= s.remaining <= MAX_CONTROL_PAYLOAD
    requires |s.input| < (if s.remaining == 126 then 2 else if s.remaining == 127 then 8 else 0)
             + (if c.isServer then 4 else 0)
    ensures CutShort(c, s, ReadLength(c, s, frameType, c.isServer))
  {
    hide Int64, FromBigEndian, TakePayload;
  }

  /** A header cut short is the error of a short read. */
  lemma HeaderCut(c: Config, s: State, f: Frame, n: nat)
    requires Expected(c, s, f)
    requires n < |Header(f)| && s.input == Header(f)[..n]
    ensures CutShort(c, s, Advance(c, s))
  {
    if n >= 2 {
      var rest, code := s.input[2..], LengthCode(|f.payload|);
      ShortestForm(f);
      assert s.input == FirstTwo(f, code) + rest;
      FixedRead(c, s, f, code, rest);
      LengthFields(code, |f.payload|);
      hide FirstTwo, LengthIn, Int64, Advance, ReadLength;
      RestCut(c, AfterFixed(c, s, f, code).(input := rest), f.opcode);
    }
  }

  // Sessions over frames

  /** How a session goes on, from inside the message open if there is one, else from between messages. */
  function Resume(c: Config, s: State, open: Option<Message>): Outcome {
    match open
    case None => Session(c, s)
    case Some(m) => Finish(c, m, Drain(c, s))
  }

  function Prepend(ms: seq<Message>, o: Outcome): Outcome {
    o.(messages := ms + o.messages)
  }

  /** How a session goes on when d is what reading the message m to its end gives. */
  function Finish(c: Config, m: Message, d: Drained): Outcome {
    match d.end
    case Broken(e) => Outcome([], d.s, e)
    case Finished => Prepend([m.(payload := m.payload + d.data)], Session(c, d.s))
  }

  ghost predicate Quiet(c: Config) {
    forall e :: c.handler(e).None?
  }

  /** The read state at a frame boundary, when open is the unfinished message. Its length matters to a limit only. */
  ghost predicate At(c: Config, s: State, open: Option<Message>) {
    && s.remaining == 0 && s.final == open.None?
    && (c.limit > 0 && open.Some? ==> s.length == Int64(|open.value.payload|))
  }

  lemma Int64Adds(n: nat, m: nat)
    ensures Int64(Int64(n) + m) == Int64(n + m)
    ensures n < MAX_LENGTH ==> Int64(n) == n
  {}

  /** The length, after the data frame f, of the message it belongs to. */
  function LengthWith(open: Option<Message>, f: Frame): nat {
    (if open.Some? then |open.value.payload| else 0) + |f.payload|
  }

  predicate OverLimit(c: Config, open: Option<Message>, f: Frame) {
    c.limit > 0 && LengthWith(open, f) > c.limit
  }

  /** The frame comes from the peer and fits the stream so far and the read limit; only a limit makes the length of
      the message matter, since the code then compares an int64. */
  ghost predicate Follows(c: Config, a: Assembly, f: Frame) {
    && a.Assembly? && AddFrame(a, f).Assembly?
    && f.key.Some? == c.isServer
    && (f.rsv1 ==> c.inflate)
    && (!IsControl(f.opcode) && c.limit > 0 ==> LengthWith(a.open, f) < MAX_LENGTH && !OverLimit(c, a.open, f))
  }

  function EventsOf(f: Frame): seq<Event> {
    if f.opcode == PING then [PingSeen(f.payload)]
    else if f.opcode == PONG then [PongSeen(f.payload)]
    else []
  }

  lemma UnmaskBody(c: Config, s: State, f: Frame)
    requires f.key.Some? == c.isServer
    requires c.isServer ==> s.key == f.key.value && s.pos == 0
    ensures Unmask(c, s, Body(f)) == f.payload
  {
    hide Mask;
    if c.isServer {
      MaskInvolution(f.key.value, 0, f.payload);
    }
  }

  /** A ping or pong is handled, and leaves the state of the message around it alone. */
  lemma ControlRead(c: Config, s: State, f: Frame, rest: seq<byte>) returns (t: State)
    requires Quiet(c) && Expected(c, s, f) && (f.opcode == PING || f.opcode == PONG)
    requires Next(s, f, rest)
    ensures Accepts(c, s, t, f.opcode)
    ensures t.input == rest && t.remaining == 0 && t.final == s.final && t.length == s.length
    ensures t.events == s.events + EventsOf(f) && t.replies == s.replies
  {
    hide Header, Body, Advance;
    var wire := Body(f) + rest;
    NextHeader(s, f, rest);
    HeaderRead(c, s, f, wire);
    t := ControlPayloadRead(c, AfterHeader(c, s, f, wire), f, rest);
  }

  lemma ControlPayloadRead(c: Config, s: State, f: Frame, rest: seq<byte>) returns (t: State)
    requires Quiet(c) && (f.opcode == PING || f.opcode == PONG) && |f.payload| <= MAX_CONTROL_PAYLOAD
    requires f.key.Some? == c.isServer && (c.isServer ==> s.key == f.key.value && s.pos == 0)
    requires s.remaining == |f.payload| && BodyNext(s, f, rest)
    ensures TakePayload(c, s, f.opcode) == Got(t, f.opcode)
    ensures t == s.(input := rest, remaining := 0, events := s.events + EventsOf(f))
  {
    hide Body, Unmask;
    UnmaskBody(c, s.(remaining := 0), f);
    assert s.input[..|f.payload|] == Body(f) && s.input[|f.payload|..] == rest;
    t := s.(input := rest, remaining := 0, events := s.events + EventsOf(f));
  }

  /** The payload of a data frame is delivered unmasked, and reading goes on after it. */
  lemma PayloadRead(c: Config, s: State, f: Frame, rest: seq<byte>) returns (t: State)
    requires f.key.Some? == c.isServer
    requires c.isServer ==> s.key == f.key.value && s.pos == 0
    requires s.remaining == |f.payload| && BodyNext(s, f, rest)
    ensures t.input == rest && t.remaining == 0 && t.final == s.final && t.length == s.length
    ensures t.events == s.events && t.replies == s.replies
    ensures var d := Drain(c, t); Drain(c, s) == d.(data := f.payload + d.data)
  {
    hide Body, Advance, Unmask;
    UnmaskBody(c, s, f);
    if f.payload == [] {
      assert Body(f) + rest == rest;
      t := s;
    } else {
      assert s.input[..|f.payload|] == Body(f) && s.input[|f.payload|..] == rest;
      t := Consume(c, s, |f.payload|);
    }
  }

  lemma FinishAssoc(c: Config, m: Message, bytes: seq<byte>, d: Drained)
    ensures Finish(c, m, d.(data := bytes + d.data)) == Finish(c, m.(payload := m.payload + bytes), d)
  {
    assert m.payload + (bytes + d.data) == m.payload + bytes + d.data;
  }

  /** A whole ping or pong between or inside messages: the session goes on as if it were not there. */
  lemma ControlStep(c: Config, s: State, open: Option<Message>, f: Frame, rest: seq<byte>) returns (t: State)
    requires Quiet(c) && At(c, s, open)
    requires (f.opcode == PING || f.opcode == PONG) && f.final && !f.rsv1 && |f.payload| <= MAX_CONTROL_PAYLOAD
    requires f.key.Some? == c.isServer && Next(s, f, rest)
    ensures At(c, t, open) && t.input == rest && t.events == s.events + EventsOf(f) && t.replies == s.replies
    ensures Resume(c, s, open) == Resume(c, t, open)
  {
    hide Encode, Advance;
    if open.None? {
      t := ControlRead(c, s.(length := 0), f, rest);
      assert t.(length := 0) == t;
    } else {
      t := ControlRead(c, s, f, rest);
    }
  }

  /** The header of a data frame that the reader accepts. */
  lemma DataHeaderRead(c: Config, s: State, f: Frame, tail: seq<byte>) returns (t: State)
    requires Expected(c, s, f) && !IsControl(f.opcode)
    requires HeaderNext(s, f, tail)
    requires !(c.limit > 0 && Int64(s.length + |f.payload|) > c.limit)
    ensures Accepts(c, s, t, f.opcode)
    ensures t.input == tail && t.remaining == |f.payload| && t.final == f.final
            && t.length == Int64(s.length + |f.payload|)
    ensures t.decompress == f.rsv1 && t.events == s.events && t.replies == s.replies
    ensures c.isServer ==> t.key == f.key.value && t.pos == 0
  {
    hide Header, Advance, Int64;
    HeaderRead(c, s, f, tail);
    var u := AfterHeader(c, s, f, tail);
    t := u.(length := Int64(u.length + u.remaining));
  }

  /** The message that a data frame begins or continues. */
  function MessageWith(open: Option<Message>, f: Frame): Message {
    if open.Some? then open.value.(payload := open.value.payload + f.payload) else Message(f.opcode, f.rsv1, f.payload)
  }

  /** A session enters the message whose first header NextReader has read. */
  lemma MessageBegins(c: Config, s: State, u: State, frameType: nat)
    requires IsData(frameType) && Accepts(c, s.(length := 0), u, frameType)
    ensures Session(c, s) == Finish(c, Message(frameType, u.decompress, []), Drain(c, u))
  {
    hide Advance, Drain;
    var d := Drain(c, u);
    assert NextMessage(c, s) == Got(u, frameType);
    hide NextMessage, NextData;
    if d.end.Finished? {
      assert [] + d.data == d.data;
      assert Session(c, s) == Prepend([Message(frameType, u.decompress, d.data)], Session(c, d.s));
    }
  }

  /** Reading a message goes on in the continuation frame whose header Read has read. */
  lemma MessageContinues(c: Config, s: State, u: State)
    requires s.remaining <= 0 && !s.final && Accepts(c, s, u, CONTINUATION)
    ensures Drain(c, s) == Drain(c, u)
  {
    hide Advance;
  }

  /** The running length that the reader comes to for a data frame, and that the limit is no matter. */
  lemma LengthAt(c: Config, s: State, a: Assembly, f: Frame)
    requires a.Assembly? && At(c, s, a.open)
    ensures var n := Int64((if a.open.None? then 0 else s.length) + |f.payload|);
            c.limit > 0 ==>
              && n == Int64(LengthWith(a.open, f))
              && (LengthWith(a.open, f) < MAX_LENGTH ==> n == LengthWith(a.open, f))
  {
    hide Int64;
    Int64Adds(if a.open.None? then 0 else |a.open.value.payload|, |f.payload|);
    Int64Adds(LengthWith(a.open, f), 0);
  }

  /** A whole data frame: its payload is delivered, and the message goes on from there. */
  lemma DataFrameRead(c: Config, s: State, a: Assembly, f: Frame, rest: seq<byte>) returns (t: State)
    requires a.Assembly? && At(c, s, a.open) && Follows(c, a, f) && !IsControl(f.opcode)
    requires Next(s, f, rest)
    ensures t.input == rest && t.remaining == 0 && t.final == f.final
    ensures c.limit > 0 ==> t.length == Int64(LengthWith(a.open, f))
    ensures t.events == s.events && t.replies == s.replies
    ensures Resume(c, s, a.open) == Finish(c, MessageWith(a.open, f), Drain(c, t))
  {
    hide Header, Body, Advance, Encode, Finish, Drain, Session, Int64;
    var wire := Body(f) + rest;
    NextHeader(s, f, rest);
    var s' := if a.open.None? then s.(length := 0) else s;
    LengthAt(c, s, a, f);
    var u := DataHeaderRead(c, s', f, wire);
    t := PayloadRead(c, u, f, rest);
    var before := if a.open.Some? then a.open.value else Message(f.opcode, f.rsv1, []);
    if a.open.None? {
      MessageBegins(c, s, u, f.opcode);
    } else {
      MessageContinues(c, s, u);
    }
    FinishAssoc(c, before, f.payload, Drain(c, t));
    assert before.(payload := before.payload + f.payload) == MessageWith(a.open, f);
  }

  /** A whole data frame takes the session to the next frame boundary, and completes a message when it is final. */
  lemma DataStep(c: Config, s: State, a: Assembly, f: Frame, rest: seq<byte>) returns (t: State)
    requires a.Assembly? && At(c, s, a.open) && Follows(c, a, f) && !IsControl(f.opcode)
    requires Next(s, f, rest)
    ensures var b := AddFrame(a, f);
            && At(c, t, b.open) && t.input == rest && t.events == s.events && t.replies == s.replies
            && a.done <= b.done && b.controls == a.controls
            && Resume(c, s, a.open) == Prepend(b.done[|a.done|..], Resume(c, t, b.open))
  {
    hide Encode, Advance;
    t := DataFrameRead(c, s, a, f, rest);
    var b, m := AddFrame(a, f), MessageWith(a.open, f);
    if f.final {
      assert b == a.(done := a.done + [m], open := None);
      assert b.done[|a.done|..] == [m];
      assert m.(payload := m.payload + []) == m;
      assert Drain(c, t) == Drained([], t, Finished);
    } else {
      assert b == a.(open := Some(m));
      assert b.done[|a.done|..] == [];
    }
  }

  /** From s inside a to t inside b, the session has delivered the messages that b has and a has not, and the
      handlers have seen the given events. */
  ghost predicate Leads(c: Config, s: State, a: Assembly, t: State, b: Assembly, events: seq<Event>) {
    && a.Assembly? && b.Assembly? && a.done <= b.done
    && At(c, s, a.open) && At(c, t, b.open)
    && t.replies == s.replies && t.events == s.events + events
    && Resume(c, s, a.open) == Prepend(b.done[|a.done|..], Resume(c, t, b.open))
  }

  /** Every frame of a well-formed stream does its part, whole. */
  lemma FrameStep(c: Config, s: State, a: Assembly, f: Frame, rest: seq<byte>) returns (t: State)
    requires Quiet(c) && a.Assembly? && At(c, s, a.open) && Follows(c, a, f) && f.opcode != CLOSE
    requires Next(s, f, rest)
    ensures At(c, t, AddFrame(a, f).open) && t.input == rest && Leads(c, s, a, t, AddFrame(a, f), EventsOf(f))
  {
    hide Encode, Resume;
    if IsControl(f.opcode) {
      t := ControlStep(c, s, a.open, f, rest);
      assert AddFrame(a, f).done[|a.done|..] == [];
    } else {
      t := DataStep(c, s, a, f, rest);
    }
  }

  // Streams cut off anywhere

  /** A session that delivers nothing more and ends with the given error. */
  ghost predicate EndsWith(c: Config, s: State, open: Option<Message>, e: ReadError) {
    var o := Resume(c, s, open);
    o.messages == [] && o.error == e && o.s.events == s.events
  }

  ghost predicate Fails(c: Config, s: State, e: ReadError) {
    var r := Advance(c, s);
    r.Failed? && r.error == e && r.s.events == s.events
  }

  lemma FailureEnds(c: Config, s: State, open: Option<Message>, e: ReadError)
    requires At(c, s, open)
    requires if open.None? then Fails(c, s.(length := 0), e) else Fails(c, s, e)
    ensures EndsWith(c, s, open, e)
  {
    hide Advance;
  }

  /** Inside a frame whose payload is incomplete: what there is of it is delivered, then the error of a short read. */
  lemma PayloadCut(c: Config, s: State)
    requires s.remaining > |s.input|
    ensures var d := Drain(c, s); d.end == Broken(Short(c)) && d.s.events == s.events
  {
    hide Advance, Unmask;
    if s.input != [] {
      var t := Consume(c, s, |s.input|);
      assert Drain(c, t) == Drained([], t, Broken(Short(c)));
    }
  }

  /** Some octets of a frame, but not all of them, and then the end of the stream. */
  ghost predicate CutIn(s: State, f: Frame, n: nat) {
    n < |Encode(f)| && s.input == Encode(f)[..n]
  }

  /** The payload of a data frame is cut: no message is delivered. */
  lemma DataCut(c: Config, s: State, a: Assembly, f: Frame, part: seq<byte>)
    requires a.Assembly? && At(c, s, a.open) && Follows(c, a, f) && !IsControl(f.opcode)
    requires HeaderNext(s, f, part) && |part| < |f.payload|
    ensures EndsWith(c, s, a.open, Short(c))
  {
    hide Header, Advance, Drain, Int64;
    var s' := if a.open.None? then s.(length := 0) else s;
    assert HeaderNext(s', f, part);
    LengthAt(c, s, a, f);
    var u := DataHeaderRead(c, s', f, part);
    PayloadCut(c, u);
    if a.open.None? {
      MessageBegins(c, s, u, f.opcode);
    } else {
      MessageContinues(c, s, u);
    }
  }

  /** The payload of a control frame is cut: the handlers do not see the frame. */
  lemma ControlCut(c: Config, s: State, f: Frame, part: seq<byte>)
    requires Expected(c, s, f) && IsControl(f.opcode)
    requires HeaderNext(s, f, part) && |part| < |f.payload|
    ensures Fails(c, s, Short(c))
  {
    hide Header, Advance;
    HeaderRead(c, s, f, part);
  }

  /** A stream that ends inside a frame: the session ends there with the error of a short read. */
  lemma FrameCut(c: Config, s: State, a: Assembly, f: Frame, n: nat)
    requires a.Assembly? && At(c, s, a.open) && Follows(c, a, f) && CutIn(s, f, n)
    ensures EndsWith(c, s, a.open, Short(c))
  {
    var s' := if a.open.None? then s.(length := 0) else s;
    if n < |Header(f)| {
      assert Encode(f)[..n] == Header(f)[..n];
      HeaderCut(c, s', f, n);
      FailureEnds(c, s, a.open, Short(c));
    } else {
      var part := Body(f)[..n - |Header(f)|];
      assert Encode(f)[..n] == Header(f) + part;
      if IsControl(f.opcode) {
        ControlCut(c, s', f, part);
        FailureEnds(c, s, a.open, Short(c));
      } else {
        DataCut(c, s, a, f, part);
      }
    }
  }

  /** Every frame of the stream fits what comes before it. */
  ghost predicate FollowAll(c: Config, a: Assembly, fs: seq<Frame>)
    decreases |fs|
  {
    fs == [] || (Follows(c, a, fs[0]) && FollowAll(c, AddFrame(a, fs[0]), fs[1..]))
  }

  function EventsOfAll(fs: seq<Frame>): seq<Event> {
    if fs == [] then [] else EventsOf(fs[0]) + EventsOfAll(fs[1..])
  }

  function EventsOfControls(cs: seq<Control>): seq<Event> {
    if cs == [] then []
    else
      (if cs[0].kind == PING then [PingSeen(cs[0].payload)]
       else if cs[0].kind == PONG then [PongSeen(cs[0].payload)] else [])
      + EventsOfControls(cs[1..])
  }

  /** The events that a stream of frames without Close causes are its pings and pongs, in order. */
  lemma {:induction false} EventsAreControls(a: Assembly, fs: seq<Frame>)
    requires a.Assembly? && Assemble(a, fs).Assembly? && NoClose(fs)
    ensures a.controls <= Assemble(a, fs).controls
    ensures EventsOfAll(fs) == EventsOfControls(Assemble(a, fs).controls[|a.controls|..])
    decreases |fs|
  {
    var end := Assemble(a, fs).controls;
    if fs == [] {
      assert end[|a.controls|..] == [];
    } else {
      var b := AddFrame(a, fs[0]);
      if b.Malformed? {
        MalformedStays(fs[1..]);
      }
      EventsAreControls(b, fs[1..]);
      if IsControl(fs[0].opcode) {
        var more := end[|a.controls|..];
        assert more[0] == b.controls[|a.controls|] == Control(fs[0].opcode, fs[0].payload);
        assert more[1..] == end[|b.controls|..];
      }
    }
  }

  /** The stream s.input is fs and then tail. */
  ghost predicate StreamNext(s: State, fs: seq<Frame>, tail: seq<byte>) {
    s.input == EncodeAll(fs) + tail
  }

  lemma {:induction false} FollowAllAssembles(c: Config, a: Assembly, fs: seq<Frame>)
    requires a.Assembly? && FollowAll(c, a, fs)
    ensures var b := Assemble(a, fs); b.Assembly? && a.done <= b.done
    decreases |fs|
  {
    if fs != [] {
      FollowAllAssembles(c, AddFrame(a, fs[0]), fs[1..]);
    }
  }

  lemma LeadsTransitive(c: Config, s: State, a: Assembly, t: State, b: Assembly, u: State, e: Assembly,
                        events: seq<Event>, more: seq<Event>)
    requires Leads(c, s, a, t, b, events) && Leads(c, t, b, u, e, more)
    ensures Leads(c, s, a, u, e, events + more)
  {
    hide Resume;
    assert e.done[|a.done|..] == b.done[|a.done|..] + e.done[|b.done|..];
    PrependTwice(b.done[|a.done|..], e.done[|b.done|..], Resume(c, u, e.open));
  }

  lemma LeadsNowhere(c: Config, s: State, a: Assembly)
    requires a.Assembly? && At(c, s, a.open)
    ensures Leads(c, s, a, s, a, [])
  {
    hide Resume;
    var o := Resume(c, s, a.open);
    assert [] + o.messages == o.messages;
  }

  /** Over any stream of frames without Close, the session delivers exactly the complete messages, shows the handlers
      exactly the control frames, and is then at the frame boundary where tail begins. */
  lemma {:induction false} SessionOverFrames(c: Config, s: State, a: Assembly, fs: seq<Frame>, tail: seq<byte>)
    returns (t: State)
    requires Quiet(c) && a.Assembly? && At(c, s, a.open)
    requires FollowAll(c, a, fs) && NoClose(fs) && StreamNext(s, fs, tail)
    ensures t.input == tail && Leads(c, s, a, t, Assemble(a, fs), EventsOfAll(fs))
    decreases |fs|
  {
    hide Encode, Resume, Leads;
    if fs == [] {
      t := s;
      assert EncodeAll(fs) + tail == tail;
      LeadsNowhere(c, s, a);
    } else {
      var f, rest := fs[0], EncodeAll(fs[1..]) + tail;
      assert s.input == Encode(f) + rest;
      var u := FrameStep(c, s, a, f, rest);
      t := SessionOverFrames(c, u, AddFrame(a, f), fs[1..], tail);
      LeadsTransitive(c, s, a, u, AddFrame(a, f), t, Assemble(a, fs), EventsOf(f), EventsOfAll(fs[1..]));
    }
  }

  lemma PrependTwice(ms: seq<Message>, ns: seq<Message>, o: Outcome)
    ensures Prepend(ms, Prepend(ns, o)) == Prepend(ms + ns, o)
  {
    assert ms + (ns + o.messages) == ms + ns + o.messages;
  }

  // Main results

  /** A frame that the peer of c may send at any frame boundary. */
  function EmptyPing(c: Config): Frame {
    FrameFields(true, false, PING, if c.isServer then Some([0, 0, 0, 0]) else None, [])
  }

  /** The first k octets of a stream are whole frames and part of the next one. */
  lemma {:induction false} CutPoint(fs: seq<Frame>, k: nat) returns (j: nat, n: nat)
    requires k <= |EncodeAll(fs)|
    ensures j <= |fs|
    ensures j == |fs| ==> k == |EncodeAll(fs)|
    ensures j < |fs| ==> n < |Encode(fs[j])|
    ensures EncodeAll(fs)[..k] == EncodeAll(fs[..j]) + (if j < |fs| then Encode(fs[j])[..n] else [])
  {
    hide Encode;
    if fs == [] {
      j, n := 0, 0;
    } else if k < |Encode(fs[0])| {
      j, n := 0, k;
      assert EncodeAll(fs)[..k] == Encode(fs[0])[..k];
    } else {
      j, n := CutPoint(fs[1..], k - |Encode(fs[0])|);
      j := j + 1;
      assert fs[..j][1..] == fs[1..][..j - 1];
      assert EncodeAll(fs)[..k] == Encode(fs[0]) + EncodeAll(fs[1..])[..k - |Encode(fs[0])|];
    }
  }

  lemma {:induction false} FollowAllSplit(c: Config, a: Assembly, fs: seq<Frame>, j: nat)
    requires a.Assembly? && FollowAll(c, a, fs) && j <= |fs|
    ensures FollowAll(c, a, fs[..j]) && FollowAll(c, Assemble(a, fs[..j]), fs[j..])
    ensures Assemble(a, fs) == Assemble(Assemble(a, fs[..j]), fs[j..])
    decreases |fs|
  {
    assert fs == fs[..j] + fs[j..];
    AssembleConcat(a, fs[..j], fs[j..]);
    if j > 0 {
      FollowAllSplit(c, AddFrame(a, fs[0]), fs[1..], j - 1);
      assert fs[..j][1..] == fs[1..][..j - 1] && fs[1..][j - 1..] == fs[j..];
    }
  }

  /** Cut a stream of frames anywhere, even inside a header: an application that reads every message to its end gets
      exactly the messages that are complete before the cut and nothing of the others, its handlers have seen exactly
      the pings and pongs that are complete before the cut, and the session then ends with errUnexpectedEOF
      (for a transport that ends with EOF). Uncut, it gets all messages. */
  lemma CutStream(c: Config, fs: seq<Frame>, k: nat) returns (j: nat)
    requires Quiet(c) && FollowAll(c, NOTHING, fs) && NoClose(fs) && k <= |EncodeAll(fs)|
    ensures j <= |fs| && |EncodeAll(fs[..j])| <= k
    ensures j < |fs| ==> k < |EncodeAll(fs[..j + 1])|
    ensures Assemble(NOTHING, fs).Assembly? && Assemble(NOTHING, fs[..j]).Assembly?
    ensures var o := Session(c, Start(EncodeAll(fs)[..k]));
            && o.messages == Assemble(NOTHING, fs[..j]).done <= Assemble(NOTHING, fs).done
            && o.s.events == EventsOfAll(fs[..j])
            && o.error == Short(c)
  {
    hide Encode, Session;
    var n;
    j, n := CutPoint(fs, k);
    var whole, tail := fs[..j], if j < |fs| then Encode(fs[j])[..n] else [];
    FollowAllSplit(c, NOTHING, fs, j);
    FollowAllAssembles(c, NOTHING, whole);
    var a := Assemble(NOTHING, whole);
    FollowAllAssembles(c, a, fs[j..]);
    var s := Start(EncodeAll(fs)[..k]);
    var t := SessionOverFrames(c, s, NOTHING, whole, tail);
    StreamEnds(c, t, a, if j < |fs| then fs[j] else EmptyPing(c), tail);
    if j < |fs| {
      OneFrameLonger(fs, j);
    } else {
      assert fs[..j] == fs;
    }
    assert Resume(c, s, None) == Session(c, s);
  }

  lemma OneFrameLonger(fs: seq<Frame>, j: nat)
    requires j < |fs|
    ensures |EncodeAll(fs[..j + 1])| == |EncodeAll(fs[..j])| + |Encode(fs[j])|
  {
    hide Encode;
    assert fs[..j + 1] == fs[..j] + [fs[j]];
    EncodeAllConcat(fs[..j], [fs[j]]);
    assert EncodeAll([fs[j]]) == Encode(fs[j]);
  }

  lemma WholeStream(fs: seq<Frame>, j: nat)
    requires j < |fs|
    ensures |EncodeAll(fs[..j + 1])| <= |EncodeAll(fs)|
  {
    assert fs == fs[..j + 1] + fs[j + 1..];
    EncodeAllConcat(fs[..j + 1], fs[j + 1..]);
  }

  lemma StreamEnds(c: Config, s: State, a: Assembly, f: Frame, tail: seq<byte>)
    requires a.Assembly? && At(c, s, a.open) && s.input == tail
    requires (tail == [] && f == EmptyPing(c))
             || (Follows(c, a, f) && |tail| < |Encode(f)| && tail == Encode(f)[..|tail|])
    ensures EndsWith(c, s, a.open, Short(c))
  {
    if f == EmptyPing(c) && tail == [] {
      assert Follows(c, a, f);
      assert Encode(f)[..0] == [];
    }
    FrameCut(c, s, a, f, |tail|);
  }

  /** The stream fs, and then the first octets of one more frame: all of them, some, or none. Reading each message to
      its end gives exactly the messages that these octets complete. */
  lemma BrokenStream(c: Config, fs: seq<Frame>, f: Frame, part: seq<byte>)
    requires Quiet(c) && FollowAll(c, NOTHING, fs) && NoClose(fs)
    requires Assemble(NOTHING, fs).Assembly? && Follows(c, Assemble(NOTHING, fs), f) && part <= Encode(f)
    ensures var a := Assemble(NOTHING, fs);
            Session(c, Start(EncodeAll(fs) + part)).messages ==
              if part == Encode(f) then AddFrame(a, f).done else a.done
  {
    hide Encode, Session, Leads, EndsWith;
    var a, s := Assemble(NOTHING, fs), Start(EncodeAll(fs) + part);
    var t := SessionOverFrames(c, s, NOTHING, fs, part);
    LeadsFromStart(c, s, t, a, EventsOfAll(fs));
    if part != Encode(f) {
      assert part == Encode(f)[..|part|] && |part| < |Encode(f)|;
      FrameCut(c, t, a, f, |part|);
      EndsWithNothing(c, t, a.open, Short(c));
    } else {
      assert t.input == Encode(f) + [];
      WholeFrameLast(c, t, a, f);
    }
  }

  lemma LeadsFromStart(c: Config, s: State, t: State, a: Assembly, events: seq<Event>)
    requires Leads(c, s, NOTHING, t, a, events)
    ensures a.Assembly? && At(c, t, a.open) && Session(c, s).messages == a.done + Resume(c, t, a.open).messages
  {
    hide Session, Drain;
    assert a.done[|NOTHING.done|..] == a.done;
  }

  lemma EndsWithNothing(c: Config, s: State, open: Option<Message>, e: ReadError)
    requires EndsWith(c, s, open, e)
    ensures Resume(c, s, open).messages == []
  {}

  /** One whole frame is left, of any kind. */
  lemma WholeFrameLast(c: Config, s: State, a: Assembly, f: Frame)
    requires Quiet(c) && a.Assembly? && At(c, s, a.open) && Follows(c, a, f) && Next(s, f, [])
    ensures a.done + Resume(c, s, a.open).messages == AddFrame(a, f).done
  {
    hide Encode, Resume, EndsWith;
    if f.opcode == CLOSE {
      CloseEndsAlways(c, s, a.open, f, []);
    } else {
      var b := AddFrame(a, f);
      var t := FrameStep(c, s, a, f, []);
      StreamEnds(c, t, b, EmptyPing(c), []);
      EndsWithNothing(c, t, b.open, Short(c));
      assert a.done + (b.done[|a.done|..] + []) == b.done;
    }
  }

  /** Whatever a Close frame carries, nothing is delivered after it. */
  lemma CloseEndsAlways(c: Config, s: State, open: Option<Message>, f: Frame, rest: seq<byte>)
    requires At(c, s, open) && Next(s, f, rest) && f.key.Some? == c.isServer
    requires f.opcode == CLOSE && f.final && !f.rsv1 && |f.payload| <= MAX_CONTROL_PAYLOAD
    ensures Resume(c, s, open).messages == []
  {
    hide Advance, Utf8.WellFormed, IsValidReceivedCloseCode, FromBigEndian, Encode, Resume;
    var s' := if open.None? then s.(length := 0) else s;
    var u := CloseRead(c, s', f, rest);
    assert Handle(c, u, CLOSE, f.payload).Failed?;
    EndsOnFailure(c, s, open);
  }

  /** What the Close handler and the application are told of FormatCloseMessage(code, text). */
  function CloseSeenFor(code: nat, text: seq<byte>): Event {
    CloseSeen(code, if code == CLOSE_NO_STATUS then [] else text)
  }

  function CloseFrame(key: Option<Key>, code: int, text: seq<byte>): Frame
    requires |text| <= MAX_CONTROL_PAYLOAD - 2
  {
    FrameFields(true, false, CLOSE, key, FormatCloseMessage(code, text))
  }

  lemma ClosePayloadHandled(c: Config, s: State, code: nat, text: seq<byte>)
    requires Quiet(c)
    requires code == CLOSE_NO_STATUS || (IsValidReceivedCloseCode(code) && Utf8.WellFormed(text))
    ensures var e := CloseSeenFor(code, text);
            Handle(c, s, CLOSE, FormatCloseMessage(code, text))
            == Failed(s.(events := s.events + [e]), CloseReceived(e.code, e.text))
  {
    hide Utf8.WellFormed, IsValidReceivedCloseCode, FormatCloseMessage, FromBigEndian;
    if code == CLOSE_NO_STATUS {
      ClosePayloadLength(code, text);
    } else {
      assert code < 0x1_0000 by { ValidCodesFit(code); }
      ClosePayloadParts(code, text);
    }
  }

  lemma ValidCodesFit(code: nat)
    ensures IsValidReceivedCloseCode(code) ==> code < 0x1_0000 && code != CLOSE_NO_STATUS
  {}

  /** Code and text are read back from the payload of a Close frame. */
  lemma ClosePayloadParts(code: nat, text: seq<byte>)
    requires code < 0x1_0000 && code != CLOSE_NO_STATUS
    ensures var p := FormatCloseMessage(code, text); |p| >= 2 && FromBigEndian(p[..2]) == code && p[2..] == text
  {
    hide BigEndian, FromBigEndian, Power256;
    WidthsOf256();
    BigEndianRoundTrip(code, 2);
    var p := FormatCloseMessage(code, text);
    assert p[..2] == BigEndian(code, 2) && p[2..] == text;
  }

  /** A Close frame that carries FormatCloseMessage(code, text), with a valid code and UTF-8 text, reaches the Close
      handler and the application unchanged, after everything sent before it, and ends the session. */
  lemma CloseDelivered(c: Config, fs: seq<Frame>, key: Option<Key>, code: nat, text: seq<byte>, rest: seq<byte>)
    requires Quiet(c) && FollowAll(c, NOTHING, fs) && NoClose(fs)
    requires key.Some? == c.isServer && |text| <= MAX_CONTROL_PAYLOAD - 2
    requires code == CLOSE_NO_STATUS || (IsValidReceivedCloseCode(code) && Utf8.WellFormed(text))
    ensures Assemble(NOTHING, fs).Assembly?
    ensures var e, o := CloseSeenFor(code, text),
                      Session(c, Start(EncodeAll(fs) + (Encode(CloseFrame(key, code, text)) + rest)));
            && o.messages == Assemble(NOTHING, fs).done
            && o.s.events == EventsOfAll(fs) + [e]
            && o.error == CloseReceived(e.code, e.text)
  {
    hide Encode, Session, Utf8.WellFormed;
    var f := CloseFrame(key, code, text);
    var s := Start(EncodeAll(fs) + (Encode(f) + rest));
    var t := SessionOverFrames(c, s, NOTHING, fs, Encode(f) + rest);
    FollowAllAssembles(c, NOTHING, fs);
    CloseEnds(c, t, Assemble(NOTHING, fs).open, f, code, text, rest);
    assert Resume(c, s, None) == Session(c, s);
  }

  lemma CloseEnds(c: Config, s: State, open: Option<Message>, f: Frame, code: nat, text: seq<byte>, rest: seq<byte>)
    requires Quiet(c) && At(c, s, open) && Next(s, f, rest)
    requires f.key.Some? == c.isServer && |text| <= MAX_CONTROL_PAYLOAD - 2 && f == CloseFrame(f.key, code, text)
    requires code == CLOSE_NO_STATUS || (IsValidReceivedCloseCode(code) && Utf8.WellFormed(text))
    ensures var e, o := CloseSeenFor(code, text), Resume(c, s, open);
            o.messages == [] && o.s.events == s.events + [e] && o.error == CloseReceived(e.code, e.text)
  {
    hide Advance, Handle, Utf8.WellFormed, IsValidReceivedCloseCode, FormatCloseMessage;
    assert |FormatCloseMessage(code, text)| <= MAX_CONTROL_PAYLOAD by { ClosePayloadLength(code, text); }
    var s' := if open.None? then s.(length := 0) else s;
    var u := CloseRead(c, s', f, rest);
    ClosePayloadHandled(c, u, code, text);
    EndsOnFailure(c, s, open);
  }

  lemma ClosePayloadLength(code: int, text: seq<byte>)
    ensures |FormatCloseMessage(code, text)| <= if code == CLOSE_NO_STATUS then 0 else |text| + 2
  {}

  /** A whole Close frame is next: advanceFrame comes to handling its payload. */
  lemma CloseRead(c: Config, s: State, f: Frame, rest: seq<byte>) returns (u: State)
    requires Expected(c, s, f) && f.opcode == CLOSE && Next(s, f, rest)
    ensures u.input == rest && u.events == s.events && u.replies == s.replies
    ensures Advance(c, s) == Handle(c, u, CLOSE, f.payload)
  {
    hide Header, Body, Advance, Unmask, Handle;
    NextHeader(s, f, rest);
    HeaderRead(c, s, f, Body(f) + rest);
    var v := AfterHeader(c, s, f, Body(f) + rest);
    u := v.(remaining := 0, input := rest);
    UnmaskBody(c, v.(remaining := 0), f);
    assert v.input[..|f.payload|] == Body(f) && v.input[|f.payload|..] == rest;
  }

  /** When the next call of advanceFrame fails, the session ends with its error and delivers nothing more. */
  lemma EndsOnFailure(c: Config, s: State, open: Option<Message>)
    requires At(c, s, open)
    ensures var r := Advance(c, if open.None? then s.(length := 0) else s);
            r.Failed? ==> Resume(c, s, open) == Outcome([], r.s, r.error)
  {
    hide Advance;
  }

  // The read limit

  /** Some message of the stream, complete or not, is longer than the limit. */
  ghost predicate SomeOver(limit: int, a: Assembly)
    requires a.Assembly?
  {
    || (exists m :: m in a.done && |m.payload| > limit)
    || (a.open.Some? && |a.open.value.payload| > limit)
  }

  lemma OverStays(limit: int, a: Assembly, f: Frame)
    requires a.Assembly? && AddFrame(a, f).Assembly? && SomeOver(limit, a)
    ensures SomeOver(limit, AddFrame(a, f))
  {
    if m :| m in a.done && |m.payload| > limit {
      assert m in AddFrame(a, f).done;
    } else if !IsControl(f.opcode) {
      var m := MessageWith(a.open, f);
      assert f.final ==> AddFrame(a, f).done[|a.done|] == m;
    }
  }

  lemma {:induction false} OverStaysAll(c: Config, a: Assembly, fs: seq<Frame>)
    requires a.Assembly? && SomeOver(c.limit, a) && FollowAll(c.(limit := MAX_LENGTH), a, fs)
    ensures Assemble(a, fs).Assembly? && SomeOver(c.limit, Assemble(a, fs))
    decreases |fs|
  {
    if fs != [] {
      OverStays(c.limit, a, fs[0]);
      OverStaysAll(c, AddFrame(a, fs[0]), fs[1..]);
    }
  }

  lemma {:induction false} NoneOver(c: Config, a: Assembly, fs: seq<Frame>)
    requires c.limit > 0 && a.Assembly? && !SomeOver(c.limit, a) && FollowAll(c, a, fs)
    ensures Assemble(a, fs).Assembly? && !SomeOver(c.limit, Assemble(a, fs))
    decreases |fs|
  {
    if fs != [] {
      NoneOver(c, AddFrame(a, fs[0]), fs[1..]);
    }
  }

  /** Either the limit never strikes, or it first strikes at frame j. */
  lemma {:induction false} FirstOver(c: Config, a: Assembly, fs: seq<Frame>) returns (j: nat)
    requires c.limit > 0 && a.Assembly? && FollowAll(c.(limit := MAX_LENGTH), a, fs)
    ensures j <= |fs| && FollowAll(c, a, fs[..j])
    ensures Assemble(a, fs[..j]).Assembly?
    ensures j < |fs| ==> Follows(c.(limit := MAX_LENGTH), Assemble(a, fs[..j]), fs[j]) && !IsControl(fs[j].opcode)
                         && OverLimit(c, Assemble(a, fs[..j]).open, fs[j])
    decreases |fs|
  {
    j := 0;
    if fs != [] && (IsControl(fs[0].opcode) || !OverLimit(c, a.open, fs[0])) {
      j := FirstOver(c, AddFrame(a, fs[0]), fs[1..]);
      assert fs[..j + 1][1..] == fs[1..][..j];
      j := j + 1;
    }
  }

  /** The frame that takes a message over the limit ends the session, with a Close frame to the peer. */
  lemma OverEnds(c: Config, s: State, a: Assembly, f: Frame, rest: seq<byte>)
    requires a.Assembly? && At(c, s, a.open) && Follows(c.(limit := MAX_LENGTH), a, f)
    requires !IsControl(f.opcode) && OverLimit(c, a.open, f) && Next(s, f, rest)
    ensures EndsWith(c, s, a.open, ReadLimit)
    ensures Resume(c, s, a.open).s.replies == s.replies + [CLOSE_MESSAGE_TOO_BIG]
  {
    hide Header, Body, Advance;
    var s' := if a.open.None? then s.(length := 0) else s;
    assert Next(s', f, rest);
    NextHeader(s', f, rest);
    LengthAt(c, s, a, f);
    HeaderRead(c, s', f, Body(f) + rest);
  }

  /** Over any fragmentation of messages under 2^63 bytes, a session ends with ErrReadLimit exactly when some message
      of the stream is longer than the limit; the messages before that one have been delivered, none of them over the
      limit. */
  lemma ReadLimitExact(c: Config, fs: seq<Frame>)
    requires Quiet(c) && c.limit > 0 && FollowAll(c.(limit := MAX_LENGTH), NOTHING, fs) && NoClose(fs)
    ensures Assemble(NOTHING, fs).Assembly?
    ensures var b, o := Assemble(NOTHING, fs), Session(c, Start(EncodeAll(fs)));
            && (forall m :: m in o.messages ==> |m.payload| <= c.limit)
            && o.messages <= b.done
            && if SomeOver(c.limit, b) then o.error == ReadLimit && o.s.replies == [CLOSE_MESSAGE_TOO_BIG]
               else o.error == Short(c) && o.messages == b.done && o.s.replies == []
  {
    hide Encode, Session;
    var j := FirstOver(c, NOTHING, fs);
    var whole, more := fs[..j], fs[j..];
    var a, s := Assemble(NOTHING, whole), Start(EncodeAll(fs));
    assert fs == whole + more;
    EncodeAllConcat(whole, more);
    FollowAllSplit(c.(limit := MAX_LENGTH), NOTHING, fs, j);
    FollowAllAssembles(c.(limit := MAX_LENGTH), a, more);
    NoneOver(c, NOTHING, whole);
    var t := SessionOverFrames(c, s, NOTHING, whole, EncodeAll(more));
    assert Resume(c, s, None) == Session(c, s);
    if j == |fs| {
      assert whole == fs && more == [];
      StreamEnds(c, t, a, EmptyPing(c), []);
      NoReplies(c, t, a.open);
    } else {
      assert more[0] == fs[j];
      OverEnds(c, t, a, fs[j], EncodeAll(more[1..]));
      OverNow(c, a, fs[j]);
      OverStaysAll(c, AddFrame(a, fs[j]), more[1..]);
    }
  }

  lemma NoReplies(c: Config, s: State, open: Option<Message>)
    requires At(c, s, open) && s.input == []
    ensures Resume(c, s, open).s.replies == s.replies
  {}

  lemma OverNow(c: Config, a: Assembly, f: Frame)
    requires Follows(c.(limit := MAX_LENGTH), a, f) && !IsControl(f.opcode) && OverLimit(c, a.open, f)
    ensures SomeOver(c.limit, AddFrame(a, f))
  {
    var m := MessageWith(a.open, f);
    assert f.final ==> AddFrame(a, f).done[|a.done|] == m;
  }

  // Any input whatever

  ghost predicate Foreign(e: ReadError) {
    e != UnexpectedMessageInReader
  }

  /** The transport and the handlers do not themselves produce the error that Read keeps for a data frame inside
      a message. */
  ghost predicate Tame(c: Config) {
    Foreign(c.tail) && forall e :: c.handler(e).Some? ==> Foreign(c.handler(e).value)
  }

  /** The result r of a stage of advanceFrame that treats a frame of the given type in the state s. */
  ghost predicate Stage(c: Config, s: State, frameType: nat, r: Step) {
    match r
    case Failed(_, e) => Tame(c) ==> Foreign(e)
    case Got(t, k) =>
      && k == frameType && t.final == s.final
      && if IsControl(k) then t.remaining == 0 && t.length == s.length else c.limit > 0 ==> t.length <= c.limit
  }

  lemma TakePayloadStage(c: Config, s: State, frameType: nat)
    requires IsControl(frameType) ==> 0 <= s.remaining <= MAX_CONTROL_PAYLOAD
    ensures Stage(c, s, frameType, TakePayload(c, s, frameType))
  {
    hide Int64, FromBigEndian, Unmask, Utf8.WellFormed, IsValidReceivedCloseCode;
  }

  lemma ReadMaskStage(c: Config, s: State, frameType: nat, masked: bool)
    requires IsControl(frameType) ==> 0 <= s.remaining <= MAX_CONTROL_PAYLOAD
    ensures Stage(c, s, frameType, ReadMask(c, s, frameType, masked))
  {
    hide TakePayload;
    TakePayloadStage(c, s, frameType);
    if masked && |s.input| >= 4 {
      TakePayloadStage(c, s.(input := s.input[4..], pos := 0, key := s.input[..4]), frameType);
    }
  }

  lemma ReadLengthStage(c: Config, s: State, frameType: nat, masked: bool)
    requires IsControl(frameType) ==> 0 <= s.remaining <= MAX_CONTROL_PAYLOAD
    ensures Stage(c, s, frameType, ReadLength(c, s, frameType, masked))
  {
    hide ReadMask, Int64, FromBigEndian;
    var k := if s.remaining == 126 then 2 else if s.remaining == 127 then 8 else 0;
    if k == 0 {
      ReadMaskStage(c, s, frameType, masked);
    } else if |s.input| >= k {
      ReadMaskStage(c, s.(remaining := Int64(FromBigEndian(s.input[..k])), input := s.input[k..]), frameType, masked);
    }
  }

  /** What advanceFrame promises whatever the input: only frames in the order of section 5.4 of RFC 6455 pass, none
      takes a message over the limit, and a failure is never the internal error of Read. */
  ghost predicate InOrder(c: Config, s: State, final: bool, r: Step) {
    match r
    case Failed(_, e) => Tame(c) ==> Foreign(e)
    case Got(t, k) =>
      || (IsControl(k) && final && t.final == s.final && t.remaining == 0 && t.length == s.length)
      || ((if s.final then IsData(k) else k == CONTINUATION)
          && t.final == final && (c.limit > 0 ==> t.length <= c.limit))
  }

  /** Where the next frame begins. */
  function FrameInput(s: State): seq<byte> {
    if 0 < s.remaining <= |s.input| then s.input[s.remaining..] else s.input
  }

  /** The FIN bit of the next frame. */
  predicate NextFinal(s: State) {
    FrameInput(s) != [] && HasBit(FrameInput(s)[0], FINAL_BIT)
  }

  lemma CheckOrderInOrder(c: Config, s: State, final: bool, frameType: nat, masked: bool)
    requires frameType < 16 && 0 <= s.remaining
    ensures InOrder(c, s, final, CheckOrder(c, s, final, frameType, masked))
  {
    hide ReadLength, Decimal;
    if IsControl(frameType) {
      if s.remaining <= MAX_CONTROL_PAYLOAD {
        ReadLengthStage(c, s, frameType, masked);
      }
    } else {
      ReadLengthStage(c, s.(final := final), frameType, masked);
    }
  }

  lemma AdvanceInOrder(c: Config, s: State)
    ensures InOrder(c, s, NextFinal(s), Advance(c, s))
  {
    hide CheckOrder, HasBit, Opcode, Length7, ReservedHex;
    var s' := s.(input := FrameInput(s));
    if |s'.input| >= 2 {
      var b0, b1 := s'.input[0], s'.input[1];
      CheckOrderInOrder(c, s'.(input := s'.input[2..], remaining := Length7(b1),
                               decompress := c.inflate && HasBit(b0, RSV1_BIT)),
                        HasBit(b0, FINAL_BIT), Opcode(b0), HasBit(b1, MASK_BIT));
    }
  }

  /** Over any input, Read never meets the frame type that it calls an internal error. */
  lemma {:induction false} NoInternalError(c: Config, s: State)
    requires Tame(c)
    ensures Drain(c, s).end.Broken? ==> Foreign(Drain(c, s).end.error)
    decreases |s.input|
  {
    hide Advance;
    if s.remaining > 0 {
      if s.input != [] {
        NoInternalError(c, Consume(c, s, if s.remaining < |s.input| then s.remaining else |s.input|));
      }
    } else if !s.final {
      AdvanceInOrder(c, s);
      if Advance(c, s).Got? {
        NoInternalError(c, Advance(c, s).s);
      }
    }
  }
}
