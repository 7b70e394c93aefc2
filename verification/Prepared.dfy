/** A message that is prepared once and sent to many connections (prepared.go): the cache of its wire representations.
    */
module Prepared {
  import opened Masking
  import opened Frames
  import opened Reader
  import Reading
  import Utf8
  import RoundTrip
  import Skimming
  import Truncation
  import opened WriteConn

  datatype PrepareKey = PrepareKey(isServer: bool, compress: bool, compressionLevel: int)

  const PLAIN_SERVER := PrepareKey(true, false, 0)

  /** What a compressor produces for a message of one call: on Write and on Close. */
  datatype Output = Output(write: seq<seq<byte>>, flush: seq<seq<byte>>)
  {
    function Stream(): seq<byte> {
      Truncation.FlateStream([write], flush)
    }
  }

  /** The compressors of all levels. They may produce anything, piece by piece. */
  type Deflater = (int, seq<byte>) -> Output

  ghost predicate Fits(deflate: Deflater) {
    forall level, data :: Truncation.AllFit([deflate(level, data).write], deflate(level, data).flush)
  }

  /** The frames carry this one message and nothing else. */
  ghost predicate Carries(fs: seq<Frame>, isServer: bool, m: Message) {
    && FromPeer(fs, isServer) && (!m.compressed ==> Unflagged(fs))
    && (m.kind != CLOSE ==> NoClose(fs))
    && Assemble(NOTHING, fs) == if IsData(m.kind) then Assembly([m], None, [])
                                else Assembly([], None, [Control(m.kind, m.payload)])
  }

  predicate Compresses(key: PrepareKey, messageType: int) {
    key.compress && IsData(messageType)
  }

  /** Messages that there are frames for. */
  predicate Preparable(key: PrepareKey, messageType: int, payload: seq<byte>, deflate: Deflater) {
    if Compresses(key, messageType) then Truncation.EndsFlushed(deflate(key.compressionLevel, payload).Stream())
    else IsData(messageType) || (IsControl(messageType) && |payload| <= MAX_CONTROL_PAYLOAD)
  }

  /** The message as it is sent. */
  ghost function Represented(key: PrepareKey, messageType: int, payload: seq<byte>, deflate: Deflater): Message
    requires Preparable(key, messageType, payload, deflate)
  {
    if Compresses(key, messageType) then
      Message(messageType, true, Truncation.Truncated(deflate(key.compressionLevel, payload).Stream()))
    else
      Message(messageType, false, payload)
  }

  predicate EndsWith(s: seq<byte>, tail: seq<byte>) {
    |tail| <= |s| && s[|s| - |tail|..] == tail
  }

  /** Write the message to a new connection that nothing disturbs. */
  method WriteOnce(c: Conn, key: PrepareKey, messageType: int, data: seq<byte>, deflate: Deflater)
    returns (err: Option<Truncation.FlateError>)
    requires c.Ready() && c.open == null && c.frames == [] && c.writeErr == None && c.undisturbed
    requires c.writePool == null && c.isServer == key.isServer && c.compression == key.compress
    requires c.Room() >= MAX_CONTROL_PAYLOAD && |data| < MAX_SLICE && Fits(deflate)
    modifies c, c.Buffers()
    ensures err == None <==> Preparable(key, messageType, data, deflate)
    ensures err == None ==>
              c.wire == EncodeAll(c.frames)
              && Carries(c.frames, key.isServer, Represented(key, messageType, data, deflate))
              && (c.isServer && !c.compression ==> c.frames != [] && c.frames[|c.frames| - 1].payload == data)
  {
    hide Assemble, EncodeAll, LateMessages, Progress;
    assert c.Stream() == NOTHING by { RoundTrip.NothingYet(); }
    if Compresses(key, messageType) {
      var out := deflate(key.compressionLevel, data);
      err := Truncation.SendCompressed(c, messageType, [out.write], out.flush);
    } else {
      var e := c.WriteMessage(messageType, data);
      err := Truncation.Passed(e);
      if e == None && IsControl(messageType) {
        OnlyControls(NOTHING, c.frames);
      }
    }
    assert EncodeAll(c.frames) + [] == EncodeAll(c.frames);
  }

  /** The connection in memory: the bytes on its wire. A server's end with the payload, unless that is compressed. */
  method WriteToFake(key: PrepareKey, messageType: int, data: seq<byte>, deflate: Deflater,
                     wordSize: nat, bigEndian: bool)
    returns (buf: array<byte>, err: Option<Truncation.FlateError>, ghost fs: seq<Frame>)
    requires |data| < MAX_SLICE && (wordSize == 4 || wordSize == 8) && Fits(deflate)
    ensures fresh(buf)
    ensures err == None <==> Preparable(key, messageType, data, deflate)
    ensures err == None ==>
              buf[..] == EncodeAll(fs) && Carries(fs, key.isServer, Represented(key, messageType, data, deflate))
    ensures err == None && key.isServer && !key.compress ==> EndsWith(buf[..], data)
  {
    hide Preparable, Represented, Assemble, EncodeAll, EndsWith, Fits;
    var c := new Conn(key.isServer, key.compress, 0, null, null, wordSize, bigEndian, true);
    err := WriteOnce(c, key, messageType, data, deflate);
    fs := c.frames;
    var wire := c.wire;
    buf := new byte[|wire|](i requires 0 <= i < |wire| => wire[i]);
    assert buf[..] == wire;
    if err == None && key.isServer && !key.compress {
      LastPayload(fs);
    }
  }

  lemma UnmaskedEnds(f: Frame)
    requires f.key.None?
    ensures EndsWith(Encode(f), f.payload)
  {
    hide Header;
    assert Encode(f) == Header(f) + f.payload;
  }

  lemma ConcatEnds(a: seq<byte>, b: seq<byte>, tail: seq<byte>)
    requires EndsWith(b, tail)
    ensures EndsWith(a + b, tail)
  {}

  lemma LastPayload(fs: seq<Frame>)
    requires fs != [] && fs[|fs| - 1].key.None?
    ensures EndsWith(EncodeAll(fs), fs[|fs| - 1].payload)
  {
    hide Encode, EndsWith;
    var f := fs[|fs| - 1];
    EncodeAllConcat(fs[..|fs| - 1], [f]);
    EncodeOne(f);
    assert fs == fs[..|fs| - 1] + [f];
    UnmaskedEnds(f);
    ConcatEnds(EncodeAll(fs[..|fs| - 1]), Encode(f), f.payload);
  }

  class PreparedFrame {
    var done: bool
    var data: array<byte>
    ghost var frames: seq<Frame>

    constructor (nothing: array<byte>)
      ensures !done && data == nothing
    {
      done, data := false, nothing;
    }

    /** The bytes carry the message. */
    ghost predicate Holds(isServer: bool, m: Message)
      reads this, data
    {
      data[..] == EncodeAll(frames) && Carries(frames, isServer, m)
    }

    /** What once.Do does at first. */
    method Prepare(key: PrepareKey, messageType: int, payload: seq<byte>, deflate: Deflater,
                   wordSize: nat, bigEndian: bool)
      returns (err: Option<Truncation.FlateError>)
      requires |payload| < MAX_SLICE && (wordSize == 4 || wordSize == 8) && Fits(deflate)
      modifies this
      ensures done && fresh(data) && (err == None <==> Preparable(key, messageType, payload, deflate))
      ensures err == None ==>
                && Holds(key.isServer, Represented(key, messageType, payload, deflate))
                && (key.isServer && !key.compress ==> EndsWith(data[..], payload))
    {
      hide Carries, EncodeAll;
      done := true;
      ghost var fs;
      data, err, fs := WriteToFake(key, messageType, payload, deflate, wordSize, bigEndian);
      frames := fs;
    }
  }

  class PreparedMessage {
    const messageType: int
    const wordSize: nat
    const bigEndian: bool
    const deflate: Deflater

    // The slice data[from..to].
    var data: array<byte>
    var from: nat
    var to: nat
    var frames: map<PrepareKey, PreparedFrame>
    ghost const payload: seq<byte>

    // The memory that the message depends on.
    ghost var repr: set<object>

    ghost predicate Valid()
      reads this, repr
    {
      && this in repr && data in repr
      && (wordSize == 4 || wordSize == 8) && Fits(deflate)
      && from <= to <= data.Length && data[from..to] == payload && |payload| < MAX_SLICE
      && forall key :: key in frames ==> frames[key] in repr && frames[key].data in repr && Entry(key, frames[key])
    }

    /** An entry of the cache, which carries the message if there are frames for it. */
    ghost predicate Entry(key: PrepareKey, frame: PreparedFrame)
      reads frame, frame.data
    {
      frame.done && (IsPreparable(key) ==> frame.Holds(key.isServer, RepresentedFor(key)))
    }

    ghost predicate IsPreparable(key: PrepareKey) {
      Preparable(key, messageType, payload, deflate)
    }

    ghost function RepresentedFor(key: PrepareKey): Message
      requires IsPreparable(key)
    {
      Represented(key, messageType, payload, deflate)
    }

    constructor (messageType: int, data: array<byte>, from: nat, to: nat, deflate: Deflater,
                 wordSize: nat, bigEndian: bool)
      requires from <= to <= data.Length && to - from < MAX_SLICE && (wordSize == 4 || wordSize == 8) && Fits(deflate)
      ensures Valid() && frames == map[]
      ensures this.messageType == messageType && this.deflate == deflate && payload == data[from..to]
      ensures repr == {this, data}
    {
      this.messageType, this.deflate, this.wordSize, this.bigEndian := messageType, deflate, wordSize, bigEndian;
      this.data, this.from, this.to, frames := data, from, to, map[];
      payload := data[from..to];
      repr := {this, data};
    }

    lemma EntryCarries(key: PrepareKey)
      requires Valid() && key in frames && IsPreparable(key)
      ensures var frame := frames[key];
              frame.data[..] == EncodeAll(frame.frames) && Carries(frame.frames, key.isServer, RepresentedFor(key))
    {
      hide Carries, EncodeAll, Preparable, Represented;
    }

    /** The first call for a key has put this entry into the cache; the others are as they were. */
    twostate predicate Added(key: PrepareKey, new frame: PreparedFrame)
      reads this, frame
    {
      && frames == old(frames)[key := frame] && data == old(data) && from == old(from) && to == old(to)
      && repr == old(repr) + {frame, frame.data}
    }

    /** frame. The bytes are written by the first call for a key, and that call alone reports an error. */
    method FrameFor(key: PrepareKey) returns (bytes: array<byte>, err: Option<Truncation.FlateError>)
      requires Valid()
      modifies this
      ensures Valid() && key in frames && bytes == frames[key].data
      ensures err == None <==> key in old(frames) || IsPreparable(key)
      ensures if key in old(frames) then unchanged(this)
              else fresh(frames[key]) && fresh(bytes) && Added(key, frames[key])
                   && (key.isServer && !key.compress && err == None ==> EndsWith(bytes[..], payload))
    {
      hide PreparedFrame.Holds, Preparable, Represented, EndsWith, Fits;
      err := None;
      if key !in frames {
        var nothing := new byte[0];
        var entry := new PreparedFrame(nothing);
        frames := frames[key := entry];
      }
      var frame := frames[key];
      if !frame.done {
        err := frame.Prepare(key, messageType, data[from..to], deflate, wordSize, bigEndian);
        repr := repr + {frame, frame.data};
      }
      bytes := frame.data;
    }
  }

  /** NewPreparedMessage. Only the message's own memory matters to it afterwards. */
  method NewPreparedMessage(messageType: int, data: array<byte>, from: nat, to: nat, deflate: Deflater,
                            wordSize: nat, bigEndian: bool)
    returns (pm: PreparedMessage?, err: Option<Truncation.FlateError>)
    requires from <= to <= data.Length && to - from < MAX_SLICE && (wordSize == 4 || wordSize == 8) && Fits(deflate)
    ensures pm != null <==> err == None
    ensures err == None <==> Preparable(PLAIN_SERVER, messageType, data[from..to], deflate)
    ensures pm != null ==>
              && pm.Valid() && fresh(pm.repr) && pm.messageType == messageType && pm.deflate == deflate
              && pm.payload == data[from..to]
  {
    hide PreparedFrame.Holds, Preparable, Represented, Fits;
    pm := new PreparedMessage(messageType, data, from, to, deflate, wordSize, bigEndian);
    var bytes;
    bytes, err := pm.FrameFor(PLAIN_SERVER);
    if err.Some? {
      return null, err;
    }
    pm.data, pm.from, pm.to := bytes, bytes.Length - (to - from), bytes.Length;
    pm.repr := {pm, bytes, pm.frames[PLAIN_SERVER]};
    assert pm.frames.Keys == {PLAIN_SERVER};
  }

  /** Frames in any order, while the caller writes what it likes into its own array: the bytes for each key carry the
      message as it was at first, compressed or not, if there are such bytes, and calls for the same key get the same
      bytes. */
  method PrepareAndFrame(messageType: int, data: array<byte>, keys: seq<PrepareKey>, deflate: Deflater,
                         wordSize: nat, bigEndian: bool)
    returns (results: seq<array<byte>>, ghost fs: seq<seq<Frame>>)
    requires data.Length < MAX_SLICE && (wordSize == 4 || wordSize == 8) && Fits(deflate)
    requires Preparable(PLAIN_SERVER, messageType, data[..], deflate)
    modifies data
    ensures |results| == |fs| == |keys|
    ensures forall i :: 0 <= i < |keys| && Preparable(keys[i], messageType, old(data[..]), deflate) ==>
              && results[i][..] == EncodeAll(fs[i])
              && Carries(fs[i], keys[i].isServer, Represented(keys[i], messageType, old(data[..]), deflate))
    ensures forall i, j :: 0 <= i < j < |keys| && keys[i] == keys[j] ==> results[i] == results[j]
  {
    hide PreparedFrame.Holds, Carries, EncodeAll, Preparable, Represented, Fits;
    assert data[0..data.Length] == data[..];
    var pm, err := NewPreparedMessage(messageType, data, 0, data.Length, deflate, wordSize, bigEndian);
    results, fs := [], [];
    while |results| < |keys|
      invariant |results| == |fs| <= |keys|
      invariant fresh(pm.repr) && pm.Valid() && pm.messageType == messageType && pm.deflate == deflate
      invariant pm.payload == old(data[..])
      invariant forall i :: 0 <= i < |results| ==>
                  keys[i] in pm.frames && results[i] == pm.frames[keys[i]].data && fs[i] == pm.frames[keys[i]].frames
    {
      var key := keys[|results|];
      Overwrite(data);
      var bytes;
      bytes, err := pm.FrameFor(key);
      results, fs := results + [bytes], fs + [pm.frames[key].frames];
    }
    forall i | 0 <= i < |keys| && Preparable(keys[i], messageType, pm.payload, deflate)
      ensures results[i][..] == EncodeAll(fs[i])
      ensures Carries(fs[i], keys[i].isServer, Represented(keys[i], messageType, pm.payload, deflate))
    {
      pm.EntryCarries(keys[i]);
    }
  }

  /** Any bytes. */
  method Overwrite(data: array<byte>)
    modifies data
  {
    var i := 0;
    while i < data.Length {
      data[i] := *;
      i := i + 1;
    }
  }

  /** A peer that reads the bytes gets the message: a data message from its reader, a ping or pong in its handler. */
  lemma CarriedArrives(c: Config, fs: seq<Frame>, m: Message)
    requires Carries(fs, !c.isServer, m) && m.kind != CLOSE && (m.compressed ==> c.inflate)
    requires Reading.Quiet(c) && c.limit <= 0 && c.tail == EndOfFile
    ensures var o := Session(c, Start(EncodeAll(fs)));
            && o.messages == (if IsData(m.kind) then [m] else [])
            && o.s.events == (if m.kind == PING then [PingSeen(m.payload)]
                              else if m.kind == PONG then [PongSeen(m.payload)] else [])
  {
    hide Session, EncodeAll, Assemble;
    RoundTrip.StreamArrives(c, fs);
    Reading.EventsAreControls(NOTHING, fs);
    var controls := Assemble(NOTHING, fs).controls;
    assert controls[0..] == controls;
    assert controls != [] ==> controls[1..] == [];
  }

  /** A stream that completes no message and leaves none open has control frames only. */
  lemma {:induction false} OnlyControls(a: Assembly, fs: seq<Frame>)
    requires a.Assembly? && a.open.None? && Assemble(a, fs).Assembly?
    requires Assemble(a, fs).done == a.done && Assemble(a, fs).open.None?
    ensures |Assemble(a, fs).controls| == |a.controls| + |fs| && a.controls <= Assemble(a, fs).controls
    ensures Unflagged(fs)
    ensures fs != [] ==> IsControl(fs[0].opcode)
                         && Assemble(a, fs).controls[|a.controls|] == Control(fs[0].opcode, fs[0].payload)
    decreases |fs|
  {
    if fs != [] {
      var b := AddFrame(a, fs[0]);
      if b.Malformed? {
        MalformedStays(fs[1..]);
      }
      assert Assemble(a, fs) == Assemble(b, fs[1..]);
      Skimming.DoneStays(b, fs[1..]);
      if b.open.Some? {
        Skimming.CurrentMessage(b, fs[1..]);
      }
      OnlyControls(b, fs[1..]);
    }
  }

  /** A prepared Close message ends the peer's session and delivers nothing; a payload of FormatCloseMessage with a
      valid code and UTF-8 text reaches its Close handler. */
  lemma CarriedCloseArrives(c: Config, fs: seq<Frame>, payload: seq<byte>, code: nat, text: seq<byte>)
    requires Carries(fs, !c.isServer, Message(CLOSE, false, payload)) && Reading.Quiet(c) && c.limit <= 0
    ensures Session(c, Start(EncodeAll(fs))).messages == []
    ensures payload == FormatCloseMessage(code, text) && |text| <= MAX_CONTROL_PAYLOAD - 2
            && (code == CLOSE_NO_STATUS || (IsValidReceivedCloseCode(code) && Utf8.WellFormed(text))) ==>
              var o, e := Session(c, Start(EncodeAll(fs))), Reading.CloseSeenFor(code, text);
              o.s.events == [e] && o.error == CloseReceived(e.code, e.text)
  {
    hide Session, Encode, EncodeAll, Utf8.WellFormed, FormatCloseMessage, IsValidReceivedCloseCode,
         Reading.CloseSeenFor;
    OnlyControls(NOTHING, fs);
    var f := fs[0];
    assert fs == [f] && [] + [f] == [f];
    EncodeOne(f);
    NoFrames();
    assert [] + Encode(f) == Encode(f) && Encode(f) + [] == Encode(f);
    AssembleOne(NOTHING, f);
    Reading.BrokenStream(c, [], f, Encode(f));
    if |text| <= MAX_CONTROL_PAYLOAD - 2 && payload == FormatCloseMessage(code, text)
       && (code == CLOSE_NO_STATUS || (IsValidReceivedCloseCode(code) && Utf8.WellFormed(text))) {
      assert f == Reading.CloseFrame(f.key, code, text);
      Reading.CloseDelivered(c, [], f.key, code, text, []);
      assert [] + [Reading.CloseSeenFor(code, text)] == [Reading.CloseSeenFor(code, text)];
    }
  }

  lemma NoFrames()
    ensures EncodeAll([]) == [] && Reading.EventsOfAll([]) == [] && Assemble(NOTHING, []) == NOTHING
  {}
}
