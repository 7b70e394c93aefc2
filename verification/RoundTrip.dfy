/** A writing connection and a reading connection of the opposite role, back to back. */
module RoundTrip {
  import opened Masking
  import opened Frames
  import opened Reader
  import Reading
  import ReadConn
  import WriteConn
  import Truncation

  // Every stream that the writer's invariant allows is one that the reader takes.

  /** The stream has RSV1 only where the reader expects compression. */
  ghost predicate Acceptable(c: Config, fs: seq<Frame>) {
    forall f :: f in fs ==> f.rsv1 ==> c.inflate
  }

  lemma {:induction false} FramesFollow(c: Config, a: Assembly, fs: seq<Frame>)
    requires a.Assembly? && Assemble(a, fs).Assembly?
    requires c.limit <= 0 && FromPeer(fs, !c.isServer) && Acceptable(c, fs)
    ensures Reading.FollowAll(c, a, fs)
    decreases |fs|
  {
    if fs != [] {
      var b := AddFrame(a, fs[0]);
      if b.Malformed? {
        MalformedStays(fs[1..]);
      }
      assert Assemble(a, fs) == Assemble(b, fs[1..]);
      FramesFollow(c, b, fs[1..]);
    }
  }

  /** The stream of a live writing connection, read by the peer. */
  lemma StreamArrives(c: Config, fs: seq<Frame>)
    requires Reading.Quiet(c) && c.limit <= 0 && c.tail == EndOfFile
    requires FromPeer(fs, !c.isServer) && NoClose(fs) && Acceptable(c, fs) && Assemble(NOTHING, fs).Assembly?
    ensures var o := Session(c, Start(EncodeAll(fs)));
            && o.messages == Assemble(NOTHING, fs).done && o.s.events == Reading.EventsOfAll(fs)
            && o.error == UnexpectedEOF
  {
    FramesFollow(c, NOTHING, fs);
    var k := |EncodeAll(fs)|;
    assert EncodeAll(fs)[..k] == EncodeAll(fs);
    var j := Reading.CutStream(c, fs, k);
    if j < |fs| {
      assert false by { Reading.WholeStream(fs, j); }
    }
    assert fs[..|fs|] == fs;
  }

  /** A stream that ends with a frame whose write failed, or with a Close frame: the peer gets the messages that are
      complete on the wire. */
  lemma BrokenStreamArrives(c: Config, fs: seq<Frame>, f: Frame, part: seq<byte>)
    requires Reading.Quiet(c) && c.limit <= 0
    requires FromPeer(fs, !c.isServer) && NoClose(fs) && Acceptable(c, fs) && Assemble(NOTHING, fs).Assembly?
    requires WriteConn.BrokenOff(fs, !c.isServer, f, part) && (f.rsv1 ==> c.inflate)
    ensures var a := Assemble(NOTHING, fs);
            Session(c, Start(EncodeAll(fs) + part)).messages == a.done + WriteConn.LateMessages(a, Some(f), part)
  {
    hide Session, Encode, EncodeAll, Assemble;
    var a := Assemble(NOTHING, fs);
    FramesFollow(c, NOTHING, fs);
    WriteConn.FrameContinues(a, f);
    Reading.BrokenStream(c, fs, f, part);
    var b := AddFrame(a, f);
    assert a.done <= b.done;
    assert a.done + b.done[|a.done|..] == b.done && a.done + [] == a.done;
  }

  /** At any time, after failures too: the peer that reads what is on the wire gets exactly the messages that the
      writing connection counts as complete, and after them at most one whose last frame has gone out whole although its
      write failed. */
  lemma WireArrives(c: Config, w: WriteConn.Conn)
    requires Reading.Quiet(c) && c.limit <= 0 && c.tail == EndOfFile
    requires w.WireOk() && w.Stream().Assembly? && w.isServer == !c.isServer && (w.compression ==> c.inflate)
    ensures Session(c, Start(w.wire)).messages == w.Stream().done + w.Late()
  {
    hide Session, Encode, EncodeAll, Assemble, WriteConn.BrokenOff;
    var fs := w.frames;
    if w.writeErr == Some(WriteConn.NetworkFailed) {
      BrokenStreamArrives(c, fs, w.broken.value, w.partial);
    } else {
      WriteConn.NothingLate(w.Stream(), w.partial);
      assert w.Stream().done + [] == w.Stream().done && EncodeAll(fs) + [] == EncodeAll(fs);
      if w.writeErr == None {
        StreamArrives(c, fs);
      } else {
        ClosedStreamArrives(c, fs);
      }
    }
  }

  lemma ClosedStreamArrives(c: Config, fs: seq<Frame>)
    requires Reading.Quiet(c) && c.limit <= 0
    requires FromPeer(fs, !c.isServer) && WriteConn.ClosedLast(fs) && Acceptable(c, fs)
             && Assemble(NOTHING, fs).Assembly?
    ensures Session(c, Start(EncodeAll(fs))).messages == Assemble(NOTHING, fs).done
  {
    hide Session, Encode, EncodeAll, Assemble;
    var before, f := fs[..|fs| - 1], fs[|fs| - 1];
    assert fs == before + [f];
    AssembleConcat(NOTHING, before, [f]);
    WriteConn.AssembleOne(Assemble(NOTHING, before), f);
    WriteConn.OneMore(before, f);
    assert AddFrame(Assemble(NOTHING, before), f).Assembly?;
    FramesFollow(c, NOTHING, before);
    Reading.BrokenStream(c, before, f, Encode(f));
  }

  // The two connections at work

  /** How an application passes a part of a message to its writer. */
  datatype Piece =
    | ByWrite(bytes: seq<byte>)
    | ByWriteString(bytes: seq<byte>)
    | ByReadFrom(bytes: seq<byte>)

  function Joined(ps: seq<Piece>): seq<byte> {
    if ps == [] then [] else ps[0].bytes + Joined(ps[1..])
  }

  /** How an application sends a message. With compression, the calls of Write and Close come with what the compressor
      has produced on each. */
  datatype Outgoing =
    | Whole(kind: int, data: seq<byte>)
    | InPieces(kind: int, pieces: seq<Piece>)
    | Compressed(kind: int, writes: seq<seq<seq<byte>>>, flush: seq<seq<byte>>)
  {
    function Payload(): seq<byte> {
      if Whole? then data
      else if InPieces? then Joined(pieces)
      else if Endable() then Truncation.Truncated(Truncation.FlateStream(writes, flush))
      else []
    }

    ghost function AsMessage(): Message {
      Message(kind, Compressed?, Payload())
    }

    /** The compressor, if there is one, has ended its stream as it should. */
    predicate Endable() {
      Compressed? ==> Truncation.EndsFlushed(Truncation.FlateStream(writes, flush))
    }
  }

  lemma {:induction false} JoinedSnoc(ps: seq<Piece>, p: Piece)
    ensures Joined(ps + [p]) == Joined(ps) + p.bytes
  {
    if ps == [] {
      assert Joined([p]) == p.bytes + Joined([]);
    } else {
      assert (ps + [p])[1..] == ps[1..] + [p];
      JoinedSnoc(ps[1..], p);
    }
  }

  /** The application may ask for it: a data message of which each part fits in memory, compressed if the connection
      has compression. */
  predicate Sendable(m: Outgoing, compression: bool) {
    && IsData(m.kind)
    && (m.Compressed? <==> compression)
    && (m.Whole? ==> |m.data| < WriteConn.MAX_SLICE)
    && (m.InPieces? ==> forall p :: p in m.pieces ==> |p.bytes| < WriteConn.MAX_SLICE)
    && (m.Compressed? ==> Truncation.AllFit(m.writes, m.flush))
  }

  ghost function SentMessages(ms: seq<Outgoing>): seq<Message> {
    seq(|ms|, i requires 0 <= i < |ms| => ms[i].AsMessage())
  }

  /** Pass one piece to the open writer. */
  method SendPiece(w: WriteConn.MessageWriter, p: Piece) returns (ok: bool)
    requires w.c.Ready() && w.err == None && w.c.open == w && |p.bytes| < WriteConn.MAX_SLICE
    modifies w, w.c, w.c.writeBuf, w.c.writePool
    ensures w.c.Ready() && fresh(w.c.Buffers() - old(w.c.Buffers()))
    ensures ok ==> w.err == None && w.Kept() && w.Accepted() == old(w.Accepted()) + p.bytes
    ensures !ok ==> w.c.Stream().Assembly? && w.c.Stream().done == old(w.c.Stream().done)
    ensures old(w.c.Late()) == [] ==> w.c.Late() == []
    ensures w.c.undisturbed && old(w.c.writeErr).None? && IsData(w.kind) ==> ok
  {
    hide Assemble, EncodeAll, WriteConn.LateMessages, WriteConn.Conn.WireOk, WriteConn.Progress;
    if p.ByWrite? {
      var _, e := w.Write(p.bytes);
      return e.None?;
    }
    if p.ByWriteString? {
      var _, e := w.WriteString(p.bytes);
      return e.None?;
    }
    var idle: nat := *;
    var r := new WriteConn.Source(p.bytes, true, idle);
    var _, e := w.ReadFrom(r);
    return e.None?;
  }

  /** Pass the pieces of a message to the open writer. */
  method SendPieces(w: WriteConn.MessageWriter, pieces: seq<Piece>) returns (ok: bool)
    requires w.c.Ready() && w.err == None && w.c.open == w
    requires forall p :: p in pieces ==> |p.bytes| < WriteConn.MAX_SLICE
    modifies w, w.c, w.c.writeBuf, w.c.writePool
    ensures w.c.Ready() && fresh(w.c.Buffers() - old(w.c.Buffers()))
    ensures ok ==> w.err == None && w.Kept() && w.Accepted() == old(w.Accepted()) + Joined(pieces)
    ensures !ok ==> w.c.Stream().Assembly? && w.c.Stream().done == old(w.c.Stream().done)
    ensures old(w.c.Late()) == [] ==> w.c.Late() == []
    ensures w.c.undisturbed && old(w.c.writeErr).None? && IsData(w.kind) ==> ok
  {
    hide Assemble, EncodeAll, WriteConn.LateMessages, WriteConn.Conn.WireOk, WriteConn.Progress;
    var i := 0;
    assert w.Accepted() + Joined([]) == w.Accepted();
    while i < |pieces|
      invariant i <= |pieces| && w.c.Ready() && w.err == None && w.Kept()
      invariant w.Accepted() == old(w.Accepted()) + Joined(pieces[..i])
      invariant old(w.c.Late()) == [] ==> w.c.Late() == []
    {
      ok := SendPiece(w, pieces[i]);
      if !ok {
        return;
      }
      assert pieces[..i + 1] == pieces[..i] + [pieces[i]];
      JoinedSnoc(pieces[..i], pieces[i]);
      i := i + 1;
    }
    assert pieces[..i] == pieces;
    ok := true;
  }

  /** Send a message with NextWriter, its pieces and Close. */
  method SendInPieces(c: WriteConn.Conn, kind: int, pieces: seq<Piece>) returns (ok: bool)
    requires c.Ready() && c.open == null && !c.compression && IsData(kind)
    requires forall p :: p in pieces ==> |p.bytes| < WriteConn.MAX_SLICE
    modifies c, c.writePool, c.Buffers()
    ensures c.Ready() && c.Stream().Assembly? && fresh(c.Buffers() - old(c.Buffers()))
    ensures ok ==> c.open == null && c.writeErr == None
                   && c.Stream().done == old(c.Stream().done) + [Message(kind, false, Joined(pieces))]
    ensures !ok ==> c.Stream().done == old(c.Stream().done)
    ensures old(c.Late()) == [] ==> c.Late() == [] || (!ok && c.Late() == [Message(kind, false, Joined(pieces))])
    ensures c.undisturbed && old(c.writeErr).None? ==> ok
  {
    hide Assemble, EncodeAll, WriteConn.LateMessages, WriteConn.Conn.WireOk, WriteConn.Progress;
    ghost var before := c.Stream().done;
    var w, e := c.NextWriter(kind);
    if e.Some? {
      return false;
    }
    assert before + [] == before && w.Accepted() == [] && [] + Joined(pieces) == Joined(pieces);
    ok := SendPieces(w, pieces);
    if !ok {
      return;
    }
    assert w.Accepted() + [] == w.Accepted();
    e := w.Close();
    ok := e.None?;
  }

  /** Send a message. */
  method Send(c: WriteConn.Conn, m: Outgoing) returns (ok: bool)
    requires c.Ready() && c.open == null && Sendable(m, c.compression)
    modifies c, c.writePool, c.Buffers()
    ensures c.Ready() && c.Stream().Assembly? && fresh(c.Buffers() - old(c.Buffers()))
    ensures ok ==> c.open == null && c.writeErr == None && m.Endable()
                   && c.Stream().done == old(c.Stream().done) + [m.AsMessage()]
    ensures !ok ==> c.Stream().done == old(c.Stream().done)
    ensures old(c.Late()) == [] ==> c.Late() == [] || (!ok && m.Endable() && c.Late() == [m.AsMessage()])
    ensures c.undisturbed && old(c.writeErr).None? && m.Endable() ==> ok
  {
    hide Assemble, EncodeAll, WriteConn.LateMessages, WriteConn.Conn.WireOk, WriteConn.Progress, Truncation.FlateStream;
    ghost var before := c.Stream().done;
    assert before + [] == before;
    if m.Whole? {
      var e := c.WriteMessage(m.kind, m.data);
      ok := e.None?;
    } else if m.InPieces? {
      ok := SendInPieces(c, m.kind, m.pieces);
    } else {
      var e := Truncation.SendCompressed(c, m.kind, m.writes, m.flush);
      ok := e.None?;
    }
  }

  /** The messages are the first ones of those that were sent, with flate streams that have ended as they should. */
  ghost predicate Arriving(ms: seq<Outgoing>, done: seq<Message>) {
    done <= SentMessages(ms) && forall i :: 0 <= i < |done| ==> ms[i].Endable()
  }

  /** Send messages until one fails. What is then complete on the wire is what has been sent, and perhaps the message
      that failed. */
  method SendAll(c: WriteConn.Conn, ms: seq<Outgoing>) returns (ok: bool)
    requires c.Ready() && c.open == null
    requires c.frames == [] && c.writeErr == None && c.broken == None
    requires forall m :: m in ms ==> Sendable(m, c.compression)
    modifies c, c.writePool, c.Buffers()
    ensures c.Ready() && c.Stream().Assembly? && Arriving(ms, c.Stream().done + c.Late())
    ensures ok ==> c.writeErr == None && c.Stream().done == SentMessages(ms)
    ensures c.undisturbed && (forall m :: m in ms ==> m.Endable()) ==> ok
  {
    hide Assemble, EncodeAll, WriteConn.LateMessages, WriteConn.Conn.WireOk, WriteConn.Progress, Outgoing.Endable,
         Outgoing.AsMessage, Sendable;
    assert c.Stream() == NOTHING by { NothingYet(); }
    WriteConn.NothingLate(c.Stream(), c.partial);
    var i := 0;
    while i < |ms|
      invariant i <= |ms| && c.Ready() && c.open == null && c.writeErr == None
      invariant fresh(c.Buffers() - old(c.Buffers()))
      invariant c.Stream().Assembly? && c.Stream().done == SentMessages(ms[..i]) && c.Late() == []
      invariant forall m :: m in ms[..i] ==> m.Endable()
    {
      assert ms[i] in ms && ms[..i + 1] == ms[..i] + [ms[i]];
      ghost var before := c.Stream().done;
      ok := Send(c, ms[i]);
      if !ok {
        OneLate(ms, i, c.Late());
        return;
      }
      assert c.Stream().done == before + [ms[i].AsMessage()] == SentMessages(ms[..i + 1]);
      i := i + 1;
    }
    assert ms[..i] == ms;
    assert c.Stream().done + c.Late() == SentMessages(ms);
    ok := true;
  }

  lemma OneLate(ms: seq<Outgoing>, i: nat, late: seq<Message>)
    requires i < |ms| && forall m :: m in ms[..i] ==> m.Endable()
    requires late == [] || (ms[i].Endable() && late == [ms[i].AsMessage()])
    ensures Arriving(ms, SentMessages(ms[..i]) + late)
  {
    hide Outgoing.Endable, Outgoing.AsMessage;
    forall j | 0 <= j < i
      ensures ms[j].Endable()
    {
      assert ms[..i][j] == ms[j];
    }
  }

  lemma NothingYet()
    ensures Assemble(NOTHING, []) == NOTHING
  {}

  /** Handlers that accept everything. */
  function Accept(e: Event): Option<ReadError> {
    None
  }

  /** A peer without a read limit, when the transport ends with EOF. */
  function Peer(isServer: bool, compression: bool): Config {
    Config(isServer, compression, 0, EndOfFile, Accept)
  }

  /** A peer reads what there is until its connection reports an error. */
  method Receive(isServer: bool, compression: bool, wire: seq<byte>, wordSize: nat, bigEndian: bool)
    returns (received: seq<(int, seq<byte>)>, err: ReadError)
    requires wordSize == 4 || wordSize == 8
    ensures var o := Session(Peer(isServer, compression), Start(wire));
            && received == ReadConn.KindsAndPayloads(o.messages)
            && (err == o.error || err == ReadConn.Conn.Shown(o.error))
  {
    hide Session;
    var reader := new ReadConn.Conn(isServer, compression, 0, wire, EndOfFile, Accept, wordSize, bigEndian);
    received, err := ReadConn.ReadMessages(reader);
  }

  /** What the application reads, or with compression its flate reader with what is added to it. */
  ghost predicate Intact(m: Outgoing, kind: int, bytes: seq<byte>) {
    && kind == m.kind
    && (m.Whole? ==> bytes == m.data)
    && (m.InPieces? ==> bytes == Joined(m.pieces))
    && (m.Compressed? ==>
          Truncation.ReaderInput(bytes) == Truncation.FlateStream(m.writes, m.flush) + Truncation.LAST_BLOCK)
  }

  lemma SentAreDelivered(ms: seq<Outgoing>, done: seq<Message>)
    requires Arriving(ms, done)
    ensures |done| <= |ms| && (done == SentMessages(ms) ==> |done| == |ms|)
    ensures var received := ReadConn.KindsAndPayloads(done);
            |received| == |done| && forall i :: 0 <= i < |done| ==> Intact(ms[i], received[i].0, received[i].1)
  {
    hide Truncation.EndsFlushed, Truncation.Truncated, Truncation.ReaderInput;
    forall i | 0 <= i < |done|
      ensures Intact(ms[i], done[i].kind, done[i].payload)
    {
      assert done[i] == SentMessages(ms)[i];
      if ms[i].Compressed? {
        Truncation.ReaderRestores(Truncation.FlateStream(ms[i].writes, ms[i].flush));
      }
    }
  }

  /** A new connection sends messages, by any of the ways to send one, with any write buffer, its own, its caller's or
      from a pool, and any mask keys, with or without compression, while other goroutines send control frames; its peer
      reads them with any buffers and any short reads of the transport. Whatever fails, and however much of the frame
      that failed has gone out, the peer gets messages that were sent, whole and in order, from the first on. When the
      sending calls all succeed it gets them all; and they do unless the transport fails, another goroutine closes the
      connection, or the compressor does not end its stream as it should. */
  method Exchange(sender: WriteConn.Conn, ms: seq<Outgoing>, wordSize: nat, bigEndian: bool)
    returns (sent: bool, received: seq<(int, seq<byte>)>, err: ReadError)
    requires sender.Ready() && sender.open == null
    requires sender.frames == [] && sender.writeErr == None && sender.broken == None
    requires wordSize == 4 || wordSize == 8
    requires forall m :: m in ms ==> Sendable(m, sender.compression)
    modifies sender, sender.writePool, sender.Buffers()
    ensures |received| <= |ms| && forall i :: 0 <= i < |received| ==> Intact(ms[i], received[i].0, received[i].1)
    ensures sent ==> |received| == |ms| && err == UnexpectedEOF
    ensures sender.undisturbed && (forall m :: m in ms ==> m.Endable()) ==> sent
  {
    hide Session, Assemble, EncodeAll, WriteConn.LateMessages, WriteConn.Progress, SentMessages, Outgoing.Endable,
         Intact, ReadConn.KindsAndPayloads;
    sent := SendAll(sender, ms);
    var peer := Peer(!sender.isServer, sender.compression);
    WireArrives(peer, sender);
    SentAreDelivered(ms, sender.Stream().done + sender.Late());
    if sent {
      StreamArrives(peer, sender.frames);
      assert EncodeAll(sender.frames) + [] == EncodeAll(sender.frames);
      WriteConn.NothingLate(sender.Stream(), sender.partial);
      assert sender.Stream().done + [] == sender.Stream().done;
    }
    received, err := Receive(!sender.isServer, sender.compression, sender.wire, wordSize, bigEndian);
  }
}
