/** Compressed messages (compression.go): the writer that holds back the last four bytes of a flate stream on the way to
    a message writer, the check of those bytes, and the bytes that a reader puts back. The compressor is a parameter: it
    may produce any bytes, piece by piece. */
module Truncation {
  import opened Masking
  import opened Frames
  import opened WriteConn

  /** Section 7.2.1 of RFC 7692: the end of a flushed flate stream, which is not sent. */
  const FLUSHED: seq<byte> := [0x00, 0x00, 0xff, 0xff]

  /** An empty last block, for a flate reader that would miss the end of the stream. */
  const LAST_BLOCK: seq<byte> := [0x01, 0x00, 0x00, 0xff, 0xff]

  /** A stored block of section 3.2.4 of RFC 1951, from an octet boundary on: the three header bits, here in an octet of
      their own, and then the length and its complement, low octets first, and the data. */
  function StoredBlock(last: bool, data: seq<byte>): seq<byte>
    requires |data| < 0x1_0000
  {
    var n, m := BigEndian(|data|, 2), BigEndian(0xffff - |data|, 2);
    [if last then 0x01 else 0x00, n[1], n[0], m[1], m[0]] + data
  }

  /** What is cut off and put back are the lengths of an empty stored block, and then the reader gets a last empty one.
      */
  lemma EmptyBlocks()
    ensures StoredBlock(false, []) == [0x00] + FLUSHED
    ensures StoredBlock(true, []) == LAST_BLOCK
  {
    assert 0xff as byte as int == 0xff;
    assert BigEndian(0, 2) == [0x00, 0x00];
    assert BigEndian(0xff, 1) == [0xff];
    assert BigEndian(0xffff, 2) == BigEndian(0xff, 1) + [0xff];
  }

  function Min(a: nat, b: nat): nat {
    if a < b then a else b
  }

  datatype FlateError = FromWriter(error: WriteError) | UnexpectedTail

  /** The error of the message writer that is passed on. */
  function WriterError(e: Option<FlateError>): Option<WriteError> {
    if e.Some? && e.value.FromWriter? then Some(e.value.error) else None
  }

  function Passed(e: Option<WriteError>): Option<FlateError> {
    if e.Some? then Some(FromWriter(e.value)) else None
  }

  /** The bytes of a full buffer and then those of q have moved on, all but the last four. */
  lemma Forwarded(out: seq<byte>, held: seq<byte>, q: seq<byte>)
    requires |held| == 4
    ensures var m := Min(|q|, 4);
            (out + held[..m] + q[..|q| - m]) + (held[m..] + q[|q| - m..]) == out + held + q
  {
    if |q| > 4 {
      assert held[..4] == held && q == q[..|q| - 4] + q[|q| - 4..];
    }
  }

  function Concat(pieces: seq<seq<byte>>): seq<byte> {
    if pieces == [] then [] else Concat(pieces[..|pieces| - 1]) + pieces[|pieces| - 1]
  }

  predicate Pieces(pieces: seq<seq<byte>>) {
    forall p :: p in pieces ==> |p| < MAX_SLICE
  }

  /** What decompressNoContextTakeover gives to the flate reader for the payload of a message. */
  function ReaderInput(payload: seq<byte>): seq<byte> {
    payload + FLUSHED + LAST_BLOCK
  }

  /** The payload of the message with this flate stream. */
  function Truncated(total: seq<byte>): seq<byte>
    requires |total| >= 4
  {
    total[..|total| - 4]
  }

  predicate EndsFlushed(total: seq<byte>) {
    |total| >= 4 && total[|total| - 4..] == FLUSHED
  }

  /** The reader's flate stream is the writer's, with the last block added. */
  lemma ReaderRestores(total: seq<byte>)
    requires EndsFlushed(total)
    ensures ReaderInput(Truncated(total)) == total + LAST_BLOCK
  {
    assert total == Truncated(total) + FLUSHED;
  }

  /** The writer of a data message that is not ended. */
  ghost predicate InData(w: MessageWriter)
    reads w, w.c, w.c.writePool, w.c.open
  {
    w.c.Ready() && w.err == None && w.c.open == w && IsData(w.kind)
  }

  class TruncWriter {
    const w: MessageWriter
    var n: nat
    const p: array<byte>

    constructor (w: MessageWriter)
      requires InData(w) && w.Accepted() == []
      ensures this.w == w && fresh(p) && Holds([])
    {
      this.w, n := w, 0;
      p := new byte[4](_ => 0);
    }

    ghost predicate Valid()
      reads this, p
    {
      p.Length == 4 && n <= 4 && forall i :: n <= i < 4 ==> p[i] == 0
    }

    /** All of total has been written: its last four bytes are held back, and the message writer has the others. */
    ghost predicate Holds(total: seq<byte>)
      reads this, p, w, w.c, w.c.writePool, w.c.open, w.c.writeBuf
    {
      Valid() && InData(w) && p != w.c.writeBuf && n == Min(4, |total|) && w.Accepted() + p[..n] == total
    }

    /** Write. It may report fewer bytes than it has taken, and does so once the buffer is full. */
    method Write(data: seq<byte>, ghost total: seq<byte>) returns (taken: nat, e: Option<WriteError>)
      requires Holds(total) && |data| < MAX_SLICE
      modifies this, p, w, w.c, w.c.writeBuf, w.c.writePool
      ensures Valid() && w.c.Ready()
      ensures if e.None? then w.Kept() && Holds(total + data) else w.Lost(e)
      ensures e.None? ==> (taken == |data| <==> |total| + |data| <= 4 || data == [])
    {
      hide Assemble, EncodeAll, LateMessages, Conn.WireOk, Progress;
      var q := data;
      taken := 0;
      ghost var full := total;
      if n < 4 {
        taken := Fill(data, total);
        q := data[taken..];
        full := total + data[..taken];
        if q == [] {
          assert full == total + data;
          return taken, None;
        }
      }
      assert full + q == total + data;
      var nn;
      nn, e := Pass(q, full);
      taken := taken + nn;
    }

    method Fill(data: seq<byte>, ghost total: seq<byte>) returns (taken: nat)
      requires Holds(total) && n < 4
      modifies `n, p
      ensures taken == Min(4 - |total|, |data|) && Holds(total + data[..taken])
    {
      hide Conn.Ready;
      taken := Min(4 - n, |data|);
      Copy(n, data[..taken]);
      n := n + taken;
      assert p[..n] == old(p[..n]) + data[..taken];
    }

    /** With a full buffer: forward its first bytes, take the last of q, forward the others of q. */
    method Pass(q: seq<byte>, ghost total: seq<byte>) returns (taken: nat, e: Option<WriteError>)
      requires Holds(total) && n == 4 && |q| < MAX_SLICE
      modifies p, w, w.c, w.c.writeBuf, w.c.writePool
      ensures Valid() && w.c.Ready()
      ensures if e.None? then w.Kept() && Holds(total + q) && taken == |q| - Min(|q|, 4) else w.Lost(e)
    {
      hide Assemble, EncodeAll, LateMessages, Conn.WireOk, Progress, Conn.BuffersOk, Conn.Stream, Conn.Late, IsControl;
      ghost var out := w.Accepted();
      taken, e := w.Write(p[..Min(|q|, 4)]);
      if e.None? {
        taken, e := PassRest(q, out, p[..4]);
      }
    }

    /** The first bytes of the buffer have been forwarded. */
    method PassRest(q: seq<byte>, ghost out: seq<byte>, ghost held: seq<byte>)
      returns (taken: nat, e: Option<WriteError>)
      requires Valid() && InData(w) && p != w.c.writeBuf && n == 4 && p[..4] == held && |q| < MAX_SLICE
      requires w.Accepted() == out + held[..Min(|q|, 4)]
      modifies p, w, w.c, w.c.writeBuf, w.c.writePool
      ensures Valid() && w.c.Ready()
      ensures if e.None? then w.Kept() && Holds(out + held + q) && taken == |q| - Min(|q|, 4) else w.Lost(e)
    {
      hide Assemble, EncodeAll, LateMessages, Conn.WireOk, Progress, Conn.BuffersOk, Conn.Stream, Conn.Late, IsControl;
      var m := Min(|q|, 4);
      Forwarded(out, held, q);
      Take(m, q[|q| - m..]);
      taken, e := w.Write(q[..|q| - m]);
    }

    /** Take in the last bytes, where the first have been forwarded. */
    method Take(m: nat, last: seq<byte>)
      requires Valid() && InData(w) && p != w.c.writeBuf && |last| == m <= 4 == n
      modifies p
      ensures Valid() && InData(w) && w.Kept() && p[..n] == old(p[..n])[m..] + last && w.Accepted() == old(w.Accepted())
    {
      hide Assemble, EncodeAll, LateMessages, Conn.WireOk, Progress, Conn.BuffersOk, Conn.Late;
      assert p[..4] == p[..];
      Shift(m, last);
      assert p[..4] == p[..];
    }

    /** What is held back when all of total has been written. */
    lemma HeldBack(total: seq<byte>)
      requires Holds(total)
      ensures p[..] == FLUSHED <==> EndsFlushed(total)
      ensures EndsFlushed(total) ==> w.Accepted() == Truncated(total)
    {
      assert n == 4 ==> p[..n] == p[..];
      assert n < 4 ==> p[3] == 0 != FLUSHED[3];
      Tail(w.Accepted(), p[..n], total);
    }

    method Shift(m: nat, last: seq<byte>)
      requires p.Length == 4 && |last| == m <= 4
      modifies p
      ensures p[..] == old(p[m..]) + last
    {
      Copy(0, p[m..]);
      Copy(4 - m, last);
    }

    /** copy(p[at:], s). */
    method Copy(at: nat, s: seq<byte>)
      requires at + |s| <= p.Length
      modifies p
      ensures p[..] == old(p[..at]) + s + old(p[at + |s|..])
    {
      forall i | 0 <= i < |s| {
        p[at + i] := s[i];
      }
    }
  }

  /** flateWriteWrapper. A flate writer whose output has failed writes nothing more. */
  class FlateWriteWrapper {
    const tw: TruncWriter
    var fw: bool
    var failure: Option<WriteError>
    ghost var produced: seq<byte>

    constructor (w: MessageWriter)
      requires InData(w) && w.Accepted() == []
      ensures New(w) && fresh(tw) && fresh(tw.p)
    {
      tw := new TruncWriter(w);
      fw, failure, produced := true, None, [];
    }

    /** While neither closed nor failed, the message writer has what the flate writer has produced, but for the bytes
        held back. */
    ghost predicate Valid()
      reads this, tw, tw.p, tw.w, tw.w.c, tw.w.c.writePool, tw.w.c.open, tw.w.c.writeBuf
    {
      && tw.p.Length == 4 && tw.w.c.Ready()
      && (fw && failure == None ==> tw.Holds(produced))
      && (failure != None ==> tw.w.err == failure)
    }

    /** The write buffer may have been put back. */
    twostate predicate SameBuffer()
      reads tw.w.c
    {
      tw.w.c.writeBuf == null || tw.w.c.writeBuf == old(tw.w.c.writeBuf)
    }

    /** It has written nothing yet. */
    ghost predicate New(w: MessageWriter)
      reads this, tw, tw.p, tw.w, tw.w.c, tw.w.c.writePool, tw.w.c.open, tw.w.c.writeBuf
    {
      Valid() && tw.w == w && fw && failure == None && produced == []
    }

    /** What a write has made of the message: the flate stream goes on to total, or the message is lost. */
    twostate predicate Written(total: seq<byte>)
      reads this, tw.w, tw.w.c, tw.w.c.writePool
    {
      if failure == None then tw.w.Kept() && produced == total else tw.w.Lost(failure)
    }

    /** The flate writer hands over a piece of what it has produced. */
    method Hand(piece: seq<byte>)
      requires Valid() && fw && failure == None && |piece| < MAX_SLICE
      modifies this, tw, tw.p, tw.w, tw.w.c, tw.w.c.writeBuf, tw.w.c.writePool
      ensures Valid() && fw && SameBuffer()
      ensures Written(old(produced) + piece)
    {
      hide Assemble, EncodeAll, LateMessages, Conn.WireOk, Progress;
      var _, e := tw.Write(piece, produced);
      failure, produced := e, produced + piece;
    }

    /** The flate writer hands over what it has produced, piece by piece, until that fails. */
    method Produce(pieces: seq<seq<byte>>)
      requires Valid() && fw && failure == None && Pieces(pieces)
      modifies this, tw, tw.p, tw.w, tw.w.c, tw.w.c.writeBuf, tw.w.c.writePool
      ensures Valid() && fw && SameBuffer()
      ensures Written(old(produced) + Concat(pieces))
    {
      hide Assemble, EncodeAll, LateMessages, Conn.WireOk, Progress, Conn.BuffersOk, Conn.Stream, Conn.Late,
           TruncWriter.Valid;
      if pieces == [] {
        assert produced + [] == produced;
        return;
      }
      var before, last := pieces[..|pieces| - 1], pieces[|pieces| - 1];
      assert last in pieces;
      Associates(produced, Concat(before), last);
      Produce(before);
      if failure == None {
        Hand(last);
      }
    }

    method Write(pieces: seq<seq<byte>>) returns (e: Option<FlateError>)
      requires Valid() && Pieces(pieces)
      modifies this, tw, tw.p, tw.w, tw.w.c, tw.w.c.writeBuf, tw.w.c.writePool
      ensures Valid() && fw == old(fw) && SameBuffer()
      ensures !old(fw) ==> e == Some(FromWriter(WriteClosed))
      ensures old(fw) ==> WriterError(e) == failure && e != Some(UnexpectedTail)
      ensures !old(fw) || old(failure) != None ==> failure == old(failure) && tw.w.Untouched(tw.w.err)
      ensures old(fw) && old(failure) == None ==> Written(old(produced) + Concat(pieces))
    {
      hide Assemble, EncodeAll, LateMessages, Conn.WireOk, Progress, Conn.BuffersOk, TruncWriter.Holds, Conn.Ready;
      if !fw {
        return Some(FromWriter(WriteClosed));
      }
      if failure == None {
        Produce(pieces);
      }
      e := Passed(failure);
    }

    /** What Close has made of the message when nothing had failed before. The check of the bytes held back fails
        exactly when the flate stream does not end as section 7.2.1 of RFC 7692 wants it; the message is then not
        ended. Else it is complete, without that end, or lost. */
    twostate predicate Ended(total: seq<byte>, new e: Option<FlateError>)
      reads this, tw, tw.w, tw.w.c, tw.w.c.writePool
    {
      if failure != None then e != None && tw.w.Lost(failure)
      else if !EndsFlushed(total) then e == Some(UnexpectedTail) && tw.w.Kept()
      else e != Some(UnexpectedTail) && tw.w.MessageSent(Truncated(total), WriterError(e))
    }

    /** Close: flush, check what is held back, close. */
    method Close(pieces: seq<seq<byte>>) returns (e: Option<FlateError>)
      requires Valid() && Pieces(pieces)
      modifies this, tw, tw.p, tw.w, tw.w.c, tw.w.c.writeBuf, tw.w.c.writePool
      ensures Valid() && !fw && SameBuffer()
      ensures !old(fw) ==> e == Some(FromWriter(WriteClosed))
      ensures !old(fw) || old(failure) != None ==> e != None && tw.w.Untouched(tw.w.err)
      ensures old(fw) && old(failure) == None ==> Ended(old(produced) + Concat(pieces), e)
    {
      hide Assemble, EncodeAll, LateMessages, Conn.WireOk, Progress, Conn.BuffersOk, Conn.Ready, Conn.Stream, Conn.Late,
           TruncWriter.Holds, TruncWriter.Valid, EndsFlushed, Truncated, Concat, EndsWithControl, IsControl, IsData,
           Pieces;
      if !fw {
        return Some(FromWriter(WriteClosed));
      }
      if failure == None {
        Produce(pieces);
      }
      fw := false;
      e := CheckAndClose();
    }

    /** Check the bytes held back and close the message writer. */
    method CheckAndClose() returns (e: Option<FlateError>)
      requires tw.p.Length == 4 && tw.w.c.Ready()
      requires if failure == None then tw.Holds(produced) else tw.w.err == failure
      modifies tw.w, tw.w.c, tw.w.c.writeBuf, tw.w.c.writePool
      ensures tw.w.c.Ready()
      ensures failure != None ==> e != None && tw.w.Untouched(tw.w.err)
      ensures failure == None ==>
                if !EndsFlushed(produced) then e == Some(UnexpectedTail) && tw.w.Untouched(tw.w.err)
                else e != Some(UnexpectedTail) && tw.w.MessageSent(Truncated(produced), WriterError(e))
    {
      hide Assemble, EncodeAll, LateMessages, Conn.WireOk, Progress, Conn.BuffersOk, Conn.Ready;
      if failure == None {
        tw.HeldBack(produced);
      }
      if tw.p[..] != FLUSHED {
        return Some(UnexpectedTail);
      }
      var err := CloseMessage(tw.w);
      e := Passed(if failure != None then failure else err);
    }
  }

  /** Close of the message writer, which ends its message or has failed before. */
  method CloseMessage(w: MessageWriter) returns (e: Option<WriteError>)
    requires InData(w) || (w.c.Ready() && w.err != None)
    modifies w, w.c, w.c.writeBuf, w.c.writePool
    ensures w.c.Ready()
    ensures old(w.err) != None ==> w.Untouched(e)
    ensures old(w.err) == None ==> w.MessageSent(old(w.Accepted()), e)
  {
    hide Assemble, EncodeAll, LateMessages, Conn.WireOk, Progress;
    if w.err == None {
      assert w.Accepted() + [] == w.Accepted();
    }
    e := w.Close();
  }

  /** The bytes held back are the end of what was written. */
  lemma Tail(out: seq<byte>, held: seq<byte>, total: seq<byte>)
    requires out + held == total
    ensures total[|total| - |held|..] == held && total[..|total| - |held|] == out
  {}

  // A whole message

  /** What the compressor has produced on each of the calls. */
  function AllPieces(writes: seq<seq<seq<byte>>>): seq<seq<byte>> {
    seq(|writes|, i requires 0 <= i < |writes| => Concat(writes[i]))
  }

  /** The flate stream of a message that is written by some calls and then closed. */
  function FlateStream(writes: seq<seq<seq<byte>>>, flush: seq<seq<byte>>): seq<byte> {
    Concat(AllPieces(writes)) + Concat(flush)
  }

  predicate AllFit(writes: seq<seq<seq<byte>>>, flush: seq<seq<byte>>) {
    (forall pieces :: pieces in writes ==> Pieces(pieces)) && Pieces(flush)
  }

  /** The writer of a new message is open. */
  twostate predicate Begun(c: Conn, messageType: int, new f: FlateWriteWrapper)
    reads c, c.writer, f, f.tw, f.tw.p, f.tw.w, f.tw.w.c, f.tw.w.c.writePool, f.tw.w.c.open, f.tw.w.c.writeBuf
  {
    && c.writer != null && fresh(c.writer) && f.New(c.writer)
    && c.writer.c == c && c.writer.kind == messageType && c.writer.rsv1
  }

  /** The calls of Write for a message. */
  method WriteAll(f: FlateWriteWrapper, writes: seq<seq<seq<byte>>>) returns (e: Option<FlateError>)
    requires f.Valid() && f.fw && f.failure == None
    requires forall pieces :: pieces in writes ==> Pieces(pieces)
    modifies f, f.tw, f.tw.p, f.tw.w, f.tw.w.c, f.tw.w.c.writeBuf, f.tw.w.c.writePool
    ensures f.Valid() && f.fw && f.SameBuffer() && WriterError(e) == f.failure && e != Some(UnexpectedTail)
    ensures f.Written(old(f.produced) + Concat(AllPieces(writes)))
  {
    hide Assemble, EncodeAll, LateMessages, Conn.WireOk, Progress, Conn.BuffersOk, Conn.Stream, Conn.Late,
         TruncWriter.Valid, EndsWithControl, IsControl, IsData, Pieces;
    if writes == [] {
      assert f.produced + [] == f.produced;
      return None;
    }
    var before, last := writes[..|writes| - 1], writes[|writes| - 1];
    assert last in writes;
    assert AllPieces(writes)[..|writes| - 1] == AllPieces(before);
    Associates(f.produced, Concat(AllPieces(before)), Concat(last));
    e := WriteAll(f, before);
    if e == None {
      e := f.Write(last);
    }
  }

  /** The calls of Write for a message, and Close. */
  method WriteAndClose(f: FlateWriteWrapper, writes: seq<seq<seq<byte>>>, flush: seq<seq<byte>>)
    returns (e: Option<FlateError>)
    requires f.Valid() && f.fw && f.failure == None && f.produced == [] && AllFit(writes, flush)
    modifies f, f.tw, f.tw.p, f.tw.w, f.tw.w.c, f.tw.w.c.writeBuf, f.tw.w.c.writePool
    ensures f.Valid() && f.SameBuffer() && f.Ended(FlateStream(writes, flush), e)
  {
    hide Assemble, EncodeAll, LateMessages, Conn.WireOk, Progress, Conn.BuffersOk, Conn.Stream, Conn.Late, Conn.Ready,
         TruncWriter.Valid, TruncWriter.Holds, Concat, AllPieces, EndsFlushed, Truncated, EndsWithControl, ClosedLast,
         NoClose, Pieces, IsControl, IsData;
    assert [] + Concat(AllPieces(writes)) == Concat(AllPieces(writes));
    e := WriteAll(f, writes);
    if e != None {
      return;
    }
    e := f.Close(flush);
  }

  /** What a message that was begun on a connection without an open one has made of it: the message is complete, with
      the flate stream but for its end, when nothing has failed; else nothing is complete but perhaps a last frame that
      went out whole. */
  twostate predicate Compressed(c: Conn, kind: int, total: seq<byte>, new e: Option<FlateError>)
    reads c
  {
    && c.Stream().Assembly? && old(c.Stream()).Assembly?
    && (if e == None then
          && EndsFlushed(total) && c.open == null && c.writeErr == None
          && c.Stream().done == old(c.Stream()).done + [Message(kind, true, Truncated(total))]
        else c.Stream().done == old(c.Stream()).done)
    && (old(c.Late()) == [] ==>
          c.Late() == []
          || (e != None && EndsFlushed(total) && c.Late() == [Message(kind, true, Truncated(total))]))
    && (c.undisturbed && old(c.writeErr) == None ==>
          (e == None <==> EndsFlushed(total)) && c.Stream().controls == old(c.Stream()).controls)
  }

  /** NextWriter for a data message on a connection with compression, when no writer is open. */
  method Begin(c: Conn, messageType: int) returns (f: FlateWriteWrapper?, e: Option<WriteError>)
    requires c.Ready() && c.open == null && c.compression && IsData(messageType)
    modifies c, c.writePool, c.writeBuf
    ensures c.Ready() && c.StreamUnchanged() && e == c.writeErr == old(c.writeErr)
    ensures fresh(c.Buffers() - old(c.Buffers()))
    ensures if e == None then f != null && fresh(f) && fresh(f.tw) && fresh(f.tw.p) && Begun(c, messageType, f)
            else f == null && c.open == null
  {
    hide Assemble, EncodeAll, LateMessages, Conn.WireOk, Progress;
    var w;
    w, e := c.NextWriter(messageType);
    f := null;
    if e == None {
      f := new FlateWriteWrapper(w);
    }
  }

  /** A data message on a connection with compression: NextWriter, any calls of Write, and Close. WriteMessage makes one
      call of Write. */
  method SendCompressed(c: Conn, kind: int, writes: seq<seq<seq<byte>>>, flush: seq<seq<byte>>)
    returns (e: Option<FlateError>)
    requires c.Ready() && c.open == null && c.compression && IsData(kind) && AllFit(writes, flush)
    modifies c, c.writePool, c.Buffers()
    ensures c.Ready() && fresh(c.Buffers() - old(c.Buffers())) && (c.open == null || fresh(c.open))
    ensures Compressed(c, kind, FlateStream(writes, flush), e)
  {
    hide Assemble, EncodeAll, LateMessages, Conn.WireOk, Progress, Conn.Stream, Conn.Late, EndsFlushed, Truncated,
         FlateStream, EndsWithControl, TruncWriter.Valid;
    assert c.Stream().controls + [] == c.Stream().controls;
    var f, err := Begin(c, kind);
    if err != None {
      return Passed(err);
    }
    e := WriteAndClose(f, writes, flush);
  }

  /** The message of a writer that is still open, when its compressor is flushed. */
  ghost function Finished(f: FlateWriteWrapper?, flush: seq<seq<byte>>): seq<Message>
    requires f != null ==> EndsFlushed(f.produced + Concat(flush))
    reads f
  {
    if f == null then [] else [Message(f.tw.w.kind, f.tw.w.rsv1, Truncated(f.produced + Concat(flush)))]
  }

  /** The first lines of beginMessage: the writer that is still open is closed; the one of a data message has a flate
      stream, which the compressor ends as it should. */
  method ClosePrevious(c: Conn, f: FlateWriteWrapper?, flush: seq<seq<byte>>)
    requires c.Ready() && Pieces(flush) && (f == null ==> c.writer == null || IsControl(c.writer.kind))
    requires f != null ==> f.tw.w == c.writer && f.Valid() && f.fw && f.failure == None
                           && EndsFlushed(f.produced + Concat(flush))
    modifies c, c.writePool, c.open, c.writeBuf, f, if f != null then {f.tw, f.tw.p} else {}
    ensures c.Ready() && c.open == null && fresh(c.Buffers() - old(c.Buffers()))
    ensures c.Stream().Assembly? && (c.writeBuf == null || c.writeBuf == old(c.writeBuf))
    ensures c.Stream().done == old(c.Stream().done) + old(Finished(f, flush))
            || (c.writeErr != None && c.Stream().done == old(c.Stream().done))
  {
    hide Assemble, EncodeAll, LateMessages, Conn.WireOk, Progress;
    if f != null {
      var _ := f.Close(flush);
      return;
    }
    assert c.Stream().done + [] == c.Stream().done;
    if c.writer != null {
      var _ := c.writer.Close();
    }
  }

  /** NextWriter for a data message on a connection with compression. */
  method NextWriter(c: Conn, previous: FlateWriteWrapper?, flush: seq<seq<byte>>, messageType: int)
    returns (f: FlateWriteWrapper?, e: Option<WriteError>)
    requires c.Ready() && c.compression && IsData(messageType)
    requires Pieces(flush) && (previous == null ==> c.writer == null || IsControl(c.writer.kind))
    requires previous != null ==>
               && previous.tw.w == c.writer && previous.Valid() && previous.fw && previous.failure == None
               && EndsFlushed(previous.produced + Concat(flush))
    modifies c, c.writePool, c.open, c.writeBuf, previous, if previous != null then {previous.tw, previous.tw.p} else {}
    ensures c.Ready() && c.Stream().Assembly? && fresh(c.Buffers() - old(c.Buffers()))
    ensures if e == None then
              && f != null && fresh(f) && Begun(c, messageType, f)
              && c.Stream().done == old(c.Stream().done) + old(Finished(previous, flush))
            else
              && f == null && c.writer == null && e == c.writeErr
              && (c.Stream().done == old(c.Stream().done)
                  || c.Stream().done == old(c.Stream().done) + old(Finished(previous, flush)))
  {
    hide Assemble, EncodeAll, LateMessages, Conn.WireOk, Progress, Concat, Conn.BuffersOk, Conn.Stream,
         Finished, TruncWriter.Valid, TruncWriter.Holds, EndsWithControl, Conn.Late;
    ClosePrevious(c, previous, flush);
    assert c.Stream().done + [] == c.Stream().done;
    f, e := Begin(c, messageType);
  }
}
