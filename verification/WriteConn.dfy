/** The write fields of Conn, messageWriter, and the methods that update them in place (conn.go). */
module WriteConn {
  import opened Masking
  import opened Frames

  datatype WriteError =
    | BadWriteOpCode
    | InvalidControlFrame
    | WriteClosed
    | CloseSent
    | NetworkFailed
    | WriteTimeout
    | ExtraInClientMode

  /** Buffers and slices fit in memory, so that the sum of two lengths is an int. */
  const MAX_SLICE := 0x4000_0000_0000_0000

  // Building a frame in place

  /** The octets of n in network byte order (encoding/binary). */
  method PutBigEndian(buf: array<byte>, at: nat, n: nat, k: nat)
    requires at + k <= buf.Length
    modifies buf
    ensures buf[..] == old(buf[..at]) + BigEndian(n, k) + old(buf[at + k..])
  {
    var m, i := n, k;
    ghost var tail: seq<byte> := [];
    while i > 0
      invariant 0 <= i <= k && |tail| == k - i
      invariant BigEndian(n, k) == BigEndian(m, i) + tail
      invariant buf[..] == old(buf[..at + i]) + tail + old(buf[at + k..])
    {
      i := i - 1;
      buf[at + i] := ByteOf(m % 256);
      tail := [ByteOf(m % 256)] + tail;
      m := m / 256;
    }
  }

  /** The header without the mask. */
  function Fixed(f: Frame): seq<byte> {
    [FirstByte(f.final, f.rsv1, f.opcode), SecondByte(f.key.Some?, LengthCode(|f.payload|))]
    + ExtendedLength(|f.payload|)
  }

  /** The values that flushFrame has computed for the first bytes of the frame f. */
  ghost predicate FirstBytes(f: Frame, b0: byte, b1: byte, masked: bool) {
    b0 == FirstByte(f.final, f.rsv1, f.opcode) && b1 == if masked then MASK_BIT else 0
  }

  /** The header of flushFrame: it is put so that the header, and the mask behind it, end where the payload begins. */
  method PutHeader(buf: array<byte>, ghost f: Frame, b0: byte, b1: byte, length: nat, masked: bool)
    returns (framePos: nat)
    requires MAX_HEADER <= buf.Length
    requires FirstBytes(f, b0, b1, masked)
    requires masked == f.key.Some? && length == |f.payload|
    modifies buf
    ensures var end := if masked then MAX_HEADER - 4 else MAX_HEADER;
            framePos + |Fixed(f)| == end && buf[framePos..end] == Fixed(f) && buf[end..] == old(buf[end..])
  {
    framePos := if masked then 0 else 4;
    if length >= 65536 {
      buf[framePos] := b0;
      buf[framePos + 1] := b1 | ByteOf(127);
      PutBigEndian(buf, framePos + 2, length, 8);
    } else if length > 125 {
      framePos := framePos + 6;
      buf[framePos] := b0;
      buf[framePos + 1] := b1 | ByteOf(126);
      PutBigEndian(buf, framePos + 2, length, 2);
    } else {
      framePos := framePos + 8;
      buf[framePos] := b0;
      buf[framePos + 1] := b1 | ByteOf(length);
    }
  }

  /** The frame in buf: on return buf[framePos..pos] is the frame f, except for the payload bytes that f has beyond
      those that were in buf[14..pos]. A client masks the payload in place; a server leaves it alone. */
  method BuildFrame(buf: array<byte>, pos: nat, ghost f: Frame, b0: byte, b1: byte, length: nat, key: Key, masked: bool,
                    wordSize: nat, bigEndian: bool)
    returns (framePos: nat)
    requires MAX_HEADER <= pos <= buf.Length && (wordSize == 4 || wordSize == 8)
    requires FirstBytes(f, b0, b1, masked)
    requires f.key == (if masked then Some(key) else None) && length == |f.payload|
    requires pos - MAX_HEADER <= length && f.payload[..pos - MAX_HEADER] == buf[MAX_HEADER..pos]
    requires masked ==> pos - MAX_HEADER == length
    modifies buf
    ensures framePos <= pos
    ensures buf[framePos..pos] == Header(f) + Body(f)[..pos - MAX_HEADER]
    ensures buf[pos..] == old(buf[pos..]) && (!masked ==> buf[MAX_HEADER..] == old(buf[MAX_HEADER..]))
  {
    hide Mask, FirstByte, SecondByte, BigEndian, MaskRange, Fixed, Header, Body;
    ghost var payload := buf[MAX_HEADER..pos];
    framePos := PutHeader(buf, f, b0, b1, length, masked);
    HeaderIs(f);
    BodyStart(f, pos - MAX_HEADER);
    ghost var before := buf[..];
    assert before[MAX_HEADER..pos] == payload && before[pos..] == old(buf[pos..]);
    if masked {
      MaskInPlace(buf, pos, key, wordSize, bigEndian);
      KeyBehind(before, buf[..], framePos, Fixed(f), key);
      assert buf[MAX_HEADER..pos] == Mask(key, 0, payload);
    } else {
      assert Fixed(f) + [] == Fixed(f);
    }
    assert buf[framePos..MAX_HEADER] == Header(f) && buf[MAX_HEADER..pos] == Body(f)[..pos - MAX_HEADER];
    TwoParts(buf[..], framePos, MAX_HEADER, pos);
  }

  lemma TwoParts(s: seq<byte>, from: nat, mid: nat, to: nat)
    requires from <= mid <= to <= |s|
    ensures s[from..to] == s[from..mid] + s[mid..to]
  {}

  lemma KeyBehind(before: seq<byte>, after: seq<byte>, from: nat, header: seq<byte>, key: Key)
    requires from <= MAX_HEADER - 4 && MAX_HEADER <= |before| == |after|
    requires before[from..MAX_HEADER - 4] == header && after[..MAX_HEADER] == before[..MAX_HEADER - 4] + key
    ensures after[from..MAX_HEADER] == header + key
  {
    assert after[from..MAX_HEADER] == after[..MAX_HEADER][from..];
  }

  /** The first n bytes of the body, when either all of the payload is meant or the payload is not masked. */
  lemma BodyStart(f: Frame, n: nat)
    requires n <= |f.payload| && (f.key.Some? ==> n == |f.payload|)
    ensures Body(f)[..n] == if f.key.Some? then Mask(f.key.value, 0, f.payload[..n]) else f.payload[..n]
  {
    hide Mask;
    if f.key.Some? {
      assert f.payload[..n] == f.payload;
    }
  }

  /** Put the key in front of the payload and mask the payload. */
  method MaskInPlace(buf: array<byte>, pos: nat, key: Key, wordSize: nat, bigEndian: bool)
    requires MAX_HEADER <= pos <= buf.Length && (wordSize == 4 || wordSize == 8)
    modifies buf
    ensures buf[..MAX_HEADER] == old(buf[..MAX_HEADER - 4]) + key
    ensures buf[MAX_HEADER..pos] == Mask(key, 0, old(buf[MAX_HEADER..pos])) && buf[pos..] == old(buf[pos..])
  {
    hide Mask, MaskRange;
    forall i | 0 <= i < 4 {
      buf[MAX_HEADER - 4 + i] := key[i];
    }
    assert buf[..MAX_HEADER] == old(buf[..MAX_HEADER - 4]) + key;
    assert buf[MAX_HEADER..pos] == old(buf[MAX_HEADER..pos]) && buf[pos..] == old(buf[pos..]);
    ghost var before := buf[..];
    var addr: nat := *;
    var _ := MaskBytes(key, 0, buf, MAX_HEADER, pos, addr, wordSize, bigEndian);
    RangeParts(key, before, MAX_HEADER, pos);
  }

  lemma HeaderIs(f: Frame)
    ensures Header(f) == Fixed(f) + if f.key.Some? then f.key.value else []
  {
    hide FirstByte, SecondByte, BigEndian;
  }

  lemma RangeParts(key: Key, all: seq<byte>, lo: nat, hi: nat)
    requires lo <= hi <= |all|
    ensures var r := MaskRange(key, 0, all, lo, hi);
            r[..lo] == all[..lo] && r[lo..hi] == Mask(key, 0, all[lo..hi]) && r[hi..] == all[hi..]
  {
    hide Mask;
  }

  method NewMaskKey() returns (key: Key) {
    var a: byte, b: byte, c: byte, d: byte := *, *, *, *;
    key := [a, b, c, d];
  }

  // Control frames of other goroutines

  /** Frames that WriteControl sends. */
  ghost predicate ControlFrames(fs: seq<Frame>, isServer: bool) {
    forall f :: f in fs ==> IsControl(f.opcode) && f.final && !f.rsv1 && |f.payload| <= MAX_CONTROL_PAYLOAD
                            && f.key.None? == isServer
  }

  /** Control frames, wherever they come, leave the messages of the stream alone. */
  lemma {:induction false} ControlsBetween(a: Assembly, fs: seq<Frame>, isServer: bool)
    requires a.Assembly? && ControlFrames(fs, isServer)
    ensures var b := Assemble(a, fs); b.Assembly? && b.done == a.done && b.open == a.open
    decreases |fs|
  {
    if fs != [] {
      ControlsBetween(AddFrame(a, fs[0]), fs[1..], isServer);
    }
  }

  lemma AssembleOne(a: Assembly, f: Frame)
    ensures Assemble(a, [f]) == AddFrame(a, f)
  {
    assert Assemble(AddFrame(a, f), []) == AddFrame(a, f);
  }

  ghost predicate ClosedLast(fs: seq<Frame>) {
    fs != [] && fs[|fs| - 1].opcode == CLOSE && NoClose(fs[..|fs| - 1])
  }

  lemma OneMore(fs: seq<Frame>, f: Frame)
    ensures EncodeAll(fs + [f]) == EncodeAll(fs) + Encode(f) && (fs + [f])[..|fs|] == fs
    ensures f.opcode == CLOSE && NoClose(fs) ==> ClosedLast(fs + [f])
  {
    hide Encode;
    EncodeAllConcat(fs, [f]);
    EncodeOne(f);
  }

  lemma EncodeOne(f: Frame)
    ensures EncodeAll([f]) == Encode(f)
  {
    hide Encode;
    assert EncodeAll([]) == [];
  }

  // The stream while a message is sent

  /** The frame is one that the message writer may send after the stream a. */
  ghost predicate FitsAfter(a: Assembly, f: Frame) {
    a.Assembly? &&
    if IsControl(f.opcode) then f.final && !f.rsv1 && |f.payload| <= MAX_CONTROL_PAYLOAD
    else if f.opcode == CONTINUATION then a.open.Some? && !f.rsv1
    else IsData(f.opcode) && a.open.None?
  }

  ghost function Continued(a: Assembly, f: Frame): Assembly
    requires a.Assembly?
  {
    var m := if a.open.Some? && f.opcode == CONTINUATION then a.open.value.(payload := a.open.value.payload + f.payload)
             else Message(f.opcode, f.rsv1, f.payload);
    Continue(a, m, f.final)
  }

  /** The stream b is a with control frames of other goroutines and then the frame f. */
  ghost predicate Extends(a: Assembly, f: Frame, b: Assembly) {
    a.Assembly? && b.Assembly? &&
    if IsControl(f.opcode) then b.done == a.done && b.open == a.open
    else b.done == Continued(a, f).done && b.open == Continued(a, f).open
  }

  lemma FrameContinues(a: Assembly, f: Frame)
    requires FitsAfter(a, f)
    ensures Extends(a, f, AddFrame(a, f))
  {}

  lemma ControlsAdded(frames: seq<Frame>, cs: seq<Frame>, isServer: bool)
    requires Assemble(NOTHING, frames).Assembly? && ControlFrames(cs, isServer)
    ensures var a, b := Assemble(NOTHING, frames), Assemble(NOTHING, frames + cs);
            b.Assembly? && b.done == a.done && b.open == a.open
  {
    AssembleConcat(NOTHING, frames, cs);
    ControlsBetween(Assemble(NOTHING, frames), cs, isServer);
  }

  /** The stream after other goroutines' control frames and then the frame f. */
  lemma StreamGrows(frames: seq<Frame>, cs: seq<Frame>, f: Frame, isServer: bool)
    requires Assemble(NOTHING, frames).Assembly? && ControlFrames(cs, isServer)
    ensures var a, b := Assemble(NOTHING, frames), Assemble(NOTHING, frames + cs);
            && b.Assembly? && b.done == a.done && b.open == a.open
            && Assemble(NOTHING, frames + cs + [f]) == AddFrame(b, f)
  {
    AssembleConcat(NOTHING, frames, cs);
    ControlsBetween(Assemble(NOTHING, frames), cs, isServer);
    AssembleConcat(NOTHING, frames + cs, [f]);
    AssembleOne(Assemble(NOTHING, frames + cs), f);
  }

  /** From the frames before to the frames after, the stream has got control frames of other goroutines and then,
      when the write went well, the frame f. */
  ghost predicate Sent(before: seq<Frame>, f: Frame, ok: bool, after: seq<Frame>) {
    var a, b := Assemble(NOTHING, before), Assemble(NOTHING, after);
    && before <= after && a.Assembly? && b.Assembly?
    && if ok then after != [] && after[|after| - 1] == f && Extends(a, f, b)
       else b.done == a.done && b.open == a.open
  }

  lemma SentFrame(before: seq<Frame>, cs: seq<Frame>, f: Frame, ok: bool, isServer: bool)
    requires Assemble(NOTHING, before).Assembly? && ControlFrames(cs, isServer)
    requires FitsAfter(Assemble(NOTHING, before), f)
    ensures Sent(before, f, ok, before + cs + if ok then [f] else [])
  {
    hide Assemble;
    StreamGrows(before, cs, f, isServer);
    FrameContinues(Assemble(NOTHING, before + cs), f);
    assert before + cs + [] == before + cs;
  }

  /** The last frame is a control frame with the given payload. */
  ghost predicate EndsWithControl(fs: seq<Frame>, kind: int, payload: seq<byte>) {
    fs != [] && fs[|fs| - 1].opcode == kind && fs[|fs| - 1].payload == payload
  }

  /** A writer of this message has sent its bytes up to flushed, and unfinished is the stream's unfinished message. */
  ghost predicate Progress(kind: int, rsv1: bool, flushed: seq<byte>, frameType: int, compress: bool,
                           unfinished: Option<Message>) {
    && (IsControl(kind) || IsData(kind))
    && (rsv1 ==> IsData(kind))
    && if frameType == CONTINUATION then IsData(kind) && !compress && unfinished == Some(Message(kind, rsv1, flushed))
       else frameType == kind && compress == rsv1 && flushed == [] && unfinished == None
  }

  /** What sending the next frame of a message does to the stream. */
  lemma ProgressSent(kind: int, rsv1: bool, flushed: seq<byte>, frameType: int, compress: bool,
                     before: seq<Frame>, f: Frame, ok: bool, after: seq<Frame>)
    requires Assemble(NOTHING, before).Assembly?
    requires Progress(kind, rsv1, flushed, frameType, compress, Assemble(NOTHING, before).open)
    requires Sent(before, f, ok, after) && f.opcode == frameType && f.rsv1 == compress
    ensures var a, b, m := Assemble(NOTHING, before), Assemble(NOTHING, after),
                           Message(kind, rsv1, flushed + f.payload);
            && before <= after && b.Assembly?
            && (ok ==> after != [] && after[|after| - 1] == f)
            && if !ok then b.done == a.done && b.open == a.open
               else if IsControl(kind) then
                 b.done == a.done && b.open == None && EndsWithControl(after, kind, flushed + f.payload)
               else if f.final then b.done == a.done + [m] && b.open == None
               else b.done == a.done && b.open == Some(m)
  {
    hide Assemble;
    if flushed == [] {
      assert flushed + f.payload == f.payload;
    }
  }

  /** What the frame of a writer adds to the control frames of the stream when it comes alone. */
  lemma OneFrameMore(kind: int, frameType: int, before: seq<Frame>, f: Frame, ok: bool)
    requires f.opcode == frameType && (frameType == kind || (frameType == CONTINUATION && IsData(kind)))
    requires IsControl(kind) || IsData(kind)
    ensures var a, b := Assemble(NOTHING, before), Assemble(NOTHING, before + if ok then [f] else []);
            a.Assembly? && b.Assembly? ==>
              b.controls == a.controls + if ok && IsControl(kind) then [Control(kind, f.payload)] else []
  {
    AssembleConcat(NOTHING, before, if ok then [f] else []);
    if ok {
      AssembleOne(Assemble(NOTHING, before), f);
    } else {
      assert before + [] == before;
    }
  }

  /** The frame in two pieces, the second of which is not masked. */
  lemma FrameWithExtra(f: Frame, n: nat, extra: seq<byte>)
    requires n <= |f.payload| && f.payload[n..] == extra && (f.key.Some? ==> extra == [])
    ensures Header(f) + Body(f)[..n] + extra == Encode(f)
  {
    hide Mask, Header;
    assert Body(f)[..n] + extra == Body(f);
  }

  lemma ShortFrame(f: Frame)
    requires |f.payload| <= MAX_CONTROL_PAYLOAD
    ensures Encode(f) == [FirstByte(f.final, f.rsv1, f.opcode), SecondByte(f.key.Some?, LengthCode(|f.payload|))]
                         + ((if f.key.Some? then f.key.value else []) + Body(f))
  {
    hide FirstByte, SecondByte, Body;
  }

  method FirstByteBits(final: bool, rsv1: bool, opcode: int) returns (b0: byte)
    requires 0 <= opcode < 16
    ensures b0 == FirstByte(final, rsv1, opcode)
  {
    b0 := ByteOf(opcode);
    if final {
      b0 := b0 | FINAL_BIT;
    }
    if rsv1 {
      b0 := b0 | RSV1_BIT;
    }
  }

  method ControlHeader(messageType: int, length: nat, masked: bool) returns (b0: byte, b1: byte)
    requires IsControl(messageType) && length <= MAX_CONTROL_PAYLOAD
    ensures b0 == FirstByte(true, false, messageType) && b1 == SecondByte(masked, LengthCode(length))
  {
    b0, b1 := ByteOf(messageType) | FINAL_BIT, ByteOf(length);
    if masked {
      b1 := b1 | MASK_BIT;
    }
  }

  // What a connection has written

  /** No frame carries RSV1. */
  ghost predicate Unflagged(fs: seq<Frame>) {
    forall f :: f in fs ==> !f.rsv1
  }

  /** The octets of a frame that could have followed the stream. */
  ghost predicate BrokenOff(fs: seq<Frame>, isServer: bool, f: Frame, partial: seq<byte>) {
    f.key.None? == isServer && FitsAfter(Assemble(NOTHING, fs), f) && partial <= Encode(f)
  }

  /** Messages that are complete on the wire although the write of their last frame failed. */
  ghost function LateMessages(a: Assembly, broken: Option<Frame>, partial: seq<byte>): seq<Message> {
    if broken.Some? && partial == Encode(broken.value) && a.Assembly? && AddFrame(a, broken.value).Assembly?
    then AddFrame(a, broken.value).done[|a.done|..] else []
  }

  lemma NothingLate(a: Assembly, partial: seq<byte>)
    ensures LateMessages(a, None, partial) == []
  {}

  /** What a failed write may have completed all the same: nothing, or the message whose last frame it was. */
  lemma LateFrame(kind: int, rsv1: bool, flushed: seq<byte>, frameType: int, compress: bool, f: Frame,
                  a: Assembly, broken: Option<Frame>, partial: seq<byte>)
    requires a.Assembly? && Progress(kind, rsv1, flushed, frameType, compress, a.open)
    requires f.opcode == frameType && f.rsv1 == compress
    requires broken.Some? ==> IsControl(broken.value.opcode) || broken == Some(f)
    ensures var late := LateMessages(a, broken, partial);
            late == [] || (f.final && IsData(kind) && late == [Message(kind, rsv1, flushed + f.payload)])
  {
    hide Encode;
    if broken.Some? {
      var b := AddFrame(a, broken.value);
      assert b.Assembly? ==> b.done == a.done || (b.done == a.done + [b.done[|a.done|]]);
      assert flushed == [] ==> flushed + f.payload == f.payload;
    }
  }

  // Connections

  /** A pool of write buffers of one size. */
  class BufferPool {
    var free: set<array<byte>>

    constructor ()
      ensures free == {}
    {
      free := {};
    }

    /** A pool may hand out any buffer that was put into it, or none. */
    method Get() returns (buf: array?<byte>)
      modifies this
      ensures buf == null ==> free == old(free)
      ensures buf != null ==> buf in old(free) && free == old(free) - {buf}
    {
      buf := null;
      var hit: bool := *;
      if hit && free != {} {
        var b :| b in free;
        buf := b;
        free := free - {b};
      }
    }

    /** No buffer is put back twice. */
    method Put(buf: array<byte>)
      requires buf !in free
      modifies this
      ensures free == old(free) + {buf}
    {
      free := free + {buf};
    }
  }

  function SizeFor(writeBufferSize: int): nat {
    (if writeBufferSize <= 0 then 4096 else writeBufferSize) + MAX_HEADER
  }

  class Conn {
    const isServer: bool
    const compression: bool
    const writeBufSize: nat
    const writePool: BufferPool?

    // The processor, for the masking of memory.
    const wordSize: nat
    const bigEndian: bool

    // Whether the transport never fails and no other goroutine writes control frames.
    const undisturbed: bool

    var writeBuf: array?<byte>
    var writer: MessageWriter?
    var isWriting: bool
    var writeErr: Option<WriteError>

    // What the transport has taken: the octets, the frames written with success, and the octets of a last frame whose
    // write failed.
    var wire: seq<byte>
    ghost var frames: seq<Frame>
    ghost var partial: seq<byte>
    ghost var broken: Option<Frame>

    // The message writer whose message is not ended.
    ghost var open: MessageWriter?

    /** The wire is whole frames and at most one broken frame, which is last: one that could have been sent there, of
        which some octets, all or none have gone out. There is a broken frame exactly after a failed write. A Close
        frame is last too. */
    ghost predicate WireOk()
      reads `wire, `frames, `partial, `broken, `writeErr
    {
      && wire == EncodeAll(frames) + partial
      && (writeErr == None || writeErr == Some(CloseSent) || writeErr == Some(NetworkFailed))
      && (if writeErr == Some(CloseSent) then ClosedLast(frames) else NoClose(frames))
      && (if writeErr == Some(NetworkFailed) then broken.Some? && BrokenOff(frames, isServer, broken.value, partial)
          else broken.None? && partial == [])
      && FromPeer(frames, isServer)
      && (!compression ==> Unflagged(frames) && (broken.Some? ==> !broken.value.rsv1))
    }

    ghost function Stream(): Assembly
      reads `frames
    {
      Assemble(NOTHING, frames)
    }

    ghost function Late(): seq<Message>
      reads `frames, `partial, `broken
    {
      LateMessages(Stream(), broken, partial)
    }

    /** newConn: the default size unless a positive one is asked for; room for the header in front. Without a pool the
        caller may hand in a buffer of any size. */
    constructor (isServer: bool, compression: bool, writeBufferSize: int, writePool: BufferPool?,
                 callersBuf: array?<byte>, wordSize: nat, bigEndian: bool, undisturbed: bool)
      requires callersBuf != null ==> writePool == null && MAX_HEADER < callersBuf.Length < MAX_SLICE
      requires writeBufferSize < MAX_SLICE - MAX_HEADER
      requires wordSize == 4 || wordSize == 8
      requires writePool != null ==> forall b :: b in writePool.free ==> b.Length == SizeFor(writeBufferSize)
      ensures Ready() && open == null && frames == [] && wire == [] && writeErr == None && broken == None
      ensures this.isServer == isServer && this.compression == compression && this.writePool == writePool
      ensures this.undisturbed == undisturbed && writeBufSize == SizeFor(writeBufferSize)
      ensures writePool == null ==> if callersBuf != null then writeBuf == callersBuf else fresh(writeBuf)
      ensures Room() == if callersBuf != null then callersBuf.Length - 14
                        else if writeBufferSize <= 0 then 4096 else writeBufferSize
    {
      this.isServer, this.compression, this.writePool := isServer, compression, writePool;
      this.wordSize, this.bigEndian, this.undisturbed := wordSize, bigEndian, undisturbed;
      writeBufSize := SizeFor(writeBufferSize);
      if callersBuf == null && writePool == null {
        writeBuf := new byte[SizeFor(writeBufferSize)];
      } else {
        writeBuf := callersBuf;
      }
      writer, isWriting, writeErr := null, false, None;
      wire, frames, partial, broken, open := [], [], [], None, null;
    }

    /** The invariant of every method. */
    ghost predicate Valid()
      reads this, writePool, open
    {
      && (wordSize == 4 || wordSize == 8)
      && MAX_HEADER < writeBufSize < MAX_SLICE
      && !isWriting
      && WireOk()
      && Stream().Assembly?
      && BuffersOk()
      && (writer != null ==> writer == open)
      && (open == null && writeErr.None? ==> Stream().open.None?)
      && (open != null ==>
            && writeBuf != null && open.c == this && (open.rsv1 ==> compression)
            && open.InMessage(writeBuf.Length, Stream().open))
    }

    /** Without a pool the connection has its buffer; with one it has a buffer exactly while a message is open, and
        that buffer is not in the pool. */
    ghost predicate BuffersOk()
      reads `writeBuf, `open, writePool
    {
      && (writePool == null ==> writeBuf != null && MAX_HEADER < writeBuf.Length < MAX_SLICE)
      && (writePool != null ==>
            && (writeBuf != null ==> writeBuf.Length == writeBufSize)
            && (writeBuf != null <==> open != null)
            && writeBuf !in writePool.free
            && forall b :: b in writePool.free ==> b.Length == writeBufSize)
    }

    /** The payload bytes that the write buffer holds. */
    function Room(): int
      reads `writeBuf
    {
      (if writeBuf != null then writeBuf.Length else writeBufSize) - MAX_HEADER
    }

    /** Between the calls of an application: the open message, if any, is the one NextWriter has returned. */
    ghost predicate Ready()
      reads this, writePool, open
    {
      Valid() && open == writer
    }

    /** The message that closing the open writer will complete. */
    ghost function Pending(): seq<Message>
      requires Valid()
      reads this, writePool, open, writeBuf
    {
      if open != null && IsData(open.kind) then [Message(open.kind, open.rsv1, open.Accepted())] else []
    }

    // The critical section

    twostate predicate StreamUnchanged()
      reads `wire, `frames, `partial, `broken
    {
      wire == old(wire) && frames == old(frames) && partial == old(partial) && broken == old(broken)
    }

    /** If a write has failed it was one of a control frame. */
    ghost predicate NoDataBroken()
      reads `broken
    {
      broken.Some? ==> IsControl(broken.value.opcode)
    }

    lemma StickyErrors()
      requires WireOk()
      ensures writeErr == None || writeErr == Some(CloseSent) || writeErr == Some(NetworkFailed)
    {}

    /** Write the bytes of the frame f, with the lock held: nothing after an error, which sticks; a failing transport
        may have taken any part of them; a Close frame is the last. */
    method LockedWrite(frameType: int, buf: seq<byte>, ghost f: Frame) returns (err: Option<WriteError>)
      requires WireOk() && buf == Encode(f) && frameType == f.opcode && f.key.None? == isServer
      requires FitsAfter(Stream(), f) && (f.rsv1 ==> compression)
      modifies `wire, `frames, `partial, `broken, `writeErr
      ensures WireOk()
      ensures old(writeErr).Some? ==> err == writeErr == old(writeErr) && StreamUnchanged()
      ensures old(writeErr).None? ==>
                if err.None? then frames == old(frames) + [f] && broken == old(broken)
                                  && writeErr == if f.opcode == CLOSE then Some(CloseSent) else None
                else frames == old(frames) && writeErr == err == Some(NetworkFailed)
                     && broken == Some(f) && !undisturbed
    {
      hide Encode, FitsAfter, Assemble, EncodeAll;
      err := writeErr;
      if err.Some? {
        return;
      }
      var ok: bool := *;
      if !ok && !undisturbed {
        var n :| 0 <= n <= |buf|;
        wire, partial, broken := wire + buf[..n], buf[..n], Some(f);
        writeErr := Some(NetworkFailed);
        return writeErr;
      }
      OneMore(frames, f);
      wire, frames := wire + buf, frames + [f];
      if frameType == CLOSE {
        writeErr := Some(CloseSent);
      }
    }

    /** The bytes of a control frame, as WriteControl builds them. */
    method ControlBytes(messageType: int, data: seq<byte>) returns (buf: seq<byte>, ghost f: Frame)
      requires IsControl(messageType) && |data| <= MAX_CONTROL_PAYLOAD
      requires wordSize == 4 || wordSize == 8
      ensures buf == Encode(f) && f.opcode == messageType && f.payload == data && ControlFrames([f], isServer)
    {
      hide Encode, Header, FirstByte, SecondByte, LengthCode, Mask;
      var b0, b1 := ControlHeader(messageType, |data|, !isServer);
      if isServer {
        f := FrameFields(true, false, messageType, None, data);
        buf := [b0, b1] + data;
      } else {
        var key := NewMaskKey();
        f := FrameFields(true, false, messageType, Some(key), data);
        buf := MaskedControl(b0, b1, key, data);
      }
      ShortFrame(f);
    }

    method MaskedControl(b0: byte, b1: byte, key: Key, data: seq<byte>) returns (buf: seq<byte>)
      requires wordSize == 4 || wordSize == 8
      ensures buf == [b0, b1] + (key + Mask(key, 0, data))
    {
      hide Mask, MaskRange;
      var plain := [b0, b1] + key + data;
      var b := new byte[|plain|](i requires 0 <= i < |plain| => plain[i]);
      assert b[..] == plain && plain[..6] == [b0, b1] + key && plain[6..|plain|] == data;
      ghost var before := b[..];
      var addr: nat := *;
      var _ := MaskBytes(key, 0, b, 6, b.Length, addr, wordSize, bigEndian);
      RangeParts(key, before, 6, b.Length);
      buf := b[..];
      assert buf == b[..6] + b[6..b.Length];
    }

    /** One WriteControl call of another goroutine, once it has the lock. */
    method OtherControl() returns (ghost cs: seq<Frame>)
      requires WireOk() && Stream().Assembly? && (wordSize == 4 || wordSize == 8)
      modifies `wire, `frames, `partial, `broken, `writeErr
      ensures WireOk() && Stream().Assembly? && ControlFrames(cs, isServer) && frames == old(frames) + cs
      ensures old(writeErr).Some? || undisturbed ==> writeErr == old(writeErr) && StreamUnchanged() && cs == []
      ensures old(NoDataBroken()) ==> NoDataBroken()
    {
      hide Encode, WireOk, Assemble;
      cs := [];
      var kind: int := *;
      var data: seq<byte> := *;
      if !undisturbed && IsControl(kind) && |data| <= MAX_CONTROL_PAYLOAD {
        var buf, f := ControlBytes(kind, data);
        assert f in [f];
        var err := LockedWrite(kind, buf, f);
        cs := if err.None? then [f] else [];
      }
      ControlsAdded(old(frames), cs, isServer);
    }

    /** Any number of WriteControl calls of other goroutines that get the lock before this one. */
    method OtherControls() returns (ghost cs: seq<Frame>)
      requires WireOk() && Stream().Assembly? && (wordSize == 4 || wordSize == 8)
      modifies `wire, `frames, `partial, `broken, `writeErr
      ensures WireOk() && Stream().Assembly? && ControlFrames(cs, isServer) && frames == old(frames) + cs
      ensures old(writeErr).Some? || undisturbed ==> writeErr == old(writeErr) && StreamUnchanged() && cs == []
      ensures old(NoDataBroken()) ==> NoDataBroken()
    {
      hide WireOk, Assemble;
      cs := [];
      var calls: nat := *;
      while calls > 0
        invariant WireOk() && Stream().Assembly? && ControlFrames(cs, isServer) && frames == old(frames) + cs
        invariant old(writeErr).Some? || undisturbed ==> writeErr == old(writeErr) && StreamUnchanged() && cs == []
        invariant old(NoDataBroken()) ==> NoDataBroken()
      {
        ghost var more := OtherControl();
        cs := cs + more;
        calls := calls - 1;
      }
    }

    /** write: wait for the lock, and then the critical section. */
    method WriteFrame(frameType: int, buf0: seq<byte>, buf1: seq<byte>, ghost f: Frame)
      returns (err: Option<WriteError>, ghost cs: seq<Frame>)
      requires WireOk() && (wordSize == 4 || wordSize == 8) && FitsAfter(Stream(), f)
      requires f.rsv1 ==> compression
      requires buf0 + buf1 == Encode(f) && frameType == f.opcode && f.key.None? == isServer
      modifies `wire, `frames, `partial, `broken, `writeErr
      ensures WireOk() && ControlFrames(cs, isServer)
      ensures old(writeErr).Some? ==> err == writeErr == old(writeErr) && StreamUnchanged() && cs == []
      ensures old(writeErr).None? ==> if err.None? then broken.None? else NoDataBroken() || broken == Some(f)
      ensures if err.None? then frames == old(frames) + cs + [f]
                && writeErr == if f.opcode == CLOSE then Some(CloseSent) else None
              else frames == old(frames) + cs && writeErr == err
      ensures undisturbed ==> cs == [] && (old(writeErr).None? ==> err.None?)
    {
      hide Encode, Assemble, EncodeAll;
      cs := OtherControls();
      ControlsAdded(old(frames), cs, isServer);
      err := LockedWrite(frameType, buf0 + buf1, f);
    }

    /** WriteControl, for use at any time, also while a message is open. Its deadline may pass before it gets the lock,
        or have passed when it is called. */
    method WriteControl(messageType: int, data: seq<byte>, late: bool) returns (e: Option<WriteError>)
      requires Ready()
      modifies `wire, `frames, `partial, `broken, `writeErr
      ensures Ready() && old(frames) <= frames && Stream().done == old(Stream().done)
              && Stream().open == old(Stream().open)
      ensures !IsControl(messageType) <==> e == Some(BadWriteOpCode)
      ensures IsControl(messageType) ==> (|data| > MAX_CONTROL_PAYLOAD <==> e == Some(InvalidControlFrame))
      ensures IsControl(messageType) && |data| <= MAX_CONTROL_PAYLOAD ==>
                if late then e == Some(WriteTimeout) && StreamUnchanged() && writeErr == old(writeErr)
                else e != Some(WriteTimeout) && (e.Some? ==> e == writeErr)
      ensures undisturbed && old(writeErr).None? && IsControl(messageType) && |data| <= MAX_CONTROL_PAYLOAD && !late ==>
                e == None
      ensures old(writeErr).Some? ==> e.Some? && wire == old(wire) && writeErr == old(writeErr)
      ensures e == None ==> EndsWithControl(frames, messageType, data)
                            && writeErr == if messageType == CLOSE then Some(CloseSent) else None
    {
      hide Encode, EncodeAll, Assemble, WireOk;
      if !IsControl(messageType) {
        return Some(BadWriteOpCode);
      }
      if |data| > MAX_CONTROL_PAYLOAD {
        return Some(InvalidControlFrame);
      }
      var buf, f := ControlBytes(messageType, data);
      assert f in [f];
      if late {
        return Some(WriteTimeout);
      }
      ghost var cs;
      e, cs := WriteFrame(messageType, buf, [], f);
      ControlsAdded(old(frames), cs + if e.None? then [f] else [], isServer);
      assert frames == old(frames) + (cs + if e.None? then [f] else []);
      StickyErrors();
    }

    /** The buffers that the connection or its pool holds. */
    ghost function Buffers(): set<array<byte>>
      reads `writeBuf, writePool
    {
      (if writeBuf != null then {writeBuf} else {}) + if writePool != null then writePool.free else {}
    }

    /** Where nothing disturbs the connection, a call adds just these control frames to the stream, and fails for the
        message alone. */
    twostate predicate OnlyAdds(controls: seq<Control>, new e: Option<WriteError>)
      reads `frames, `writeErr
    {
      undisturbed && Stream().Assembly? && old(Stream()).Assembly? ==>
        && Stream().controls == old(Stream()).controls + controls
        && (old(writeErr).None? && e.Some? ==> e == Some(InvalidControlFrame))
    }

    /** What beginMessage and NextWriter have made of the connection when they return the writer mw. */
    twostate predicate Begun(messageType: int, new mw: MessageWriter?)
      requires old(Valid())
      reads this, writePool, mw
    {
      && mw != null && mw.c == this && open == mw && mw.kind == messageType && mw.err == None
      && mw.pos == MAX_HEADER && mw.flushed == [] && writeErr == None && old(writeErr) == None
      && Stream().Assembly? && Stream().done == old(Stream().done) + old(Pending())
      && (IsControl(messageType) || IsData(messageType))
      && writeBuf != null && (writeBuf == old(writeBuf) || writeBuf in old(Buffers()) || fresh(writeBuf))
      && (writePool == null ==> writeBuf == old(writeBuf))
    }

    /** What a call that begins a message has made of the connection when it fails. */
    twostate predicate NotBegun(messageType: int, new e: Option<WriteError>)
      requires old(Valid())
      reads this
    {
      && e.Some? && open == null && writer == null
      && (e == Some(BadWriteOpCode) <==> !IsControl(messageType) && !IsData(messageType))
      && (e == writeErr || e == Some(BadWriteOpCode))
      && Stream().Assembly?
      && (Stream().done == old(Stream().done) || Stream().done == old(Stream().done) + old(Pending()))
    }

    /** A buffer from the pool, or a new one. */
    method TakeBuffer()
      requires writeBuf == null && writePool != null
      modifies `writeBuf, writePool
      ensures writeBuf != null
      ensures if writeBuf in old(writePool.free) then writePool.free == old(writePool.free) - {writeBuf}
              else fresh(writeBuf) && writeBuf.Length == writeBufSize && writePool.free == old(writePool.free)
    {
      writeBuf := writePool.Get();
      if writeBuf == null {
        writeBuf := new byte[writeBufSize];
      }
    }

    /** The writer that is still open is closed. */
    method ClosePrevious()
      requires Ready()
      modifies this, writePool, open, writeBuf
      ensures Valid() && writer == null && open == null && old(frames) <= frames
      ensures old(open) != null ==> old(open).err.Some?
      ensures old(writeErr).Some? ==> wire == old(wire) && writeErr == old(writeErr)
      ensures Buffers() == old(Buffers()) && (writePool == null ==> writeBuf == old(writeBuf))
      ensures old(open) == null ==> StreamUnchanged() && writeErr == old(writeErr)
      ensures var a, b := old(Stream()), Stream();
              a.Assembly? && b.Assembly? && (b.done == a.done + old(Pending()) || (b.done == a.done && writeErr.Some?))
    {
      hide Assemble, EncodeAll, LateMessages, WireOk;
      assert Stream().done + [] == Stream().done;
      if writer != null {
        assert writer.Accepted() + [] == writer.Accepted();
        var _ := writer.Close();
        writer := null;
      }
    }

    /** beginMessage: the writer that is still open is closed first. */
    method BeginMessage(messageType: int, compress: bool) returns (mw: MessageWriter?, e: Option<WriteError>)
      requires Ready() && (compress ==> IsData(messageType) && compression)
      modifies this, writePool, open, writeBuf
      ensures Valid() && writer == null && old(frames) <= frames
      ensures old(open) != null ==> old(open).err.Some?
      ensures old(writeErr).Some? ==> wire == old(wire) && writeErr == old(writeErr)
      ensures writePool == null ==> writeBuf == old(writeBuf)
      ensures fresh(Buffers() - old(Buffers()))
      ensures old(open) == null ==> StreamUnchanged() && writeErr == old(writeErr)
      ensures if e.None? then Begun(messageType, mw) && fresh(mw) && mw.rsv1 == compress
              else mw == null && NotBegun(messageType, e)
    {
      hide Assemble, EncodeAll, LateMessages, WireOk;
      ClosePrevious();
      mw := null;
      if !IsControl(messageType) && !IsData(messageType) {
        return null, Some(BadWriteOpCode);
      }
      e := writeErr;
      if e.Some? {
        StickyErrors();
        return;
      }
      if writeBuf == null {
        TakeBuffer();
      }
      mw := new MessageWriter(this, messageType, compress);
      open := mw;
    }

    /** NextWriter. With compression the application's bytes reach the writer through a compressor, which is not part
        of this model: what is written here is then the compressed stream. */
    method NextWriter(messageType: int) returns (mw: MessageWriter?, e: Option<WriteError>)
      requires Ready()
      modifies this, writePool, open, writeBuf
      ensures Ready() && old(frames) <= frames
      ensures old(open) != null ==> old(open).err.Some?
      ensures old(writeErr).Some? ==> wire == old(wire) && writeErr == old(writeErr)
      ensures fresh(Buffers() - old(Buffers()))
      ensures writePool == null ==> writeBuf == old(writeBuf)
      ensures old(open) == null ==> StreamUnchanged() && writeErr == old(writeErr)
      ensures if e.None? then Begun(messageType, mw) && fresh(mw) && mw.rsv1 == (compression && IsData(messageType))
              else mw == null && NotBegun(messageType, e)
    {
      hide Assemble, EncodeAll, LateMessages, WireOk, Progress, BuffersOk;
      mw, e := BeginMessage(messageType, compression && IsData(messageType));
      writer := mw;
    }

    /** What a call of WriteMessage has made of the connection. */
    twostate predicate MessageWritten(messageType: int, data: seq<byte>, new e: Option<WriteError>)
      requires old(Valid())
      reads this
    {
      && open == null && Stream().Assembly?
      && (old(open) == null ==>
            OnlyAdds(if e.None? && IsControl(messageType) then [Control(messageType, data)] else [], None))
      && (old(open) == null && old(Late()) == [] ==>
            Late() == [] || (e.Some? && IsData(messageType) && Late() == [Message(messageType, false, data)]))
      && (undisturbed && old(open) == null && old(writeErr) == None ==> (e.None? <==> old(Writable(messageType, data))))
      && (e.None? && isServer ==> frames != [] && frames[|frames| - 1].payload == data)
      && if e.None? then
           && Stream().open.None?
           && old(writeErr) == None && writeErr == (if messageType == CLOSE then Some(CloseSent) else None)
           && if IsData(messageType) then
                Stream().done == old(Stream().done) + old(Pending()) + [Message(messageType, false, data)]
              else Stream().done == old(Stream().done) + old(Pending()) && EndsWithControl(frames, messageType, data)
         else
           && (Stream().done == old(Stream().done) || Stream().done == old(Stream().done) + old(Pending()))
           && (e == writeErr || (e == Some(InvalidControlFrame) && IsControl(messageType))
               || (e == Some(BadWriteOpCode) && !IsControl(messageType) && !IsData(messageType)))
    }

    /** The connection has no reason of its own to refuse the message. Except for a server without compression, a
        control message has to fit the write buffer too, since it goes through a message writer. */
    predicate Writable(messageType: int, data: seq<byte>)
      reads `writeBuf
    {
      || IsData(messageType)
      || (IsControl(messageType) && |data| <= MAX_CONTROL_PAYLOAD && ((isServer && !compression) || |data| <= Room()))
    }

    /** WriteMessage: a server without compression puts the message into a single frame, what the buffer does not hold
        behind it; the others use a message writer. */
    method WriteMessage(messageType: int, data: seq<byte>) returns (e: Option<WriteError>)
      requires Ready() && !(compression && IsData(messageType)) && |data| < MAX_SLICE
      modifies this, writePool, open, Buffers()
      ensures Ready() && old(frames) <= frames
      ensures old(open) != null ==> old(open).err.Some?
      ensures old(writeErr).Some? ==> e.Some? && wire == old(wire) && writeErr == old(writeErr)
      ensures fresh(Buffers() - old(Buffers()))
      ensures writePool == null ==> writeBuf == old(writeBuf)
      ensures MessageWritten(messageType, data, e)
    {
      hide Assemble, EncodeAll, LateMessages, WireOk, Progress;
      if isServer && !compression {
        e := WriteSingleFrame(messageType, data);
        return;
      }
      var w;
      w, e := NextWriter(messageType);
      if e.None? {
        assert w.Accepted() == [];
        e := w.WriteAndClose(data);
      }
    }

    /** The fast path of WriteMessage. */
    method WriteSingleFrame(messageType: int, data: seq<byte>) returns (e: Option<WriteError>)
      requires Ready() && isServer && !compression && |data| < MAX_SLICE
      modifies this, writePool, open, Buffers()
      ensures Ready() && old(frames) <= frames
      ensures old(open) != null ==> old(open).err.Some?
      ensures old(writeErr).Some? ==> e.Some? && wire == old(wire) && writeErr == old(writeErr)
      ensures fresh(Buffers() - old(Buffers()))
      ensures writePool == null ==> writeBuf == old(writeBuf)
      ensures MessageWritten(messageType, data, e)
    {
      hide Assemble, EncodeAll, LateMessages, WireOk, Progress;
      var mw;
      mw, e := BeginMessage(messageType, false);
      if e.None? {
        assert mw.Accepted() == [];
        e := mw.FillAndFlush(data);
      }
    }
  }

  datatype SourceError = FromSource | FromConn(error: WriteError)

  /** The reader that an application passes to ReadFrom: some bytes, and then EOF or an error. */
  class Source {
    var rest: seq<byte>
    const endsWell: bool

    // How many reads may still return nothing.
    var idle: nat

    constructor (rest: seq<byte>, endsWell: bool, idle: nat)
      ensures this.rest == rest && this.endsWell == endsWell && this.idle == idle
    {
      this.rest, this.endsWell, this.idle := rest, endsWell, idle;
    }

    /** A read of at most max bytes; the end comes with the last bytes or after them. Some reads return no bytes and no
        error. */
    method Read(max: nat) returns (data: seq<byte>, done: bool)
      requires max > 0
      modifies this
      ensures |data| <= max && old(rest) == data + rest && idle <= old(idle)
      ensures done ==> rest == []
      ensures !done ==> data != [] || idle < old(idle)
    {
      var nothing: bool := *;
      if nothing && idle > 0 {
        idle := idle - 1;
        return [], false;
      }
      if rest == [] {
        return [], true;
      }
      var n :| 1 <= n <= max && n <= |rest|;
      data, rest := rest[..n], rest[n..];
      var withData: bool := *;
      done := withData && rest == [];
    }
  }

  class MessageWriter {
    const c: Conn
    var compress: bool
    var pos: nat
    var frameType: int
    var err: Option<WriteError>

    // The type of the message, whether it is compressed, and the bytes of it that have gone out in frames.
    ghost const kind: int
    ghost const rsv1: bool
    ghost var flushed: seq<byte>

    constructor (c: Conn, messageType: int, compress: bool)
      requires IsControl(messageType) || IsData(messageType)
      requires compress ==> IsData(messageType)
      ensures this.c == c && kind == messageType && rsv1 == compress && fresh(this)
      ensures pos == MAX_HEADER && frameType == messageType && err == None && this.compress == compress && flushed == []
    {
      this.c, this.compress, pos, frameType, err := c, compress, MAX_HEADER, messageType, None;
      kind, rsv1, flushed := messageType, compress, [];
    }

    /** The writer agrees with the unfinished message of the stream. */
    ghost predicate InMessage(size: nat, unfinished: Option<Message>)
      reads this
    {
      && err == None
      && MAX_HEADER <= pos <= size
      && Progress(kind, rsv1, flushed, frameType, compress, unfinished)
    }

    /** Every byte the writer has accepted: those gone out, and those in the buffer. */
    ghost function Accepted(): seq<byte>
      requires c.writeBuf != null && MAX_HEADER <= pos <= c.writeBuf.Length
      reads this, c, c.writeBuf
    {
      flushed + c.writeBuf[MAX_HEADER..pos]
    }

    /** endMessage: the message is over, and the buffer goes back to the pool. */
    method EndMessage(e: WriteError)
      requires err == None && c.open == this && c.writeBuf != null
      requires c.writePool != null ==> c.writeBuf !in c.writePool.free
      modifies this`err, c`writer, c`open, c`writeBuf, c.writePool
      ensures err == Some(e) && c.writer == null && c.open == null
      ensures if c.writePool == null then c.writeBuf == old(c.writeBuf)
              else c.writeBuf == null && c.writePool.free == old(c.writePool.free) + {old(c.writeBuf)}
    {
      err := Some(e);
      c.writer := null;
      c.open := null;
      if c.writePool != null {
        c.writePool.Put(c.writeBuf);
        c.writeBuf := null;
      }
    }

    /** Build the next frame in the buffer, with extra to be sent behind what the buffer holds. */
    method BuildNext(final: bool, extra: seq<byte>) returns (framePos: nat, ghost f: Frame)
      requires c.Valid() && c.open == this && |extra| < MAX_SLICE
      requires c.isServer || extra == []
      modifies this`compress, c.writeBuf
      ensures !compress && framePos <= pos
      ensures f.final == final && f.rsv1 == old(compress) && f.opcode == frameType && f.key.None? == c.isServer
      ensures f.payload == old(c.writeBuf[MAX_HEADER..pos]) + extra
      ensures c.writeBuf[framePos..pos] + extra == Encode(f)
    {
      hide Encode, Header, Body, Mask, FirstByte, EncodeAll, Assemble;
      var b0 := FirstByteBits(final, compress, frameType);
      var key := NewMaskKey();
      f := FrameFields(final, compress, frameType, if c.isServer then None else Some(key),
                       c.writeBuf[MAX_HEADER..pos] + extra);
      compress := false;
      framePos := BuildFrame(c.writeBuf, pos, f, b0, if c.isServer then 0 else MASK_BIT,
                             pos - MAX_HEADER + |extra|, key,
                             !c.isServer, c.wordSize, c.bigEndian);
      FrameWithExtra(f, pos - MAX_HEADER, extra);
    }

    /** Build the next frame and write it. */
    method Emit(final: bool, extra: seq<byte>) returns (e: Option<WriteError>, ghost f: Frame)
      requires c.Valid() && c.open == this && |extra| < MAX_SLICE
      requires c.isServer || extra == []
      requires IsControl(frameType) ==> final && pos - MAX_HEADER + |extra| <= MAX_CONTROL_PAYLOAD
      modifies this`compress, c`wire, c`frames, c`partial, c`broken, c`writeErr, c`isWriting, c.writeBuf
      ensures c.WireOk() && !c.isWriting && !compress
      ensures f.final == final && f.rsv1 == old(compress) && f.opcode == frameType
              && f.payload == old(c.writeBuf[MAX_HEADER..pos]) + extra
      ensures old(c.writeErr).Some? ==> e == c.writeErr == old(c.writeErr) && c.StreamUnchanged()
      ensures old(c.writeErr).None? ==> if e.None? then c.broken.None? else c.NoDataBroken() || c.broken == Some(f)
      ensures e.None? ==> c.writeErr == if frameType == CLOSE then Some(CloseSent) else None
      ensures e.Some? ==> c.writeErr == e && e != Some(InvalidControlFrame)
      ensures Sent(old(c.frames), f, e.None?, c.frames)
      ensures c.undisturbed ==>
                c.frames == old(c.frames) + (if e.None? then [f] else []) && (old(c.writeErr).None? ==> e.None?)
    {
      hide Encode, EncodeAll, Assemble, Extends;
      var framePos;
      framePos, f := BuildNext(final, extra);
      assert !c.isWriting;
      c.isWriting := true;
      ghost var cs;
      e, cs := c.WriteFrame(frameType, c.writeBuf[framePos..pos], extra, f);
      assert c.isWriting;
      c.isWriting := false;
      SentFrame(old(c.frames), cs, f, e.None?, c.isServer);
      assert c.frames == old(c.frames) + cs + if e.None? then [f] else [];
    }

    /** What flushFrame has made of the stream. */
    twostate predicate StreamAfter(final: bool, extra: seq<byte>, new e: Option<WriteError>)
      requires old(c.Valid()) && old(c.open) == this
      reads c`wire, c`frames, c`partial, c`broken, c`writeErr
    {
      var message := Message(kind, rsv1, old(Accepted()) + extra);
      && old(c.frames) <= c.frames
      && c.Stream().Assembly?
      && c.Stream().done == old(c.Stream().done) + (if e.None? && final && IsData(kind) then [message] else [])
      && (e.None? && final && IsControl(kind) ==> EndsWithControl(c.frames, kind, message.payload))
      && (e.None? ==> c.frames != [] && c.frames[|c.frames| - 1].payload == old(c.writeBuf[MAX_HEADER..pos]) + extra)
      && (e.None? ==> c.writeErr == if final && kind == CLOSE then Some(CloseSent) else None)
      && (e.None? && final ==> c.Stream().open.None?)
      && (e.Some? && e != Some(InvalidControlFrame) ==> c.writeErr == e)
      && c.OnlyAdds(if e.None? && IsControl(kind) then [Control(kind, message.payload)] else [], e)
      && (c.Late() == [] || (old(c.writeErr).Some? && c.Late() == old(c.Late()))
          || (e.Some? && final && IsData(kind) && c.Late() == [message]))
      && (e.None? ==> c.Late() == [])
      && (old(c.writeErr).Some? ==> e.Some? && c.wire == old(c.wire) && c.writeErr == old(c.writeErr))
    }

    /** The state in which flushFrame leaves the connection and this writer. */
    twostate predicate AfterFlush(final: bool, extra: seq<byte>, new e: Option<WriteError>)
      requires old(c.Valid()) && old(c.open) == this
      reads this, c, c.writePool
    {
      var ended := final || e.Some?;
      var payload := old(Accepted()) + extra;
      && StreamAfter(final, extra, e)
      && c.open == (if ended then null else this)
      && c.writer == (if ended then null else old(c.writer))
      && (e.Some? ==> err == e)
      && (e == Some(InvalidControlFrame) <==> IsControl(kind) && (!final || |payload| > MAX_CONTROL_PAYLOAD))
      && (e.None? ==> err == if final then Some(WriteClosed) else None)
      && (e.None? && !final ==> c.writeBuf == old(c.writeBuf) && pos == MAX_HEADER && flushed == payload)
      && if ended && c.writePool != null then c.writePool.free == old(c.writePool.free) + {old(c.writeBuf)}
         else c.writeBuf == old(c.writeBuf) && (c.writePool != null ==> c.writePool.free == old(c.writePool.free))
    }

    /** Build the next frame and write it: what that does to the stream of messages. */
    method EmitNext(final: bool, extra: seq<byte>) returns (e: Option<WriteError>)
      requires c.Valid() && c.open == this && |extra| < MAX_SLICE
      requires c.isServer || extra == []
      requires IsControl(frameType) ==> final && pos - MAX_HEADER + |extra| <= MAX_CONTROL_PAYLOAD
      modifies this`compress, c`wire, c`frames, c`partial, c`broken, c`writeErr, c`isWriting, c.writeBuf
      ensures c.WireOk() && !c.isWriting && !compress
      ensures StreamAfter(final, extra, e) && e != Some(InvalidControlFrame)
      ensures c.Stream().Assembly? && (e.Some? ==> c.writeErr == e)
      ensures IsControl(kind) ==> final && |old(Accepted()) + extra| <= MAX_CONTROL_PAYLOAD
      ensures var open := c.Stream().open;
              if e.Some? then open == old(c.Stream().open)
              else open == if final then None else Some(Message(kind, rsv1, old(Accepted()) + extra))
    {
      hide Assemble, EncodeAll, LateMessages, Sent, FromPeer, NoClose, Conn.WireOk;
      ghost var sent := c.writeBuf[MAX_HEADER..pos] + extra;
      assert Accepted() + extra == flushed + sent && (flushed == [] ==> flushed + sent == sent);
      ghost var f;
      e, f := Emit(final, extra);
      ProgressSent(kind, rsv1, flushed, frameType, old(compress), old(c.frames), f, e.None?, c.frames);
      NothingLate(c.Stream(), c.partial);
      if e.Some? && old(c.writeErr).None? {
        LateFrame(kind, rsv1, flushed, frameType, old(compress), f, c.Stream(), c.broken, c.partial);
      }
      if c.undisturbed {
        OneFrameMore(kind, frameType, old(c.frames), f, e.None?);
      }
    }

    /** flushFrame. The branch for extra in client mode is unreachable: only servers pass extra. */
    method FlushFrame(final: bool, extra: seq<byte>) returns (e: Option<WriteError>)
      requires c.Valid() && c.open == this && |extra| < MAX_SLICE
      requires c.isServer || extra == []
      modifies this, c, c.writeBuf, c.writePool
      ensures c.Valid()
      ensures AfterFlush(final, extra, e)
    {
      var length := pos - MAX_HEADER + |extra|;
      if IsControl(frameType) && (!final || length > MAX_CONTROL_PAYLOAD) {
        EndMessage(InvalidControlFrame);
        return err;
      }
      e := FlushChecked(final, extra);
    }

    /** flushFrame, when the frame is one that may be sent. */
    method FlushChecked(final: bool, extra: seq<byte>) returns (e: Option<WriteError>)
      requires c.Valid() && c.open == this && |extra| < MAX_SLICE
      requires c.isServer || extra == []
      requires IsControl(frameType) ==> final && pos - MAX_HEADER + |extra| <= MAX_CONTROL_PAYLOAD
      modifies this, c, c.writeBuf, c.writePool
      ensures c.Valid()
      ensures AfterFlush(final, extra, e)
    {
      hide Assemble, EncodeAll, LateMessages, Conn.WireOk, StreamAfter;
      ghost var payload := Accepted() + extra;
      e := EmitNext(final, extra);
      if final || e.Some? {
        EndMessage(if e.Some? then e.value else WriteClosed);
      } else {
        flushed := payload;
        pos := MAX_HEADER;
        frameType := CONTINUATION;
      }
    }

    /** The message is open as before; what was complete before is complete, and nothing else. */
    twostate predicate Kept()
      reads this, c, c.writePool
    {
      && c.open == this && c.writer == old(c.writer) && c.writeBuf == old(c.writeBuf)
      && c.Stream().Assembly? && old(c.Stream()).Assembly? && c.Stream().done == old(c.Stream()).done
      && old(c.frames) <= c.frames
      && (old(c.writeErr).Some? || c.undisturbed ==> c.writeErr == old(c.writeErr))
      && (old(c.writeErr).Some? ==> c.wire == old(c.wire))
      && c.OnlyAdds([], None)
      && (c.Late() == [] || c.Late() == old(c.Late()))
      && (c.writePool != null ==> c.writePool.free == old(c.writePool.free))
    }

    /** The message has ended with an error: nothing more is complete than before, and the buffer is back in the pool.
        */
    twostate predicate Lost(new e: Option<WriteError>)
      reads this, c, c.writePool
    {
      && e.Some? && err == e && c.open == null && c.writer == null
      && (if e == Some(InvalidControlFrame) then IsControl(kind) else c.writeErr == e && !IsControl(kind))
      && c.Stream().Assembly? && old(c.Stream()).Assembly? && c.Stream().done == old(c.Stream()).done
      && old(c.frames) <= c.frames
      && (old(c.writeErr).Some? ==> c.wire == old(c.wire) && c.writeErr == old(c.writeErr))
      && c.OnlyAdds([], e)
      && (c.Late() == [] || c.Late() == old(c.Late()))
      && (if c.writePool != null then old(c.writeBuf) != null
              && c.writePool.free == old(c.writePool.free) + {old(c.writeBuf)}
          else c.writeBuf == old(c.writeBuf))
    }

    /** A closed writer touches nothing. */
    twostate predicate Untouched(new e: Option<WriteError>)
      reads this, c, c.writeBuf, c.writePool
    {
      && e == old(err) && unchanged(this) && unchanged(c)
      && (c.writeBuf != null ==> unchanged(c.writeBuf))
      && (c.writePool != null ==> unchanged(c.writePool))
    }

    /** Nothing of a control message goes out before it is complete. */
    lemma ControlInBuffer()
      requires c.Valid() && c.open == this
      ensures IsControl(kind) ==> |Accepted()| == pos - MAX_HEADER <= c.Room()
    {}

    /** ncopy: room for at least one of max bytes, after a flush when the buffer is full. */
    method Ncopy(max: nat) returns (n: nat, e: Option<WriteError>)
      requires c.Ready() && c.open == this && max > 0
      modifies this, c, c.writeBuf, c.writePool
      ensures c.Ready()
      ensures if e.None? then Kept() && 0 < n <= max && pos + n <= c.writeBuf.Length && Accepted() == old(Accepted())
              else n == 0 && Lost(e)
      ensures e == Some(InvalidControlFrame) ==> IsControl(kind) && |old(Accepted())| == old(c.Room())
    {
      hide Assemble, EncodeAll, LateMessages, Conn.WireOk, Progress;
      ControlInBuffer();
      if c.writeBuf.Length <= pos {
        e := FlushFrame(false, []);
        if e.Some? {
          return 0, e;
        }
        assert Accepted() == old(Accepted()) + [] + [];
      }
      n, e := c.writeBuf.Length - pos, None;
      if n > max {
        n := max;
      }
    }

    /** Put data into the buffer, which has room for it. */
    method Fill(data: seq<byte>)
      requires c.Valid() && c.open == this && pos + |data| <= c.writeBuf.Length
      modifies `pos, c.writeBuf
      ensures c.Valid() && Kept()
      ensures c.writeBuf[MAX_HEADER..pos] == old(c.writeBuf[MAX_HEADER..pos]) + data
      ensures Accepted() == old(Accepted()) + data
    {
      hide Assemble, EncodeAll, LateMessages, Conn.WireOk, Progress;
      forall i | 0 <= i < |data| {
        c.writeBuf[pos + i] := data[i];
      }
      pos := pos + |data|;
      assert c.writeBuf[MAX_HEADER..pos] == old(c.writeBuf[MAX_HEADER..pos]) + data;
    }

    /** Send data in one frame: what the buffer holds of it from there, and the rest behind it. */
    method FlushAll(data: seq<byte>) returns (e: Option<WriteError>)
      requires c.Valid() && c.open == this && c.isServer && |data| < MAX_SLICE
      modifies this, c, c.writeBuf, c.writePool
      ensures c.Valid()
      ensures AfterFlush(true, data, e)
    {
      hide Assemble, EncodeAll, LateMessages, Conn.WireOk, Progress;
      var room := c.writeBuf.Length - pos;
      var n := if |data| < room then |data| else room;
      ghost var before := c.writeBuf[MAX_HEADER..pos];
      assert Accepted() + data[..n] + data[n..] == Accepted() + data;
      Fill(data[..n]);
      assert c.writeBuf[MAX_HEADER..pos] + data[n..] == before + data;
      e := FlushFrame(true, data[n..]);
    }

    /** What a new writer that has sent p as its whole message has made of the connection. */
    twostate predicate MessageSent(p: seq<byte>, new e: Option<WriteError>)
      reads this, c, c.writePool
    {
      var message := Message(kind, rsv1, p);
      && c.open == null && c.writer == null && old(c.frames) <= c.frames
      && c.Stream().Assembly? && old(c.Stream()).Assembly?
      && c.Stream().done == old(c.Stream()).done + (if e.None? && IsData(kind) then [message] else [])
      && (if e.None? then c.Stream().open.None? && c.writeErr == if kind == CLOSE then Some(CloseSent) else None
          else if e == Some(InvalidControlFrame) then IsControl(kind) else c.writeErr == e)
      && (e.None? && IsControl(kind) ==> EndsWithControl(c.frames, kind, p))
      && c.OnlyAdds(if e.None? && IsControl(kind) then [Control(kind, p)] else [], e)
      && (c.Late() == [] || c.Late() == old(c.Late()) || (e.Some? && IsData(kind) && c.Late() == [message]))
      && (if c.writePool == null then c.writeBuf == old(c.writeBuf)
          else c.writeBuf == null && old(c.writeBuf) != null
               && c.writePool.free == old(c.writePool.free) + {old(c.writeBuf)})
    }

    /** The message p at once, through the buffer. */
    method WriteAndClose(p: seq<byte>) returns (e: Option<WriteError>)
      requires c.Ready() && err == None && c.open == this && Accepted() == [] && |p| < MAX_SLICE && c.writeErr == None
      modifies this, c, c.writeBuf, c.writePool
      ensures c.Ready() && MessageSent(p, e)
      ensures e == Some(InvalidControlFrame) <==> IsControl(kind) && (|p| > MAX_CONTROL_PAYLOAD || |p| > old(c.Room()))
    {
      hide Assemble, EncodeAll, LateMessages, Conn.WireOk, Progress;
      assert [] + p == p;
      var n;
      n, e := Write(p);
      if e.None? {
        ControlInBuffer();
        assert Accepted() + [] == p;
        e := Close();
      }
    }

    /** The message p at once, in a single frame. */
    method FillAndFlush(p: seq<byte>) returns (e: Option<WriteError>)
      requires c.Valid() && c.open == this && c.isServer && Accepted() == [] && pos == MAX_HEADER && |p| < MAX_SLICE
      requires c.writeErr == None && c.writer == null
      modifies this, c, c.writeBuf, c.writePool
      ensures c.Ready() && MessageSent(p, e)
      ensures e == Some(InvalidControlFrame) <==> IsControl(kind) && |p| > MAX_CONTROL_PAYLOAD
      ensures e.None? ==> c.frames != [] && c.frames[|c.frames| - 1].payload == p
    {
      hide Assemble, EncodeAll, LateMessages, Conn.WireOk, Progress;
      assert Accepted() + p == p && c.writeBuf[MAX_HEADER..pos] + p == p;
      e := FlushAll(p);
    }

    /** Copy p into the buffer, frame by frame: the loop of Write and of WriteString. */
    method CopyIn(p: seq<byte>) returns (e: Option<WriteError>)
      requires c.Ready() && c.open == this
      modifies this, c, c.writeBuf, c.writePool
      ensures c.Ready()
      ensures if e.None? then Kept() && Accepted() == old(Accepted()) + p else Lost(e)
      ensures e.None? && p != [] ==> pos > MAX_HEADER
      ensures e == Some(InvalidControlFrame) ==> IsControl(kind) && |old(Accepted()) + p| > old(c.Room())
    {
      hide Assemble, EncodeAll, LateMessages, Conn.WireOk, Progress;
      var q := p;
      assert Accepted() + q == old(Accepted()) + p;
      while q != []
        invariant c.Ready() && Kept() && (|q| < |p| ==> pos > MAX_HEADER)
        invariant Accepted() + q == old(Accepted()) + p
        decreases |q|
      {
        var n;
        n, e := Ncopy(|q|);
        if e.Some? {
          return;
        }
        ghost var before := Accepted();
        assert before + q == before + q[..n] + q[n..];
        Fill(q[..n]);
        q := q[n..];
      }
      e := None;
    }

    /** Write. A server sends a p of more than two buffers at once, behind what is buffered; otherwise p goes through
        the buffer, where the end of it stays. */
    method Write(p: seq<byte>) returns (n: nat, e: Option<WriteError>)
      requires c.Ready() && (err == None ==> c.open == this) && |p| < MAX_SLICE
      modifies this, c, c.writeBuf, c.writePool
      ensures c.Ready()
      ensures old(err).Some? ==> n == 0 && Untouched(e)
      ensures old(err).None? && e.None? ==> n == |p| && Kept() && Accepted() == old(Accepted()) + p
      ensures old(err).None? && e.None? && p != [] ==>
                (pos == MAX_HEADER <==> c.isServer && |p| > 2 * c.writeBuf.Length)
      ensures old(err).None? && e.Some? ==> n == 0 && Lost(e)
      ensures old(err).None? && e == Some(InvalidControlFrame) ==>
                IsControl(kind) && |old(Accepted()) + p| > old(c.Room())
    {
      if err.Some? {
        return 0, err;
      }
      if |p| > 2 * c.writeBuf.Length && c.isServer {
        e := FlushFrame(false, p);
        if e.None? {
          assert Accepted() == old(Accepted()) + p + [];
        }
      } else {
        e := CopyIn(p);
      }
      n := if e.None? then |p| else 0;
    }

    /** WriteString. */
    method WriteString(p: seq<byte>) returns (n: nat, e: Option<WriteError>)
      requires c.Ready() && (err == None ==> c.open == this)
      modifies this, c, c.writeBuf, c.writePool
      ensures c.Ready()
      ensures old(err).Some? ==> n == 0 && Untouched(e)
      ensures old(err).None? && e.None? ==> n == |p| && Kept() && Accepted() == old(Accepted()) + p
      ensures old(err).None? && e.Some? ==> n == 0 && Lost(e)
      ensures old(err).None? && e == Some(InvalidControlFrame) ==>
                IsControl(kind) && |old(Accepted()) + p| > old(c.Room())
    {
      if err.Some? {
        return 0, err;
      }
      e := CopyIn(p);
      n := if e.None? then |p| else 0;
    }

    /** Flush when the buffer is full. */
    method MakeRoom() returns (e: Option<WriteError>)
      requires c.Ready() && c.open == this
      modifies this, c, c.writeBuf, c.writePool
      ensures c.Ready()
      ensures if e.None? then Kept() && pos < c.writeBuf.Length && Accepted() == old(Accepted()) else Lost(e)
    {
      hide Assemble, EncodeAll, LateMessages, Conn.WireOk, Progress;
      e := None;
      if pos == c.writeBuf.Length {
        e := FlushFrame(false, []);
        if e.None? {
          assert Accepted() == old(Accepted()) + [] + [];
        }
      }
    }

    /** One read of the source straight into the buffer. */
    method ReadInto(r: Source) returns (n: nat, done: bool)
      requires c.Ready() && c.open == this && pos < c.writeBuf.Length
      modifies `pos, c.writeBuf, r
      ensures c.Ready() && Kept()
      ensures n + |r.rest| == |old(r.rest)| && Accepted() + r.rest == old(Accepted()) + old(r.rest)
      ensures r.idle <= old(r.idle) && if done then r.rest == [] else n > 0 || r.idle < old(r.idle)
    {
      hide Assemble, EncodeAll, LateMessages, Conn.WireOk;
      var data;
      data, done := r.Read(c.writeBuf.Length - pos);
      assert old(Accepted()) + data + r.rest == old(Accepted()) + old(r.rest);
      Fill(data);
      n := |data|;
    }

    /** ReadFrom: everything that the reader r has, until it reports its end or an error, goes through the buffer. */
    method ReadFrom(r: Source) returns (nn: nat, e: Option<SourceError>)
      requires c.Ready() && (err == None ==> c.open == this)
      modifies this, c, c.writeBuf, c.writePool, r
      ensures c.Ready()
      ensures old(err).Some? ==> nn == 0 && e == Some(FromConn(old(err.value))) && r.rest == old(r.rest)
      ensures old(err).None? && (e == None || e == Some(FromSource)) ==>
                && r.endsWell == e.None? && r.rest == [] && nn == |old(r.rest)|
                && Kept() && Accepted() == old(Accepted()) + old(r.rest)
      ensures old(err).None? && e.Some? && e.value.FromConn? ==> Lost(Some(e.value.error))
    {
      hide Assemble, EncodeAll, LateMessages, Conn.WireOk, Progress;
      if err.Some? {
        return 0, Some(FromConn(err.value));
      }
      nn := 0;
      var done := false;
      while !done
        invariant c.Ready() && Kept() && (done ==> r.rest == [])
        invariant nn + |r.rest| == |old(r.rest)| && Accepted() + r.rest == old(Accepted()) + old(r.rest)
        decreases !done, |r.rest| + r.idle
      {
        var failure := MakeRoom();
        if failure.Some? {
          return nn, Some(FromConn(failure.value));
        }
        var n;
        n, done := ReadInto(r);
        nn := nn + n;
      }
      e := if r.endsWell then None else Some(FromSource);
    }

    /** Close. */
    method Close() returns (e: Option<WriteError>)
      requires c.Ready() && (err == None ==> c.open == this)
      modifies this, c, c.writeBuf, c.writePool
      ensures c.Ready()
      ensures old(err).Some? ==> Untouched(e)
      ensures old(err).None? ==> AfterFlush(true, [], e)
    {
      if err.Some? {
        return err;
      }
      e := FlushFrame(true, []);
    }
  }
}
