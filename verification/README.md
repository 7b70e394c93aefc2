# Verified models for the MCA66 daemon and its WebSocket engine

The daemon talks to its clients through the vendored WebSocket package (`gorilla/websocket`). This project models the
parts of that package where the reasoning is hard, two of its examples, and the volume stepping of `htd`, and proves
what they are for:

- `Frames` is the reference: frames and their octets, and the messages that a stream of frames carries, after section 5
  of RFC 6455. The writer and the reader are both proved against it. `Conformance` checks it and the reader against the
  RFC, octet by octet and with its numbers written out.
- `WriteConn` is the writing half of a connection, with its buffer, its message writers and its buffer pool updated in
  place. Its invariant: what is on the wire is a well-formed stream of frames and then, after a failed write, some
  octets of the one frame that failed; the unfinished message is exactly what the open writer has flushed.
- `Reader` and `ReadConn` are the reading half, as functions on its fields and as the class that updates them; `Reading`
  has the theorems about it: streams cut at any octet, Close frames, the read limit, inputs of any kind. `Limits` says
  when the read limit holds over any input, and when it does not.
- `RoundTrip` puts the two halves back to back, after failures too, with compression and without. `Skimming` is about
  applications that do not read messages to their end, `SharedPool` about connections that share a pool of buffers.
- `WriteLock` interleaves the data writer and any number of callers of `WriteControl`, step by step; `LockedWire` says
  what a peer reads at any moment of such a run.
- `Masking` proves the word-at-a-time masking of memory against the bytewise one.
- `Utf8` proves the table-driven decoder against the grammar of RFC 3629.
- `HeaderLists` is the header-list parser with its printer; `Prepared` the cache of prepared messages; `Truncation` the
  writer that holds back the last four bytes of a flate stream on its way to a message writer.
- `ChatHub` interleaves the hub of the chat example with two pumps for every client; `ChatObjects` has the hub and the
  write pump as they update their objects. `Volume` is the volume stepping.

`dafny verify dfyconfig.toml` checks all of it.

## Assumptions

The code relies on these without enforcing them.

- A connection has one data writer and one reader (`doc.go`, lines 124 to 134). In `WriteConn` other goroutines only
  send control frames, whenever they get the lock; `WriteLock` shows that this is all they can do. The handlers of the
  daemon itself (`ws_handler.go`, lines 30 and 71) do not keep to this.
- The transport reports EOF with no bytes. With bytes and EOF in one read, at the end of a frame that is not final, the
  check at line 994 of `conn.go` would be passed by.
- A reader passed to `ReadFrom` returns no bytes and no error only finitely often; `ReadFrom` would not end otherwise.
- Write buffers are longer than a header, and a pool hands out buffers of one size. Slices fit in memory.
- The hardware of `htd` does one step for one command, stays at its first and last level, and the zone data matches it
  at the start.
- The transport, the handlers of the application, mask keys, machine addresses, deadlines, the short reads of
  `bufio.Reader` and the output of the compressor are arbitrary: parameters or nondeterministic choices.

## What the proofs show about corner cases

- `WriteMessage` refuses a control message that does not fit the write buffer, though it is within 125 bytes, because
  it goes through a message writer that may not fragment it; only a server without compression takes another path. Its
  contract states the exact condition for a connection that nothing disturbs.
- A message whose last frame went out whole in a write that then reported an error arrives, although its sender was told
  of the error. No other message that has not been written with success arrives.
- The read limit can be passed. Lengths in headers are unsigned, the code adds them up in an `int64`, and sums from
  2^63 on become negative: a data frame is refused if and only if it takes the announced length of its message over the
  limit but not to 2^63 (`LimitedAdvance`). `LimitFails` is an input with one header of 2^64 - 1 after which a message
  over the limit is delivered; `LimitFailsWithinHeaders` does it with headers whose top bit is clear, as section 5.2 of
  RFC 6455 wants, since their sum overflows. No accepted frame of a session goes over the limit if and only if none
  goes to 2^63 (`LimitKept`), and then no more than the limit is delivered (`SessionWithinLimit`).
- When `NextReader` discards the rest of a message, the end of the input shows as plain `io.EOF`, not as
  `errUnexpectedEOF`, exactly when it is inside what is left of a frame that is passed over (`DiscardEnds`). The bytes
  of the leftover frames count towards the read limit together with the next message's first frame (`DiscardCounts`).
- When the flate stream does not end as section 7.2.1 of RFC 7692 wants it, `Close` of the compressing writer reports an
  error and leaves the message open.
- The header-list parser drops most malformed elements, but takes two kinds: `n;k=` with nothing after the equals sign,
  and `n;k="t` without a closing quote, which swallows the rest of the line, further extensions included. Both count as
  an empty value. `FirstElement` states the exact condition over every line. What a quoted string stands for need not be
  a token, though section 9.1 of RFC 6455 wants that: neither the parser nor the grammar here looks.
- The count that `truncWriter.Write` returns is less than the length of its argument once four bytes are held back,
  unless that is empty.
- The values 0xC4 and 0xC5 are both shown as volume 1, so a reported value comes back from its display if and only if it
  is not 0xC4; the steps computed from a value take this into account, and every requested volume is reached.
- `frame` returns an error only to the first caller for a key; later callers get whatever bytes there are, and no error.
  After `NewPreparedMessage` has succeeded, an error can only come from a compressor that does not end its stream.

## Model

| member | source | states |
|---|---|---|
| Masking.MaskBytesSafe | mca66d/src/github.com/gorilla/websocket/mask_safe.go:9-15 | In place, exactly the bytes of the range are XORed with the key octets from the given position on (section 5.3 of RFC 6455), every other byte of memory is as before, and the position returned is the one behind the range, modulo 4 |
| Masking.MaskBytes | mca66d/src/github.com/gorilla/websocket/mask.go:13-54 | For every key, position, range, machine address, word size 4 or 8 and byte order, the word-at-a-time form leaves the memory and returns the position that the bytewise form does |
| Masking.MaskWords | mca66d/src/github.com/gorilla/websocket/mask.go:33-44 | One precomputed key word, XORed into every aligned word in turn, masks the range |
| Masking.XorWordMasks | mca66d/src/github.com/gorilla/websocket/mask.go:33-44 | Loading a word, XORing it with the rotated key word and storing it masks the word's bytes one by one, and no other byte |
| Masking.WordXor | mca66d/src/github.com/gorilla/websocket/mask.go:43 | XOR of two machine words of 4 or 8 bytes acts on each byte of memory separately, in either byte order |
| Masking.MaskThreeRanges | mca66d/src/github.com/gorilla/websocket/mask.go:24-53 | Masking the unaligned prefix, the words and the tail from the positions in between is masking the whole range; the words do not move the position |
| Masking.MaskInvolution | mca66d/src/github.com/gorilla/websocket/mask_safe.go:9-15 | Masking twice with one key and position gives back the bytes |
| Masking.MaskConcat | mca66d/src/github.com/gorilla/websocket/mask_safe.go:9-15 | Masking splits over concatenation, the second part from the position that the first returns |
| Frames.BigEndianRoundTrip | mca66d/src/github.com/gorilla/websocket/conn.go:832-845 | A number that fits k octets is read back from its k octets in network byte order |
| Frames.FirstByteFields | mca66d/src/github.com/gorilla/websocket/conn.go:546-552 | The first header octet gives back opcode, FIN and RSV1, and has RSV2 and RSV3 clear |
| Frames.SecondByteFields | mca66d/src/github.com/gorilla/websocket/conn.go:555-580 | The second header octet gives back the MASK bit and the seven length bits |
| Conformance.HeadFields | mca66d/src/github.com/gorilla/websocket/conn.go:798-811 | The reader's bit masks find FIN, the reserved bits, opcode, MASK and the length bits of any two octets where section 5.2 of RFC 6455 puts them |
| Conformance.HeaderOctets | mca66d/src/github.com/gorilla/websocket/conn.go:546-581 | The numbers of the two fixed octets of any frame that is sent, and the length of its header, with the limits 125 and 65536 for the forms of the length |
| Conformance.FewestOctets | mca66d/src/github.com/gorilla/websocket/conn.go:566-580 | For every length below 2^63: no form of the length in which the reader finds it takes fewer octets than the one that is sent, and no other takes as few |
| Conformance.FormFitsExactly | mca66d/src/github.com/gorilla/websocket/conn.go:830-845 | A form of the length fits if and only if the reader finds the length in it |
| Conformance.TextExample | mca66d/src/github.com/gorilla/websocket/conn.go:546-586 | The unmasked text of section 5.7 of RFC 6455, octet by octet |
| Conformance.MaskedTextExample | mca66d/src/github.com/gorilla/websocket/conn.go:546-586 | The masked text of section 5.7 |
| Conformance.FragmentedExample | mca66d/src/github.com/gorilla/websocket/conn.go:546-586 | The text in two frames of section 5.7 |
| Conformance.PingExample | mca66d/src/github.com/gorilla/websocket/conn.go:401-417 | The ping of section 5.7 |
| Conformance.PongExample | mca66d/src/github.com/gorilla/websocket/conn.go:401-417 | The masked pong of section 5.7 |
| Conformance.LongExamples | mca66d/src/github.com/gorilla/websocket/conn.go:566-580 | The headers of 256 bytes and of 64 KiB of section 5.7 |
| WriteConn.PutBigEndian | mca66d/src/github.com/gorilla/websocket/conn.go:571-576 | The octets of the number in network byte order replace exactly the k bytes at the given place |
| WriteConn.PutHeader | mca66d/src/github.com/gorilla/websocket/conn.go:560-581 | For every length below 2^63 and both roles the header, in the form that FewestOctets shows to be the shortest, ends where the payload (or the key before it) begins, and no byte behind it is touched |
| WriteConn.MaskInPlace | mca66d/src/github.com/gorilla/websocket/conn.go:583-586 | The key stands right before the payload, the payload is masked in place, the header before and the bytes behind are as they were |
| WriteConn.BuildFrame | mca66d/src/github.com/gorilla/websocket/conn.go:546-586 | The bytes of the buffer from the start of the header are the encoding of the frame, up to the part of the payload that is passed separately; a server's payload bytes are not changed |
| WriteConn.Conn.constructor | mca66d/src/github.com/gorilla/websocket/conn.go:282-321 | A new connection satisfies the invariant: its write buffer, the caller's or a new one, has room for the header and the payload bytes asked for, 4096 by default, or is left to the pool; nothing is written |
| WriteConn.Conn.LockedWrite | mca66d/src/github.com/gorilla/websocket/conn.go:369-388 | After a recorded error nothing is written; a whole frame extends the stream; a failure sticks, whatever part of the frame has gone out, and that frame is the broken one; a Close frame is the last |
| WriteConn.Conn.WriteFrame | mca66d/src/github.com/gorilla/websocket/conn.go:365-389 | One frame is appended to the stream, behind any control frames of other goroutines; or the error sticks, and what stands behind the whole frames is a part of this frame or of one such control frame |
| WriteConn.Conn.ControlBytes | mca66d/src/github.com/gorilla/websocket/conn.go:401-417 | The bytes built for a control message are the encoding of one final frame with that type and payload, masked exactly for clients |
| WriteConn.Conn.WriteControl | mca66d/src/github.com/gorilla/websocket/conn.go:393-452 | Refuses other types, payloads over 125 bytes, and calls whose deadline passes, exactly; on success its frame is the last of the stream; it succeeds where nothing disturbs the connection; the data messages of the stream, also an unfinished one, are as before |
| WriteConn.Conn.BeginMessage | mca66d/src/github.com/gorilla/websocket/conn.go:455-488 | Closes the writer that is still open, whose message then counts as complete unless that failed; a type is refused exactly when it is no message type; the new writer starts at offset 14 with an empty message |
| WriteConn.Conn.NextWriter | mca66d/src/github.com/gorilla/websocket/conn.go:498-510 | As for beginMessage, with the new writer open on the connection; the old writer is closed for good |
| WriteConn.Conn.WriteMessage | mca66d/src/github.com/gorilla/websocket/conn.go:741-764 | On success exactly this message is added to the stream, behind the one that was still open and is closed first; on failure it is not, though its last frame may be on the wire whole; where nothing disturbs the connection it succeeds exactly for data messages and for control messages of at most 125 bytes that, unless a server without compression sends them, also fit the write buffer |
| WriteConn.Conn.WriteSingleFrame | mca66d/src/github.com/gorilla/websocket/conn.go:743-754 | The server's path, a single frame with what the buffer does not hold sent behind it, meets the contract of WriteMessage |
| WriteConn.ControlsBetween | mca66d/src/github.com/gorilla/websocket/conn.go:393-452 | Control frames at any place in the stream change neither its complete messages nor the unfinished one |
| WriteConn.StreamGrows | mca66d/src/github.com/gorilla/websocket/conn.go:365-389 | The stream after control frames of others and then one frame is the stream with that frame added |
| WriteConn.ProgressSent | mca66d/src/github.com/gorilla/websocket/conn.go:536-621 | A first frame with the message's opcode, then continuations, with FIN on the last only: after each frame the stream's unfinished message is what the writer has flushed, and after the last one the message is complete |
| WriteConn.LateFrame | mca66d/src/github.com/gorilla/websocket/conn.go:376-384 | A failed write may have completed a message all the same: only the one whose last frame it was |
| WriteConn.MessageWriter.EndMessage | mca66d/src/github.com/gorilla/websocket/conn.go:520-532 | The writer is over for good, and the buffer goes back to the pool, once |
| WriteConn.MessageWriter.BuildNext | mca66d/src/github.com/gorilla/websocket/conn.go:546-586 | The buffer from framePos on, with the extra bytes, encodes a frame with the buffered payload and the extra bytes; MASK is set exactly for clients, RSV1 at most on the first frame |
| WriteConn.MessageWriter.Emit | mca66d/src/github.com/gorilla/websocket/conn.go:592-606 | The frame built is the next data frame of the stream, or an error is recorded; neither check of isWriting fails |
| WriteConn.MessageWriter.FlushFrame | mca66d/src/github.com/gorilla/websocket/conn.go:536-621 | The message grows by the buffered and the extra bytes, or ends: complete exactly when final and without error; after an error nothing more is complete on the wire than this message, if its last frame was the one that failed; a control message is refused exactly when not final or over 125 bytes; the buffer is released exactly when the message ends |
| WriteConn.MessageWriter.Ncopy | mca66d/src/github.com/gorilla/websocket/conn.go:623-635 | Gives room for at least one byte, after a flush that loses nothing, or ends the message with its error |
| WriteConn.MessageWriter.Write | mca66d/src/github.com/gorilla/websocket/conn.go:637-662 | Every byte of p is accepted, in order, in one frame exactly when a server is given more than two buffers of bytes, else through the buffer; on error the message is lost and none counts as written; a closed writer changes nothing |
| WriteConn.MessageWriter.WriteAndClose | mca66d/src/github.com/gorilla/websocket/conn.go:756-763 | A message passed at once is complete or lost as a whole; a control message is refused exactly when it is over 125 bytes or does not fit the buffer |
| WriteConn.MessageWriter.FillAndFlush | mca66d/src/github.com/gorilla/websocket/conn.go:747-754 | A message in one frame with what the buffer does not hold behind it is complete or lost as a whole; a control message is refused exactly when it is over 125 bytes |
| WriteConn.MessageWriter.WriteString | mca66d/src/github.com/gorilla/websocket/conn.go:664-680 | As for Write, always through the buffer |
| WriteConn.MessageWriter.ReadFrom | mca66d/src/github.com/gorilla/websocket/conn.go:682-705 | Everything the source delivers before its end or error is accepted, in order, whatever the sizes of its reads; an end is no error, an error of the source is returned |
| WriteConn.MessageWriter.Close | mca66d/src/github.com/gorilla/websocket/conn.go:707-715 | The message accepted so far is complete on the wire, or lost with an error; a second Close only reports |
| WriteLock.TokenStep | mca66d/src/github.com/gorilla/websocket/conn.go:365-389 | No step of any process, a timeout included, loses or doubles the token of mu |
| WriteLock.StepKeepsInv | mca66d/src/github.com/gorilla/websocket/conn.go:365-452 | Every step of every interleaving keeps the invariant: one token; the wire is whole frames and the first octets of the frame that is being written or has failed, in a dead connection too; errors recorded; no panic |
| WriteLock.SafeAlways | mca66d/src/github.com/gorilla/websocket/conn.go:365-452 | At every moment of every run the token is in the channel or with one process; the wire is whole frames and then the first octets of at most one more, live or dead; all of these are frames that processes have begun to write; no check of isWriting has failed |
| WriteLock.DeadForever | mca66d/src/github.com/gorilla/websocket/conn.go:346-389 | After a Close frame or a failed write no process ever writes another byte, and the recorded error stays |
| WriteLock.ReleaseFindsRoom | mca66d/src/github.com/gorilla/websocket/conn.go:366-367 | Putting the token back never waits, and success is reported only for a frame that is whole on the wire |
| WriteLock.ReportsOutcome | mca66d/src/github.com/gorilla/websocket/conn.go:365-452 | In every run: a write that has put its frame on the wire whole, a Close frame included, reports no error; one whose transport failed reports that; one that found an error recorded reports that error |
| WriteLock.ReportIsDecided | mca66d/src/github.com/gorilla/websocket/conn.go:365-452 | In every run each result that a write reports comes from such a step of its own, in the same call |
| WriteLock.RecordsTruth | mca66d/src/github.com/gorilla/websocket/conn.go:346-452 | In every run ErrCloseSent is recorded only with a Close frame as the last one on the wire, and a failure only after a failed write |
| WriteLock.RunInv | mca66d/src/github.com/gorilla/websocket/conn.go:365-452 | The invariant holds in every state of every run |
| WriteLock.RunBegun | mca66d/src/github.com/gorilla/websocket/conn.go:365-452 | In every state of every run, what is on the wire whole or in part is the frame of a process that has begun to write it |
| LockedWire.RunSequence | mca66d/src/github.com/gorilla/websocket/conn.go:365-452 | In every state of every run the data writer's frames on the wire, whole and then the one in hand, are its frames in the order in which it began them; one that is dropped is the last |
| LockedWire.WireIsStream | mca66d/src/github.com/gorilla/websocket/conn.go:365-452 | When the processes write the frames of one data writer's stream and control frames in any interleaving, the wire is at any moment a well-formed stream with just the data writer's messages, and then some octets of a frame that may follow, or none; a Close frame is the last |
| LockedWire.PeerGets | mca66d/src/github.com/gorilla/websocket/conn.go:365-452 | The peer of any such run reads at any moment exactly the messages that the data writer has written whole, and at most one that the frame in progress completes |
| ReadConn.Conn.AdvanceFrame | mca66d/src/github.com/gorilla/websocket/conn.go:777-920 | Updates the fields of the connection as the function Advance says, for any input, error and handler |
| ReadConn.Conn.ParseOrder | mca66d/src/github.com/gorilla/websocket/conn.go:808-828 | The frame types that may come now, and the errors for the others |
| ReadConn.Conn.ParseLengthAndMask | mca66d/src/github.com/gorilla/websocket/conn.go:830-860 | The extended length and the mask key, or the error for a short read or a wrong mask flag |
| ReadConn.Conn.ParsePayload | mca66d/src/github.com/gorilla/websocket/conn.go:862-887 | The running length and the read limit of data frames; the unmasked payload of control frames |
| ReadConn.Conn.ProcessControl | mca66d/src/github.com/gorilla/websocket/conn.go:889-919 | The handlers see the payload, the close code and the text; invalid ones are protocol errors |
| ReadConn.Conn.NextReader | mca66d/src/github.com/gorilla/websocket/conn.go:937-972 | The next message's first frame, or an error that sticks: once set, readErr is returned by all later calls and changes no more; from the 1000th such call on it panics |
| ReadConn.MessageReader.Read | mca66d/src/github.com/gorilla/websocket/conn.go:976-1019 | For any buffer and any short read of the transport: the next bytes of the message, in place in the buffer; io.EOF exactly when the final frame is used up; the sticky error otherwise; a reader that is not the current one gets io.EOF and changes nothing. What is left is left as reading that many bytes at once would leave it |
| ReadConn.DrainSplit | mca66d/src/github.com/gorilla/websocket/conn.go:984-998 | Where a read is cut does not change what the message comes to |
| ReadConn.ReadAll | mca66d/src/github.com/gorilla/websocket/conn.go:1027-1035 | Reading to the end with buffers of any sizes gives the bytes of the message, independent of the sizes and of the transport's reads |
| ReadConn.ReadMessage | mca66d/src/github.com/gorilla/websocket/conn.go:1027-1035 | The next message whole, or the error that ended it with the bytes before it |
| ReadConn.ReadMessages | mca66d/src/github.com/gorilla/websocket/conn.go:1027-1035 | Calling ReadMessage until it fails gives the messages, the final state and the error of the session of module Reader |
| Reading.HeaderReadIn | mca66d/src/github.com/gorilla/websocket/conn.go:788-860 | The reader takes the header of any frame of its peer, with the length in the shortest form or in any longer one, and comes to the frame's length, flags and key |
| Reading.HeaderRead | mca66d/src/github.com/gorilla/websocket/conn.go:788-860 | The same for the header that the writer sends, with the length in its shortest form |
| Reading.HeaderCut | mca66d/src/github.com/gorilla/websocket/conn.go:788-860 | A header cut short anywhere is a short read |
| Reading.ControlStep | mca66d/src/github.com/gorilla/websocket/conn.go:875-919 | A ping or pong at any place is handled with its payload, and leaves the message around it as it is |
| Reading.FrameStep | mca66d/src/github.com/gorilla/websocket/conn.go:777-1019 | Over one frame the session moves as the stream of messages does |
| Reading.SessionOverFrames | mca66d/src/github.com/gorilla/websocket/conn.go:777-1019 | Over any stream of frames without Close the session delivers exactly the complete messages and shows the handlers exactly the control frames |
| Reading.EventsAreControls | mca66d/src/github.com/gorilla/websocket/conn.go:889-899 | The events of a stream are its pings and pongs with their payloads, in order |
| Reading.CutStream | mca66d/src/github.com/gorilla/websocket/conn.go:937-1019 | Cut a stream of frames at any octet: an application that reads every message to its end gets exactly the messages complete before the cut, its handlers have seen exactly the pings and pongs before it, and then comes errUnexpectedEOF |
| Reading.BrokenStream | mca66d/src/github.com/gorilla/websocket/conn.go:937-1019 | A stream and then any octets of one more frame of any kind, all of them included: exactly the messages that these octets complete are delivered |
| Reading.CloseDelivered | mca66d/src/github.com/gorilla/websocket/conn.go:900-916 | Any valid code and UTF-8 text put through FormatCloseMessage reach the Close handler and the application unchanged, after everything before them, and end the session |
| Reading.ReadLimitExact | mca66d/src/github.com/gorilla/websocket/conn.go:862-873 | With a positive limit the session ends with ErrReadLimit, and a Close frame with code 1009, if and only if some message of the stream exceeds the limit; every message before it is delivered, none exceeds the limit |
| Limits.LimitedAdvance | mca66d/src/github.com/gorilla/websocket/conn.go:830-873 | Over any input: with a limit, the frames are accepted that are accepted without one, with the same result, except a data frame of n announced bytes after r in its message with r + n over the limit and below 2^63; that one gets ErrReadLimit and a Close frame with code 1009 |
| Limits.LimitKept | mca66d/src/github.com/gorilla/websocket/conn.go:862-873 | Over any input: no data frame accepted in a session takes the announced length of its message over the limit if and only if none takes it to 2^63 bytes |
| Limits.DeliversWithinLimit | mca66d/src/github.com/gorilla/websocket/conn.go:862-873 | A message of which no accepted frame goes over the limit delivers no more than the limit |
| Limits.SessionWithinLimit | mca66d/src/github.com/gorilla/websocket/conn.go:862-873 | Over any input in which no accepted frame takes a message to 2^63 announced bytes, every message of a session and the data of the one it breaks off in are within the limit |
| Limits.LimitFails | mca66d/src/github.com/gorilla/websocket/conn.go:862-873 | The input 01 7f ff*8 80 02 61 62: with a limit of one byte the message of two bytes is delivered |
| Limits.LimitFailsWithinHeaders | mca66d/src/github.com/gorilla/websocket/conn.go:862-873 | One byte and then a frame of 2^63 - 1 announced bytes: with a limit of one byte three bytes are delivered before the input ends |
| Conformance.AdvanceVerdict | mca66d/src/github.com/gorilla/websocket/conn.go:777-920 | Over any input, in any state, with the numbers of RFC 6455 written out: which error, with which reply to the peer, or which frame, in which state, advanceFrame comes to, from the octets of the frame alone: the reserved bits, the rules for control frames and fragmentation, the length, the mask flag, the limit, the unmasked payload for the handlers, close codes and UTF-8 |
| Conformance.AcceptsOnlyConforming | mca66d/src/github.com/gorilla/websocket/conn.go:798-887 | Over any input the frames accepted, with FIN, reserved bits, mask flag and length bits as they are in the octets, obey sections 5.1 to 5.5 of RFC 6455, and readFinal is false exactly while a fragmented message is open |
| Conformance.AcceptedConforms | mca66d/src/github.com/gorilla/websocket/conn.go:798-887 | A frame that is accepted has the mask flag of its role, no reserved bit, and an opcode that may come |
| Conformance.WrongMaskRefused | mca66d/src/github.com/gorilla/websocket/conn.go:847-851 | Over any input: a frame with the wrong mask flag and nothing else wrong is refused as soon as its length is there, with code 1002 for the peer |
| Conformance.CloseRefused | mca66d/src/github.com/gorilla/websocket/conn.go:900-912 | After any stream, a Close frame ends the session with a protocol error and code 1002 for the peer, unseen by the handler, exactly when its code is not allowed or its text is not UTF-8 |
| Conformance.ReceivedCodes | mca66d/src/github.com/gorilla/websocket/conn.go:203-224 | The close codes accepted are 1000 to 1013 without 1004 to 1006, and 3000 to 4999 |
| Reading.AdvanceInOrder | mca66d/src/github.com/gorilla/websocket/conn.go:798-873 | Over any input advanceFrame passes only frames that may come now, keeps the limit, and leaves the message alone for control frames |
| Reading.NoInternalError | mca66d/src/github.com/gorilla/websocket/conn.go:1005-1011 | Over any input the branch for unexpected text or binary in Read is not reached |
| RoundTrip.StreamArrives | mca66d/src/github.com/gorilla/websocket/conn.go:937-1019 | Every stream that the writer's invariant allows is read by the peer as exactly its messages and control frames |
| RoundTrip.WireArrives | mca66d/src/github.com/gorilla/websocket/conn.go:346-389 | In every state that the writer's invariant allows, after failed writes and Close frames too, the peer gets exactly the messages that the writing connection counts as complete, and at most one whose last frame went out whole in a failed write |
| RoundTrip.SendInPieces | mca66d/src/github.com/gorilla/websocket/conn.go:498-715 | NextWriter, any mix of Write, WriteString and ReadFrom, and Close add exactly one message with the joined pieces, or nothing |
| RoundTrip.Receive | mca66d/src/github.com/gorilla/websocket/conn.go:937-1035 | The peer's class, with any buffers and short reads, returns the types and payloads of the session over any octets |
| RoundTrip.Exchange | mca66d/src/github.com/gorilla/websocket/conn.go:455-1035 | For either role, with or without compression, any write buffer, own, caller's or from a pool, any keys, pieces, compressor output, word size and any control frames of other goroutines in between: whatever fails, with any part of the failed frame on the wire, the peer gets the first of the messages sent, whole and in order, with compression as the input of its flate reader; when the sending calls succeed, all of them; and they do succeed where nothing disturbs the connection and the compressor ends its streams |
| Skimming.SkimStream | mca66d/src/github.com/gorilla/websocket/conn.go:780-784 | An application may stop reading any message after any number of bytes and ask for the next: it gets the beginning, that long or whole, of every message of the stream, and nothing of another one |
| Skimming.SkimMessages | mca66d/src/github.com/gorilla/websocket/conn.go:937-1019 | NextReader and Read, with buffers of any sizes, give such an application the beginnings of the messages |
| Skimming.ReadUpTo | mca66d/src/github.com/gorilla/websocket/conn.go:976-1019 | Reading at most so many bytes of a message does not depend on the sizes of the buffers and of the transport's reads |
| Skimming.DiscardEnds | mca66d/src/github.com/gorilla/websocket/conn.go:780-784 | For a stream cut at any octet: a NextReader that discards the rest of a message comes to the next message when its header is there; else it gets the transport's plain error exactly when the end is inside what is left of a frame passed over, and errUnexpectedEOF otherwise |
| Skimming.DiscardCounts | mca66d/src/github.com/gorilla/websocket/conn.go:862-870 | With a read limit: a NextReader that discards gets ErrReadLimit exactly when the bytes counted so far, those of the leftover frames and those of the next message's first frame exceed it |
| SharedPool.StillSharing | mca66d/src/github.com/gorilla/websocket/conn.go:479-486 | A call of one connection leaves every other one on the same pool ready, with a buffer that no connection else holds |
| SharedPool.AnyCalls | mca66d/src/github.com/gorilla/websocket/conn.go:455-715 | Calls of all connections on a pool, with compression or without, in any order: after each of them every connection may be called and no two hold the same buffer |
| Utf8.Transition | mca66d/src/github.com/gorilla/websocket/examples/autobahn/server.go:234-249 | Every entry of the packed table for the nine states and the twelve classes in use is the transition that the octet ranges of RFC 3629 call for |
| Utf8.ClassTable | mca66d/src/github.com/gorilla/websocket/examples/autobahn/server.go:235-243 | The packed class of every octet is the class by ranges |
| Utf8.DecodeState | mca66d/src/github.com/gorilla/websocket/examples/autobahn/server.go:256-265 | The state after a byte, by octet ranges |
| Utf8.RunChar | mca66d/src/github.com/gorilla/websocket/examples/autobahn/server.go:256-265 | Over the bytes of a character the decoder returns to the accepting state with exactly the code point as its rune |
| Utf8.FirstChar | mca66d/src/github.com/gorilla/websocket/examples/autobahn/server.go:256-265 | Input that is not rejected begins with a character, or is the beginning of one |
| Utf8.AcceptsWellFormed | mca66d/src/github.com/gorilla/websocket/examples/autobahn/server.go:251-265 | The table run from state 0 ends in state 0 if and only if the bytes are a concatenation of well-formed characters |
| Utf8.RejectsHopeless | mca66d/src/github.com/gorilla/websocket/examples/autobahn/server.go:251-265 | The run rejects if and only if no continuation makes the bytes well formed |
| Utf8.RejectStays | mca66d/src/github.com/gorilla/websocket/examples/autobahn/server.go:234-265 | The rejecting state is absorbing |
| Utf8.DecodesEncoding | mca66d/src/github.com/gorilla/websocket/examples/autobahn/server.go:256-265 | Decoding the encoding of any scalar values yields those values |
| Utf8.EncodesDecoded | mca66d/src/github.com/gorilla/websocket/examples/autobahn/server.go:256-265 | What is accepted is the encoding of the runes produced |
| Utf8.RunConcat | mca66d/src/github.com/gorilla/websocket/examples/autobahn/server.go:195-211 | The run over a stream is the run over its chunks, one after the other |
| Utf8.Validator.Read | mca66d/src/github.com/gorilla/websocket/examples/autobahn/server.go:195-211 | The fields follow the run over the bytes read; the result is the invalid-UTF-8 error exactly on rejection or at an end in mid-character |
| Utf8.Validate | mca66d/src/github.com/gorilla/websocket/examples/autobahn/server.go:195-211 | For every chunking, and EOF with or after the last chunk, the stream is found valid exactly when it is well formed, and an invalid one is reported at the first chunk that leaves no way to complete it |
| HeaderLists.TokenOctets | mca66d/src/github.com/gorilla/websocket/util.go:35-113 | Token octets are exactly the visible ASCII characters that are no separators of section 2.2 of RFC 2616 |
| HeaderLists.SpaceOctets | mca66d/src/github.com/gorilla/websocket/util.go:117-125 | White space is exactly the separators that are not visible |
| HeaderLists.SkipSpace | mca66d/src/github.com/gorilla/websocket/util.go:117-125 | Leading spaces and tabs are dropped, and nothing else |
| HeaderLists.NextToken | mca66d/src/github.com/gorilla/websocket/util.go:129-137 | The longest token at the start, and the exact rest |
| HeaderLists.NextTokenOrQuoted | mca66d/src/github.com/gorilla/websocket/util.go:141-174 | A token, or the unescaped text of a quoted string and the exact rest; the scratch buffer is never overrun |
| HeaderLists.ParseParameters | mca66d/src/github.com/gorilla/websocket/util.go:251-271 | The parameters up to the end of the element, the last of two with one name winning, or the finding that one is malformed |
| HeaderLists.ParseExtensions | mca66d/src/github.com/gorilla/websocket/util.go:228-283 | The extensions of all header lines, line by line; every loop ends |
| HeaderLists.ParsesPrinted | mca66d/src/github.com/gorilla/websocket/util.go:228-283 | Any list of named extensions with token or quoted parameters, printed after section 9.1 of RFC 6455 with any white space, parses to the list's maps |
| HeaderLists.UnquoteAll | mca66d/src/github.com/gorilla/websocket/util.go:141-174 | A quoted string, whatever is escaped in it, gives its text and the exact rest |
| HeaderLists.QuoteRoundTrip | mca66d/src/github.com/gorilla/websocket/util.go:141-174 | Quoting any string and reading it gives back the string and the exact rest |
| HeaderLists.KeepsBefore | mca66d/src/github.com/gorilla/websocket/util.go:244-280 | Well-formed elements of a line are kept whatever follows them, and what follows counts for what it is by itself |
| HeaderLists.FirstElement | mca66d/src/github.com/gorilla/websocket/util.go:244-280 | Over every line: the first element is taken if and only if the line begins with an element of the grammar, or one that differs from it only in values missing after the equals sign or without a closing quote; such a value counts as empty; the element is well formed if and only if nothing is missing |
| HeaderLists.LineExact | mca66d/src/github.com/gorilla/websocket/util.go:243-281 | Over every line: the result is the elements up to the first that cannot be read; that one is dropped with everything behind it |
| HeaderLists.DropsFromMalformed | mca66d/src/github.com/gorilla/websocket/util.go:247-274 | Behind well-formed elements, whatever does not begin with a readable element is dropped, and nothing else is |
| HeaderLists.DropsEmpty | mca66d/src/github.com/gorilla/websocket/util.go:246-249 | Dropped: nothing before a comma |
| HeaderLists.DropsBehindName | mca66d/src/github.com/gorilla/websocket/util.go:272-274 | Dropped: a name with anything else than a separator behind it, such as a second name, or an equals sign and a value |
| HeaderLists.DropsNameless | mca66d/src/github.com/gorilla/websocket/util.go:257-260 | Dropped: a parameter without a name |
| HeaderLists.KeepsWithoutValue | mca66d/src/github.com/gorilla/websocket/util.go:263-270 | Kept with an empty value: an equals sign with nothing after it |
| HeaderLists.KeepsWithoutQuote | mca66d/src/github.com/gorilla/websocket/util.go:149-173 | Kept with an empty value: a quoted string without an end, which takes up all that is behind it |
| HeaderLists.KeepsWithoutAnyQuote | mca66d/src/github.com/gorilla/websocket/util.go:149-173 | So kept: any text without a second quote behind the opening one, with all the extensions in it |
| HeaderLists.LinesIndependent | mca66d/src/github.com/gorilla/websocket/util.go:242-243 | The lines of a header contribute separately |
| Prepared.WriteToFake | mca66d/src/github.com/gorilla/websocket/prepared.go:72-91 | Writing to the connection in memory succeeds exactly for control messages of at most 125 bytes and data messages, with compression when the compressor ends its stream; the bytes carry this message alone, compressed when asked for, and a server's end with the payload when it is not compressed |
| Prepared.PreparedMessage.FrameFor | mca66d/src/github.com/gorilla/websocket/prepared.go:62-94 | The first call for a key, with compression or without, writes the bytes, later ones return the same; every entry of the cache carries the original message if there are frames for it; there is an error exactly on the first call for a key without such frames |
| Prepared.NewPreparedMessage | mca66d/src/github.com/gorilla/websocket/prepared.go:43-60 | Succeeds exactly when there are frames for the message; afterwards the message depends on memory of its own only |
| Prepared.PrepareAndFrame | mca66d/src/github.com/gorilla/websocket/prepared.go:43-94 | Frames for any keys, with compression levels or without, in any order and while the caller overwrites its slice: the bytes carry the original type and the original data, or what the compressor of that level makes of them, and equal keys get the same bytes |
| Prepared.CarriedArrives | mca66d/src/github.com/gorilla/websocket/prepared.go:62-94 | A peer that reads such bytes gets the data message, compressed or not, or its handler the ping or pong |
| Prepared.CarriedCloseArrives | mca66d/src/github.com/gorilla/websocket/prepared.go:62-94 | A prepared Close message ends the peer's session and delivers nothing; its valid code and text reach the Close handler and the application |
| Truncation.TruncWriter.Write | mca66d/src/github.com/gorilla/websocket/compression.go:64-90 | After a successful write the bytes that the message writer has accepted and those held back are everything written, with exactly the last four (or all of fewer) held back; the count returned equals the length of p only while the buffer was filling or p is empty; after a failure the message is lost, and no other |
| Truncation.Forwarded | mca66d/src/github.com/gorilla/websocket/compression.go:76-89 | Forwarding the first of the full buffer and then of p, and shifting, keeps the order of the bytes |
| Truncation.FlateWriteWrapper.Close | mca66d/src/github.com/gorilla/websocket/compression.go:105-120 | With no failure below, the check of the tail fails exactly when the flate stream does not end in 00 00 ff ff, also for streams of under four bytes, and leaves the message open; otherwise the message is complete on the wire, with the flate stream but for that tail, or lost |
| Truncation.FlateWriteWrapper.Write | mca66d/src/github.com/gorilla/websocket/compression.go:98-103 | Everything the compressor produces goes through the truncating writer into the message, or the message is lost; after Close and after a failure only an error, and nothing changes |
| Truncation.SendCompressed | mca66d/src/github.com/gorilla/websocket/conn.go:756-763 | A data message with compression, by NextWriter, any calls of Write, and Close: on success exactly one message with RSV1 is added to the stream, whose payload is the flate stream without its tail; on failure none is, though its last frame may be on the wire whole; where nothing disturbs the connection it succeeds exactly when the flate stream ends in the tail |
| Truncation.NextWriter | mca66d/src/github.com/gorilla/websocket/conn.go:498-510 | With compression: the writer still open has its flate stream ended and its message completed or lost first; then the new message is open, marked as compressed, with nothing written |
| Truncation.EmptyBlocks | mca66d/src/github.com/gorilla/websocket/compression.go:28-33 | What is put back for the reader is the end of an empty stored block and a last empty stored block of RFC 1951 |
| Truncation.ReaderRestores | mca66d/src/github.com/gorilla/websocket/compression.go:28-38 | What the reader feeds to its flate reader is the stream of the writer with one empty last block added |
| ChatHub.SplitJoin | mca66d/src/github.com/gorilla/websocket/examples/chat/client.go:98-109 | Texts without newlines, joined with newlines, come apart at the newlines as they were |
| ChatHub.PumpKeepsInv | mca66d/src/github.com/gorilla/websocket/examples/chat/client.go:56-121 | Every step of the pumps keeps the invariant |
| ChatHub.HubKeepsInv | mca66d/src/github.com/gorilla/websocket/examples/chat/hub.go:32-53 | Every step of the hub keeps the invariant, also between the rounds of a broadcast |
| ChatHub.RunInv | mca66d/src/github.com/gorilla/websocket/examples/chat/hub.go:32-53 | The invariant holds in every state of every run |
| ChatHub.HubIsSafe | mca66d/src/github.com/gorilla/websocket/examples/chat/hub.go:32-53 | In every run no channel is closed twice or sent to after closing; it is open exactly while its client is in the map; what the client has taken and what is queued are exactly the broadcasts since its registration, up to its removal |
| ChatHub.OnlySlowAreDropped | mca66d/src/github.com/gorilla/websocket/examples/chat/hub.go:37-50 | In every run a client that was registered and is no more was removed at one moment, when it was leaving or a broadcast found its channel full |
| ChatHub.RemovedForGood | mca66d/src/github.com/gorilla/websocket/examples/chat/hub.go:32-53 | In every run a removed client does not come back, and what was broadcast for it does not grow |
| ChatHub.PeersGetBroadcasts | mca66d/src/github.com/gorilla/websocket/examples/chat/client.go:72-112 | In every run, splitting the messages sent to a peer at newlines gives a beginning of the broadcasts for it, with nothing lost in between while its writer works, and all of them once the writer has seen the channel closed |
| ChatHub.FlattenedKeeps | mca66d/src/github.com/gorilla/websocket/examples/chat/client.go:72 | Replacing newlines keeps every other byte, and puts a space exactly where each was |
| ChatHub.BroadcastsAreSent | mca66d/src/github.com/gorilla/websocket/examples/chat/client.go:66-74 | In every run, from the moves alone: the broadcasts of a client are the texts of its messages, with spaces for newlines and trimmed, in the order in which it sent them, none twice, none left out but for one the hub has not yet taken |
| ChatHub.OneMessageTakesQueue | mca66d/src/github.com/gorilla/websocket/examples/chat/client.go:98-109 | In every run the message being made takes up exactly what was queued at the count, behind its first text and in order |
| ChatHub.GoneAreRemoved | mca66d/src/github.com/gorilla/websocket/examples/chat/client.go:53-56 | In every run a client whose connection has ended asks to be unregistered, and is not registered when that is done |
| ChatHub.EndSeenAfterAll | mca66d/src/github.com/gorilla/websocket/examples/chat/client.go:84-91 | In every run the writer that sees its channel closed has sent everything that was broadcast for its client |
| ChatHub.CountedAreThere | mca66d/src/github.com/gorilla/websocket/examples/chat/client.go:105-109 | The receives that follow len(c.send) neither wait nor see the end of the channel |
| ChatObjects.Hub.Unregister | mca66d/src/github.com/gorilla/websocket/examples/chat/hub.go:37-41 | Only a client that is still registered has its channel closed; the registered clients keep having open channels |
| ChatObjects.Hub.Broadcast | mca66d/src/github.com/gorilla/websocket/examples/chat/hub.go:42-50 | In whatever order the map gives the clients, and while some are removed: each gets the message behind what is queued, or has its full channel closed and is removed, and nothing else happens to it |
| ChatObjects.SendQueued | mca66d/src/github.com/gorilla/websocket/examples/chat/client.go:98-109 | Everything queued goes into one frame in order, which splits at its newlines into exactly the queued messages when they have none |
| Volume.VolDelta | htd/htd.c:691-708 | From the reported value of any level the number and direction of steps lead to a level that shows the request, although two levels show 1; so do the first 61 of them; for requests of 0 to 60 there are no more |
| Volume.LevelsShown | htd/htd.c:645-661 | From 0xC3 to 0 the levels are shown as 0 to 60, one by one but for two that are both shown as 1 |
| Volume.ZoneHasBit | htd/htd.c:830-845 | Zone i of six is selected exactly when bit i of the button states is set |
| Volume.SettledShows | htd/htd.c:645-661 | A zone that has settled shows the request, limited to 0 and 60 |
| Volume.Controller.SendVol | htd/htd.c:678-725 | The zone settles on the request, all others keep their levels, the zone data matches the hardware again |
| Volume.Controller.Round | htd/htd.c:830-845 | One round gives one step to each selected zone that still needs one, and none to the others |
| Volume.Controller.SendGroupVol | htd/htd.c:792-848 | For any mask and request the interleaved rounds leave each selected zone settled on the request and the others untouched; 61 rounds suffice |
| Volume.GroupAndSeparate | htd/htd.c:678-848 | On two controllers in the same state, sendGroupVolToHW and sendVolToHW for each selected zone in any order leave the same hardware levels and the same zone data |
| Volume.Controller.Serve | htd/htd.c:792-848 | After any sequence of requests with any masks each zone shows the last one made while it was selected, or is where it was |
| Volume.DisplayRoundTrip | htd/htd.c:645-676 | The hardware value for a displayed volume is displayed as that volume |
| Volume.ReportRoundTrip | htd/htd.c:645-676 | A reported value comes back from its display if and only if it is not 0xC4 |

## Left out

- WriteConn.Conn.NextWriter: on a connection with compression the bytes written to its writer are those of the flate stream; Truncation.NextWriter puts the compressing writer on top.
- WriteConn.Conn.WriteMessage: data messages on a connection with compression are Truncation.SendCompressed, with any calls of Write where WriteMessage makes one, and with no writer open before (Truncation.ClosePrevious closes one).
- Truncation.NextWriter: needs a compressor that ends the open writer's flate stream in the tail, as compress/flate does; without that the code could begin the new message inside the old one.
- Truncation.SendCompressed: what the compressor makes of the data is arbitrary, so nothing is said about the data themselves: compression and decompression are not part of this model.
- WriteConn.Conn.WriteControl: whether its deadline passes before the lock is acquired is a parameter.
- ReadConn.Conn.AdvanceFrame: the Close frames it asks WriteControl to send are recorded as their codes; the write half of the connection is a separate class.
- ReadConn.Conn.NextReader: a panic is a field that records it; what the application makes of it is not modelled.
- Reading.HeaderRead: is about headers with the length in its shortest form, which the writer sends; HeaderReadIn has the longer forms.
- RoundTrip.Exchange: sends data messages (control frames come from other goroutines), the peer has no read limit, and its handlers accept everything; WireArrives is for any messages and handlers that give no error, ReadLimitExact for limits.
- Reading.CutStream: is about applications that read each message to its end. For a NextReader that discards a message DiscardEnds states the error.
- Skimming.SkimStream: is about streams that are not cut, and without a read limit; DiscardEnds and DiscardCounts state what these change for one discarded message.
- Skimming.DiscardCounts: is about announced lengths that sum to less than 2^63; LimitedAdvance is for all.
- Reading.ReadLimitExact: is about messages read to their end, and about messages under 2^63 bytes; LimitedAdvance is for all.
- Limits.SessionWithinLimit: needs that no accepted frame takes a message to 2^63 announced bytes, which LimitKept shows to be exactly when accepted frames keep the limit; LimitFails and LimitFailsWithinHeaders have inputs without it.
- Reading.CloseDelivered: a Close payload of one byte is reported as having no status, as the code does; section 5.5.1 of RFC 6455 is stricter.
- Prepared.PreparedMessage.FrameFor: concurrent calls are one after the other, as the mutex and `once` make them; a compressor's output depends on its level and the data alone.
- WriteLock.StepKeepsInv: a state machine on values, since the interleaving is the point; WriteConn has the fields and the buffer.
- SharedPool.AnyCalls: the calls come one after the other, as one goroutine would make them; the pool's own locking is not modelled.
- ChatHub.HubIsSafe: the hub, the clients and their channels are values that steps change, since the interleaving is the point; ChatObjects has the hub's map and the channels as objects, without the interleaving. TrimSpace is any choice of a part of the text.
- ChatHub.PeersGetBroadcasts: a message counts as sent when Close of its writer succeeds; that it then arrives is the round trip's business.
- Volume.Controller.SendGroupVol: `g_groupVolValue` and the helpers that guess at it are not modelled; line 750 of `htd.c` compares a value with itself.
- WritePreparedMessage, which writes ready-made bytes and does not close an open writer.
- Compression itself, the flate reader and the pools of flate readers and writers, and EnableWriteCompression during a connection.
- hideTempErr, which changes only the kind of an error, and the texts of errors other than those of the protocol.
- Setting the read limit or handlers while a connection is read; the default handlers.
- tokenListContainsValue and equalASCIIFold: one loop over tokens, and case folding; they would only add easy members.
- JSON helpers, the handshake, dialing, proxies, TLS, cookies and tracing: calls into libraries that are not part of this model.
- The rest of `htd`, `libmca66`, the user interfaces and the process control of the daemon: serial I/O, forms and tables.
- Zone selection in `htd.c`: line 1354 assigns where it should compare, so no claim is made that a zone stays selected.
