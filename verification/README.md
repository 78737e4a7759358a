# A verified model of libpomp

libpomp sends typed messages over stream sockets, from its own event loop. This project models its core in
Dafny and proves what it is relied upon for: that messages and descriptors arrive whole and in order however the
stream is cut, that what is encoded is what is decoded, that nothing sent is lost or reported twice, that locks
and queues shared by threads neither deadlock nor lose a wake-up, and that contexts and connections follow their
life cycle. `dafny verify dfyconfig.toml` checks the whole project.

System calls, the allocator, clocks and the user's callbacks are parameters or labels of steps: a method takes
the answers of the system as arguments, and a result holds for all of them. Allocation succeeds, of zero bytes as
well; a `long` has 64 bits; and user callbacks do not re-enter the loop.

| file | models |
|---|---|
| `Bytes.dfy`, `Collections.dfy`, `Wrappers.dfy` | bytes and little endian words, sets and sequences, optional values |
| `Frames.dfy`, `Prot.dfy`, `Msg.dfy` | framing of messages in a stream; the incremental decoder; finishing and accepting a message |
| `Varint.dfy`, `Codec.dfy`, `Args.dfy`, `Coders.dfy` | integers, typed arguments, lists of arguments, the encoder and decoder objects |
| `Format.dfy`, `Grammar.dfy`, `FormatIO.dfy` | the printf-like and scanf-like format interpreters; the language they take; the loops |
| `Buffer.dfy`, `Sharing.dfy`, `Holding.dfy` | the reference-counted buffer; its holders; that the first is one address of the second |
| `Custody.dfy` | the references a connection holds on what it was given to send |
| `WriteQueue.dfy`, `SendSpec.dfy`, `SendMeaning.dfy`, `Conn.dfy` | the sending half of a connection and its completion callbacks: its invariants, its specification as a function, what that means over every run, the object |
| `RxTables.dfy`, `RxFds.dfy`, `Fixup.dfy` | received descriptors: tables, routing to messages, slots in the bytes |
| `Delivery.dfy`, `EndToEnd.dfy` | framing, routing, slots and arguments together; and from the sends of one side to the messages of the other |
| `LoopSync.dfy` | the recursive lock of the loop, as a transition system |
| `IdleQueue.dfy`, `List.dfy` | the idle queue under concurrency, and its linked list |
| `FdTable.dfy`, `Poll.dfy` | the hash table of descriptors, and a turn of the poll loop |
| `Watchdog.dfy` | the watchdog thread |
| `EventLog.dfy`, `CtxSpec.dfy`, `CtxMeaning.dfy`, `Ctx.dfy` | the life of server and client contexts, and what their user is told: the order of events, the specification as a function, what that means over every run, the object |

Where the source mutates objects, the model has classes and methods with loops, each proved equal to a function
of the old state; the properties are then proved of those functions. Concurrent parts are transition systems with
a program counter per thread; their results hold in every state of every run.

Bit masks and shifts by seven bits are quotients and remainders. Setting disjoint bits is addition; the proofs
show they are disjoint. Widths, wrap-around and narrowing casts are written out where they occur.

Some promises fail for some inputs. There the model keeps what the code does and states exactly when the promise
holds:

- The decoder rounds the size of a message to a capacity on 32 bits: a finished message survives the stream if and
  only if its length is at most 0xFFFFFF00 (`Frames.FrameSurvives`). A longer one that still fits the size field
  makes the decoder swallow all that follows (`Frames.LongFrameSwallows`), if, as assumed here, the allocation of zero
  bytes that the rounding then asks for succeeds.
- Resynchronisation consumes the byte that breaks the magic number: a stray `P` directly before a frame loses it
  (`Frames.StrayMagicHidesFrame`). Bytes before a frame are harmless, whatever the frame, if and only if they leave
  the decoder idle (`Frames.HarmlessIff`).
- A format taken by the encoder is taken by the decoder if and only if it has at most sixteen strings
  (`Format.FormatsAgree`).
- Rounding a capacity masks it to 32 bits: the result is large enough if and only if the size is at most
  0xFFFFFF00 (`Buffer.AlignUp`, `Buffer.AlignFails`), and so making room in a buffer gives enough if and only if there
  was enough or the size is at most that (`Buffer.GrownEnough`).
- The encoder writes through the same rounding: an argument that can be encoded is written whole if and only if the
  message then ends within its storage or at 0xFFFFFF00 at most, and a list likewise (`Coders.StatusExact`,
  `FormatIO.AcceptedIff`). Beyond, the write is refused, except that the bytes of a block overrun the storage if and
  only if rounding their end gives at least what precedes them, as for the longest block in a fresh message
  (`Coders.LongestBlockOverruns`).
- The watchdog compares a counter of 32 bits: a call is never early if and only if the number of blocks entered
  during the wait of the thread is zero or not a multiple of 2^32 (`Watchdog.NeverEarlyIff`); there is a run with an
  early call for each such multiple (`Watchdog.WrappedFiresEarly`).

## Model

| member | source | states |
|---|---|---|
| Frames.Feed | src/pomp_prot.c:116-160 | one byte keeps the automaton in a legal state, and a completed message always leaves it idle |
| Frames.Decode | src/pomp_prot.c:288-363 | a call uses at least one byte of a non-empty input, all of it unless a message completes, and is idle after a message |
| Frames.RunAppend | src/pomp_prot.c:288-363 | running over two pieces in turn is running over their concatenation, with the messages of both in order |
| Frames.DecodeIsRun | src/pomp_conn.c:515-535 | a decoding call is the automaton over the bytes it used, with at most one message |
| Frames.RunIsScan | src/pomp_prot.c:116-241 | byte by byte, the decoder finds exactly the messages of one greedy scan of the whole stream |
| Frames.MismatchSkipped | src/pomp_prot.c:116-126 | a byte that breaks the magic number is dropped with the bytes that matched before it, and the search starts again after it, whatever follows |
| Frames.BadSizeSkipped | src/pomp_prot.c:135-160 | a header whose size is below its own length is dropped whole and leaves the decoder idle |
| Frames.BareHeader | src/pomp_prot.c:135-160 | a header that announces only itself is a message, and the search goes on after it |
| Frames.FrameIsFrame | src/pomp_msg.c:191-229 | a finished message carries its identifier, and is well formed if and only if its length fits 32 bits |
| Frames.FrameSurvives | src/pomp_prot.c:135-160 | scanning a finished message returns exactly it if and only if its length is at most 0xFFFFFF00, the largest that rounding leaves room for |
| Frames.LongFrameSwallows | src/pomp_prot.c:226-241 | after a well-formed frame longer than that, neither it nor anything after it is ever found |
| Frames.FramesScanned | src/pomp_prot.c:116-241 | the scan of a list of well-formed frames is those frames, identifiers and bytes in order, if and only if none is longer than 0xFFFFFF00 |
| Frames.FramingRoundTrip | src/pomp_prot.c:116-241 | the same after any bytes that leave the decoder idle, whose own messages come first |
| Frames.NoMagicLeavesIdle | src/pomp_prot.c:116-126 | bytes without `P` leave the decoder idle and hold no message |
| Frames.HarmlessIff | src/pomp_prot.c:116-126 | every deliverable frame, whatever follows it, is found right after some bytes if and only if those bytes leave the decoder idle |
| Frames.StrayMagicHidesFrame | src/pomp_prot.c:116-126 | no frame directly after a `P` is found |
| Frames.ScanWhole | src/pomp_prot.c:288-363 | the scan of a buffer is the buffer alone if and only if it is a frame of at most 0xFFFFFF00 bytes with that identifier |
| Frames.DecodeWhole | src/pomp_prot.c:288-363 | the first call of a fresh decoder returns the whole buffer if and only if it is a frame of at most 0xFFFFFF00 bytes |
| Prot.CopyLength | src/pomp_prot.c:171-189 | a copy stays inside both buffers and stops only at the end of one of them |
| Prot.Decoder.StepMagic | src/pomp_prot.c:116-126 | comparing a magic byte in the header buffer is one byte of the automaton |
| Prot.Decoder.StepHeader | src/pomp_prot.c:212-217 | copying header bytes is the automaton over those bytes, the header decision included |
| Prot.Decoder.DecodeHeader | src/pomp_prot.c:135-160 | sizes below the header restart the search, a bare header is a message, others start a payload with the storage that rounding the size gives |
| Prot.PayloadRoom | src/pomp_buffer.c:430-467 | while a payload is copied each write finds room if and only if the bytes so far are at most 0xFFFFFF00 |
| Prot.Decoder.StepPayload | src/pomp_prot.c:226-241 | copying payload bytes, a failed write ignored, is the automaton over those bytes: it completes the message on the last one, or never |
| Prot.Decoder.DecodeMsg | src/pomp_prot.c:288-363 | the loop over states and offsets uses and returns exactly what the automaton does on at most INT_MAX bytes |
| Prot.Decoder.ReleaseMsg | src/pomp_prot.c:373-386 | a message given back is kept for reuse unless one is kept already or one is being received, and the decoding state does not change |
| Prot.Decoder.ProcessReadBuf | src/pomp_conn.c:515-535 | the connection's loop over a read buffer yields all the messages of the automaton, in order |
| Prot.Decoder.ProcessReads | src/pomp_conn.c:731-776 | however a stream is cut into reads, the messages are those of one scan of the whole stream |
| Prot.AcceptedIffDecoded | src/pomp_msg.c:90-144 | a buffer is a valid message of at most INT_MAX bytes if and only if the first decoding call returns it whole |
| Msg.Message.Init | src/pomp_msg.c:160-186 | a message starts with its identifier, unfinished and with an empty buffer of its own: a shared one is left to its holders, another is emptied and its descriptors closed |
| Msg.Message.Finish | src/pomp_msg.c:191-229 | refuses twice, without a buffer, or on a shared one; otherwise the buffer is the frame of the identifier and what was written |
| Msg.NewWithBuffer | src/pomp_msg.c:90-144 | accepts a buffer, with its identifier, if and only if magic and size are right |
| Varint.WriteVarint | src/pomp_encoder.c:121-144 | the loop stays within its ten bytes and produces the base-128 digits of the value |
| Varint.ReadVarint | src/pomp_decoder.c:147-181 | the loop returns the value modulo 2^64 and the bytes used, or reports too few bytes or a shift C leaves undefined |
| Varint.EncodeIsVarint | src/pomp_encoder.c:121-144 | every coding marks all bytes but the last, and denotes its value |
| Varint.EncodeLengths | src/pomp_encoder.c:152-168 | at most 3 bytes for 16 bits, 5 for 32 and 10 for 64 |
| Varint.RoundTrip | src/pomp_decoder.c:147-181 | decoding a coding followed by anything returns the value and leaves what follows |
| Varint.DecodeVarint | src/pomp_decoder.c:147-181 | every coding of at most ten bytes, minimal or not, is read as its number modulo 2^64 |
| Varint.DecodeStable | src/pomp_decoder.c:147-181 | bytes that follow do not change a value already complete |
| Varint.Minimal | src/pomp_encoder.c:121-144 | no coding of a number is shorter than the encoder's, and it is the only one without a useless zero group |
| Varint.PrefixFree | src/pomp_encoder.c:121-144 | no coding is a prefix of another |
| Varint.ZigzagBijection | src/pomp_encoder.c:563-596 | at 32 and at 64 bits, the encoder's and the decoder's expressions are inverse of each other on all words |
| Varint.ZigzagShort | src/pomp_encoder.c:563-596 | exactly the values from -64 to 63 take one byte |
| Codec.TagRoundTrip | src/pomp_prot.h:106-118 | tags and kinds correspond one to one, for the thirteen tags of the protocol |
| Codec.NumberRoundTrip | src/pomp_decoder.c:846-963 | integers and floating point patterns of every width are read back, whatever follows |
| Codec.TextRoundTrip | src/pomp_decoder.c:994-1043 | a string of at most 65534 characters is read back, whatever follows |
| Codec.BlockRoundTrip | src/pomp_decoder.c:1076-1116 | a block of bytes is read back, whatever follows |
| Codec.DataRoundTrip | src/pomp_decoder.c:846-1183 | the same for any argument the encoder takes; descriptors only where one is registered |
| Codec.FixedExactly | src/pomp_decoder.c:846-1183 | of any bytes, data of a fixed size is accepted if and only if it is all there, and a descriptor if and only if it is also registered and its top bit is clear |
| Codec.NumberExactly | src/pomp_decoder.c:906-963 | after any coding of at most ten bytes, minimal or not, a number of the kind is read and exactly the coding is used |
| Codec.TextExactly | src/pomp_decoder.c:994-1043 | a string is accepted if and only if as many bytes as announced follow, on 16 bits, and the last is the terminator; it is what precedes the first terminator |
| Codec.BlockExactly | src/pomp_decoder.c:1076-1116 | a block is accepted if and only if as many bytes as announced follow, on 32 bits, and it is those bytes |
| Codec.NothingSized | src/pomp_decoder.c:147-181 | without a coding of at most ten bytes in front, nothing is read |
| Args.EncodedChain | src/pomp_encoder.c:515-725 | in an encoded list each argument is found at its own position, and reading it leads to the next |
| Args.ListRoundTrip | src/pomp_decoder.c:846-1183 | reading with the kinds of the first arguments returns exactly those, and with all kinds ends at the end of the message |
| Args.WrongKind | src/pomp_decoder.c:114-138 | reading with another kind than the one present fails |
| Args.WalkVisits | src/pomp_decoder.c:739-841 | a walk over an encoded list visits exactly its arguments up to the one that stops it, without error, and ends after it |
| Coders.PieceIff | src/pomp_buffer.c:430-467 | a write to the buffer is done if and only if it ends within the storage or at 0xFFFFFF00 at most; beyond, it is refused, or overruns if and only if the rounded end is at least what is written, which takes more than 65536 bytes |
| Coders.FirstPiece | src/pomp_encoder.c:68-75 | the first write, into a buffer still empty while the position is after the header, grows as any other |
| Coders.PutAllIff | src/pomp_encoder.c:91-144 | successive writes are all done if and only if the last ends within that limit, and the bytes are then their concatenation |
| Coders.PiecesAre | src/pomp_encoder.c:613-725 | the pieces written for an argument are its coding |
| Coders.StatusExact | src/pomp_encoder.c:515-725 | an argument is accepted if and only if it can be encoded, ends within the limit, and a descriptor can be duplicated and has a place; it overruns if and only if it is a block that begins within the limit and whose end rounds to at least its beginning |
| Coders.LongestBlockOverruns | src/pomp_encoder.c:649-671 | a block of 2^32 - 1 bytes in a fresh message overruns its 256 bytes |
| Coders.FullIsRefused | src/pomp_encoder.c:91-108 | nothing more can be written to a message of 0xFFFFFF00 bytes that fills its storage |
| Coders.Encoder.Put | src/pomp_buffer.c:430-467 | one write: growth, refusal and bytes are those specified |
| Coders.Encoder.WriteNumber | src/pomp_encoder.c:515-608 | answers as specified for every message and storage, and leaves exactly the pieces written before a refusal |
| Coders.Encoder.WriteStr | src/pomp_encoder.c:613-644 | the same; a string that is too long writes nothing |
| Coders.Encoder.WriteBuf | src/pomp_encoder.c:649-671 | the same, for every block that does not overrun the storage |
| Coders.Encoder.WriteFd | src/pomp_encoder.c:710-725 | appends and registers the descriptor, or answers which error, no room and a failed duplication included; a refusal registers nothing and leaves the specified bytes |
| Coders.Encoder.Write | src/pomp_encoder.c:515-725 | the message grows by exactly the coding of the argument, or the answer says why not and the pieces written before stay |
| Coders.Decoder.ReadTag | src/pomp_decoder.c:114-138 | a different tag leaves the position where it was |
| Coders.Decoder.ReadTextData | src/pomp_decoder.c:994-1043 | size, bounds and terminator are checked as specified, and the position follows |
| Coders.Decoder.ReadBlockData | src/pomp_decoder.c:1076-1116 | the same for a block |
| Coders.Decoder.ReadFdData | src/pomp_buffer.c:591-613 | searching the registered offsets decides whether a descriptor is read |
| Coders.Decoder.Read | src/pomp_decoder.c:846-1183 | reading an argument of a kind answers as specified and moves by the bytes used |
| Coders.Decoder.WalkArgs | src/pomp_decoder.c:739-841 | the walk terminates, and what it visited, its answer and its end are those of the specified walk |
| Format.ConversionsAgree | src/pomp_encoder.c:263-440 | one conversion of the encoder, with `ms` for `s`, is one of the decoder, of the same kind and with the same rest |
| Format.FormatsAgree | src/pomp_decoder.c:229-464 | a format of the encoder is one of the decoder with the same kinds if and only if its strings fit the sixteen places |
| Grammar.EncoderAccepts | src/pomp_encoder.c:238-449 | every sequence of well-formed items, each denoting a kind by its letter and its length modifiers in any order and number, is taken by the encoder as those kinds; it succeeds if and only if nothing else follows |
| Grammar.EncoderSplits | src/pomp_encoder.c:238-449 | conversely every string is such a sequence and a rest that starts no item, and is taken if and only if the rest is empty |
| Grammar.DecoderAccepts | src/pomp_decoder.c:229-464 | the decoder takes every such sequence, with `ms` for strings, if and only if its strings fit the sixteen places and nothing else follows |
| Grammar.DecoderSplits | src/pomp_decoder.c:229-464 | conversely every format it takes is such a sequence, with those kinds |
| Grammar.OneMeaning | src/pomp_encoder.c:263-440 | an item denotes one kind |
| Format.ScanNeedsFormat | src/pomp_decoder.c:229-464 | nothing is read whole with a format that is not one |
| Format.ScanIsReadAll | src/pomp_decoder.c:229-464 | reading while parsing an acceptable format is reading its list of kinds |
| Format.FormatRoundTrip | src/pomp_decoder.c:229-464 | what was written with a format is read back with it, `ms` for `s`, up to the end of the message |
| FormatIO.EncoderSpecifier | src/pomp_encoder.c:263-440 | the flag loop finds the conversion or the error, and never reads past the terminator |
| FormatIO.DecoderSpecifier | src/pomp_decoder.c:254-447 | the same for the decoder |
| FormatIO.AcceptedIff | src/pomp_encoder.c:238-449 | a list of arguments is written whole if and only if the message is unfinished and not shared, all can be encoded, the message ends within its limit, and every descriptor can be duplicated and has a place |
| FormatIO.Writev | src/pomp_encoder.c:238-449 | answers the first refusal, or the error of the format, or success; succeeds if and only if the format is right, which `Grammar.EncoderAccepts` and `Grammar.EncoderSplits` say of every string, and the list acceptable, and the message has then grown by all the arguments |
| FormatIO.Readv | src/pomp_decoder.c:229-464 | returns the arguments of the format or its first error; strings are all the caller's after a success, all freed after an error |
| Buffer.AlignUp | src/pomp_buffer.h:53-54 | the result is a multiple of 256, and the next one upwards if and only if the size is at most 0xFFFFFF00 |
| Buffer.AlignFails | src/pomp_buffer.h:53-54 | 4 GiB round to zero |
| Buffer.GrownEnough | src/pomp_buffer.c:430-441 | making room gives enough storage if and only if there was enough or the size is at most 0xFFFFFF00 |
| Buffer.DefinedIff | src/pomp_buffer.c:446-467 | a write has a defined effect if and only if it fits the storage, or ends at 0xFFFFFF00 at most, or is refused because the rounded size is below the length |
| Buffer.WriteTwice | src/pomp_buffer.c:446-467 | a write where the previous one ended is one write of both, and what was written can be read there |
| Buffer.Buffer.SetCapacity | src/pomp_buffer.c:327-341 | storage changes and content does not; too small or shared is refused |
| Buffer.Buffer.SetLen | src/pomp_buffer.c:346-353 | sets the length within the capacity unless shared |
| Buffer.Buffer.EnsureCapacity | src/pomp_buffer.c:430-441 | refused when shared, or when the rounded size is below the length; otherwise the storage is exactly what rounding gives, and the content is kept |
| Buffer.Buffer.Write | src/pomp_buffer.c:446-467 | the bytes are at the position and the others are kept, with the exact growth; a shared buffer, or a size rounded below the length, is refused and nothing changes |
| Buffer.Buffer.RegisterFd | src/pomp_buffer.c:79-102 | each refusal in order; on success the number is at the offset, can be read back, and the offset is recorded |
| Buffer.Buffer.ClearPartial | src/pomp_buffer.c:122-167 | closes exactly the descriptors at the recorded offsets, empties the buffer and keeps its storage up to the maximum; refused when shared |
| Buffer.Buffer.Unref | src/pomp_buffer.c:297-314 | the last reference releases what is owned; any other changes only the count |
| Sharing.NextCounted | src/pomp_buffer.c:282-314 | after every operation each count is the number of holders, and a buffer lives exactly while it is held |
| Sharing.ChangedIffAlone | src/pomp_buffer.c:446-467 | the test made before a change holds if and only if nobody else holds the buffer |
| Sharing.TakenSees | src/pomp_buffer.c:172-292 | a new buffer shows its holder what was put in it, a copy is another buffer with the same content, and a reference leads to the same one |
| Sharing.ChangedTakesEffect | src/pomp_buffer.c:297-467 | a change is made if and only if its author is alone on the buffer, starting over always is, and giving back frees the buffer exactly if nobody else holds it |
| Sharing.NextIsolated | src/pomp_buffer.c:79-167 | whatever one holder does, every other still holds the same buffer with the same content |
| Sharing.RunIsolated | src/pomp_buffer.c:79-167 | over any run, a holder that does nothing sees no change, whatever the others do |
| Sharing.SharedIsKept | src/pomp_buffer.c:282-295 | a holder keeps the bytes that the one it took its reference from saw then, whatever that one does next |
| Sharing.RenewCounted | src/pomp_msg.c:160-186 | starting over on a buffer, which is replaced if shared, keeps the counts exact |
| Sharing.RenewStarts | src/pomp_conn.c:739-761 | a read starts on a buffer nobody else holds, and a read buffer somebody retained is left to them as it was |
| Sharing.NothingLeaks | src/pomp_buffer.c:297-314 | when nobody holds anything, every buffer has been freed |
| Holding.Share | src/pomp_buffer.c:282-295 | taking a reference on the object is the sharing step at its address |
| Holding.Drop | src/pomp_buffer.c:297-314 | giving one back is the dropping step, and the object is freed exactly when the address is |
| Holding.Write | src/pomp_buffer.c:446-467 | a write is the changing step to the content it leaves, refused exactly to a holder that is not alone |
| Holding.Clear | src/pomp_buffer.c:122-167 | so is clearing |
| Holding.Register | src/pomp_buffer.c:79-102 | so is registering a descriptor |
| Holding.WritePiece | src/pomp_buffer.c:446-467 | a write at the end of the object is the write of the encoder, storage included |
| WriteQueue.AcceptStream | src/pomp_conn.c:1390-1409 | queueing a buffer extends the stream: bytes written, then bytes waiting, are the accepted buffers in order |
| WriteQueue.WriteFlows | src/pomp_conn.c:347-368 | a partial write keeps that, and descriptors go out with the first byte of their buffer |
| WriteQueue.TurnStream | src/pomp_conn.c:944-986 | the same through the removal of a completed head; what stays in the queue is never written whole |
| WriteQueue.WireIs | src/pomp_conn.c:944-986 | the wire holds the completed buffers whole and then the written part of the head |
| WriteQueue.DrainedMeansSent | src/pomp_conn.c:944-986 | with an empty queue, all bytes and all descriptors accepted have gone out |
| WriteQueue.StreamAttached | src/pomp_conn.c:281-368 | the descriptors out are exactly those of the buffers whose first byte is out, each group at that byte |
| WriteQueue.StreamLeaves | src/pomp_conn.c:944-986 | the bytes out end inside the first buffer that is not complete, after all the complete ones |
| WriteQueue.NotesComplete | src/pomp_conn.c:903-936 | completing a send adds its notification behind those waiting, with the state of the queue at that time, and records how many sends were accepted by then |
| WriteQueue.IdleRemoveOldest | src/pomp_conn.c:870-894 | removing the oldest callback from both lists keeps them in step |
| WriteQueue.OneNotificationEach | src/pomp_conn.c:1148-1191 | after a close there is one notification per accepted send, in order: sent if and only if all its bytes are on the wire, aborted otherwise, and queue-empty exactly for the last send accepted by its completion or by the close |
| SendSpec.TurnOk | src/pomp_conn.c:944-986 | a system call for the head of the queue, with its completion, keeps the stream and the notifications in order |
| SendSpec.AfterSendOk | src/pomp_conn.c:1323-1412 | so does a send, refused, queued or written at once |
| SendSpec.CloseOk | src/pomp_conn.c:1148-1191 | closing settles every deferred callback, then every buffer left, and leaves a complete history |
| SendSpec.NextOk | src/pomp_conn.c:944-1412 | every call, event and idle turn keeps the invariant, also after the close |
| SendSpec.NextAccepts | src/pomp_conn.c:1323-1412 | a send answered with success, and nothing else, adds its buffer to the accepted ones |
| SendSpec.SessionHistory | src/pomp_conn.c:1148-1191 | for every life of a connection, once closed: the accepted buffers are exactly those of the sends answered with success, in order, and bytes, descriptors and notifications are those due for them |
| SendMeaning.RunFlags | src/pomp_conn.c:1148-1237 | in every run a connection is open until it is closed, and can be written to until it is disconnected or closed |
| SendMeaning.SendIsAnswered | src/pomp_conn.c:1323-1412 | in every run a send succeeds if and only if the connection was neither closed nor disconnected before, the buffer has storage, descriptors go to a local socket only and, with no earlier send incomplete, the system call does not fail; each refusal is given exactly for its own reason and changes nothing; a success makes the buffer the last accepted, and its bytes go out at once exactly if no earlier send is incomplete |
| SendMeaning.EndsAreAnswered | src/pomp_conn.c:1148-1237 | in every run a disconnection and a close succeed exactly while the connection is open |
| SendMeaning.WritableDoes | src/pomp_conn.c:944-986 | when the socket is writable the first system call takes bytes of the oldest incomplete send, with its descriptors at its first byte, completes it when all are out, and the other calls follow; a call that would block ends the turn, a failure also marks the connection for removal |
| SendMeaning.WritableWhenShut | src/pomp_conn.c:944-986 | once disconnected nothing more is written |
| SendMeaning.IdleDoes | src/pomp_conn.c:840-894 | a turn of the idle queue runs exactly its first entry, which tells the oldest completion if it is one of the connection; a disconnection tells them all and leaves the entries of others |
| Conn.Connection.IoWrite | src/pomp_conn.c:347-368 | writes the bytes from the offset, with descriptors only at offset zero; nothing once shut down |
| Conn.Connection.AddIdleCb | src/pomp_conn.c:903-936 | the callback is last in the idle queue of the loop and in the list of the connection, which stay in step |
| Conn.Connection.WriteHead | src/pomp_conn.c:955-978 | one turn of the loop is one system call of the specification |
| Conn.Connection.WritePending | src/pomp_conn.c:953-979 | the loop is the specified sequence of system calls |
| Conn.Connection.Send | src/pomp_conn.c:1323-1412 | answers, and becomes, exactly what the specification of a send says, which `SendMeaning.SendIsAnswered` tells over every run; keeps the invariant |
| Conn.Connection.SendNow | src/pomp_conn.c:1359-1388 | with nothing waiting: the write, the completion of a whole buffer, or the rest queued and watched for |
| Conn.Connection.ProcessWrite | src/pomp_conn.c:944-986 | drains the queue as specified for the answers given, and watches for writability exactly while something waits |
| Conn.Connection.RunIdle | src/pomp_conn.c:840-864 | the callback run is always the expected one; it tells the oldest completion, and entries of others tell nothing |
| Conn.Connection.ClearPendingCallbacks | src/pomp_conn.c:870-894 | tells all pending completions in order, and leaves exactly the entries of other users in the idle queue, in order |
| Conn.Connection.Disconnect | src/pomp_conn.c:1220-1237 | shuts down and settles the pending completions; the queue is kept |
| Conn.Connection.Close | src/pomp_conn.c:1148-1191 | the connection becomes exactly what the specification of a close says: callbacks told, then buffers aborted |
| Conn.Session | src/pomp_conn.c:1148-1191 | for every life of a connection: its final state and all its answers are those of the specification run on the same operations, and its history is complete |
| Conn.Perform | src/pomp_conn.c:944-1412 | each operation of the object is the step of the specification, answer included |
| Custody.MovedSafe | src/pomp_conn.c:190-220 | taking and giving back a reference for a queue entry or a completion keeps exactly those references, each leading to what was given |
| Custody.ElsewhereSafe | src/pomp_buffer.c:79-167 | whatever any other holder does keeps them too |
| Custody.NextFollows | src/pomp_conn.c:783-936 | every operation of the specification can be carried out by such moves, in step with the sends accepted, completed and told |
| Custody.QueuedIsKept | src/pomp_conn.c:190-206 | in every run, with the user reusing or dropping the buffers sent, queue entries and waiting completions lead to the very bytes and descriptors that were sent |
| Custody.HeldExactly | src/pomp_conn.c:190-220 | in every run the connection holds a reference exactly for each send not complete and, with a callback, for each completion not told |
| Custody.NothingIsHeld | src/pomp_conn.c:1148-1191 | a closed connection holds no reference |
| RxTables.ReceiveConserves | src/pomp_conn.c:652-714 | descriptors of a read are stored or closed, none lost or doubled, and an empty current table has nothing behind it |
| RxTables.ReceiveFits | src/pomp_conn.c:652-714 | with at most four descriptors in a read none is turned away for lack of room |
| RxTables.ReceiveKeepsOrder | src/pomp_conn.c:652-714 | descriptors received take the place of an empty table, wait behind a used one, or, when both are used, wait behind the newer group while the older is given up |
| RxTables.MessageUsesItsGroup | src/pomp_conn.c:461-489 | a message with slots gets the first descriptors of its group, the rest of the group is closed and the next message starts with the next group; one without slots touches nothing |
| RxTables.FixupAllConserves | src/pomp_conn.c:461-489 | messages take or close descriptors without loss, for any number of slots |
| RxTables.HandleConserves | src/pomp_conn.c:497-547 | a whole read conserves descriptors, and leaves the tables empty when it ends with a message |
| RxTables.ReadRouted | src/pomp_conn.c:139-164 | in a read of a well-behaved peer each completed message gets exactly its own descriptors, and nothing is closed |
| RxTables.StreamRouted | src/pomp_conn.c:139-164 | for every split of such a stream into reads each message gets exactly its own descriptors in order, none is closed, and at most one group waits between reads |
| RxFds.Receiver.ClearCurrent | src/pomp_conn.c:381-390 | closes the descriptors of the table, in order |
| RxFds.Receiver.GetNext | src/pomp_conn.c:405-421 | takes the first descriptor and keeps the order of the others |
| RxFds.Receiver.AddAll | src/pomp_conn.c:698-708 | stores what fits and closes the rest |
| RxFds.Receiver.ReceiveFds | src/pomp_conn.c:652-716 | the tables and the descriptors closed are those specified, and the read succeeds if and only if every descriptor finds room |
| RxFds.StoresIff | src/pomp_conn.c:698-714 | every descriptor of a read finds room if and only if none of them is closed |
| RxFds.Receiver.FillSlots | src/pomp_conn.c:433-459 | the walk over the bytes of a message gives its slots the first descriptors of the table and stops at the first slot left without one |
| RxFds.Receiver.FixupMessage | src/pomp_conn.c:433-489 | given the bytes alone: the slots that a walk over them meets get the first descriptors of the table, the rest is closed, and the message is delivered if and only if that walk, stopped at the first slot left without a descriptor, ends without error |
| RxFds.Receiver.ProcessReadBuf | src/pomp_conn.c:497-547 | messages are served in order as specified, each delivered if and only if the walk over its bytes with the descriptors it got ends without error; when no message is partial the rest is closed |
| RxFds.Receiver.Close | src/pomp_conn.c:1155-1157 | both tables are emptied and their descriptors closed, in order |
| RxFds.Life | src/pomp_conn.c:381-547 | for every history of reads and releases in any order, then the end: the descriptors closed are those of the specification run on the same events, and each received descriptor among them as often as received |
| RxFds.Perform | src/pomp_conn.c:497-547 | each read and each release is the step of the specification |
| RxFds.RunAccounts | src/pomp_conn.c:381-547 | after every history each descriptor received is in a table, in one message still around, or closed, and only once |
| RxFds.AllClosedAtEnd | src/pomp_conn.c:1155-1157 | at the end of every history all that was received is closed, as often as received |
| RxFds.HeldIsOpen | src/pomp_conn.c:433-489 | a descriptor in a message still around is not closed and in no other message |
| Fixup.PassOver | src/pomp_decoder.c:739-841 | the fixup walk passes over an argument that is not a descriptor |
| Fixup.FillSlot | src/pomp_conn.c:433-459 | filling a slot gives the bytes the sender would have written with that number, registered there |
| Fixup.FixupDelivers | src/pomp_conn.c:461-489 | after the fixup the message is the sender's with the descriptors of this side, so that reading it returns them |
| Fixup.OwnedAll | src/pomp_buffer.c:131-139 | clearing an encoded message closes the descriptors written to it, in order |
| Fixup.ReleaseCloses | src/pomp_buffer.c:131-139 | whatever the bytes of a message and however many descriptors came, those its release finds in the bytes are those given to it, in order, one for each slot the walk meets as far as they go |
| Fixup.DeliveredIff | src/pomp_conn.c:433-489 | a message of any bytes is delivered if and only if the walk over all its arguments succeeds, or it has fewer descriptors than slots in the part before the error |
| Fixup.WalkWithEnough | src/pomp_decoder.c:739-841 | with a descriptor for every slot the fixup walk is the walk that nothing stops |
| Fixup.WalkWithout | src/pomp_decoder.c:834-840 | with fewer it ends without error at the first slot left without one |
| Fixup.SenderWalk | src/pomp_conn.c:461-489 | the walk over an encoded message meets one slot for each descriptor argument and, with as many descriptors, ends without error |
| Fixup.WalkMeets | src/pomp_decoder.c:739-841 | the slots counted are the descriptors among the arguments of a walk that nothing stops |
| Delivery.ScanStart | src/pomp_conn.c:497-535 | the first bytes of a stream of messages hold exactly the messages that end in them |
| Delivery.LetterArrives | src/pomp_conn.c:461-489 | a decoded message with its own descriptors in its slots is delivered, and reads back its identifier and all its arguments |
| Delivery.HeldInBytes | src/pomp_conn.c:461-489 | what a message of any bytes takes from the tables is what its release finds in its bytes |
| Delivery.EverySplitDelivers | src/pomp_conn.c:139-164 | for every list of messages and every split into reads that carry the descriptors of at most one message: what is decoded so far is the first messages sent, in order, each with its own descriptors, each delivered to the user and reading back whole |
| Delivery.AllDelivered | src/pomp_conn.c:139-164 | once the whole stream is read, all the messages have so arrived and been delivered to the user, nothing is closed and nothing is left |
| EndToEnd.CarriedIs | src/pomp_conn.c:281-368 | the groups attached to some bytes of the stream are those of the buffers that begin there |
| EndToEnd.GroupIsCarried | src/pomp_conn.c:652-716 | a proper read from any point of what was sent brings exactly the group that its messages need |
| EndToEnd.CompletedSends | src/pomp_conn.c:944-986 | the messages whole on the wire are those of the completed sends |
| EndToEnd.SessionDelivers | src/pomp_conn.c:139-164 | for every life of the sending connection and every proper way of reading what it put on the wire: the messages delivered to the user are those of the completed sends, in order, each with its own descriptors and reading back whole; a send was reported sent if and only if its message arrived |
| LoopSync.StepSafe | src/pomp_loop_sync.c:63-120 | every step of every thread keeps the counters meaning what their names say, also when callbacks release locks they did not take |
| LoopSync.MutualExclusion | src/pomp_loop_sync.c:63-120 | in every interleaving, spurious wake-ups included: one owner at most, `count` is its depth, `waiters` counts the waiting threads; the depth is the number of locks held by `LoopSync.HoldsIsDepth` |
| LoopSync.HoldsIsDepth | src/pomp_loop_sync.c:63-120 | in every interleaving the depth of a thread is the number of its calls that returned with the lock minus those that gave it back |
| LoopSync.OwnerHolds | src/pomp_loop_sync.c:63-120 | in every interleaving a thread owns the lock if and only if it has taken it more often than it gave it back; `count` is by how much, and no other thread holds it |
| LoopSync.UnlockFrees | src/pomp_loop_sync.c:102-120 | giving back a lock makes it free if and only if it was held once, and it is then held once less |
| LoopSync.LockWaits | src/pomp_loop_sync.c:63-100 | a call for the lock waits if and only if the caller does not have it and another thread does or, for a caller that will block, others wait; otherwise it returns as the owner |
| LoopSync.StepLive | src/pomp_loop_sync.c:63-120 | every step keeps the wake-up invariants, with one blocking caller at a time that holds no outer lock |
| LoopSync.FreeLockIsTaken | src/pomp_loop_sync.c:63-120 | with one blocking caller at a time that holds no outer lock, whatever callbacks lock and unlock, a free lock with waiters is about to be taken by one of them |
| LoopSync.SleeperIsWoken | src/pomp_loop_sync.c:63-100 | under the same rule, the loop never sleeps in poll while another thread waits, unless its wake-up is already pending |
| IdleQueue.StepKeeps | src/pomp_loop.c:594-798 | every step of adders, removers, flushers and dispatcher keeps the queue invariants; what each call has achieved when it returns is in the rows that follow |
| IdleQueue.FlushEmpties | src/pomp_loop.c:729-756 | in every run a flush runs the first entry, one by one, and returns if and only if the queue is empty |
| IdleQueue.FlusherReturns | src/pomp_loop.c:729-798 | in every run, whatever step brings a flusher back, the queue is then empty, or for a flush by cookie holds no entry of that cookie |
| IdleQueue.CookieFlushed | src/pomp_loop.c:762-798 | a flush by cookie runs the first entry of its cookie, leaving the others in order, and returns if and only if there is none |
| IdleQueue.RemovalRemoves | src/pomp_loop.c:669-723 | a removal takes out exactly the entries with that callback and that user data, or with that cookie, keeps the others in order and runs none |
| IdleQueue.OthersDo | src/pomp_loop.c:275-303 | an addition puts its entry last, then signals; a dispatch runs exactly the first entry, and signals again if others are left |
| IdleQueue.EntriesAreNeverStranded | src/pomp_loop.c:275-303 | a non-empty queue is signalled, or an adder is about to signal, or a dispatcher has yet to look again |
| IdleQueue.EntriesRunOnceInOrder | src/pomp_loop.c:594-798 | each entry is pending, or run once, or removed; what is taken from the head runs in registration order |
| IdleQueue.QuietMeansDone | src/pomp_loop.c:275-303 | when all calls returned and the event is clear, every entry was run or removed |
| List.InitList | src/pomp_list.h:60-64 | an empty ring |
| List.Insert | src/pomp_list.h:97-105 | four assignments insert a node at its place in the ring |
| List.AddTail | src/pomp_list.h:121-126 | the node is last |
| List.AddHead | src/pomp_list.h:128-133 | the node is first |
| List.Unlink | src/pomp_list.h:135-141 | the ring without the node, whose pointers are cleared |
| List.RemoveMatching | src/pomp_loop.c:669-723 | the safe walk that unlinks matching entries leaves the others in order |
| FdTable.Inserted | src/pomp_loop.c:212-238 | insertion at the head of a chain adds one key to the map |
| FdTable.Removed | src/pomp_loop.c:246-273 | unlinking from a chain removes exactly that key |
| FdTable.ListsTable | src/pomp_loop_posix.c:212-223 | the chains in turn list every registered descriptor exactly once, as many as the count |
| FdTable.Loop.Find | src/pomp_loop.c:191-201 | the walk over a chain finds the entry of the map, or there is none |
| FdTable.Loop.Add | src/pomp_loop.c:416-446 | each refusal in order; the map gains the entry only on success |
| FdTable.Loop.Update | src/pomp_loop.c:451-474 | sets the events of a registered descriptor, set back if the backend refuses |
| FdTable.Loop.Update2 | src/pomp_loop.c:479-504 | adds, then removes, events of a registered descriptor |
| FdTable.Loop.Remove | src/pomp_loop.c:509-532 | the map loses the entry, and the count follows |
| Poll.CopyChain | src/pomp_loop_posix.c:214-222 | the inner loop copies a chain, and reports corruption if and only if the array is too short |
| Poll.Fill | src/pomp_loop_posix.c:192-223 | the corruption branch is never taken, and the array is the wakeup pipe followed by all the chains |
| Poll.FillListsOnce | src/pomp_loop_posix.c:192-223 | each registered descriptor is in the array exactly once |
| Poll.Dispatch | src/pomp_loop_posix.c:239-255 | the calls made and the table left are those specified, whatever callbacks do to the table |
| Poll.CallsAreRightful | src/pomp_loop_posix.c:239-255 | every call is for a reported descriptor and the entry registered at that moment, and no position is called twice |
| Poll.ReportedIsCalled | src/pomp_loop_posix.c:239-255 | a position is called if and only if it is reported, is not the wakeup pipe and its descriptor is registered when its turn comes, with the entry of that time |
| Poll.TableChanges | src/pomp_loop_posix.c:239-255 | the table changes only by what the callbacks called do, one after the other |
| Poll.LeftAloneIsCalledOnce | src/pomp_loop_posix.c:239-255 | a registered descriptor that is reported and that no callback of the turn touches is called exactly once, in the order of the array |
| Watchdog.AbsoluteTimeout | src/pomp_watchdog.c:51-62 | the deadline is exactly now plus the delay, with nanoseconds below one billion |
| Watchdog.PassedExact | src/pomp_watchdog.c:39-49 | the test on seconds and nanoseconds is the comparison of times |
| Watchdog.StepKeeps | src/pomp_watchdog.c:70-117 | every step of the loop and of the thread keeps the invariants, also when the counter wraps |
| Watchdog.AtMostOncePerBlock | src/pomp_watchdog.c:70-117 | in every interleaving the callback is called at most once per block |
| Watchdog.FiredWhileActive | src/pomp_watchdog.c:70-117 | it is called only by a timeout, while the current block is active and monitored, for that block, once the limit waited for has passed |
| Watchdog.FiredForItsBlock | src/pomp_watchdog.c:99-111 | at a call the thread waited for the current block if and only if fewer than 2^32 blocks were entered since; and then the call is no sooner than the entry plus the delay |
| Watchdog.NeverEarlyIff | src/pomp_watchdog.c:99-111 | over all runs no call is early if and only if the blocks entered during the wait are none or not a multiple of 2^32 |
| Watchdog.BlockIsWatched | src/pomp_watchdog.c:206-217 | a monitored block is the one the thread waits for, or a wake-up is on its way |
| Watchdog.MonitoredUntil | src/pomp_watchdog.c:99-111 | in every run an active block is monitored if and only if it has not been reported |
| Watchdog.OverrunIsReported | src/pomp_watchdog.c:70-117 | in every run a block that overran its delay and has not been reported is reported, once, when the thread next looks at the state and times out |
| Watchdog.OverrunIsReportedAtOnce | src/pomp_watchdog.c:70-117 | with no wake-up pending the thread waits for that block, and its timeout reports it |
| Watchdog.BlocksAre | src/pomp_watchdog.c:206-217 | each entry begins a new block with the delay in force, leaving ends it, and nothing else changes which block is current |
| Watchdog.QuietAfterFiring | src/pomp_watchdog.c:99-111 | once monitoring is off nothing is called until the next entry |
| Watchdog.WrappedFiresEarly | src/pomp_watchdog.c:99-111 | for every positive multiple of 2^32, a run from the start in which that many blocks are entered during one wait and the call is early |
| EventLog.Story | src/pomp_ctx.c:1603-1641 | a connection's phase says exactly what was told about it: nothing; connected, then messages; or that and, last, disconnected |
| EventLog.LogConnect | src/pomp_ctx.c:1603-1617 | announcing a new connection makes it live and changes no other |
| EventLog.LogDisconnect | src/pomp_ctx.c:1603-1617 | announcing the end of a live connection makes it gone and changes no other |
| CtxSpec.RemovedOk | src/pomp_ctx.c:1526-1594 | ending a connection keeps the invariant, and exactly that one is no longer live |
| CtxSpec.StopFirst | src/pomp_ctx.c:524-531 | ending the first connection is the first part of a stop, and never sets a timer again |
| CtxSpec.StoppedOk | src/pomp_ctx.c:1219-1243 | a stop ends every connection in order with notice, and leaves nothing |
| CtxSpec.NextOk | src/pomp_ctx.c:884-1687 | every event keeps which resources and connections exist together, and the order of what the user is told |
| CtxSpec.RunStory | src/pomp_ctx.c:1526-1687 | in every run each connection was announced, then only its messages reported, then its end, once, exactly if it is gone; and nothing was said of any other |
| CtxSpec.LimitHolds | src/pomp_ctx.c:279-356 | the list of a server grows only by one, and only below the limit in force |
| CtxSpec.StopIsCarriedOut | src/pomp_ctx.c:1219-1265 | a deferred stop is kept until the idle queue carries it out, and then no connection is left |
| CtxMeaning.StepPursues | src/pomp_ctx.c:884-905 | a context that is up goes on listening, connecting, connected or waiting to try again after every event, except exactly an attempt that fails outright when the timer expires |
| CtxMeaning.RunPursues | src/pomp_ctx.c:884-1594 | in every run without such an attempt a server that is up listens or waits to, and a client that is up and not stopping has exactly one of pending socket, connection and timer |
| CtxMeaning.NeverAgain | src/pomp_ctx.c:884-905 | after such an attempt no connection is made until a stop is carried out |
| CtxMeaning.PeerTaken | src/pomp_ctx.c:279-356 | in every run a listening server takes a peer handed over if and only if it is below the limit: the peer is new, first in the list and announced; otherwise nothing changes |
| CtxMeaning.AttemptEnds | src/pomp_ctx.c:558-638 | in every run a pending attempt becomes the connection, new and announced, or sets the timer and tells nothing |
| CtxMeaning.ConnectionEnds | src/pomp_ctx.c:1526-1594 | in every run the end of a live connection is told and the others keep their order; a client sets its timer if and only if nobody asked it to stop, the callback just called included; the end of any other changes nothing |
| CtxMeaning.MessageTold | src/pomp_ctx.c:1626-1641 | in every run a message of a live connection is told, of no other, and nothing else changes but a stop asked for |
| CtxMeaning.StopEndsAll | src/pomp_ctx.c:1219-1265 | in every run a stop takes effect if and only if the context is up and, when a callback asked for it, at the idle turn; it tells the end of every connection in order and leaves nothing |
| CtxMeaning.AttemptMade | src/pomp_ctx.c:1109-1166 | in every run a start takes effect if and only if the context is down, and each attempt leaves exactly what the system granted: a socket, the timer or nothing |
| CtxMeaning.LimitIs | src/pomp_ctx.c:1072-1081 | in every run the limit in force is the last one given that is not zero |
| Ctx.Context.RequestStop | src/pomp_ctx.c:1248-1265 | a stop is ignored when stopped or stopping, deferred inside a notification, immediate otherwise |
| Ctx.Context.Stop | src/pomp_ctx.c:1248-1265 | outside notifications the context becomes exactly what a stop specifies, and a stop already pending changes nothing |
| Ctx.Context.StopNow | src/pomp_ctx.c:1219-1243 | every connection is ended in order with notice, and nothing remains, as specified |
| Ctx.Context.RemoveConn | src/pomp_ctx.c:1526-1594 | exactly that connection leaves, its end is told, and a client that is not stopping sets its timer |
| Ctx.Context.Start | src/pomp_ctx.c:1109-1166 | refused while started; otherwise the specified outcome of the attempt, and nothing after a failure |
| Ctx.Context.TimerFires | src/pomp_ctx.c:884-905 | the timer is cleared before the new attempt |
| Ctx.Context.AcceptConn | src/pomp_ctx.c:279-356 | a peer is taken and announced if and only if the limit in force is not reached, and nothing else changes |
| Ctx.Context.CompleteConn | src/pomp_ctx.c:558-638 | the pending socket becomes the announced connection, or the timer is set |
| Ctx.Context.MessageArrives | src/pomp_ctx.c:1626-1641 | a message is reported on a live connection |
| Ctx.Context.SetMaxConn | src/pomp_ctx.c:1072-1081 | sets the limit, zero refused |
| Ctx.Context.Destroy | src/pomp_ctx.c:1086-1099 | succeeds if and only if stopped, and then there is no connection, socket, timer or pending stop, and every connection's end was told |
| Ctx.Life | src/pomp_ctx.c:1526-1687 | for every run the final state is that of the specification run on the same events, the count is the length of the list, and a client has at most one of pending socket, connection and timer |
| Ctx.Perform | src/pomp_ctx.c:884-1687 | each event is the step of the specification |

## Left out

- Buffer.Buffer.Write: a size let through with too little storage is excluded, because the copy that follows has no defined effect; `Buffer.DefinedIff` says exactly when.
- Coders.Encoder.WriteBuf: a block that overruns the storage is excluded, because the copy has no defined effect; `Coders.StatusExact` says exactly when.
- Coders.Encoder.Write: excludes the same blocks.
- FormatIO.Writev: excludes lists that reach such a block.
- Varint.ReadVarint: an eleventh byte is reported as undefined, because C gives no meaning to the shift it would cause.
- RxFds.Receiver.ReceiveFds: a read carries at most one control message with descriptors, which is what fits the control buffer.
- Poll.Dispatch: conversions between event masks are left out, and the backend accepts the changes callbacks make.
- Ctx.Life: the callback made when a socket is created does not stop the context, since the code does not guard against it.
- Datagram contexts and connections, peer addresses and credentials, keepalive, access modes, and raw mode in the decoder.
- Retrying a system call that was interrupted, and errors of shutdown, close and timers that are only logged.
- Out-of-memory paths, and read buffers resized while they are processed.
- Dumping messages as text, writing from an array of strings, and hexadecimal parsing, which rest on the C library's formatting and conversion.
- Integer promotion of variadic arguments: the encoder is given values already of the type of their conversion.
- The wake-up results with several blocking callers of the loop at once, and callbacks that re-enter the loop or flush its idle queue.
- Starting, stopping and restarting the watchdog thread, except for its end and for changes of the delay.
- Memory addresses: chains of the hash table and queues of buffers are sequences, except in `List`, where nodes are linked.
- Descriptor numbers made by duplication: a descriptor argument is the number stored in the buffer, and whether the duplication succeeds is a parameter.
- The epoll, kqueue and Windows backends, events and timers of the system, address parsing, logging, and the Python and C++ interfaces.
