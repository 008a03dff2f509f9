# Verified model of the Modbus stack

A Dafny model of the wire stack, the register server behind it and the monitoring channel, with proofs of what they
promise. Run `dafny verify dfyconfig.toml` in this directory.

The model follows the program's own structure, one module per component:

- `Division`, `Crc` — the CRC. `Division` is polynomial division one bit at a time and holds the algebra (linearity,
  invertibility, divisibility of the generator by x + 1); `Crc` is the table-driven code, proved equal to it.
- `Rtu`, `Ascii`, `Tcp` — the three framings: encoder, parser, server loop and the receiving end of the client.
  `SerialLine` has what the first two share.
- `Pdu`, `RequestCodec`, `ResponseCodec` — messages and their codecs.
- `SlaveStore`, `SendRecv` — the register store, compared with four plain total maps, and the processing of a request.
- `Client` — a call from end to end over each transport, delivered in any reads the server's buffer allows, and the
  client methods on top of it.
- `Reconnect` — the retry loop, run against scripts of send and rebuild outcomes. `Errors` has the error kinds.
- `SniffIo` — the bounded monitoring channel as a state machine of lock-held steps, and the two-step reader on top of it.
- `Calendar` — day numbers to dates, time stamps to text.
- `Bits`, `Wire` — bit strings, byte strings, and the buffer and cursor types the codecs are written against.

Code that works step by step is a method with loops over a buffer, a cursor or an object's fields, and its contract
equates the result with a function of the input; the theorems are lemmas about those functions. Bytes and 16-bit words
are range-constrained integers, bitwise operations go through bit strings, and every truncation or wrap-around is
written out. Server loops are run against finite sequences of events: bytes arriving, and the read timeout between
them.

What a reader may not expect:

- The TCP parser tries the longer of two readings of the length field first. A standard frame is therefore read to its
  own end only when nothing is behind it (`Tcp.StandardOverreads`), and a frame of the other mode can be accepted one
  byte short (`Tcp.PduOnlyAcceptedShort`). As the server reads at most 256 bytes at a time, such a frame of 257 bytes is
  cut short even when it arrives at once (`Client.CutByTheBuffer`, `Client.Write122Lost`), and the byte left over costs
  the next frame on the connection (`Client.AfterCutShort`). `Tcp.WholeFrameRunExactly` says exactly which ways of
  cutting a stream of frames into reads do no harm.
- It also guesses whether the unit identifier is repeated in the body. The guess fails exactly on the messages
  `Tcp.Misread` describes. Function codes 1 to 6 and 8 are safe when in range (out of range they are not,
  `Tcp.OutOfRangeMisread`); the others are not, and with the default framing a batch write to unit 16 at addresses 256
  to 495 can be served as a coil read and lost (`Client.AmbiguousWriteLost`).
- A complete TCP frame that the parser refuses stays at the front of the buffer. If the length counts the PDU alone it
  blocks the connection until more than 1040 bytes have piled up (`Tcp.BlockedRun`, `Client.BlockedConversation`). In
  standard mode the parser tries it again with the first byte of the next frame, and either blocks or serves a request
  that nobody sent (`Tcp.RefusedGoesOn`, `Client.AfterRefusal`): an out-of-range read by a gateway client can turn into
  a masked write when the next request arrives (`Client.PhantomWrite`).
- A poll of the monitoring reader looks at the channel and then at the producer task. If the producer sends and ends in
  between, the poll reports the end while what was sent is still queued (`SniffIo.TerminationOvertakes`).
- An RTU server takes its whole buffer as one frame, so its output depends on how bytes are cut into reads
  (`Rtu.JoinedFramesLost`); the ASCII server's does not (`Ascii.ExpectedByBursts`).
- The request encoder accepts fewer coils and registers than the decoder does (`RequestCodec.EncoderLimits`).
- Time stamps stop sorting as text at year 10000; `Calendar.TimestampOrder` says exactly which pairs still do.
- At the largest 32-bit retry limit the retry counter cannot exceed it (`Reconnect.LargestLimitUnbounded`).

Where the repository's documentation and code disagree the model follows the code: its `README.md` (line 231) lists
timeouts among the errors that trigger a reconnect, and `src/reconnect.rs` (lines 64 to 69) retries connection and
serial errors alone; the comment on `try_extract_tcp_pdu` in `src/transport/tcp.rs` (lines 236 to 243) says that the
unit identifier is found in the body only if a client put it there, which `Tcp.AmbiguousRequests` refutes; the comment
on the silence branch in `src/transport/rtu.rs` (lines 413 to 417) promises a last attempt to parse and process, but
`Rtu.ServeForever` shows that nothing parseable is ever left there.

## Model

| member | source | states |
|---|---|---|
| `Division.DivideXor` | src/codec.rs:38-47 | the bit-serial division is linear: the remainder of a difference is the difference of the remainders |
| `Division.DivideToZero` | src/codec.rs:20-26 | sixteen further bits bring the remainder to zero exactly when they are the register itself, so no register is lost |
| `Division.BurstRemainder` | src/codec.rs:14-33 | a non-zero error pattern of any length confined to sixteen consecutive bits leaves a non-zero remainder |
| `Division.OddRemainder` | src/codec.rs:14-33 | so does every pattern with an odd number of set bits, because the generator is divisible by x + 1 |
| `Division.SameRemainder` | src/codec.rs:38-47 | two starting registers give the same remainder of a message exactly when they are equal |
| `Crc.TableStep` | src/codec.rs:43-44 | one table lookup on a 16-bit word is eight bit steps of the division |
| `Crc.BuildCrcTable` | src/codec.rs:14-33 | the generated table holds for every byte its remainder after eight shift steps |
| `Crc.ShiftEightTimes` | src/codec.rs:18-28 | the inner loop of the generator computes the table entry of a byte |
| `Crc.CalculateCrc` | src/codec.rs:38-47 | the table-driven loop computes the bit-by-bit division by polynomial 0xA001 for every byte string |
| `Crc.CrcResidue` | src/codec.rs:48-56 | two appended bytes leave residue 0 if and only if they are the CRC with the low byte first |
| `Crc.BurstDetected` | src/codec.rs:38-56 | byte strings that differ only within sixteen consecutive bits cannot both have residue 0 |
| `Crc.OddErrorDetected` | src/codec.rs:38-56 | nor can byte strings that differ in an odd number of bits |
| `Crc.JoinedNeverDivides` | src/codec.rs:38-56 | two strings that each end in their CRC never form one when joined |
| `Rtu.EncodeRtuFrame` | src/codec.rs:49-56 | the encoder appends the data and its CRC, low byte first, to whatever the buffer holds |
| `Rtu.TryParseServerRtu` | src/transport/rtu.rs:456-478 | the parser takes the whole buffer as one frame or nothing: length, CRC, then function code |
| `Rtu.AcceptedExactly` | src/transport/rtu.rs:456-478 | a buffer is accepted if and only if it has five bytes or more, residue 0 and a known function code |
| `Rtu.FrameRoundTrip` | src/transport/rtu.rs:456-478 | every encoded frame parses to its slave, PDU and whole length, exactly when it has three data bytes or more and a known function code |
| `Rtu.BurstRejected` | src/transport/rtu.rs:456-466 | any change of any encoded frame, CRC included, within sixteen consecutive bits is rejected |
| `Rtu.OddErrorRejected` | src/transport/rtu.rs:456-466 | any change of an odd number of bits of any encoded frame is rejected |
| `Rtu.DispatchAll` | src/transport/rtu.rs:426-437 | the inner loop answers at most one frame and leaves nothing parseable behind |
| `Rtu.ServeForever` | src/transport/rtu.rs:396-439 | over any events the buffer at the loop head is empty or unparseable, a silence empties it, and the store and the bytes written are those of answering the frames of the event semantics |
| `Rtu.AtMostOnePerChunk` | src/transport/rtu.rs:426-427 | a run never dispatches more frames than it received chunks |
| `Rtu.SilenceRestarts` | src/transport/rtu.rs:412-422 | what follows a silence is served as by a fresh server |
| `Rtu.FrameDispatchedOnce` | src/transport/rtu.rs:396-439 | a valid frame sent after a silence is dispatched exactly once, however it is cut, when no earlier cut already ends in a parseable frame |
| `Rtu.EarlyCutLoses` | src/transport/rtu.rs:456-478 | if an earlier cut of a frame does leave a parseable prefix, the frame itself is never dispatched |
| `Rtu.DispatchedExactly` | src/transport/rtu.rs:396-439 | between two silences a valid frame that arrives in non-empty reads is dispatched, once and alone, if and only if no earlier cut leaves a parseable prefix |
| `Rtu.EarlyCutHappens` | src/transport/rtu.rs:456-478 | such frames exist: any frame that starts with a valid frame, cut behind it, is served as that one |
| `Rtu.BurstDropped` | src/transport/rtu.rs:396-439 | a frame between two silences that was hit by a burst of up to sixteen bits is dropped without a trace if and only if no earlier cut leaves a parseable prefix |
| `Rtu.JoinedFramesLost` | src/transport/rtu.rs:396-439 | any two valid frames are both dispatched when read separately and both lost when one read delivers them joined: the server is not chunking-independent |
| `Rtu.ReplyLength` | src/transport/rtu.rs:222-241 | for every in-range request the store's reply PDU has the length computed from the request, or two bytes for an exception, which is strictly less |
| `Rtu.LengthAgreement` | src/transport/rtu.rs:171-176 | the reply frame to any decodable request fits 256 bytes and is as long as the client waits for, or the five-byte minimum for an exception |
| `Rtu.ReceivedReply` | src/transport/rtu.rs:194-216 | the client reads back a reply frame of its slave and refuses that of any other slave |
| `Ascii.CalculateLrc` | src/codec.rs:64-72 | the loop computes the two's complement of the wrapped byte sum |
| `Ascii.ChecksumIsZeroSum` | src/codec.rs:64-72 | a checksum byte is the LRC if and only if data and checksum add up to 0 modulo 256 |
| `Ascii.EncodeFrameInto` | src/codec.rs:82-94 | the encoder appends colon, hex of data and LRC, CR, LF |
| `Ascii.HexRoundTrip` | src/codec.rs:74-80 | decoding the hex of any byte string gives it back |
| `Ascii.DecodeHex` | src/transport/ascii.rs:270-281 | the pairwise loop with its early exit decodes an even-length hex string, or reports the first bad pair |
| `Ascii.FindCrlf` | src/transport/ascii.rs:261-263 | the scan finds the first CRLF at or after the offset |
| `Ascii.FirstCrlfIs` | src/transport/ascii.rs:262-263 | the position found is the least one where CR is followed by LF |
| `Ascii.DecodeLine` | src/transport/ascii.rs:267-289 | one line gives a frame exactly when it starts with a colon and its hex decodes to three bytes or more with a right checksum |
| `Ascii.TryParseAscii` | src/transport/ascii.rs:257-294 | the offset loop returns the first valid line, counting the garbage lines before it as consumed |
| `Ascii.FoundIsFirst` | src/transport/ascii.rs:257-294 | what the parser finds in a buffer is the first frame of every continuation of that buffer (prefix stability) |
| `Ascii.DispatchAll` | src/transport/ascii.rs:486-498 | the inner loop answers every frame of the buffer in order and leaves nothing parseable behind |
| `Ascii.ServeForever` | src/transport/ascii.rs:451-501 | over any run of chunks and silences the store and the bytes written are those of answering the valid lines of each burst, in order |
| `Ascii.ExpectedByBursts` | src/transport/ascii.rs:467-499 | that result depends on the concatenated bytes of each burst alone, not on how they were cut into chunks |
| `Ascii.StreamServed` | src/transport/ascii.rs:467-499 | frames sent back to back are served one by one, wherever the stream is cut, when no silence falls in between |
| `Ascii.PiecesServed` | src/transport/ascii.rs:467-499 | a frame that arrives in pieces, however cut, is served once |
| `Ascii.FrameRoundTrip` | src/transport/ascii.rs:257-294 | every frame of two data bytes or more parses to its payload and is consumed whole, whatever follows it |
| `Ascii.ByteChangeDetected` | src/transport/ascii.rs:282-286 | the checksum catches every change of a single byte, its own included |
| `Ascii.ReplacedCharacter` | src/transport/ascii.rs:257-309 | with any one character before the terminator replaced by any byte, a frame reads as before exactly when the character stands for the same digit, and is otherwise skipped as a whole |
| `Ascii.ReplacedTerminator` | src/transport/ascii.rs:257-294 | with CR or LF replaced by another byte, and whatever follows, the frame makes one line with what comes next, that line is dropped as a whole, and the parser goes on behind it |
| `Ascii.ReceivedReply` | src/transport/ascii.rs:234-245 | the client waits on every proper prefix of a reply frame and then reads it back, or refuses another slave's |
| `Pdu.PackByteBits` | src/frame.rs:470-478 | the byte built by shifting in the set positions has exactly those bits |
| `Pdu.PutCoils` | src/frame.rs:470-478 | the chunk loop appends the coils packed least significant bit first |
| `Pdu.TakeCoils` | src/frame.rs:645-655 | the decoding loop unpacks exactly the requested number of coils from the counted bytes |
| `Pdu.UnpackPacked` | src/frame.rs:470-478 | unpacking packed coils gives them back, padded with false to whole bytes |
| `Pdu.PackUnpacked` | src/frame.rs:645-655 | packing unpacked coils gives the bytes back with the padding bits of the last one cleared |
| `Pdu.PutWords` | src/frame.rs:485-487 | the loop appends the registers in big-endian order |
| `Pdu.TakeWords` | src/frame.rs:690-693 | the loop reads that many big-endian registers |
| `Pdu.UnpackPackedWords` | src/frame.rs:485-487 | unpacking packed registers gives them back |
| `Pdu.PackUnpackedWords` | src/frame.rs:690-693 | packing unpacked registers gives the bytes back |
| `RequestCodec.EncodeRequest` | src/frame.rs:443-514 | the inner encoder writes the bytes of every variant, stopping with its head written at a byte count over 255 |
| `RequestCodec.EncodeRequestInto` | src/frame.rs:328-340 | the public encoder leaves what the inner one wrote, or takes an oversized PDU back |
| `RequestCodec.EncoderLimits` | src/frame.rs:328-340 | a request is accepted if and only if it has at most 1976 coils, 123 registers or 121 write registers; its length is then at most 253; on refusal the buffer keeps the head exactly when the byte count overflowed |
| `RequestCodec.GetRange` | src/frame.rs:537-550 | address and quantity are read with the quantity and address-range checks in order |
| `RequestCodec.DecodeRequest` | src/frame.rs:516-758 | the cursor decoder accepts what the specification accepts, with the same error kind, and consumes exactly the bytes of the request |
| `RequestCodec.RequestRoundTrip` | src/frame.rs:443-758 | every request the encoder accepts decodes back to itself, whatever bytes follow, exactly when its quantities and address ranges are in bounds, and is refused otherwise |
| `RequestCodec.RequestReencodes` | src/frame.rs:443-758 | every decoded request is in range, and its encoding is the consumed prefix of the input up to the padding bits of the last coil byte |
| `RequestCodec.DecodedPrefix` | src/frame.rs:516-758 | bytes behind a request never change how it decodes |
| `RequestCodec.TruncatedRefused` | src/frame.rs:516-758 | an encoded request that has lost any bytes at its end is refused |
| `ResponseCodec.EncodeResponse` | src/frame.rs:760-827 | the inner encoder writes the bytes of every variant, with its partial writes on a byte-count overflow |
| `ResponseCodec.EncodeResponseInto` | src/frame.rs:348-364 | a response is accepted if and only if it has at most 2008 coils or 125 registers, and on any error the buffer is as it was |
| `ResponseCodec.EncoderLimits` | src/frame.rs:39-52 | pre-validation makes the inner encoder infallible, and an accepted PDU has 2 to 253 bytes |
| `ResponseCodec.DecodeResponse` | src/frame.rs:829-959 | the cursor decoder accepts what the specification accepts, with the same error kind |
| `ResponseCodec.ResponseRoundTrip` | src/frame.rs:410-434 | every accepted response decodes, whatever bytes follow, to itself with coils padded to whole bytes, exception codes canonical and the function code masked |
| `ResponseCodec.DecodedIsNormal` | src/frame.rs:410-434 | what the decoder produces is already in that form |
| `SlaveStore.WithBitAt` | src/slave_store.rs:99-110 | writing a bit changes that address alone: growth is invisible and the other bits of the byte are kept |
| `SlaveStore.WithBitsAt` | src/slave_store.rs:257-275 | a run of single-bit writes sets exactly its own range |
| `SlaveStore.WithRegsAt` | src/slave_store.rs:276-291 | a run of single-register writes sets exactly its own range |
| `SlaveStore.BitVector.constructor` | src/slave_store.rs:48-57 | a new bit vector reads false at every address |
| `SlaveStore.BitVector.ReadBit` | src/slave_store.rs:88-96 | a read gives the stored bit, or false beyond the end |
| `SlaveStore.BitVector.WriteBit` | src/slave_store.rs:99-110 | a write grows the bytes as needed and sets or clears one bit |
| `SlaveStore.BitVector.ReadBits` | src/slave_store.rs:114-129 | a batch read equals the pointwise reads |
| `SlaveStore.BitVector.WriteBits` | src/slave_store.rs:257-275 | a batch write equals the sequence of single writes |
| `SlaveStore.RegisterVector.ReadRegister` | src/slave_store.rs:192-198 | a read gives the stored register, or 0 beyond the end |
| `SlaveStore.RegisterVector.ReadRegisters` | src/slave_store.rs:132-142 | a batch read, clipped and padded with 0, equals the pointwise reads |
| `SlaveStore.RegisterVector.WriteRegister` | src/slave_store.rs:145-151 | a write grows the vector as needed and sets one register |
| `SlaveStore.RegisterVector.WriteRegisters` | src/slave_store.rs:276-291 | a batch write equals the sequence of single writes |
| `SlaveStore.RegisterVector.MaskRegister` | src/slave_store.rs:292-305 | the masked write stores (current and and-mask) or (or-mask and not and-mask), bit by bit |
| `SlaveStore.SlaveStore.constructor` | src/slave_store.rs:48-63 | a new store holds false and 0 everywhere |
| `SlaveStore.SlaveStore.WithHoldingRegisters` | src/slave_store.rs:67-83 | a pre-populated store holds at each address the last value given for it, and 0 elsewhere |
| `SlaveStore.SlaveStore.Call` | src/slave_store.rs:236-343 | the service does to its vectors, and replies, what the value-level service says, for all twelve request variants |
| `SlaveStore.ServedRefines` | src/slave_store.rs:236-343 | one request: the vectors follow four plain total maps and the reply is the same; the combined read-write returns the values before its write |
| `SlaveStore.RunRefines` | src/slave_store.rs:236-343 | over any sequence of requests the replies are those of the plain maps |
| `SendRecv.ProcessServerRequest` | src/transport/send_recv.rs:276-321 | the new store and the reply bytes; slave 0, an empty PDU and an undecodable PDU return before the service is called |
| `SendRecv.AnsweredExactly` | src/transport/send_recv.rs:276-321 | a PDU is answered if and only if the slave is not 0 and it decodes; the reply then has at most 254 bytes and reads back as the service's result; otherwise the store is unchanged |
| `Reconnect.RunWithReconnect` | src/transport/send_recv.rs:218-269 | the loop, run against scripts of send and rebuild outcomes, exits and acts as the recursive trace semantics; without a configuration it sends once |
| `Reconnect.RetriesBounded` | src/transport/send_recv.rs:245-252 | with a limit m every run makes at most m + 1 sends and m rebuilds, and reports the limit only after m + 1 sends |
| `Reconnect.LargestLimitNeverExceeded` | src/transport/send_recv.rs:245-246 | at m = 2^32 - 1 the wrapping counter never exceeds the limit, so that limit has no effect |
| `Reconnect.LargestLimitUnbounded` | src/transport/send_recv.rs:245-252 | at that limit, as at limit 0, lost connections with good rebuilds lead to any number of sends, so the bound of RetriesBounded holds exactly below it |
| `Reconnect.RebuildGuard` | src/transport/send_recv.rs:256-265 | the rebuild error is returned exactly when the latest three rebuilds failed, and no send follows three failed rebuilds in a row |
| `Reconnect.ExitBalance` | src/transport/send_recv.rs:237-268 | on return, sends minus rebuilds is 0 after a rebuild failure and 1 after every other exit |
| `Reconnect.FinalOutcomesEnd` | src/reconnect.rs:64-69 | a success or a non-retryable error is returned at once, and every send before the last one was retryable |
| `Tcp.EncodeTcpFrame` | src/transport/tcp.rs:151-170 | the encoder appends transaction, protocol 0, the wrapping length of the chosen mode, unit, optional unit in the body, and PDU; empty data gets unit 1 |
| `Tcp.Parsed` | src/transport/tcp.rs:203-230 | a frame is only ever taken with more than seven bytes and no more than the buffer holds |
| `Tcp.FrameParsed` | src/transport/tcp.rs:203-230 | for every frame with anything behind it: which body the parser looks at |
| `Tcp.CutParsed` | src/transport/tcp.rs:203-230 | no proper prefix of a frame is parsed or has a corrupt header, but for the one that lacks the last byte when its length counts the PDU alone and the shortened body is accepted |
| `Tcp.LoneFrame` | src/transport/tcp.rs:203-274 | for every configuration, transaction and unit a lone frame of any decodable PDU is consumed whole and parses to itself, except exactly when it is ambiguous, when the PDU loses its first byte |
| `Tcp.MisreadFrame` | src/transport/tcp.rs:244-274 | a misread message (ambiguous, or no request itself while unit and PDU together are one in the body) is handed on as that other request |
| `Tcp.RefusedFrame` | src/transport/tcp.rs:258-274 | a PDU that is no request and is not misread is handed on unchanged if and only if the unit is in the header alone and the function code is known and not the unit; otherwise it is dropped |
| `Tcp.ShortRequestsUnambiguous` | src/transport/tcp.rs:250-258 | requests of function codes 1 to 6 and 8 are never ambiguous |
| `Tcp.OutOfRangeMisread` | src/transport/tcp.rs:258-267 | out of range they can be misread: a gateway client that reads 3000 coils from unit 3 is taken for one that reads registers |
| `Tcp.AmbiguousRequests` | src/transport/tcp.rs:250-258 | each of function codes 15, 16, 22 and 23 has a whole family of ambiguous requests, all taken for "read coils" |
| `Tcp.DispatchAll` | src/transport/tcp.rs:655-667 | the inner loop answers every frame at the front, each under its own transaction, and leaves the rest |
| `Tcp.HandleConnection` | src/transport/tcp.rs:637-678 | the store and the bytes written are those of answering the frames of the read semantics, and the buffer ends as it says; between reads it holds no parseable frame, no corrupt header and at most 1040 bytes |
| `Tcp.PduOnlyFrame` | src/transport/tcp.rs:215-227 | with the length counting the PDU alone a frame is read whole, whatever follows it |
| `Tcp.PduOnlyStream` | src/transport/tcp.rs:655-667 | any concatenation of frames of that mode is split exactly where it was joined |
| `Tcp.PiecesReassembled` | src/transport/tcp.rs:649-674 | a frame of any PDU that arrives in pieces, and is not cut short, is handled as if it had arrived at once |
| `Tcp.PiecesCutShort` | src/transport/tcp.rs:649-674 | a frame that is cut short is taken for its shortened form and leaves its last byte behind |
| `Tcp.MessageInPieces` | src/transport/tcp.rs:649-674 | a message in any non-empty reads is dispatched as what it is read as, and nothing is left, if and only if it is not cut short; a standard frame never is |
| `Tcp.WholeFrameRun` | src/transport/tcp.rs:637-678 | a stream of frames, cut into reads in any way such that no standard read runs past the frame it starts in and no other read stops where a frame is accepted too early, is dispatched exactly, each message as what it is read as, drops nothing and leaves nothing behind |
| `Tcp.WholeFrameRunExactly` | src/transport/tcp.rs:637-678 | exactly: for every stream of frames of requests, every configuration and every cut, all messages are dispatched in order, each as what it is read as, with nothing dropped and nothing left if and only if all reads are harmless in that sense; with the unit in the header alone and none of them ambiguous, the messages dispatched decide it by themselves |
| `Tcp.HarmfulRun` | src/transport/tcp.rs:637-678 | the same in the middle of a run: a harmful read, at whatever position, costs a message, makes one up, drops bytes or leaves some behind |
| `Tcp.Accounted` | src/transport/tcp.rs:649-674 | with the unit in the header alone, the frames dispatched, the bytes left and the bytes dropped never exceed what was received, for any bytes in any reads |
| `Tcp.ShortForItself` | src/transport/tcp.rs:215-227 | with the unit in the body the messages alone do not decide it: one frame, cut short, is dispatched as itself and still leaves its last byte behind |
| `Tcp.StandardOverreads` | src/transport/tcp.rs:215-227 | for every message and body layout, a standard frame is read to its own end if and only if nothing is behind it; otherwise one byte of what follows is taken with it |
| `Tcp.PduOnlyAcceptedShort` | src/transport/tcp.rs:215-227 | for every message and body layout, a proper prefix of a frame whose length counts the PDU alone is accepted if and only if just the last byte is missing and the shortened body is extracted; with the unit in the header alone and not the function code it always is |
| `Tcp.ShortAcceptedExactly` | src/transport/tcp.rs:244-274 | for every in-range request, when its frame is accepted short: with the unit in the body, if the unit is a known function code and forms a request with the truncated PDU; with the unit in the header alone, if the unit is not the function code or the truncated rest of the PDU is a request by itself |
| `Tcp.BlockedExactly` | src/transport/tcp.rs:215-227 | a frame at the front of the buffer, as far as the parser looks at it, is blocked if and only if it is not parsed, and that is if its body is refused, in standard mode together with the next byte |
| `Tcp.RefusedGoesOn` | src/transport/tcp.rs:215-274 | what becomes of any refused frame, exactly: with the length counting the PDU alone it blocks the connection; in standard mode it does if and only if the next byte does not complete a request that starts with the unit or follows it, and otherwise that request is dispatched and one byte of the next frame is taken with it |
| `Tcp.StrayWrite` | src/transport/tcp.rs:215-274 | the second case occurs: a gateway client that reads 65535 coils from unit 22 is refused, and with the first byte of whatever follows the frame parses to a masked write |
| `Tcp.BlockedRun` | src/transport/tcp.rs:668-673 | a blocked connection dispatches nothing until the read that takes the buffer over 1040 bytes; that read is lost too, and what comes after is served as by a fresh connection |
| `Tcp.AfterStrayByte` | src/transport/tcp.rs:668-673 | one stray byte in the buffer, and the read that brings the header of the next frame is dropped, whatever the frame |
| `Tcp.AfterRefusedFrame` | src/transport/tcp.rs:655-673 | a refused standard frame that is not blocked by the next one: the request made of both is dispatched, and the rest of that read is dropped as corrupt |
| `Tcp.RefusedThenBlocked` | src/transport/tcp.rs:655-673 | a refused frame that is blocked by the next one: nothing is dispatched, however that one is cut, and both stay in the buffer |
| `Tcp.ReceivedReply` | src/transport/tcp.rs:468-497 | the client reads back a reply framed with its own configuration |
| `Tcp.ReceivedAcross` | src/transport/tcp.rs:468-497 | what the client reads of a reply framed with any server configuration: the length mode makes no difference, and the PDU is the one sent if and only if both place the unit alike, or the client looks for it in the body and the reply does not start with it |
| `Client.RtuCallIs` | src/transport/rtu.rs:380-442 | request, frame, reads, parse, serve, frame, parse: over RTU a call gives the server's answer to the PDU unless an earlier read ends in a parseable prefix |
| `Client.AsciiCallIs` | src/transport/ascii.rs:451-501 | the same over ASCII, however the frame is cut |
| `Client.TcpCallIs` | src/transport/tcp.rs:637-678 | the same over TCP, for a frame of any PDU that is not cut short: as what the frame parses to, or not at all, and then it stays in the buffer |
| `Client.ServedAcross` | src/transport/tcp.rs:596-599 | for a server configured apart from its client: it serves the message all the same, and the client gets the answer if both place the unit alike, or if the client looks for it in the body and the reply does not start with it |
| `Client.CallRefines` | src/transport/send_recv.rs:276-321 | end to end over every transport, however the request is cut into reads of at most 256 bytes, for every request the link carries, any slave and any store: the client's result is that of the plain memory, refusals and timeouts included, the server goes on holding that memory, and a TCP connection is clear afterwards if and only if the request settles |
| `Client.ConversationRefines` | src/client.rs:50-58 | over any conversation of carried and settling requests, transports mixed and each TCP client on its own connection, clients cannot tell the server from the plain memory; `Client.BlockedConversation` is the same with a connection that is not clear |
| `Client.ArrivingAtOnce` | src/transport/tcp.rs:650-654 | when each read takes all that is there, up to 256 bytes, a link carries a request if and only if, over TCP, it is not misread and its frame is not one of 257 bytes that is accepted short |
| `Client.ArrivingInPieces` | src/transport/tcp.rs:203-230 | however frames are cut, ASCII carries every request and standard TCP framing every one that is not misread |
| `Client.CutShortCall` | src/transport/tcp.rs:215-227 | a request that is cut short acts, exactly, as what its shortened form is taken for, and leaves one byte in the server's buffer |
| `Client.CutShortLost` | src/transport/tcp.rs:215-227 | with the unit in the header alone and not the function code, any in-range request cut one byte before its end is lost: timeout, unchanged store, one byte left |
| `Client.CutByTheBuffer` | src/transport/tcp.rs:650-654 | a frame that arrives at once is cut short if and only if it has 257 bytes and is accepted short |
| `Client.Write122Lost` | src/transport/tcp.rs:650-654 | for example a batch write of 122 registers to any unit but 16, with the length counting the PDU alone, times out and changes nothing |
| `Client.AfterCutShort` | src/transport/tcp.rs:668-673 | the call after one that was cut short: whatever its request, if it arrives at once it times out, the store is unchanged, and the connection is clear again but for what a second read brings |
| `Client.Unsettled` | src/transport/tcp.rs:655-673 | a carried call that does not settle times out, changes nothing and leaves exactly its own frame in the buffer, refused |
| `Client.AfterRefusal` | src/transport/tcp.rs:655-673 | the call after it, exactly: if the two frames are blocked it times out, however it arrives, and changes nothing; if not, and it arrives at once, the request made of the old frame and the first byte of the new one is served in its place, the client gets that reply, and the connection is clear again but for what a second read brings |
| `Client.WhileBlocked` | src/transport/tcp.rs:668-673 | on a blocked connection with room in its buffer any call times out (or cannot be encoded), changes nothing and leaves the connection blocked, for every delivery |
| `Client.CapReached` | src/transport/tcp.rs:668-673 | the call whose bytes take the buffer over 1040 bytes is lost as well, and the connection is clear again |
| `Client.BlockedConversation` | src/transport/tcp.rs:637-678 | over any conversation on any number of connections, one of them blocked and below its cap: every call on that one times out and none touches the memory, while the clients of all others still cannot tell the server from the plain memory |
| `Client.PhantomWrite` | src/transport/tcp.rs:215-274 | two calls of a gateway client in standard mode: a read of 65535 coils from unit 22 that times out, and then any request to any unit; the second call masks a holding register of the plain memory that no client named |
| `Client.ReadsReturnMemory` | src/client.rs:63-118 | the four read methods, when carried, return the memory's values, coils padded with false to a multiple of 8, and change nothing |
| `Client.SingleWritesTakeEffect` | src/client.rs:120-148 | single writes and masked writes, when carried, are confirmed and change the one address they name |
| `Client.DiagnosticAnswers` | src/client.rs:200-213 | a carried diagnostic request is echoed, answered with a zero counter, or refused with exception 3, by sub-function |
| `Client.ReadAfterWritingCoils` | src/client.rs:150-161 | a carried batch write of coils is confirmed and every later carried read, over whatever link, sees it and nothing else changed |
| `Client.ReadAfterWritingRegisters` | src/client.rs:163-176 | the same for registers; reading the range back returns the values written |
| `Client.ReadWriteReturnsOldValues` | src/client.rs:216-236 | the combined call returns the registers as they were before its own write |
| `Client.MisreadCall` | src/transport/tcp.rs:244-274 | over TCP a misread request that is not cut short acts on the store, exactly, as the request it is taken for, and the client gets that request's reply |
| `Client.AmbiguousWriteLost` | src/transport/tcp.rs:250-258 | with the unit in the header alone the writes of the ambiguous family are lost however they are cut: the store is unchanged and each of the four client methods reports a protocol error |
| `SniffIo.FitSuffix` | src/transport/sniff_io.rs:99-109 | what is kept is a suffix and fits the capacity |
| `SniffIo.FitSuffixLongest` | src/transport/sniff_io.rs:99-109 | and it is the longest suffix that fits |
| `SniffIo.OversizedDropsAll` | src/transport/sniff_io.rs:104-108 | everything, the new chunk included, is dropped exactly when that chunk alone exceeds the capacity |
| `SniffIo.SniffChannel.constructor` | src/transport/sniff_io.rs:76-89 | a new channel is empty, open and nobody waits |
| `SniffIo.SniffChannel.Send` | src/transport/sniff_io.rs:96-119 | the eviction loop ends with the longest fitting suffix of queue plus chunk, counts what it dropped, and wakes the consumer exactly when the chunk was queued |
| `SniffIo.SniffChannel.SetCapacity` | src/transport/sniff_io.rs:133-145 | the eviction loop ends with the longest fitting suffix of the queue |
| `SniffIo.SniffChannel.SendError` | src/transport/sniff_io.rs:123-129 | an error is stored and the consumer woken |
| `SniffIo.SniffChannel.Close` | src/transport/sniff_io.rs:155-161 | the channel is closed and the consumer woken |
| `SniffIo.SniffChannel.PollRecv` | src/transport/sniff_io.rs:169-192 | a queued chunk comes first, then the error, then the end, and only then does the consumer park |
| `SniffIo.StepSound` | src/transport/sniff_io.rs:96-192 | every step keeps the byte count right and within capacity, and nobody parked while there is something to see |
| `SniffIo.Accounting` | src/transport/sniff_io.rs:96-192 | every run: the queue is the tail of what was sent, delivered chunks are an ordered subsequence of the rest, and sent is delivered plus dropped plus queued, in chunks and in bytes |
| `SniffIo.ParkedIsWoken` | src/transport/sniff_io.rs:116-118 | no lost wakeup: a parked consumer is still parked with nothing to see, or has been woken exactly once |
| `SniffIo.PollOutcome` | src/transport/sniff_io.rs:169-192 | in every reachable state a poll parks exactly when there is nothing to see, and fails only when everything sent was delivered or dropped |
| `SniffIo.SniffReader.PollChannel` | src/transport/sniff_io.rs:523-543 | the first step of a poll returns the pending bytes or the next chunk, up to the buffer size, and keeps the remainder; with nothing to return it goes on to look at the producer |
| `SniffIo.SniffReader.CheckProducer` | src/transport/sniff_io.rs:544-555 | the second step reports the end of the producer, or parks |
| `SniffIo.SniffReader.PollRead` | src/transport/sniff_io.rs:517-558 | the two steps together, when no producer acts in between |
| `SniffIo.ReadingStream` | src/transport/sniff_io.rs:517-558 | over any polls with any buffer sizes, bytes returned followed by bytes pending are the chunks delivered, nothing lost, duplicated or reordered |
| `SniffIo.LosslessUnlessDropped` | src/transport/sniff_io.rs:517-558 | unless a chunk was dropped, bytes returned, pending and queued are together exactly the bytes sent |
| `SniffIo.ErrorsComeLast` | src/transport/sniff_io.rs:169-188 | in every run a poll reports an error of the channel if and only if nothing is pending or queued and the channel has an error or is closed, and by then everything sent and not dropped has been returned |
| `SniffIo.TerminationOvertakes` | src/transport/sniff_io.rs:544-553 | the reader-terminated error is not ordered so: a poll that has parked and then sees the producer ended reports it with exactly the chunks sent in between and not dropped still queued, and the next poll returns them |
| `SniffIo.OvertakenChunk` | src/transport/sniff_io.rs:544-553 | it happens: a chunk and an error sent between the two steps are both overtaken |
| `Calendar.Epoch` | src/intercept.rs:165-178 | day 0 is 1970-01-01 |
| `Calendar.CalendarSuccessor` | src/intercept.rs:165-178 | every day number, past or future, gives a date of the Gregorian calendar, and the next day its successor by month lengths and the leap rule |
| `Calendar.UnsignedIntermediates` | src/intercept.rs:168-175 | no unsigned intermediate goes negative or exceeds its width |
| `Calendar.DatesIncrease` | src/intercept.rs:165-178 | later days have later dates |
| `Calendar.TimestampOrder` | src/intercept.rs:130-144 | of two time stamps the earlier sorts first as text if and only if its year is at most the later year without the digits by which that is longer |
| `Calendar.TimestampOrderThrough9999` | src/intercept.rs:130-144 | through year 9999 text order is time order |
| `Calendar.TimestampLength` | src/intercept.rs:143-143 | through year 9999 the text has 26 characters |
| `Calendar.TimestampOrderBreaks` | src/intercept.rs:130-144 | so, for example, years 10000 to 19999 sort before years 2000 to 9999 |
| `Calendar.Year10000` | src/intercept.rs:165-178 | the break is reached: year 10000 starts one microsecond after the last time stamp of 9999 |

## Left out

- Sockets, serial ports, tasks, aborts and panics, and the clock: they appear as events or outcome scripts.
- `drain_stale_data`, `read_at_least` and bus timing: what they decide depends on real time.
- Write errors: every write of a server succeeds, and a server stops only where its events do.
- `next_tid`: the transaction identifier is a parameter of every TCP member.
- Size limits of the server loops' reads: in `Rtu.ServeForever`, `Ascii.ServeForever` and `Tcp.HandleConnection` a chunk
  may be of any length; `Client.Reads` keeps to the 256 bytes of their buffers.
- Silence between calls: a serial line is taken to be silent between two calls, so its server starts each with an empty
  buffer; a TCP connection keeps its buffer.
- Tcp.ReceivedReply: takes the reply as fully arrived; the client's wait of up to 200 ms for a last byte is not modelled.
- Tcp.WholeFrameRunExactly: leaves out streams with PDUs that are no requests; `Tcp.RefusedGoesOn`, `Tcp.BlockedRun` and
  `Tcp.AfterRefusedFrame` say what a refused frame does.
- Recorders, captures, statistics, display and hex dumps, option builders, `HookedService`: text or plumbing.
- The tap channel's forwarder and `active_reader`: both channels are the same class, and every run of one is covered.
- Locks: one request, and one channel step, at a time; poisoned locks and the documented non-atomicity of the combined
  read-write under concurrent writers are not modelled.
- Error messages: errors are kinds only.
- 64-bit and pointer-sized counters and lengths are unbounded; the 16-bit and 32-bit ones wrap as in a release build,
  where a debug build would stop at an overflow.
- Client.CallRefines: leaves out what a link does not carry, which `Client.MisreadCall`, `Client.CutShortCall` and
  `Rtu.EarlyCutLoses` cover, and `Disconnect`, which no client method sends; client and server have one configuration
  there, and `Client.ServedAcross` covers two.
- Client.AfterRefusal: when the next frame does not arrive at once and does not block the connection, which of its reads
  are dropped is not stated.
- Reconnect.RetriesBounded: leaves out the largest 32-bit limit, where the bound is false
  (`Reconnect.LargestLimitUnbounded`).
