# SlipLib in Dafny

This project models SlipLib, a Python library for SLIP, the Serial Line
Internet Protocol of RFC 1055. SLIP frames messages on a byte stream:
- END (0xC0) ends a packet.
- ESC (0xDB) starts an escape pair.
- An END inside a message is sent as ESC ESC_END (0xDB 0xDC).
- An ESC inside a message is sent as ESC ESC_ESC (0xDB 0xDD).

The library has gone through several designs. The model covers four of them.

- **The current library** (`src/sliplib/`):
  - `slip.dfy`, module `Slip`: the escape codec (`encode`, `decode`, `is_valid`). It is written as the library's chains of `bytes.replace`, and proved equal to byte-by-byte reference definitions (`Escape`, `Unescape`, `WellEscaped`).
  - `config.dfy`, module `SlipConfig`: the leading-END setting and its scoped override `use_leading_end_byte`. A small statement language stands for the body of the `with` block, so that a normal exit, an exception and nesting can all be stated.
  - `frameengine.dfy`, module `FrameEngine`: the `Driver`. `send` frames a message. `receive` splits incoming bytes at runs of END and queues the complete packets. `get` removes and decodes the oldest packet. `RxState`, `Feed` and `Take` are the value-level specification that the `Driver` class is proved against.
  - `wrapper.dfy`, module `MessageWrapper`: `SlipWrapper.send_msg`, `recv_msg` and iteration over an abstract transport. `Pending` lists the packets that the rest of the stream will deliver.
  - `legacy.dfy`, module `Legacy`: the framed `encode`/`decode` of `legacy.py`.
- **The earlier `sliplib/` generation**:
  - `earlyslip.dfy`, module `EarlySlip`: an `encode` that includes the END bytes, and a `Driver` whose `receive` and `flush` decode at once and keep the messages decoded before a `ProtocolError`.
  - `earlywrapper.dfy`, module `EarlyWrapper`: the `SlipWrapper` state machine, with its message deque and its `_protocol_error`, `_flush_needed` and `_stream_closed` flags. `Future()` is the sequence of replies that the remaining calls of `recv_msg` give. Every step is proved to keep it.
- **The state-machine codec of `src/slip/slip.py`**: `statemachinecodec.dfy`, module `StateMachineCodec`.
  - An incremental encoder.
  - A decoder that runs the states idle, normal, escaped, finished and error over an input buffer with a scan position.
  - Three error modes: strict, replace and ignore.
  - `Scan` and `DecodeCall` are the value-level specification. The class `SlipDecoder` and its handlers are proved against them.
- **The splitting codec of `slip/slip.py`**: `splittingcodec.dfy`, module `SplittingCodec`. The decoder cuts the buffer at the first END. It then checks that no ESC is left once the escape pairs are removed.

`bytes.dfy`, module `SlipBytes`, holds the byte type, the four constants, and the Python byte-string operations that the library uses: `lstrip`/`rstrip`/`strip` of END, `replace`, `split`, and `re.split` at runs of END. Each is a total recursive function.

Exceptions are modelled as result values:
- `ProtocolError(packet)` carries the packet.
- `SlipEncodingError` and `SlipDecodingError` are outcomes of the codec calls.

The transport of a wrapper is a sequence of chunks. Reading past the last chunk gives the empty chunk, which means end of stream.

## Tests that disagree with the code

The model follows the code. These tests in the repository expect something the code does not do:
- `sliplib/test/test_slip.py:60-67` expects the earlier `decode` not to raise on invalid packets. The code raises a `ProtocolError`; see `EarlySlip.DecodeValidity`.
- `sliplib/test/test_slip.py:164` passes `error='strict'` to a `Driver`, but the earlier `Driver.__init__` takes no such parameter.
- `tests/unit/test_slipsocket.py:44-51` and `tests/unit/test_slipstream.py:39-43` expect a leading END. The default of `USE_LEADING_END_BYTE` is False (`src/sliplib/slip.py:112`); see `SlipConfig.Configuration.constructor` and `FrameEngine.Driver.constructor`.
- `Test/slip_test.py:139-146` expects `SlipEncodingError` for END, `left`, ESC decoded finally. The code raises `SlipDecodingError` for an unfinished escape; see `StateMachineCodec.UnfinishedEscape`.
- `Test/slip_test.py:148-155` expects `None` from a non-final strict decode of END, `l`, ESC, `w`. The strict handler raises at once; see `StateMachineCodec.StrictRaisesAtOnce`.

## Model

| member | source | states |
|---|---|---|
| SlipBytes.LStripEndRemovesEnds | src/sliplib/slip.py:407 | `lstrip(END)` removes exactly a prefix made only of END bytes and keeps the rest unchanged |
| SlipBytes.RStripEndRemovesEnds | src/sliplib/legacy.py:37 | `rstrip(END)` removes exactly a suffix made only of END bytes and keeps the rest unchanged |
| SlipBytes.StripEndShape | src/sliplib/legacy.py:37 | `strip(END)` gives a slice of its input that neither starts nor ends with END, and leaves an END-free input unchanged |
| SlipBytes.StripEndIdempotent | src/sliplib/legacy.py:37 | stripping END twice is stripping it once |
| SlipBytes.StripEndFramed | src/sliplib/legacy.py:37 | stripping END bytes from END runs around an END-free body gives exactly the body |
| SlipBytes.SplitEndRunsPiecesEndFree | src/sliplib/slip.py:415 | no piece of `re.split(END+, s)` contains END |
| SlipBytes.SplitEndRunsNonEmpty | src/sliplib/slip.py:407-415 | every inner piece of the split is non-empty, and so is the first one when `s` does not start with END |
| SlipBytes.SplitEndRunsSeveral | src/sliplib/slip.py:415 | data holding an END splits into at least two pieces, so at least one packet is complete |
| SlipBytes.SplitEndRunsTrailing | src/sliplib/slip.py:415-419 | data ending with END leaves an empty last piece, so no partial packet is kept |
| SlipBytes.SplitJoinEnd | src/sliplib/slip.py:415 | splitting END-free pieces joined by single END bytes gives back the pieces (the split is the inverse of the join) |
| Slip.EncodeEscapes | src/sliplib/slip.py:285-286 | the two chained `replace` calls of `encode` equal escaping each byte on its own: ESC becomes ESC ESC_ESC, END becomes ESC ESC_END, every other byte is kept |
| Slip.EncodeEmpty | src/sliplib/slip.py:286 | `encode(b"") == b""` |
| Slip.EncodeLength | src/sliplib/slip.py:286 | the encoding is longer than the message by exactly the number of END and ESC bytes in it |
| Slip.EscapeIsWellEscaped | src/sliplib/slip.py:286 | an encoding contains no END, and each of its ESC bytes starts a pair ESC ESC_END or ESC ESC_ESC |
| Slip.ValidIsWellEscaped | src/sliplib/slip.py:318-336 | `is_valid(p)` holds exactly when `p` has no END and every ESC is followed by ESC_END or ESC_ESC (no trailing ESC), in both directions |
| Slip.ValidIffEncoding | src/sliplib/slip.py:318-336 | a packet is valid exactly when it is the encoding of some message |
| Slip.Decode | src/sliplib/slip.py:289-315 | `decode` raises `ProtocolError` exactly when `is_valid` is false, and the error carries exactly the packet; otherwise the message is the unescaped packet, and encoding it gives the packet back |
| Slip.ReplaceEscapesUnescapes | src/sliplib/slip.py:315 | on a well-escaped packet, the two chained `replace` calls of `decode` replace each escape pair by the byte it stands for |
| Slip.UnescapeEscape | src/sliplib/slip.py:286-315 | unescaping an escaped message gives the message |
| Slip.EscapeUnescape | src/sliplib/slip.py:286-315 | escaping the unescaped form of an END-free, well-escaped packet gives the packet |
| Slip.DecodeEncode | src/sliplib/slip.py:268-315 | `decode(encode(m)) == m` for every message |
| Slip.DecodeNonEmpty | src/sliplib/slip.py:313-315 | a non-empty valid packet decodes to a non-empty message |
| SlipConfig.Configuration.constructor | src/sliplib/slip.py:111-112 | `USE_LEADING_END_BYTE` starts out False |
| SlipConfig.Configuration.SetUseLeadingEndByte | src/sliplib/slip.py:144-147 | the setter stores the given value |
| SlipConfig.Configuration.UseLeadingEndByte | src/sliplib/slip.py:149-241 | inside the `with` body the flag reads as the given value; afterwards it is restored to its old value, whether the body ends normally or raises |
| SlipConfig.Configuration.Run | src/sliplib/slip.py:235-241 | running statements (assignments, reads, raises, nested overrides) on the object gives the values read, the exception and the final flag of the reference semantics `Exec` |
| SlipConfig.ExecAppend | src/sliplib/slip.py:235-241 | a raise stops the statements that follow it; otherwise two blocks run one after the other |
| SlipConfig.WithRestores | src/sliplib/slip.py:235-241 | after an override block the flag has its old value; inside, the body runs with the new value, and an exception from the body goes through |
| SlipConfig.WithObservesValue | src/sliplib/slip.py:237-239 | the first read in the body sees the override value |
| SlipConfig.WithNested | src/sliplib/slip.py:235-241 | nested overrides are seen as outer, inner, outer, and the outer value is restored |
| SlipConfig.WithNestedRaise | src/sliplib/slip.py:237-241 | an exception in a nested body restores both levels and propagates |
| Legacy.Decode | src/sliplib/legacy.py:25-37 | `legacy.decode(p)` raises `ProtocolError` with the stripped packet exactly when the stripped packet is invalid; otherwise the message encodes to the stripped packet |
| Legacy.DecodeFramed | src/sliplib/legacy.py:37 | an encoding surrounded by any runs of END decodes to its message |
| Legacy.DecodeEncode | src/sliplib/legacy.py:37-53 | `legacy.decode(legacy.encode(m)) == m` with either leading-END setting |
| Legacy.EncodeFraming | src/sliplib/legacy.py:53 | `legacy.encode` ends with END, starts with END when configured to, and has no other unescaped END |
| FrameEngine.Driver.constructor | src/sliplib/slip.py:342-346 | the prefix is END exactly when `USE_LEADING_END_BYTE` was set at construction; `sends_leading_end_byte` reports that value; the queue and buffer start empty and unfinished |
| FrameEngine.Driver.Send | src/sliplib/slip.py:348-360 | `send(m)` is the prefix, `encode(m)`, then END |
| FrameEngine.Driver.Receive | src/sliplib/slip.py:362-419 | `receive` takes the driver to `Feed` of its state: empty data sets `finished` and counts as END, leading END bytes are stripped, all pieces but the last are queued and the last is kept |
| FrameEngine.Driver.Get | src/sliplib/slip.py:421-454 | `get(block=False)` gives what `Take` gives: it removes the oldest packet and decodes it (the packet is removed even when decoding raises); with an empty queue it gives `b""` after end of stream and `None` before |
| FrameEngine.FeedPieces | src/sliplib/slip.py:407-415 | after stripping, every queued piece is non-empty and END-free, and so is the kept tail |
| FrameEngine.FeedWellFormed | src/sliplib/slip.py:395-419 | `receive` keeps the invariant: the buffer holds no END, and every queued packet is non-empty and END-free |
| FrameEngine.FeedExtendsQueue | src/sliplib/slip.py:395-419 | `receive` only appends to the queue; `finished` becomes true on empty data and is never cleared |
| FrameEngine.FeedCompose | src/sliplib/slip.py:399-419 | receiving two chunks one after the other equals receiving them together |
| FrameEngine.FeedAllFlatten | src/sliplib/slip.py:399-419 | receiving any split of the data into non-empty chunks equals receiving it at once |
| FrameEngine.FeedEndFree | src/sliplib/slip.py:399-415 | END-free data only extends the buffer |
| FrameEngine.FeedEnd | src/sliplib/slip.py:399-415 | an END completes the buffered partial packet |
| FrameEngine.FeedEndOfStream | src/sliplib/slip.py:395-397 | `receive(b"")` sets `finished` and queues any pending partial packet |
| FrameEngine.FeedBytewise | src/sliplib/slip.py:389-419 | feeding a frame one byte at a time leaves `get` returning `None` after each byte, and the final END queues the whole packet |
| FrameEngine.TakeEmptyMeansEnd | src/sliplib/slip.py:449-452 | `get` returns `b""` exactly when the queue is empty after end of stream, and `None` exactly when it is empty before |
| FrameEngine.TakeWellFormed | src/sliplib/slip.py:450 | `get` keeps the invariant and changes neither the buffer nor `finished` |
| FrameEngine.TakeNInOrder | src/sliplib/slip.py:449-454 | n calls of `get` give the decodes of the n oldest packets, in order, and leave the rest queued |
| FrameEngine.FeedFrame | src/sliplib/slip.py:360 | receiving the frame of a message queues its encoding (nothing for the empty message) |
| FrameEngine.FeedWire | src/sliplib/slip.py:360 | receiving the frames of several messages queues their encodings in order |
| FrameEngine.DecodePackets | src/sliplib/slip.py:348-360 | the queued encodings decode back to the non-empty messages, in order |
| FrameEngine.WireDelivers | src/sliplib/slip.py:348-454 | what one driver sends, another driver's `receive` and `get` deliver: each non-empty message, in order |
| MessageWrapper.Recv | src/sliplib/slipwrapper.py:123-126 | `recv_msg` never returns `None`, and reads at most the chunks there are |
| MessageWrapper.RecvPending | src/sliplib/slipwrapper.py:123-126 | `recv_msg` gives the decode of the first pending packet and leaves the rest pending; with nothing pending it gives `b""` |
| MessageWrapper.RecvEmptyMeansEnd | src/sliplib/slipwrapper.py:123-126 | `recv_msg` returns `b""` exactly when the stream is exhausted and nothing is pending |
| MessageWrapper.RecvQueuedReadsNothing | src/sliplib/slipwrapper.py:123-125 | with a packet queued, `recv_msg` reads nothing from the transport |
| MessageWrapper.PendingWellFormed | src/sliplib/slipwrapper.py:123-126 | every pending packet is non-empty and END-free, so a `b""` result can only mean end of stream |
| MessageWrapper.PendingFlatten | src/sliplib/slipwrapper.py:123-126 | the pending packets of a chunked stream are those of its bytes received at once, followed by end of stream |
| MessageWrapper.PendingChunking | src/sliplib/slipwrapper.py:123-126 | reading the stream in 1-byte chunks gives the same pending packets as reading it in any other chunks |
| MessageWrapper.PendingWire | src/sliplib/slipwrapper.py:109-126 | the packets pending from the frames of messages, however chunked, are the encodings of those messages |
| MessageWrapper.IterationWire | src/sliplib/slipwrapper.py:128-132 | iterating over the frames of messages yields the non-empty messages in order and then stops |
| MessageWrapper.IterationResumes | src/sliplib/slipwrapper.py:128-132 | iteration raises at the first invalid packet; iterating again continues with the packets after it |
| MessageWrapper.SlipWrapper.constructor | src/sliplib/slipwrapper.py:62-73 | a new wrapper has a fresh driver with the configured prefix, and has sent nothing |
| MessageWrapper.SlipWrapper.RecvBytes | src/sliplib/slipwrapper.py:85-101 | the transport gives the next chunk, or `b""` once the stream is exhausted |
| MessageWrapper.SlipWrapper.SendBytes | src/sliplib/slipwrapper.py:75-83 | the transport records the packet as sent |
| MessageWrapper.SlipWrapper.SendMsg | src/sliplib/slipwrapper.py:103-110 | `send_msg(m)` sends exactly `driver.send(m)`, once |
| MessageWrapper.SlipWrapper.RecvMsg | src/sliplib/slipwrapper.py:112-126 | the loop ends with the result, driver state and remaining chunks of `Recv`: it reads only while `get` gives `None` and feeds every chunk to `receive` |
| MessageWrapper.SlipWrapper.Iterate | src/sliplib/slipwrapper.py:128-132 | iteration yields what `Iteration` says, up to the first empty message or `ProtocolError` |
| EarlySlip.EncodeEmpty | sliplib/slip.py:39-40 | `encode(b"")` is END END |
| EarlySlip.EncodeIsLegacy | sliplib/slip.py:40 | the earlier `encode` equals the legacy encode with a leading END |
| EarlySlip.DecodeIsLegacy | sliplib/slip.py:43-60 | the earlier `decode` equals the legacy decode: strip END, then the current decode |
| EarlySlip.DecodeEncode | sliplib/slip.py:29-60 | `decode(encode(m)) == m` |
| EarlySlip.DecodeValidity | sliplib/slip.py:43-78 | `decode` raises exactly when `is_valid` is false, with the stripped packet; otherwise the message encodes to the stripped packet |
| EarlySlip.FlushingSpec | sliplib/slip.py:151-173 | `flush` decodes the queue oldest first, up to the first invalid packet; without one it decodes everything and leaves nothing; with one it leaves exactly the packets after it |
| EarlySlip.FlushingRest | sliplib/slip.py:155-173 | a flush that raises no error leaves no packet queued |
| EarlySlip.CollectIsFeed | sliplib/slip.py:122-146 | the earlier `receive` splits incoming data as the current `Driver.receive` does |
| EarlySlip.CollectEndOfStream | sliplib/slip.py:122-126 | `receive(b"")` is `receive(END)`: it completes the buffered partial packet |
| EarlySlip.CollectWellFormed | sliplib/slip.py:136-146 | only complete packets are queued; the unterminated tail stays buffered, without END |
| EarlySlip.Driver.constructor | sliplib/slip.py:87-90 | a new driver has an empty buffer, queue and message list |
| EarlySlip.Driver.Send | sliplib/slip.py:93-103 | `send(m)` is `encode(m)` |
| EarlySlip.Driver.Receive | sliplib/slip.py:105-149 | `receive` splits as `Collect` says and then flushes: its result, queue and kept messages are those of `Flushing` |
| EarlySlip.Driver.Flush | sliplib/slip.py:151-173 | the loop returns the messages of `Flushing`; on a `ProtocolError` it keeps the messages decoded so far for `messages`, and the bad packet is removed |
| EarlySlip.Driver.TakeMessages | sliplib/slip.py:175-191 | reading `messages` gives the kept messages and clears them |
| EarlyWrapper.OutcomesAppend | sliplib/slipwrapper.py:92-109 | the replies of two packet runs are the replies of each, in order |
| EarlyWrapper.FlushOutcomes | sliplib/slipwrapper.py:96-109 | the messages `flush` returns or keeps, then its error, then the replies of the packets it left, are the replies of the queue it started with |
| EarlyWrapper.OutcomesNotEmpty | sliplib/slipwrapper.py:111-117 | queued packets never decode to `b""`, so `b""` from `recv_msg` means end of stream |
| EarlyWrapper.PendingReceive | sliplib/slipwrapper.py:100-104 | the packets of the remaining stream are the packets one `receive` queues, then those of the chunks after it |
| EarlyWrapper.ReceiveFuture | sliplib/slipwrapper.py:100-104 | one read and `receive` take the pending replies apart into what `receive` returns or raises, what it leaves queued, and the replies of the rest of the stream |
| EarlyWrapper.FuturePopMessage | sliplib/slipwrapper.py:84-85 | popping a stored message gives the first future reply and leaves the rest |
| EarlyWrapper.FuturePopError | sliplib/slipwrapper.py:119-125 | raising the stored error gives the first future reply and leaves the rest |
| EarlyWrapper.SlipWrapper.constructor | sliplib/slipwrapper.py:23-36 | a new wrapper stores nothing, has all flags cleared, and its future replies are those of the whole stream |
| EarlyWrapper.SlipWrapper.RecvBytes | sliplib/slipwrapper.py:47-63 | the transport gives the next chunk, or `b""` once the stream is exhausted |
| EarlyWrapper.SlipWrapper.SendMsg | sliplib/slipwrapper.py:65-71 | `send_msg(m)` sends exactly `encode(m)` |
| EarlyWrapper.SlipWrapper.PopMessage | sliplib/slipwrapper.py:84-85 | the oldest stored message is returned and removed |
| EarlyWrapper.SlipWrapper.HandlePendingProtocolError | sliplib/slipwrapper.py:119-125 | the stored error is raised once and cleared, and a flush is requested |
| EarlyWrapper.SlipWrapper.Absorb | sliplib/slipwrapper.py:99-109 | a flush or receive result is stored: its messages, or on an error the driver's kept messages and the error |
| EarlyWrapper.SlipWrapper.FlushStep | sliplib/slipwrapper.py:97-99 | a requested flush clears the request and keeps the future replies |
| EarlyWrapper.SlipWrapper.ReadStep | sliplib/slipwrapper.py:100-104 | one read keeps the future replies, and either closes the stream or consumes a chunk |
| EarlyWrapper.SlipWrapper.RecvMsg | sliplib/slipwrapper.py:73-117 | `recv_msg` gives the first future reply and leaves the rest, so a `ProtocolError` is raised once and the next call gives the next message; `b""` exactly when nothing is left |
| StateMachineCodec.AccumulateCompose | src/slip/slip.py:44-52 | two non-final calls accumulate what one call with both chunks does |
| StateMachineCodec.AccumulateAllFlatten | src/slip/slip.py:33-52 | any number of non-final calls accumulate what one call with all their bytes does |
| StateMachineCodec.FinalEncode | src/slip/slip.py:44-62 | a final encode on a fresh encoder gives END, the escaped message, END for a non-empty message, and `b""` for the empty one |
| StateMachineCodec.IncrementalEncode | src/slip/slip.py:44-62 | bytes fed through non-final calls and then a final call give the packet of one final call |
| StateMachineCodec.SlipEncoder.constructor | src/slip/slip.py:29-31 | the encoder starts empty |
| StateMachineCodec.SlipEncoder.Encode | src/slip/slip.py:33-62 | the loop appends each byte escaped, after an opening END when the buffer is empty; a final call returns the buffer closed by END (or `b""` when it holds only the END) and empties it |
| StateMachineCodec.SlipEncoder.Reset | src/slip/slip.py:64-65 | `reset` empties the buffer |
| StateMachineCodec.Scan | src/slip/slip.py:160-165 | the loop consumes every byte unless a frame finishes or a handler raises, and a raise consumes the byte that raised |
| StateMachineCodec.AfterScan | src/slip/slip.py:166-189 | after the loop the state is never finished; a final call leaves a fresh decoder; a strict error leaves the error state with nothing decoded |
| StateMachineCodec.DecodeCall | src/slip/slip.py:149-201 | a decode never leaves the finished state; a final call leaves a fresh decoder; a non-final error leaves the error state; a non-final `None` leaves no bytes unscanned |
| StateMachineCodec.ScanAppend | src/slip/slip.py:160-165 | scanning two pieces continues the second from where the first left, unless the first finished or raised |
| StateMachineCodec.IdleSkipsEnds | src/slip/slip.py:114-121 | END bytes are skipped while idle |
| StateMachineCodec.ErrorDiscards | src/slip/slip.py:137-140 | in the error state bytes are discarded up to the next END, which returns to idle |
| StateMachineCodec.ScanEscape | src/slip/slip.py:114-135 | in every mode, an escaped message scanned from idle or normal appends exactly the message and stays normal |
| StateMachineCodec.ScanUnescape | src/slip/slip.py:82-135 | END-free bytes: a well-escaped packet scans to its unescaped form in every mode; otherwise the strict scan raises or stops inside an escape |
| StateMachineCodec.LenientNeverRaises | src/slip/slip.py:91-99 | replace and ignore never raise `SlipEncodingError` |
| StateMachineCodec.DecodeEncode | src/slip/slip.py:44-62 | a fresh decoder's final decode of what a fresh encoder's final call returns gives the message back, in every mode; for the empty message that packet is `b""` and decodes to `b""` |
| StateMachineCodec.ScanEncoded | src/slip/slip.py:114-129 | a scan from idle of END, escaped non-empty message, END finishes the frame with exactly the message, right after the closing END, whatever follows |
| StateMachineCodec.NonFinalFrame | src/slip/slip.py:184-201 | a non-final decode of a non-empty message's frame followed by more bytes returns the message, clears the decoded bytes, goes back to idle and keeps exactly the bytes after the frame |
| StateMachineCodec.FinalDecodeFrame | src/slip/slip.py:172-177 | a final decode of a frame gives its message when only END bytes follow, and raises `SlipDecodingError` when other bytes follow |
| StateMachineCodec.UnfinishedEscape | src/slip/slip.py:178-179 | a final decode that ends inside an escape raises `SlipDecodingError`, in every mode |
| StateMachineCodec.FramedScanValid | src/slip/slip.py:114-135 | in every mode, a framed END-free well-escaped packet scans to its unescaped form, consuming the whole frame (the empty frame ends idle) |
| StateMachineCodec.StrictFramedScanInvalid | src/slip/slip.py:84-89 | the strict scan of a framed END-free packet that is not well escaped raises |
| StateMachineCodec.StrictFramedAgrees | src/slip/slip.py:84-89 | on a framed END-free packet the strict final decode gives the current `decode`'s message exactly when `is_valid` holds, and `SlipEncodingError` otherwise |
| StateMachineCodec.StrictAgrees | src/slip/slip.py:149-189 | an unframed END-free packet gives a packet from the strict final decode exactly when it is valid, and the packet is the current `decode`'s message |
| StateMachineCodec.ModesAgree | src/slip/slip.py:84-106 | on well-escaped input the three error modes decode alike |
| StateMachineCodec.DecodeInPieces | src/slip/slip.py:158-198 | a non-final call that returns `None`, then a call with more bytes, equals one call with all the bytes |
| StateMachineCodec.ErrorRecovery | src/slip/slip.py:137-170 | after a strict error the decoder skips to the next END and then decodes as a fresh one |
| StateMachineCodec.StrictRaisesAtOnce | src/slip/slip.py:160-170 | END, `l`, ESC, `w` decoded non-finally under strict raises `SlipEncodingError` at once and leaves the error state |
| StateMachineCodec.ResetAsWritten | src/slip/slip.py:192-201 | `reset()` as written empties the buffer and goes idle but keeps the decoded bytes |
| StateMachineCodec.ResetKeepsPartialFrame | src/slip/slip.py:192-201 | with `reset()` as written, `a` decoded non-finally, then a reset, then `b` END gives `ab`, where a fresh decoder gives `b` |
| StateMachineCodec.ResetState | src/slip/slip.py:192-201 | the corrected `reset()` gives the fresh decoder (empty buffer, nothing decoded, idle), whatever the state before |
| StateMachineCodec.SlipDecoder.constructor | src/slip/slip.py:108-112 | a new decoder is fresh |
| StateMachineCodec.SlipDecoder.IdleHandler | src/slip/slip.py:114-121 | `_idle_handler` makes the idle step of `Step` |
| StateMachineCodec.SlipDecoder.NormalHandler | src/slip/slip.py:123-129 | `_normal_handler` makes the normal step of `Step` |
| StateMachineCodec.SlipDecoder.DecodeStrict | src/slip/slip.py:84-89 | strict: ESC_END and ESC_ESC append END and ESC; any other byte raises and appends nothing |
| StateMachineCodec.SlipDecoder.DecodeReplace | src/slip/slip.py:91-92 | replace: the mapped byte, or the byte itself |
| StateMachineCodec.SlipDecoder.DecodeIgnore | src/slip/slip.py:94-99 | ignore: the mapped byte, or ESC followed by the byte |
| StateMachineCodec.SlipDecoder.EscapedHandler | src/slip/slip.py:131-135 | `_escaped_handler` makes the escaped step of `Step` in the given mode, and raises exactly when the step fails |
| StateMachineCodec.SlipDecoder.ErrorHandler | src/slip/slip.py:137-140 | `_error_handler` stays in error until END |
| StateMachineCodec.SlipDecoder.Handle | src/slip/slip.py:142-147 | the handler of the current state makes the step of `Step` |
| StateMachineCodec.SlipDecoder.ScanBuffer | src/slip/slip.py:160-165 | the loop ends where `Scan` says, with its state, decoded bytes and position |
| StateMachineCodec.SlipDecoder.Decode | src/slip/slip.py:149-189 | `decode` returns and leaves what `DecodeCall` gives, and keeps the decoder out of the finished state |
| StateMachineCodec.SlipDecoder.Reset | src/slip/slip.py:192-201 | `reset(True)` leaves a fresh decoder (as corrected); `reset(False)` drops the scanned bytes and leaves a finished frame for idle |
| SplittingCodec.FrameIsEarlyEncode | slip/slip.py:36-43 | a final encode of bytes gives END, the escaped bytes, END, as the earlier `encode` does, and `b""` when nothing was accumulated |
| SplittingCodec.FrameShape | slip/slip.py:38-41 | a packet holds END exactly at its two ends |
| SplittingCodec.SlipEncoder.constructor | slip/slip.py:27-29 | the encoder starts empty |
| SplittingCodec.SlipEncoder.Encode | slip/slip.py:31-43 | non-final calls only accumulate; a final call returns the packet of everything accumulated and resets |
| SplittingCodec.SlipEncoder.Reset | slip/slip.py:45-46 | `reset` empties the accumulated bytes |
| SplittingCodec.IndexOf | slip/slip.py:67-68 | the index found holds the byte, and no earlier index does |
| SplittingCodec.EscapeCheck | slip/slip.py:77-91 | the check fails only with an unfinished or an invalid escape |
| SplittingCodec.RemovePairs | slip/slip.py:77-78 | removing the pairs ESC b from bytes leaves an ESC exactly when some ESC is not followed by b |
| SplittingCodec.JoinSplitEscLone | slip/slip.py:77-78 | the joined parts hold an ESC exactly when a piece has an ESC not followed by ESC_ESC |
| SplittingCodec.SplitEndLone | slip/slip.py:77-78 | the pieces of the split at ESC ESC_END have such an ESC exactly when the packet has an ESC followed by neither ESC_END nor ESC_ESC (the last byte included) |
| SplittingCodec.EscapeCheckIsValid | slip/slip.py:75-91 | the escape check passes exactly when the packet is well escaped; on an END-free packet, exactly when the current `is_valid` holds |
| SplittingCodec.SlipDecoder.constructor | slip/slip.py:56-58 | the buffer starts empty |
| SplittingCodec.SlipDecoder.Decode | slip/slip.py:60-98 | `decode` returns and leaves what `DecodeCall` gives |
| SplittingCodec.SlipDecoder.Reset | slip/slip.py:100-101 | `reset` empties the buffer |
| SplittingCodec.DecodeFrame | slip/slip.py:63-98 | when the stripped buffer holds a packet and END: the current `decode`'s message if the packet is valid, otherwise an escape error, raised before any remaining-bytes check; the rest after the END, stripped, stays buffered, except that a final call that finds bytes left raises and empties the buffer |
| SplittingCodec.DecodeNoEnd | slip/slip.py:66-74 | a non-final decode with no END returns `None` and keeps the bytes, stripped |
| SplittingCodec.FinalDecodeNoEnd | slip/slip.py:70-98 | a final decode with no END takes the whole buffer: its message if valid, otherwise an escape error, and the buffer ends empty |
| SplittingCodec.DecodeInPieces | slip/slip.py:63-74 | chunks without END can be fed one by one: the next call decodes as if they had come together |
| SplittingCodec.DecodeEncode | slip/slip.py:36-98 | `decode(encode(m)) == m` for the final calls, the empty message included |
| SplittingCodec.DecodeEncodeStream | slip/slip.py:63-98 | a packet followed by more bytes gives its message and keeps the stripped rest, or, in a final call with bytes left, raises and empties the buffer |

## Left out

- The `RLock` of `_Configuration` (src/sliplib/slip.py:114, 146, 235): the model is single-threaded.
- The blocking and timeout path of `Driver.get` (src/sliplib/slip.py:450): `get` is modelled as `block=False`. A blocking call on a non-empty queue behaves the same.
- The int-to-bytes coercion of `receive` (src/sliplib/slip.py:389-390), and the `isinstance(obj, Iterable)` coercion in both codec generations: callers pass a byte sequence, and one byte is a one-byte sequence.
- The transports (`slipsocket.py`, `slipstream.py`), the server and request handler glue, and the I/O of `send_bytes`/`recv_bytes`: SlipWrapper sees the transport as a finite list of chunks plus a list of sent packets.
- The traceback stored with a pending `ProtocolError` (sliplib/slipwrapper.py:34, 108, 121-124): tracebacks have no meaning in the model.
- The message texts of `ProtocolError`, `SlipEncodingError` and `SlipDecodingError`: errors are values, not formatted strings. `ProtocolError(packet)` in `Slip`, `Legacy` and `EarlySlip` carries the packet. In the splitting codec, `InvalidEscape(next)` carries the byte after the first ESC left once the ESC ESC_END and ESC ESC_ESC pairs are removed, and `RemainingBytes(rest)` carries the bytes left over. In the state-machine codec, `EncodingError` and `DecodingError` carry no data. The byte after ESC named by its `SlipEncodingError` (src/slip/slip.py:88) is only the last byte the scan consumed. The input buffer named by its `SlipDecodingError` (src/slip/slip.py:174-175) is not modelled.
- The `errors` argument is an explicit `ErrorMode` (strict, replace, ignore). Left out: any other name, which makes Python raise `KeyError`, and the `self.errors` fallback (src/slip/slip.py:34-39, 150-154). The splitting codec ignores `errors`, as its source does.
- The `codecs` registration, `StreamReader`/`StreamWriter`, the incremental codec subclasses, `getstate`/`setstate`, and the module-level `partial` encode/decode in src/slip/slip.py and slip/slip.py: these are Python codec plumbing.
- FrameEngine.Driver.SendsLeadingEndByte: the property has no contract of its own. Its value is stated by `FrameEngine.Driver.constructor`.
- StateMachineCodec.SlipDecoder.Reset: models the corrected `reset`, which also clears the decoded bytes on a final reset; the code as written is `StateMachineCodec.ResetAsWritten`. Inside `decode` the two agree, because every final path clears the decoded bytes before it resets.

## Findings

| source | as written | input that shows it | evidently intended | confidence | as-written member | corrected member |
|---|---|---|---|---|---|---|
| src/slip/slip.py:192-201 | `reset()` (with the default `final=True`) empties the input buffer and goes idle, but keeps `decoded_bytes` | `decode(b"a")` non-final, then `reset()`, then `decode(b"b" + END)` gives `b"ab"`; a fresh decoder gives `b"b"` | a reset returns the decoder to its initial state and drops the partial frame | medium, not executed | StateMachineCodec.ResetKeepsPartialFrame | StateMachineCodec.ResetState |
