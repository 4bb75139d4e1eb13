# Verification of the Pico wireless toolkit

The repository is a C++ library for the Raspberry Pi Pico W: a web server with WebSocket
connections on lwIP, infrared transmitters and receivers, a small DHCP server for its access
point, and a growable text buffer. This project models its stateful and byte-level parts and
proves what they are for. Each part consists of pure functions that describe one step, lemmas
about all runs of such steps, and, where the library works by assignment, classes and loops that
are proved to refine the pure functions.

| part | modules |
|---|---|
| WebSocket packets and their reassembly from TCP chunks (RFC 6455) | `WsFrame`, `WsCodec`, `WsStream`, `WsTxt` |
| Send queues, connections and their closing, the client registry, the server object | `SendQueue`, `Connection`, `Closing`, `Outcomes`, `Lifetime`, `Registry`, `WebWorld`, `WebClient`, `WebServer` |
| Request extraction (RFC 9112), opening handshake, script rewriting | `Http`, `HttpWaiting`, `Handshake`, `Substitution`, `ScriptRewrite`, `Decimal` |
| Text buffer | `TxtBuffer`, `Text` |
| Infrared link | `IrProtocol`, `IrFrames`, `IrCodec`, `IrReceiver`, `IrReceiverDevice`, `IrTimers`, `IrLed`, `IrLedDevice`, `IrLink` |
| DHCP leases and options (RFC 2131, RFC 2132) | `DhcpLeases`, `DhcpOptions`, `DhcpServer`, `DhcpPackets` |
| Bytes, bits, options | `Bits`, `Options` |

`dafny verify dfyconfig.toml` checks everything.

How the web part fits together: `SendQueue` is one client's queue; `Connection` says what each
callback and call does to one client and to TCP, and proves the stream and closing properties
over every run of one connection; `Outcomes` says in bytes and conditions what each event queues,
writes, closes and removes; `Closing` says which closed connections can still be finished, and
`Lifetime` how long buffers live; `Registry` lifts one event to the two maps; `WebWorld` proves that
in any run of the whole server every client behaves like a lone connection that sees its own events
and receives the frames of its own chunks, so the properties carry over; `WebServer` is the server
object with its client objects, whose methods are proved equal to those steps. TCP is the
environment: it may accept or refuse every write and every close, and acknowledges at most what it
accepted. Each method takes TCP's answers as parameters and returns the calls it made.

Findings, where the code does less than one might expect:

- A closed client is written to only when TCP acknowledges something for it, and each such write
  removes at most one empty buffer. It can be finished if and only if nothing is left to write, or
  bytes are in flight and no two empty buffers in a row are ahead of data behind the front one
  (`Closing.ClosedFinishesIff`); a response that TCP refuses, before the close that follows every
  request, leads to the other case (`Closing.StallReached`). An open client has no such states
  (`Outcomes.OpenFinishes`). Empty buffers come from `send_data` with length 0 and from packets
  whose length is a multiple of 65,536.
- TCP is handed queued bytes without a copy. After a peer close with bytes in flight the client and
  its buffers are deleted although TCP may still send them (`Lifetime.DanglingIff`,
  `Lifetime.DanglingReached`); after an error lwIP has dropped the connection itself.
- While a request is incomplete, `parseRequest` does not return if the buffer begins with the start
  of a request, as it does whenever a request arrives in two pieces (`HttpWaiting.EndlessIff`,
  `HttpWaiting.PartialRequest`).
- The second substitution loop of the script rewriting consumes a marker that the path completes
  with the characters around it (`Substitution.MarkerCompleted`). Exactly when that happens can be
  read off the file and the path (`Substitution.BothLoopsIff`): never in a file without '<', and
  never with a path that begins with '/'.
- A WebSocket packet whose declared length wraps the 32-bit sum with its header is taken for
  complete as soon as its header is there (`WsFrame.CutIff`). With a mask the parser goes out of
  bounds; without one the message depends on how TCP cut the stream, or is delivered for ever
  (`WsStream.WrappedGoesWrong`).
- A Content-Length line without a value makes `parseRequest` throw an exception that nothing
  catches (`Http.ThrewIff`).
- A request buffer that begins with CRLF is scanned as an empty head (`Http.BodyOffsetIff`,
  `Http.LeadingCrlf`).
- The masked in-place packet builder also changes bytes behind the packet
  (`WsTxt.BuildPacketInPlace`); the library itself never asks it for masking.
- 2^31 ms after its end an expired lease counts as valid again for as long
  (`DhcpLeases.ForgottenExpiry`), and the zero hardware address is no client
  (`DhcpLeases.ZeroMacNotExclusive`).
- NEC and Samsung addresses above 255 whose bytes are each other's complement or copy arrive as
  one-byte addresses (`IrProtocol.AddressIntact`).

## Model

| member | source | states |
|---|---|---|
| `WsFrame.ParseEncode` | network/ws.cpp:160-225 | round trip: any valid frame (7, 16 or 64-bit length form, masked or not) followed by any bytes parses to its opcode and length, the payload is unmasked where it stands and the following bytes are untouched (section 5.2 of RFC 6455) |
| `WsFrame.ParsePrefix` | network/ws.cpp:160-225 | every strict prefix of a valid frame is judged incomplete, so that no byte of it is modified |
| `WsFrame.ParseSound` | network/ws.cpp:160-225 | the converse: a success means that the buffer is the encoding of a valid frame with exactly the reported fields, followed by the rest |
| `WsFrame.ParseExtend` | network/ws.cpp:160-225 | bytes arriving later never change a verdict other than "incomplete" |
| `WsFrame.CutIff` | network/ws.cpp:160-225 | the completeness test passes wrongly if and only if the header is there and declares a payload that does not fit behind it in 32 bits; with a mask the parser then leaves the buffer, without one it reports success |
| `WsFrame.CutExamples` | network/ws.cpp:204-224 | ten concrete bytes that are taken for a complete packet of 4,294,967,286 bytes, and fourteen for which the parser unmasks beyond their end |
| `WsFrame.XorKeyInvolutive` | network/ws.cpp:211-214 | masking with a key and masking again with the same key gives the original bytes (section 5.3 of RFC 6455) |
| `WsCodec.BuildHeader` | network/ws.cpp:10-65 | the assembled bytes are the header of the frame with the shortest length form, for all three forms, with the key when masking a non-empty payload |
| `WsCodec.PacketBytes` | network/ws.cpp:10-58 | the first bytes of a packet as numbers: 128 plus the opcode, so that FIN is set; the mask bit exactly when masking is asked for and the payload is not empty; the length code by its three ranges and the length behind it, most significant byte first |
| `WsCodec.PacketPayload` | network/ws.cpp:60-77 | behind them the key, if the packet is masked, and every payload byte combined with its byte of the key |
| `Bits.XorByteBits` | network/ws.cpp:75 | combined bit by bit: a bit is set where the two bytes differ |
| `WsCodec.RfcExamples` | network/ws.cpp:6-80 | the unmasked "Hello" packets of section 5.7 of RFC 6455, text and ping |
| `WsCodec.RfcLongExamples` | network/ws.cpp:6-80 | and its packets of 256 bytes and 64 KiB |
| `WsCodec.XorInPlace` | network/ws.cpp:71-77 | the masking loop changes exactly the payload bytes, each by its key byte |
| `WsCodec.BuildPacket` | network/ws.cpp:6-80 | the built packet is the encoding of a valid frame with the given opcode and payload, masked exactly when asked to and not empty; its first byte is 128 plus the opcode, and without a mask it is first byte, length and payload |
| `WsCodec.BuiltIsParsed` | network/ws.cpp:6-225 | round trip of printer and parser: any opcode, payload, mask choice and key, followed by any bytes, comes back as one packet with that opcode and payload, and the following bytes as they were |
| `WsCodec.ParseLength` | network/ws.cpp:169-191 | the three length forms, and how many bytes each needs |
| `WsCodec.ParsePacket` | network/ws.cpp:160-225 | the in-place parser refines the frame parser: success with the unmasked packet, failure with the packet unchanged, success for an unmasked wrapped length, and the point where a masked wrapped length goes out of bounds |
| `WsStream.DrainAppend` | network/web.cpp:398-423 | draining a buffer and then more bytes delivers what draining all of them at once delivers |
| `WsStream.ChunkingIrrelevant` | network/web.cpp:385-423 | for every byte stream and any cutting into chunks: the same messages in the same order, the same point where a wrapped length cuts the stream off if there is one, and otherwise the same bytes left |
| `WsStream.DrainCutIff` | network/web.cpp:398-423 | a stream is received to its end if and only if every payload length that it declares fits 32 bits together with its header |
| `WsStream.WrappedGoesWrong` | network/web.cpp:671-674 | otherwise, for an unmasked packet, the message handed over depends on where the stream was cut; and if the sum is just 2^32 the reset erases nothing, so the same packet is found for ever |
| `WsStream.DrainFrames` | network/web.cpp:398-423 | a concatenation of valid frames followed by an incomplete one is delivered frame by frame and the incomplete one stays untouched |
| `WsStream.FramesDelivered` | network/web.cpp:385-423 | valid frames plus a part of a next one, of any total size and cut into any chunks, are delivered exactly once each, in order, unmasked; the part of the next frame is what remains |
| `WebClient.ClientRec.AddToRqst` | network/web.cpp:388-395 | the 64-byte copy loop appends exactly the chunk and touches no queue |
| `WebClient.ClientRec.RqstIsReady` | network/web.cpp:1043-1055 | on an upgraded connection: reports readiness as the parser does, wrapped lengths included, and unmasks a complete frame in the request buffer |
| `WebClient.ClientRec.ResetRqst` | network/web.cpp:1121-1132 | erases the delivered frame, by its 32-bit end |
| `TxtBuffer.Txt.constructor` | util/txt.cpp:5-16 | capacity rounding and the `strncpy` contents, with the terminator in bounds |
| `TxtBuffer.Txt.Reserve` | util/txt.cpp:20-31 | the text moves to a larger buffer exactly when this one is too small, with the rounding of the code |
| `TxtBuffer.Txt.ShiftUp` | util/txt.cpp:33-39 | the backward loop moves every character up once, although source and target overlap |
| `TxtBuffer.Txt.Expand` | util/txt.cpp:18-43 | both together make a gap: everything before and behind it is the old text |
| `TxtBuffer.Txt.Contract` | util/txt.cpp:45-57 | the forward shift removes exactly the given range |
| `TxtBuffer.Txt.Insert` | util/txt.cpp:107-117 | insertion is sequence splicing, and the offset behind the insertion is returned |
| `TxtBuffer.Txt.Replace` | util/txt.cpp:119-134 | replacement by a longer, equal or shorter string is sequence splicing |
| `TxtBuffer.Txt.Find` | util/txt.cpp:97-105 | the first occurrence within the C string, or none |
| `TxtBuffer.Txt.Substitute` | util/txt.cpp:136-148 | the first occurrence of the placeholder is spliced out for the replacement; without one nothing changes and false is returned |
| `WsTxt.BuildPacketInPlace` | network/ws.cpp:82-158 | in the text buffer itself the same bytes as the string overload, 128 plus the opcode first; and for the whole buffer which bytes the masking loop changes, among them as many behind the packet as its header is long, the terminator first |
| `Substitution.RewriteReplacesAll` | network/web_files_websocket.cpp:22-25 | the repeated find-and-substitute loop replaces every occurrence of the pattern exactly once, as a single left-to-right pass would |
| `Substitution.RewriteLeavesNone` | network/web_files_websocket.cpp:22-25 | when the loop ends, the pattern does not occur any more |
| `Substitution.MarkersReplacedIff` | network/web_files_websocket.cpp:24-25 | for a path without '<' the second loop terminates, and equals the single pass exactly when the single pass leaves no marker behind |
| `Substitution.CompletesIff` | network/web_files_websocket.cpp:22-25 | for a text without markers and a path without '<': a single pass leaves a marker if and only if the text holds "</ws/", "<w/ws/" or "<ws/ws/" at a place where the path instead of "/ws/" completes the marker |
| `Substitution.BothLoopsIff` | network/web_files_websocket.cpp:22-25 | for every such text and path: both loops terminate, and put the path in place of every "/ws/" and of nothing else if and only if it completes no marker |
| `Substitution.NothingCompletes` | network/web_files_websocket.cpp:22-25 | no path completes a marker in a text without '<', and no path whose first character is foreign to the marker, such as one that begins with a slash, does in any text |
| `Substitution.MarkerCompleted` | network/web_files_websocket.cpp:22-25 | a file and a path without '<' for which the loops substitute once too often: "</ws/" and "ws>" |
| `Substitution.ThroughMarker` | network/web_files_websocket.cpp:22-25 | replacing by the marker and then the marker by the path is replacing "/ws/" by the path, even when the path contains "/ws/" |
| `ScriptRewrite.SubstituteEach` | network/web_files_websocket.cpp:22-25 | each in-place loop computes the repeated substitution |
| `ScriptRewrite.SubstitutePath` | network/web_files_websocket.cpp:22-25 | the two in-place loops, for any text and any path without '<' |
| `ScriptRewrite.OnlyBody` | network/web_files_websocket.cpp:22-25 | in a stored file they change nothing but the body |
| `ScriptRewrite.CorrectLength` | network/web_files_websocket.cpp:26-31 | exactly the digits of Content-Length are replaced, by the count of bytes behind the blank line |
| `ScriptRewrite.LengthIsCorrect` | network/web_files_websocket.cpp:26-31 | whatever the new body is: the first Content-Length reads as the number of bytes behind the first blank line |
| `ScriptRewrite.RewriteFile` | network/web_files_websocket.cpp:20-31 | the whole rewriting for any path without '<': the body that the loops make with its length in the head; every "/ws/" has become the path, and nothing else, if and only if the path completes no marker in the body |
| `ScriptRewrite.SendScript` | network/web_files_websocket.cpp:5-39 | what the client is sent for any such path: the stored file, or the rewritten one |
| `Decimal.ValueOfDigits` | network/web_files_websocket.cpp:28-31 | a printed length has the value of the length |
| `Decimal.ReadPrinted` | network/httprequest.cpp:26-30 | reading a printed number back gives the number |
| `Http.ScanFindsLines` | network/httprequest.cpp:13-20 | round trip: a head made of any lines is scanned into exactly those lines |
| `Http.ScanSound` | network/httprequest.cpp:13-20 | for every buffer: the scanned lines are the buffer's bytes up to the end of the scan, which is the first blank line unless the buffer starts with an empty line |
| `Http.RequestExtracted` | network/httprequest.cpp:8-55 | from head, body of the announced length and anything behind, exactly the body is delimited and the reset leaves exactly what follows (section 6.3 of RFC 9112) |
| `Http.CompleteIff` | network/httprequest.cpp:36-54 | for every buffer with a blank line: the request is complete if and only if at least the announced number of bytes stands behind the empty line; the body is then as long as announced, and otherwise all that is there |
| `Http.PartialBody` | network/httprequest.cpp:36-54 | a head with any part of its body that is shorter than announced is incomplete, with that part as its size |
| `Http.RequestPrefix` | network/httprequest.cpp:8-55 | no strict prefix of a request is taken for a complete one: it holds no blank line, or counts as incomplete |
| `Http.BodyOffsetIff` | network/httprequest.cpp:8-55 | for every buffer with a blank line: the body starts right behind the first blank line if and only if the buffer does not start with CRLF |
| `Http.LeadingCrlf` | network/httprequest.cpp:13-40 | a buffer that does is taken for a request without lines and body, whatever follows |
| `Http.NumericHeader` | network/httprequest.cpp:190-221 | a Content-Length line in any letter case, with any spaces, yields the printed number as its value |
| `Http.NamedIff` | network/httprequest.cpp:190-206 | a line has a name if and only if it begins with some spelling of it, letters in either case, and a colon |
| `Http.NumberRead` | network/httprequest.cpp:26-30 | the value of `stoul` for blanks, a sign, digits and anything behind them: modulo 2^32 with a minus, an exception when it does not fit 32 bits |
| `Http.NoNumber` | network/httprequest.cpp:26-34 | and the exception, which is caught, when there is no digit |
| `Http.AnnouncedLength` | network/httprequest.cpp:22-35 | the first such line behind the request line decides the announced length |
| `Http.NoAnnouncedLength` | network/httprequest.cpp:22-35 | without such a line the body is empty |
| `Http.ThrewIff` | network/httprequest.cpp:22-26 | for every buffer with a blank line: the exception that nothing catches is thrown if and only if the first Content-Length line is not the request line and has only spaces behind its colon |
| `Http.RequestThrows` | network/httprequest.cpp:22-26 | every request with such a line throws, whatever follows it |
| `Handshake.HeaderRead` | network/httprequest.cpp:190-227 | a header in any letter case, with any spaces, is read as its value |
| `Handshake.ThrowsIff` | network/web.cpp:633-639 | the exception that nothing catches: exactly when, for one of the five headers that are read, the first line of that name is not the request line and has only spaces behind its colon |
| `Handshake.SwitchedIff` | network/web.cpp:633-641 | which requests are switched, in terms of their lines: for each of these headers the first line of its name and the value in it, and an origin line |
| `Handshake.KeyAnswered` | network/web.cpp:641-656 | the response to a switched request carries the digest of the value of its first key line |
| `Handshake.RequestSwitched` | network/web.cpp:630-667 | every request written as section 4.2.1 of RFC 6455 asks, in any letter case, with any spaces and among any other headers, is switched with the digest of its key |
| `Handshake.ResponseReadBack` | network/web.cpp:641-656 | round trip: the response is scanned into the 101 status line, the two upgrade headers and the digest of the key followed by the constant of section 1.3 of RFC 6455, with an empty line behind them |
| `Http.HeaderIndex` | network/httprequest.cpp:190-206 | the first line of that name from the given line on, or none |
| `Http.FindHeader` | network/httprequest.cpp:190-206 | the search loop finds that line |
| `Http.ReadLength` | network/httprequest.cpp:22-35 | the length as read, 0 when the value is no number, and the exception for a header line without a value |
| `HttpWaiting.AwaitIs` | network/httprequest.cpp:56-87 | without a blank line the outcome is decided by the first 'G' or 'P' that is not skipped: cleared, cut in front of a request, or a loop that does not end |
| `HttpWaiting.EndlessIff` | network/httprequest.cpp:56-87 | exactly when the loop does not end: that letter starts no request and has too few bytes behind it, or it starts one at the beginning of the buffer or right behind another such letter |
| `HttpWaiting.PartialRequest` | network/httprequest.cpp:63-72 | in particular for every buffer that begins with "GET " or "POST " and a byte more |
| `HttpWaiting.RequestBehind` | network/httprequest.cpp:63-72 | bytes without 'G' and 'P' ahead of a request are dropped as soon as a byte has arrived behind "GET " or "POST "; until then the loop does not end |
| `HttpWaiting.AwaitRequest` | network/httprequest.cpp:56-87 | the loop computes that outcome |
| `Http.HttpRequest.ParseRequest` | network/httprequest.cpp:8-89 | the method on every buffer refines the pure parser and the waiting branch: lines, offset, size, completeness, the exception, the buffer left, and the call that does not return |
| `Http.HttpRequest.ResetRqst` | network/web.cpp:1106-1119 | removes the complete request from the buffer, or everything if it is incomplete, and clears the record |
| `IrProtocol.DecodeTimes` | ir/nec_receiver.cpp:57-124 | decoding inverts encoding for NEC, Samsung and Sony of any sizes, when every interval is off by at most 299 (Sony) or 280 microseconds |
| `IrProtocol.AddressIntact` | ir/nec_receiver.cpp:110-122 | the received address is the transmitted one if and only if it is unambiguous (NEC, Samsung) or fits the address bits (Sony) |
| `IrFrames.SpaceTimesAre` | ir/nec_transmitter.cpp:18-56 | the encoding in microseconds, duration by duration, for NEC and Samsung: sync pair, 32 marks each with a space of 562 or 1686 by the bit, least significant first, and a last mark |
| `IrFrames.MarkTimesAre` | ir/sony_transmitter.cpp:8-42 | likewise for Sony: 2400, and then 600 with 600 or 1200, the function's bits before the address's |
| `IrFrames.DecodeOfData` | ir/nec_receiver.cpp:94-124 | for any four bytes behind a sync pair: decoded are the address of the first two and the third, and accepted if and only if the fourth is the complement of the third and the address is the receiver's |
| `IrFrames.SpacesAcceptedIff` | ir/samsung_receiver.cpp:48-108 | for all durations whatever: what the NEC and Samsung decoders accept |
| `IrFrames.MarksAcceptedIff` | ir/sony_receiver.cpp:48-122 | for all durations of a full Sony message: accepted if and only if the sync mark and every pair lie in their windows and the address is the receiver's |
| `IrFrames.MarkBitsIff` | ir/sony_receiver.cpp:72-114 | a field is read if and only if every mark and space of it lies strictly in its window, and its bits are the long spaces |
| `IrProtocol.MarkBitsOfPairs` | ir/sony_receiver.cpp:48-122 | every bit string in Sony's encoding is read back under that jitter |
| `IrProtocol.SpaceBitsOfTimes` | ir/samsung_receiver.cpp:48-108 | the 32 transmitted bits are read back under that jitter, for NEC and Samsung |
| `IrCodec.SpaceMessageTimes` | ir/nec_transmitter.cpp:18-56 | the byte and bit loops write the encoding of the address and function, for NEC and Samsung |
| `IrCodec.MessageBytes` | ir/samsung_transmitter.cpp:7-21 | the four bytes with the protocol's second address byte and the complement of the function |
| `IrCodec.MarkMessageTimes` | ir/sony_transmitter.cpp:8-42 | the mask loops write the encoding of any number of function and address bits |
| `IrCodec.DecodeBySpaces` | ir/nec_receiver.cpp:57-124 | the bit loops compute the decoding, with every way to fail |
| `IrCodec.ReadByte` | ir/samsung_receiver.cpp:79-92 | one byte is assembled bit by bit from the spaces |
| `IrCodec.DecodeByMarks` | ir/sony_receiver.cpp:48-122 | the mask loops compute the decoding, with every way to fail |
| `IrCodec.ReadField` | ir/sony_receiver.cpp:72-114 | a field of any number of bits is read, or the first interval that is neither bit is found |
| `IrReceiver.StepKeeps` | ir/ir_receiver.cpp:117-251 | every edge and timeout keeps the receiver's invariant |
| `IrReceiver.RunInvariant` | ir/ir_receiver.cpp:117-251 | over every history of edges and timeouts: never more than the maximum of pulses, the stored ones are the most recent intervals and begin with the sync pair, and a pending bit timer implies that synchronisation has begun |
| `IrReceiver.RunJustified` | ir/ir_receiver.cpp:140-154 | every receive callback of every history is justified by the last intervals decoding to its arguments; a repeat callback by the repeat code |
| `IrTimers.BitTimeoutsHarmless` | ir/ir_receiver.cpp:182-207 | bit timeouts anywhere between the edges, never two without an edge between them, change neither the callbacks of a history nor the receiver, timers aside |
| `IrTimers.RunArmed` | ir/ir_receiver.cpp:156-172 | over every history: from the first pulse until the receiver is idle again the bit alarm is pending if there is a bit timeout, and the message alarm if there is a message timeout and none has come since; otherwise neither |
| `IrTimers.SilenceReported` | ir/ir_receiver.cpp:174-251 | after any history: a bit timeout that follows another one is reported if and only if no edge came between them, a message timeout always; the receiver is then idle without alarms unless the application goes on |
| `IrReceiverDevice.Receiver.DoCheckSync` | ir/nec_receiver.cpp:7-50 | the protocol's `check_sync` on the fields refines the pure one |
| `IrReceiverDevice.Receiver.DoStoreTimestamp` | ir/ir_receiver.cpp:117-138 | one edge on the pulse array refines the pure step |
| `IrReceiverDevice.Receiver.DoMessageComplete` | ir/ir_receiver.cpp:140-154 | the decoded message is reported, or the failure, and the receiver is reset |
| `IrReceiverDevice.Receiver.DoTimeoutBit` | ir/ir_receiver.cpp:182-207 | the bit timeout refines the pure step, and asks to be called again whenever its timer stays pending |
| `IrReceiverDevice.Receiver.DoTimeoutMsg` | ir/ir_receiver.cpp:174-180 | the message timeout refines the pure step |
| `IrReceiverDevice.Receiver.DoTimeout` | ir/ir_receiver.cpp:209-225 | every answer of the timeout handler, and no handler |
| `IrReceiverDevice.Receiver.DoReset` | ir/ir_receiver.cpp:236-251 | the reset forgets all pulses and the synchronisation |
| `IrLed.PlaySchedule` | ir/ir_led.cpp:118-163 | the alarm callback's whole run emits the frame exactly repeats + 1 times, ends with the output off, and calls the done callback once |
| `IrLed.RepeatPeriod` | ir/ir_led.cpp:118-163 | a frame with its pause lasts exactly the repeat interval if and only if its durations plus 2 microseconds fit into it, and that sum otherwise; the last one needs one microsecond less |
| `IrLed.FrameStart` | ir/ir_led.cpp:118-163 | frame j of a transmission starts exactly j repeat intervals after the first |
| `IrLed.EncodingFits` | ir/sony_transmitter.h:54-61 | every NEC, Samsung and Sony encoding has positive durations and fits its repeat interval |
| `IrLedDevice.NextDecreases` | ir/ir_led.cpp:118-163 | every callback that asks for another alarm lowers (repeats left, durations left) |
| `IrLedDevice.Transmitter.SetOutputTimes` | ir/ir_led.cpp:47-65 | the durations are copied, into a larger array when needed, and a running output is stopped first |
| `IrLedDevice.Transmitter.SetMessageTimes` | ir/nec_transmitter.cpp:18-56 | the device holds the encoding of the message |
| `IrLedDevice.Transmitter.DoSetNext` | ir/ir_led.cpp:118-163 | one alarm callback on the fields refines the pure step |
| `IrLedDevice.Transmitter.Transmit` | ir/ir_led.cpp:67-98 | a transmission plays the schedule with the protocol's minimum of repeats |
| `IrLedDevice.Transmitter.Repeat` | ir/ir_led.cpp:80-98 | a repetition plays one frame |
| `IrLedDevice.Transmitter.RepeatCode` | ir/nec_transmitter.cpp:7-16 | NEC's repeat plays the three-interval repeat code once |
| `IrLink.FrameRun` | ir/ir_receiver.cpp:117-154 | an idle receiver given any frame with its sync pair and full length makes exactly one callback, the decoding of that frame, and is idle again |
| `IrLink.DataReported` | ir/ir_receiver.cpp:140-154 | a frame of any four bytes, jittered and with bit timeouts between its edges, is reported exactly once: received if and only if the last byte is the complement of the third and the address is the receiver's, else as an error |
| `IrLink.SyncIff` | ir/nec_receiver.cpp:7-50 | an idle receiver that sees a mark and a space begins to collect if and only if both lie in their windows, reports a repeat if and only if the space is that of NEC's repeat code, and is otherwise idle |
| `IrLink.WaveSchedule` | ir/ir_led.cpp:118-163 | the edges of the emitted waveform are repeats + 1 frames, exactly one repeat interval apart |
| `IrLink.MessagesReceived` | ir/ir_receiver.cpp:117-154 | any number of jittered copies of a message cause exactly as many receive callbacks with the transmitted address and function |
| `IrLink.EndToEnd` | ir/ir_led.cpp:118-163 | what `set_next` plays for a message is `minimum_repeats() + 1` frames, and a matching idle receiver that sees them jittered, with bit timeouts between the edges, calls back exactly that often with the transmitted address and function |
| `IrLink.OtherProtocolIgnored` | ir/samsung_receiver.cpp:7-22 | an idle receiver fed any jittered frames of another protocol, NEC's repeat codes included, with bit timeouts between the edges: after every single one of these inputs it has called nothing back and is idle |
| `IrLink.RepeatReceived` | ir/nec_receiver.cpp:7-50 | NEC's repeat code makes an idle receiver report a repeat of its last message |
| `IrLink.RepeatAfterMessage` | ir/nec_receiver.cpp:7-50 | a message followed by the repeat code, with bit timeouts between the edges, reports the message and then its repeat |
| `DhcpOptions.FindOption` | network/dhcpserver.c:146-154 | the loop terminates and finds what the pure search finds |
| `DhcpOptions.FindsFirst` | network/dhcpserver.c:146-181 | round trip: of any list of options written and closed by the end mark, the search returns the first one with the code, or none, whatever bytes the values hold |
| `DhcpOptions.WriteOption` | network/dhcpserver.c:156-181 | code, length and value are written at the pointer, nothing else changes, and the pointer advances |
| `DhcpOptions.WriteReply` | network/dhcpserver.c:284-289 | the reply's option area holds the six options and the end mark, and nothing behind it changes |
| `DhcpOptions.ReplyReadBack` | network/dhcpserver.c:284-289 | every option of every reply is recovered by the search |
| `DhcpLeases.ExpiredExactly` | network/dhcpserver.c:229-230 | over unbounded true time: when exactly the wrapped comparison of the 16-bit expiry says "expired" |
| `DhcpLeases.ExpiryBounds` | network/dhcpserver.c:229-230 | never early; and within 2^31 ms of the recorded end at most 65,536 ms late |
| `DhcpLeases.ForgottenExpiry` | network/dhcpserver.c:229-230 | beyond that distance an expired lease is judged valid again |
| `DhcpLeases.FirstBound` | network/dhcpserver.c:218-222 | the first slot of the client |
| `DhcpLeases.FirstOpen` | network/dhcpserver.c:223-234 | the first free or expired slot |
| `DhcpLeases.DiscoverReleases` | network/dhcpserver.c:215-236 | a DISCOVER clears at most one slot, and only an expired lease of another client |
| `DhcpLeases.OfferedIsGranted` | network/dhcpserver.c:215-271 | the slot that is offered is granted if it is requested next |
| `DhcpLeases.RunInv` | network/dhcpserver.c:215-278 | over every run: each acknowledged client still holds its slot or its lease time is over |
| `DhcpLeases.ExclusiveLease` | network/dhcpserver.c:246-271 | if an address is acknowledged to one client and later to another, more than 86,400,000 ms passed since the last acknowledgement to the first (section 2.2 of RFC 2131) |
| `DhcpLeases.ZeroMacNotExclusive` | network/dhcpserver.c:258-262 | why clients with the zero hardware address are excluded: a run in which one loses its address at once |
| `DhcpServer.Server.constructor` | network/dhcpserver.c:297-305 | all slots are free at the start |
| `DhcpServer.Server.ScanForDiscover` | network/dhcpserver.c:215-241 | the scan over the lease array offers the client's own slot, else the first free or expired one, else none, and updates the table as specified |
| `DhcpServer.Server.GrantRequest` | network/dhcpserver.c:261-271 | the entry is written exactly when the slot is free or the client's own |
| `DhcpServer.ReplyHead` | network/dhcpserver.c:202-203 | the reply's fixed fields: opcode and offered address are set, the transaction, the hardware address and all others are echoed |
| `DhcpServer.Server.Process` | network/dhcpserver.c:183-294 | every packet, malformed ones included: the table, the reply's fixed fields and type, and its option area; silence leaves the packet alone |
| `DhcpPackets.RequestIff` | network/dhcpserver.c:246-282 | a DHCPREQUEST is acknowledged, by a message of type 5, if and only if its requested address lies in the server's network with a last byte of 16 to 23 and the slot of that byte minus 16 is free or the client's; the reply carries exactly that address and exactly that slot is bound; else silence and the table as it was |
| `DhcpPackets.DiscoverIff` | network/dhcpserver.c:213-244 | a DHCPDISCOVER gets an offer of type 2 if and only if the client has a slot or one is free or expired: for its first slot, or else the first such; and what changes in the table |
| `DhcpPackets.OtherSilent` | network/dhcpserver.c:190-213 | short packets, packets without a message type and all other types are met with silence |
| `DhcpPackets.ReplyEchoes` | network/dhcpserver.c:197-203 | every reply has opcode 2, an address of the server's network, and the request's transaction and hardware address |
| `DhcpPackets.OfferedIsAcknowledged` | network/dhcpserver.c:213-282 | a client that requests the address it was offered is acknowledged that address, whatever messages come in between, unless another client requests it |
| `DhcpPackets.ReplyBytes` | network/dhcpserver.c:284-289 | the option area of a reply byte by byte, with the lease time that is granted |
| `DhcpLeases.GrantHolds` | network/dhcpserver.c:215-278 | a slot that could be granted to a client still can after any messages, unless another client requested it |
| `SendQueue.AcknowledgeConserves` | network/web.cpp:1088-1104 | the acknowledgement loop conserves its count across buffers: what it adds to the buffers is what was acknowledged, up to the whole queue |
| `SendQueue.AcknowledgeFlight` | network/web.cpp:1088-1104 | acknowledging no more than is in flight touches no unsent byte and lowers the bytes in flight by the count |
| `SendQueue.GetNextMoves` | network/web.cpp:1063-1078 | the piece handed out moves from the unsent bytes into flight, and belongs to the front buffer |
| `SendQueue.RequeueUndoes` | network/web.cpp:1080-1086 | putting a refused piece back undoes handing it out, except that finished buffers are gone |
| `SendQueue.NeverStuck` | network/web.cpp:1063-1104 | a queue that is not empty has unsent front bytes, bytes in flight, or a finished front buffer |
| `SendQueue.WriteDecreases` | network/web.cpp:527-564 | every successful write lowers the remaining work |
| `SendQueue.AckDecreases` | network/web.cpp:1088-1104 | so does every positive acknowledgement and every removal of a buffer |
| `SendQueue.SendBuf.Next` | network/web.cpp:1198-1216 | at most the count asked for, from where the last piece ended |
| `SendQueue.SendBuf.TakeBack` | network/web.cpp:1218-1237 | goes back only if the bytes are the last ones handed out |
| `SendQueue.SendBuf.Ack` | network/web.cpp:1239-1258 | fills this buffer and returns what is left over |
| `WebClient.ClientRec.DoAcknowledge` | network/web.cpp:1088-1104 | the loop over the list of buffer objects refines the pure queue operation, and every object it removes is fully acknowledged |
| `WebClient.ClientRec.TakeNext` | network/web.cpp:1063-1078 | likewise for the next piece |
| `WebClient.ClientRec.PutBack` | network/web.cpp:1080-1086 | likewise for requeueing |
| `WebClient.ClientRec.QueueSend` | network/web.cpp:1057-1061 | a new buffer object at the end of the queue |
| `Connection.StepInv` | network/web.cpp:446-564 | every callback and call keeps the stream invariant of a connection |
| `Connection.RunInv` | network/web.cpp:446-564 | the invariant over every run in which TCP accepts or refuses at will and acknowledges no more than it accepted |
| `Connection.StreamIsFifo` | network/web.cpp:516-564 | over every run the bytes TCP accepted are a prefix of all bytes queued, the rest is in the queue in order, only the front buffer has been touched, all bytes in flight belong to it, and at most one close frame was queued |
| `Connection.CloseIsSafe` | network/web.cpp:786-850 | over every run: `altcp_close` on the server's own account, and removal without a peer close or error, only when every byte ever queued is acknowledged; a closed client is queued nothing more and stays closed |
| `Outcomes.QueuedBy` | network/web.cpp:516-744 | what every event makes the server queue, in bytes: the application's data cut to sixteen bits of length, a pong 0x8A with the ping's payload, a close frame 0x88 back unless one was sent, an empty one on an idle upgraded connection; nothing else, and nothing when closed |
| `Outcomes.TextQueued` | network/web.cpp:703-717 | a text is queued as one packet that begins with 0x81 |
| `Outcomes.FrameAnswered` | network/web.cpp:669-701 | from bytes to bytes: any valid frame that begins with 0x89 is delivered and answered by 0x8A with its payload, one that begins with 0x88 by 0x88 |
| `Outcomes.ClosedBy` | network/web.cpp:446-502 | exactly when a client becomes closed, and exactly when a close frame counts as sent |
| `Outcomes.WritePieceIs` | network/web.cpp:527-556 | one write: the next bytes of the first buffer that is not finished, as many as 1460, the free room in sixteen bits and the buffer allow; accepted or left unsent; and when there is none |
| `Outcomes.WrittenBy` | network/web.cpp:434-564 | what every event hands to TCP: one such write when it queues or acknowledges something or polls an open client with something queued, and no other |
| `Outcomes.RemovedIff` | network/web.cpp:786-850 | a client is removed if and only if the peer closes, the connection fails, or everything queued is acknowledged, the step closes with at most one finished buffer left, or two if it also writes, and TCP takes the close; and exactly when TCP is asked to close |
| `Outcomes.RunRemovedIff` | network/web.cpp:786-850 | the same in every state that a run reaches |
| `Outcomes.OpenFinishes` | network/web.cpp:434-502 | an open connection is never stuck: from every state acknowledgements and polls alone get all that was queued written and acknowledged and every buffer removed |
| `Closing.ClosedFinishesIff` | network/web.cpp:446-502 | a closed client can still be finished, with all its bytes sent, by some run without peer close and error if and only if nothing is left to write, or bytes are in flight and no two empty buffers in a row are ahead of data behind the front one |
| `Closing.HelpedRun` | network/web.cpp:434-444 | such a run: full acknowledgements while bytes are in flight, then polls |
| `Closing.DoomedForever` | network/web.cpp:446-502 | without the condition every such run leaves the client registered and the condition false |
| `Closing.NeverAllWritten` | network/web.cpp:446-502 | and some byte queued for it unwritten |
| `Closing.StalledStays` | network/web.cpp:495-499 | in particular: with nothing in flight, every event other than peer close and error leaves what is unsent as it is |
| `Closing.StalledForever` | network/web.cpp:495-499 | and so does every run of such events |
| `Closing.StallReached` | network/web.cpp:592-597 | a run that reaches that state: TCP refuses the response to a request, and the connection is closed as after every request |
| `Lifetime.DroppedIsDone` | network/web.cpp:1088-1104 | an acknowledgement of bytes in flight removes a buffer only when all of it was sent and is acknowledged |
| `Lifetime.RunHeld` | network/web.cpp:527-564 | over every run the queue holds exactly the bytes queued and not acknowledged |
| `Lifetime.PointedIsHeld` | network/web.cpp:548 | so the bytes that TCP, which is handed them without a copy, still points at are those in flight of the front buffer |
| `Lifetime.DanglingIff` | network/web.cpp:1029-1036 | over every run: while a client is registered TCP points only into its front buffer, and a client is deleted with bytes that TCP points at if and only if the peer closes, or the connection fails, while bytes are in flight |
| `Lifetime.DanglingReached` | network/web.cpp:829-838 | a run in which that happens: one byte is accepted and the peer closes before it is acknowledged |
| `Registry.DeleteConsistent` | network/web.cpp:267-280 | deleting keeps the two maps consistent |
| `Registry.AddConsistent` | network/web.cpp:250-265 | adding an unregistered, non-null control block under a free handle keeps the two maps consistent |
| `Registry.OnClientConsistent` | network/web.cpp:370-514 | so does every event of every client |
| `Registry.ReactKeepsIdentity` | network/web.h:166-173 | no event gives a client another handle; its control block is null exactly once it is closed, closed it stays, and only the upgrade makes it a WebSocket client |
| `Registry.FreeHandle` | network/web.cpp:1166-1178 | with fewer clients than handles, some handle is free (pigeonhole) |
| `Registry.NextHandle` | network/web.cpp:1164-1178 | the search terminates across the 32-bit wrap-around with the first unused handle behind the counter, never a reserved one |
| `WebWorld.ReachesInv` | network/web.cpp:250-514 | over every run of the whole server the maps stay consistent, and every client is exactly what its own events alone would have made of it |
| `WebWorld.EveryStreamIsFifo` | network/web.cpp:516-564 | hence every connection among any number of others keeps the FIFO stream, and control blocks and handles correspond one to one |
| `WebWorld.FramesReceived` | network/web.cpp:370-431 | over every run of the server: when the chunks that an upgraded client has received are valid frames and a part of another, the frames it was given so far are exactly these, in order and unmasked, and the part is what its buffer holds |
| `WebWorld.ProcessedIs` | network/web.cpp:403-423 | the registry after a received chunk is the one that the server object's method ensures |
| `WebWorld.RemovedWhenDone` | network/web.cpp:795-850 | a client leaves the registry only by peer close, error, or with every byte ever queued for it acknowledged |
| `WebWorld.LeavesIff` | network/web.cpp:446-514 | over every run of the server: a client leaves both maps if and only if its own peer closes, its connection fails, or one of its own callbacks finds everything acknowledged, asks TCP to close, and TCP agrees |
| `WebWorld.SendDataIff` | network/web.cpp:615-628 | data sent to a handle reaches its client if and only if the client is not closed |
| `WebServer.Server.AddClient` | network/web.cpp:250-265 | the client object is entered in both maps under the next free handle, open, not upgraded and with nothing queued; a registered control block is left alone |
| `WebServer.Server.DeleteClient` | network/web.cpp:267-280 | exactly the two entries go, and the other client objects are untouched |
| `WebServer.Server.FindClient` | network/web.cpp:292-300 | the object registered under the control block, or none |
| `WebServer.Server.Accept` | network/web.cpp:335-368 | a failed accept changes nothing, a successful one adds a client |
| `WebServer.Server.Close` | network/web.cpp:795-850 | all three cases: a known client is marked closed, loses its finished buffers and is deleted exactly when nothing is left and TCP takes the close; after a peer close it is deleted at once; an unknown control block is only passed on |
| `WebServer.Server.TcpClosed` | network/web.cpp:370-379 | a peer close takes the client out of both maps at once |
| `WebServer.Server.WriteFront` | network/web.cpp:527-556 | one write: the piece is accepted and in flight, or refused and back in the queue |
| `WebServer.Server.WriteOn` | network/web.cpp:527-564 | and then the pending close, when the queue is empty |
| `WebServer.Server.SendBuffer` | network/web.cpp:516-525 | the bytes, their length cut to sixteen bits, are queued and a write follows, also for a closed client that is still registered; an unknown control block is ignored |
| `WebServer.Server.SendWebSocket` | network/web.cpp:739-744 | the payload is sent as one unmasked frame |
| `WebServer.Server.AnswerClose` | network/web.cpp:688-696 | a close frame is answered unless one was sent, and the client is marked closed |
| `WebServer.Server.ProcessFrame` | network/web.cpp:669-701 | one received frame: pong for ping, the closing handshake, nothing for the others |
| `WebServer.Server.TcpSent` | network/web.cpp:434-444 | refines the acknowledgement event, on the whole registry |
| `WebServer.Server.CheckIdle` | network/web.cpp:463-487 | an idle client gets a close frame if it is an upgraded one that has not been sent any, else it is marked closed |
| `WebServer.Server.TcpPoll` | network/web.cpp:446-502 | refines the poll event, on the whole registry; a connection just written to is not idle unless a close frame was sent |
| `WebServer.Server.TcpErr` | network/web.cpp:504-514 | refines the error event: the client's entries leave both maps and no other does |
| `WebServer.Server.Deliver` | network/web.cpp:400-422 | one round of the receive loop: the frame that stands ready is processed and erased, and the client is still registered when that happens |
| `WebServer.Server.TcpData` | network/web.cpp:370-431 | the receive callback on an upgraded connection delivers exactly the messages that the stream holds, each as one event of that client, and leaves the incomplete rest |
| `WebServer.Server.SendData` | network/web.cpp:615-628 | refines the application's send, by way of the client's own control block |
| `WebServer.Server.SendMessage` | network/web.cpp:703-717 | the text reaches the client as one text frame; `Outcomes.TextQueued` has its bytes |
| `WebServer.Server.Broadcast` | network/web.cpp:746-756 | in the order of the handles every upgraded client gets the text once, the others nothing; the calls to TCP in that order; and no client leaves the map that is being walked |
| `WebServer.Server.OpenWebSocket` | network/web.cpp:630-667 | a proper request is answered and the connection upgraded with an empty request buffer; an improper one changes nothing; the exception for a header without a value |

## Left out

- HttpWaiting.AwaitRequest: where the code's loop does not end, the method stops and says so.
- WebServer.Server.Accept: for a control block that is already registered the registry is unchanged, as stated; the code then reads the handle of a null client (network/web.cpp:343-355).
- Lifetime.DanglingIff: TLS copies what it sends, so it concerns plain TCP; buffers of the static kind are never freed.
- POST bodies, cookies, queries and URL decoding (network/httprequest.cpp:91-188, 229-488).
- HTTP handling inside the receive loop: the result of looking the client up again is discarded (network/web.cpp:417), so the client may be gone; `WebServer.Server.TcpData` is stated for upgraded connections, for which the client is proved to be still there.
- WsStream.Drain: stops at a packet whose declared length wraps; what the code does from there on is described by `WsStream.WrappedMessage` and `WsStream.WrappedRest` for unmasked packets, and is undefined behaviour for masked ones.
- WsFrame.ParseEncode: header plus payload fit 32 bits, as the format's length field on a 32-bit target demands.
- WebServer.Server.TcpData: requires that the request buffer stays below 2^32 - 16 bytes, which the target's memory implies; the cut-off at a wrapped length is as for `WsStream.Drain`.
- WebWorld.FramesReceived: chunks reach upgraded clients only, and declare lengths that fit.
- WebServer.Server.Broadcast: sends through `send_message`, as the overload for text buffers does; the string overload calls `send_websocket` directly, with the same effect.
- Connection.React: a finished HTTP request of a client without control block is a no-op; the code passes the null control block to `altcp_close`.
- Application callbacks: they appear as separate events after the callback that would run them, and do not re-enter it. All callbacks and error handlers of the receivers are taken as registered.
- SHA-1 and Base64 of the handshake and the random masking key are parameters; lwIP, TLS, WiFi, mDNS and SNTP are the environment or not modelled.
- Connection idle times: `isIdle` reads a clock; the poll step takes its verdict for the time before the poll as an input, and keeps the tests for closed clients and for the write just made.
- WebServer.Server.SendData: requires a known handle, because the code dereferences the client before testing that it exists (network/web.cpp:617-618).
- Registry.NextHandle: requires fewer clients than handles; the code's own check for that is an assertion on a string literal, which never fails (network/web.cpp:1175).
- Buffers' allocation kinds (allocated, static, preallocated) and their release: a queued buffer is its bytes.
- ScriptRewrite.RewriteFile: requires a stored file with one length, a blank line and no marker, a path without '<' (with one the second loop need not end) and without NUL, and sizes below 2^31.
- ScriptRewrite.SendScript: `send_data` takes a sixteen-bit length; the cut for larger files is not part of this method.
- TxtBuffer.Txt.Expand: sizes stay below 2^32; offsets lie within the text.
- TXT assignment, concatenation, and the static string helpers (util/txt.cpp:59-95, 150-242).
- DhcpOptions.FindsFirst: no pad options (section 3.1 of RFC 2132), for which the search would read a length; and the memory behind the option area is assumed readable where the search may look.
- DhcpServer.Server.Process: the millisecond counter is read once for a packet; sockets are left out.
- DhcpLeases.ExclusiveLease: clients' hardware addresses are not zero.
- IrLink.EndToEnd: no message timeout falls into a transmission, and no two bit timeouts without an edge between them; `IrReceiver.RunInvariant` and `IrReceiver.RunJustified` cover every interleaving with timeouts.
- IrCodec.SpaceMessageTimes: NEC and Samsung share one method; they differ in the base pulse, the sync pair and the second address byte.
- IrCodec.DecodeBySpaces: the two decoders share one method in the same way.
- The static list of receivers, raw recording, the blocking wait, and the alarm, GPIO and PWM calls (ir/ir_receiver.cpp:16-115, ir/raw_receiver.cpp).
- Buttons, LEDs, servo, sound, power, loggers, JSON and file helpers: small or bound to hardware.
- Pre-emption: each callback is one atomic step.
