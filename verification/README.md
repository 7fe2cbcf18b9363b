# The WebSocket stack of ServerTemplate, modelled and proved in Dafny

This project models the WebSocket stack of ServerTemplate and the HTTP front end that feeds it, and proves what
they are for: that bytes and messages survive every layer, in every run of both threads and however the network
cuts the stream.

| file | models | main results |
|---|---|---|
| `ByteArrays.dfy` | big-endian conversion, XOR mask | converters and mask are inverses; the mask bit for bit |
| `Frames.dfy` | frame printer, and a reading of a byte prefix written independently of the parser | the wire format; codec round trip; exactly which bytes are a frame |
| `FrameParser.dfy` | the frame parser object with its countdowns | every call gives the verdict on all bytes so far |
| `Messages.dfy` | `addFrame` | exactly which frame sequences make a message |
| `FrameBuilder.dfy` | fragmentation | fragmenting then reassembling is the identity |
| `Extensions.dfy` | extension pipeline and negotiation | exactly the extensions flagged act, and decoding undoes encoding; first come, first served per RSV bit |
| `MessageParser.dfy` | the recursive message parser object | events do not depend on segmentation; errors are late but never lost |
| `Protocol.dfy`, `ConnectionSafety.dfy` | loop thread and sender thread, interleaved operation by operation | no pop on an empty queue, no lost wake-up, conservation of frames, every answer due written, finality of Close, coming to rest |
| `Handling.dfy`, `Answering.dfy` | what the callbacks of a connection amount to, with an endpoint that may react from inside them | the messages heard, the frames queued and the control frames written, all independent of the cut |
| `Websocket.dfy` | the connection object's methods | each method makes exactly the operations of the interleaved model, and what it queues, posts and writes |
| `Delivery.dfy` | what a receiver makes of frames | frames deliver exactly the messages whole in them, control frames aside |
| `EndToEnd.dfy` | both ends of a connection | what is read of all that was accepted for sending, and exactly when the stream is bad |
| `Utf8.dfy`, `Base64.dfy` | both UTF-8 validators, Base64 | exactness against RFC 3629; round trip and exact acceptance against RFC 4648 |
| `HttpRequestParser.dfy` | the 17-state request parser and the header map | resumability, soundness of what it completes |
| `HttpPrinting.dfy`, `HttpRoundTrip.dfy`, `HttpAcceptance.dfy`, `HeaderBlocks.dfy` | printed header blocks and requests | round trips; exactly which bytes are a request, and which header maps survive printing |
| `HttpErrors.dfy`, `HeaderValues.dfy`, `Upgrades.dfy` | the parser's errors, what header lines say, which of them decide | the parser waits only for what can become a request; values joined per name; which lines decide payload length and answer |
| `Http.dfy` | the front end, the hand-over and the close of the connection | bytes after the upgrade request, and only those, are handed over; exactly when the cut of the stream matters |
| `ClientStream.dfy` | a client's whole byte stream | upgrade request and masked frames, cut anywhere, give the endpoint the client's messages, and queue its replies |

`dafny verify dfyconfig.toml` checks the whole project.

Methods of classes are written as the C++ methods are, field by field, and are proved against functions on whole
byte sequences (`Frames.Decode`, `MessageParsing.Scan`, `HttpParsing.Scan`, `HttpFront.Fold`); the lemmas are
about those functions.

## What the code does that its documentation does not say

These are properties that fail as stated. Each has an input on which it fails and a theorem that says
exactly when it holds.

- An empty message sent with fragmentation queues one frame and posts no permit, so from then on the last frames
  queued stay behind: a quiet connection has written every accepted frame if and only if no such message was
  accepted (`ConnectionSafety.QuietMeansWrittenIff`, `EndToEnd.QuietDeliversAllIff`; example
  `ConnectionSafety.EmptyFragmentedStaysBehind`).
- A message sent in a single frame loses its RSV bits, so an extension's encoding is undone if and only if the
  message took two or more frames or the encoding changed nothing (`EndToEnd.ExtendedReceiptIff`; example
  `EndToEnd.SingleFrameStaysEncoded`).
- The length-taking UTF-8 overload counts code points while the message layer passes bytes: it reads past the end if
  and only if the bytes are not ASCII, and are UTF-8 or break off in the middle of a character
  (`Utf8.OverreadsExactly`, `Utf8.ValidTextOverreads`; example `Utf8.AccentOverreads`). End-to-end results for text
  therefore depend on what the check says, except for ASCII (`EndToEnd.PlainEndToEnd`).
- Sending checks nothing that the receiver checks, so a message can be accepted that the receiver refuses. Then the
  receiver has exactly the messages before it, and its stream is bad if and only if the frame it refuses was written
  (`EndToEnd.EndToEnd`; example `EndToEnd.NoKindIsRefused`).
- The eight-byte length form is also accepted for 65535, which has a shorter form, and for no other such length
  (`Frames.AcceptedExactly`; the frame `Frames.LongFormTaken`).
- The result of the nested call in the message parser is dropped, so the call that meets a bad frame reports an error
  if and only if the bad frame is the first to end in it; otherwise the next call with input does
  (`MessageParsing.MessageParser.Parse` with `MessageParsing.Reports`, `MessageParsing.ErrorsAreNeverLost`; example
  `MessageParsing.ErrorReportedLate`).
- The front end closes the connection after a 400 and after a refused handshake, but handles the rest of the same
  read, so what comes of a stream can depend on how it is cut. It does not if and only if nothing behind the byte
  that closes the connection would be seen: no byte for an upgraded protocol and no further whole request
  (a response is a call of `writeBytes`; whether its bytes still leave after the close is not modelled)
  (`HttpFront.CutFreeIff`; example `HttpFront.LineFeedAnsweredTwice`).
- A request that is no upgrade does not reset the request parser. In the same read it is answered with one 400, and
  with one more for every line feed right behind it if it declares no payload: exactly one response is written if
  and only if it declares a payload or no line feed follows (`HttpFront.OtherRequestsAreRefused`; example
  `HttpFront.LineFeedAnsweredTwice`).
- A header map is not always read back as it was printed. It is if and only if its keys are lower-case and free of
  controls, blanks and colons, and no value holds a NUL, starts with a blank or has a CR that can end its line
  (`HeaderBlocks.HeaderRoundTripIff`; example `HeaderBlocks.LineBreakIsLost`; a value without CR is safe,
  `HttpPrinting.NoCrIsSafe`).
- The Base64 decoder stops at the reserved length, so characters behind that group are never looked at: it decodes a
  string if and only if the characters up to there are known (`Base64.DecodesExactly`; example
  `Base64.UnknownCharacterPasses`), and encoding gives the string back if and only if it is canonical
  (`Base64.ReencodesIff`).

## Model

| member | source | states |
|---|---|---|
| ByteArrays.ToBytes | include/server_template/util/byte_converter.h:19-23 | reversing the memory of a little-endian integer gives its big-endian bytes |
| ByteArrays.FromBytes | include/server_template/util/byte_converter.h:25-41 | reads back exactly the big-endian value, and refuses any other number of bytes |
| ByteArrays.ConverterRoundTrip | include/server_template/util/byte_converter.h:19-59 | integer to bytes to integer and bytes to integer to bytes are both the identity |
| ByteArrays.MaskedTwice | include/server_template/ws/ws_frame_parser.h:160-170 | masking twice with the same key gives the payload back |
| ByteArrays.MaskedByKey | include/server_template/ws/ws_frame_parser.h:160-170 | bit for bit, each byte of the result is the exclusive or of that byte and the key byte at its position modulo four |
| Frames.ToBytes | include/server_template/ws/ws_frame.h:82-111 | the bytes appended are the frame's wire format: header bits, shortest length form, key, payload |
| Frames.WireFormat | include/server_template/ws/ws_frame.h:82-111 | the bytes in plain numbers, as section 5.2 of RFC 6455 lays them out: flag bits, opcode, mask bit, length in 7 bits, two or eight bytes, key, payload |
| Frames.RoundTrip | include/server_template/ws/ws_frame.h:82-111 | any frame within the limit, masked on the wire or not, followed by anything, is read back with exactly its own bytes consumed, and no shorter prefix is taken for a frame |
| Frames.AcceptedExactly | include/server_template/ws/ws_frame_parser.h:44-178 | a prefix is accepted as a frame if and only if it is that frame's printed form or the eight-byte form of length 65535, within the limit |
| Frames.LongFormTaken | include/server_template/ws/ws_frame_parser.h:115-121 | 65535 bytes with an eight-byte length are accepted |
| Frames.LongFrameRefused | include/server_template/ws/ws_frame_parser.h:92-131 | a printed frame longer than the limit is an error, whatever follows |
| Frames.DecodeStable | include/server_template/ws/ws_frame_parser.h:37-181 | once a prefix is a frame or an error, later bytes do not change that |
| Frames.DecodeFits | include/server_template/ws/ws_frame_parser.h:37-181 | a frame or an error is found at its last byte, never before and never beyond the input |
| Frames.UnmaskedByKey | include/server_template/ws/ws_frame_parser.h:160-170 | in the frame read from a masked prefix every payload byte is the wire's byte XORed with the byte of the key before it at the same position modulo four |
| Frames.NeedCanComplete | include/server_template/ws/ws_frame_parser.h:132-178 | once the length field is in, a prefix that asks for more can be completed to a frame |
| FrameParsing.FrameParser.InProgressNeedsMore | include/server_template/ws/ws_frame_parser.h:185-197 | when the countdowns, buffer, key and payload add up to the declared totals, the bytes so far are no whole frame |
| FrameParsing.FrameParser.OnHeaderByte | include/server_template/ws/ws_frame_parser.h:46-91 | two header bytes set opcode, bits and the next stage, or refuse a length over the limit |
| FrameParsing.FrameParser.OnLengthField | include/server_template/ws/ws_frame_parser.h:92-131 | a length field is taken if and only if it is within the limit and at least the least value of its form |
| FrameParsing.FrameParser.OnMaskByte | include/server_template/ws/ws_frame_parser.h:132-152 | the fourth key byte ends an empty frame or starts the payload |
| FrameParsing.FrameParser.OnPayloadByte | include/server_template/ws/ws_frame_parser.h:153-177 | the last payload byte completes the frame, unmasked |
| FrameParsing.FrameParser.Unmask | include/server_template/ws/ws_frame_parser.h:160-170 | the in-place loop leaves, bit for bit, the exclusive or of every byte and the key byte at its position modulo four, and changes nothing else |
| FrameParsing.FrameParser.Parse | include/server_template/ws/ws_frame_parser.h:20-29 | a call on an unfinished frame gives the verdict on all bytes since the frame began and counts exactly the bytes it took; after a frame any input is an error; errors are permanent |
| Messages.WebsocketMessage.AddFrame | include/server_template/ws/ws_message.h:37-89 | the whole new state of the message and the answer, case by case |
| Messages.CompleteMessageExactly | include/server_template/ws/ws_message.h:37-89 | frames make a complete message if and only if only the first names a kind and RSV bits, only the last is final and a text passes its check, and then the payload is theirs in order |
| FrameBuilding.BuildFragment | include/server_template/ws/ws_frame_builder.h:84-113 | the i-th fragment holds the bytes between two multiples of the limit, or up to the end |
| FrameBuilding.Build | include/server_template/ws/ws_frame_builder.h:13-28 | the frames are queued in order behind what was queued, and the count returned is the rounded-up quotient |
| FrameBuilding.CountLags | include/server_template/ws/ws_frame_builder.h:13-28 | the count returned is the number of frames, except one less for a fragmented empty message |
| FrameBuilding.FragmentShape | include/server_template/ws/ws_frame_builder.h:84-113 | fragments are not empty and within the limit, only the last is final, only the first has kind and RSV bits, and their payloads join to the message's |
| FrameBuilding.BuildThenReassemble | include/server_template/ws/ws_frame_builder.h:13-113 | adding the built frames to a fresh message gives the message back, complete at the last frame and not before |
| Extensions.BuildMessage | include/server_template/ws/ws_message_builder.h:12-22 | payload encoded by every extension in list order, with all their RSV flags set |
| Extensions.BuiltByEach | include/server_template/ws/ws_message_builder.h:12-22 | the payload is encoded by each extension in list order, and an RSV flag is set if and only if some extension has its index |
| Extensions.ExtensionDecode | include/server_template/ws/ws_message_parser.h:47-62 | decoded by exactly the extensions whose own flag is set, last one first, failing if one of them fails |
| Extensions.FlaggedInverts | include/server_template/ws/ws_message_parser.h:47-62 | for every combination of flags, a payload encoded in list order by exactly the extensions whose flag is set decodes to the original if these invert |
| Extensions.ClearFlagsDoNothing | include/server_template/ws/ws_message_parser.h:47-62 | replacing an extension whose flag is clear changes nothing |
| Extensions.PipelineInverts | include/server_template/ws/ws_message_parser.h:47-62 | extensions that invert give the payload back if the flags travelled, and leave it encoded if they did not |
| Extensions.ProcessExtensions | include/server_template/ws/websocket.h:391-421 | the extensions agreed are offers in their order, no two on one RSV bit, each bit served by the first known offer that asked for it |
| MessageParsing.ScanResumes | include/server_template/ws/ws_message_parser.h:28-33 | a stream read in two parts gives the events of the one then of the other, and the same end |
| MessageParsing.SegmentationIndependence | include/server_template/ws/ws_message_parser.h:64-109 | two ways of cutting a stream give the same events in the same order and the same outcome, errors included |
| MessageParsing.ErrorReportedLate | include/server_template/ws/ws_message_parser.h:103-108 | a call with a good frame and then a bad one reports no error and leaves the stream bad |
| MessageParsing.ErrorsAreNeverLost | include/server_template/ws/ws_message_parser.h:64-109 | once the stream is bad every later call with input reports an error, a call that reports one leaves it bad, and on a good stream none ever does |
| MessageParsing.MessageParser.Consume | include/server_template/ws/ws_message_parser.h:64-109 | the recursive consumer fires exactly the events of the stream read on, leaves both parsers where the stream stands, reports by the first frame alone, and counts the bytes of whole frames |
| MessageParsing.CountedUpToRest | include/server_template/ws/ws_message_parser.h:64-109 | on a good stream a call counts its bytes up to the frame still unfinished, and none if no frame ends in it |
| MessageParsing.MessageParser.OnFrame | include/server_template/ws/ws_message_parser.h:75-99 | one whole frame fires its callback or is refused, and a delivered message is reset |
| MessageParsing.MessageParser.Parse | include/server_template/ws/ws_message_parser.h:28-33 | over all calls the callbacks fired are the events of the whole stream; result and count of every call |
| Protocol.PopFindsAFrame | include/server_template/ws/websocket.h:333-337 | under the accounting invariant a sender that gets the lock finds a frame |
| Protocol.InvKept | include/server_template/ws/websocket.h:214-373 | every operation of either thread keeps permits accounted for, frames conserved, written data in order and Close last |
| Protocol.InvHolds | include/server_template/ws/websocket.h:214-373 | the invariant holds after every run |
| ConnectionSafety.NoPopOnEmpty | include/server_template/ws/websocket.h:322-337 | in every reachable state the sender that reaches the pop finds the queue not empty |
| ConnectionSafety.FramesConserved | include/server_template/ws/websocket.h:230-248 | in every run the accepted messages' frames are those run, waiting as tasks, in hand, queued and about to be queued, in that order, and the data frames written are a prefix of them |
| ConnectionSafety.CloseIsFinal | include/server_template/ws/websocket.h:214-306 | however a run goes on: status only moves forward, at most one Close frame is written and nothing after it, once not OPEN no message is received or accepted and at most the Close reply is still written, and once a Close frame is written no message is received or accepted either |
| ConnectionSafety.DueIsWritten | include/server_template/ws/websocket.h:214-290 | in every run, once a call that found OPEN has ended, the frame due stands right behind what was written before: the peer's Close repeated, a Pong with the Ping's payload, or an own Close with code and reason; a Close stays last |
| ConnectionSafety.WokenSenderMoves | include/server_template/ws/websocket.h:322-332 | once the status left OPEN and the post is made, a waiting sender has a permit, it can always step, and each step brings it nearer its return |
| ConnectionSafety.WokenSenderFinishes | include/server_template/ws/websocket.h:322-332 | in every run the sender returns within three more of its own steps after the waking post |
| ConnectionSafety.StuckMeansQuiet | include/server_template/ws/websocket.h:322-354 | an open connection on which nothing can move is idle: no task left, the sender waiting without a permit |
| ConnectionSafety.ComesToRest | include/server_template/ws/websocket.h:322-354 | without new calls both threads come to rest within a bounded number of steps: quiet if open, the sender returned and no task left if not |
| ConnectionSafety.PermitsAccount | include/server_template/ws/websocket.h:240-247 | between calls the permits plus the one in hand plus the lag are exactly the queue length |
| ConnectionSafety.QuietLag | include/server_template/ws/websocket.h:240-247 | on a quiet connection everything accepted is written except as many last frames as empty fragmented messages were accepted |
| ConnectionSafety.QuietMeansWrittenIff | include/server_template/ws/websocket.h:240-247 | on a quiet connection everything is written if and only if no accepted message was empty and fragmented |
| ConnectionSafety.EmptyFragmentedStaysBehind | include/server_template/ws/ws_frame_builder.h:15-27 | a run of five actions after which an accepted message stays in the queue of a quiet connection |
| Handling.LoopStepMakesNextOp | include/server_template/ws/websocket.h:214-306 | a loop-thread step of the interleaved model makes the next operation of its call and no other |
| Handling.MessagesUntilClose | include/server_template/ws/websocket.h:292-306 | of the events of one read the endpoint of an open connection gets exactly the messages before the first Close frame, up to the first to which it reacts by closing |
| Handling.HeardWhateverTheCut | include/server_template/ws/websocket.h:184-193 | over all reads the endpoint gets exactly those messages of the whole stream, however the network cuts it |
| Answering.ReactionsAdd | include/server_template/ws/websocket.h:209-248 | what an endpoint's calls add to queue, semaphore and output |
| Answering.EventsAdd | include/server_template/ws/websocket.h:255-306 | what handling any events adds to an open connection: the frames of the replies to the messages heard, their permits and one for a close, a Pong for every Ping up to the close and the Close frame that ends it |
| Answering.AnsweredWhateverTheCut | include/server_template/ws/websocket.h:184-306 | over all reads, however cut: queued are exactly the frames of the replies to the messages heard, written exactly the answers to the stream's control frames and the close, and at most the Close of a bad stream behind them |
| Websockets.Websocket.SendMessage | include/server_template/ws/websocket.h:230-248 | on an open connection locks, queues the frames, posts one by one and unlocks; otherwise does nothing |
| Websockets.Websocket.CloseConnection | include/server_template/ws/websocket.h:214-228 | on an open connection writes the Close frame with code and reason, then leaves OPEN, then posts once; otherwise does nothing |
| Websockets.Websocket.OnControlFrame | include/server_template/ws/websocket.h:255-290 | on an open connection a Close is answered by a Close and a Ping by a Pong with the same payload, and nothing else is written; the operations by status, in order, the status left, and the TCP connection closed unless it was CLOSED |
| Websockets.Websocket.React | include/server_template/ws/websocket.h:209-248 | the calls an endpoint makes from inside its callback: on an open connection the queue grows by the frames of what it sends before its first hang-up, in order, the semaphore by their permits and one for the hang-up, whose Close frame is written |
| Websockets.Websocket.OnMessage | include/server_template/ws/websocket.h:292-306 | hands the message to the endpoint only while open, and carries out its reaction |
| Websockets.Websocket.OnTCPConnectionClose | include/server_template/ws/websocket.h:57-65 | wakes the sender if it was open, and ends CLOSED |
| Websockets.Websocket.SendMessageFrame | include/server_template/ws/websocket.h:364-374 | writes the frame's bytes only while open |
| Websockets.Websocket.OnTCPData | include/server_template/ws/websocket.h:184-193 | one read handles exactly the events it completes, in order, with the endpoint's reactions among them; the queue grows by the frames of the replies to exactly the messages heard, written are the answers to the events, and a Close with code 1002 if and only if the parser reports an error while the connection is open |
| Delivery.ScanFrames | include/server_template/ws/ws_message_parser.h:64-109 | the bytes of any readable frames, masked or not, give exactly the events of those frames |
| Delivery.FirstFrameDecides | include/server_template/ws/ws_message_parser.h:64-108 | a call that begins with a whole frame reports an error if and only if that frame is over the limit or refused |
| Delivery.ControlFramesAside | include/server_template/ws/ws_message_parser.h:75-79 | control frames anywhere in between change nothing about the messages |
| Delivery.EveryControlIsHeard | include/server_template/ws/ws_message_parser.h:75-79 | every Close, Ping and Pong frame of a stream is handed on unmasked and in order, and nothing else is handed on as one |
| Delivery.PrefixDelivers | include/server_template/ws/ws_message_parser.h:64-109 | any prefix of the frames of a sequence of messages delivers exactly the messages whole in it |
| EndToEnd.EndToEnd | include/server_template/ws/websocket.h:230-374 | in every run of both threads the bytes written, read by a fresh parser, give exactly the messages accepted before the first undeliverable one and all of whose frames were written, in order; the stream is bad if and only if the frame at which that one is refused was written, and no half frame is left |
| EndToEnd.NoKindIsRefused | include/server_template/ws/ws_message.h:37-89 | a one-byte message of type UNKNOWN can be sent, and its frame leaves the receiver's stream bad |
| EndToEnd.EndToEndPrefix | include/server_template/ws/websocket.h:230-374 | cutting those bytes anywhere only cuts these messages short |
| EndToEnd.ControlsFitRun | include/server_template/ws/websocket.h:214-290 | if the close reasons given and the control frames received fit the limit, so does every control frame written |
| EndToEnd.PlainEndToEnd | include/server_template/ws/websocket.h:230-374 | without extensions, for binary and ASCII text, each message read has the type and the bytes it was sent with |
| EndToEnd.QuietDeliversAllIff | include/server_template/ws/websocket.h:230-374 | on a quiet connection the receiver has every accepted message if and only if all are deliverable and none was empty and fragmented |
| EndToEnd.ExtendedReceiptIff | include/server_template/ws/ws_frame_builder.h:72-82 | with extensions that invert, the receiver sees the bytes sent if and only if there were two or more frames or encoding changed nothing |
| EndToEnd.ExtendedEndToEnd | include/server_template/ws/websocket.h:230-374 | in every run with such extensions, the messages read are those before the first whose frames do not carry it and whole in the frames written, each with its type, and with its bytes under exactly that condition |
| EndToEnd.SingleFrameStaysEncoded | include/server_template/ws/ws_frame_builder.h:72-82 | a one-byte message in one frame arrives with the extension's byte still on it |
| Utf8.IsValidUTF8 | include/server_template/util/utf8.h:22-79 | true if and only if the bytes before the first zero byte encode some sequence of Unicode scalar values; this holds for a memory that ends at that byte, so nothing behind it is read |
| Utf8.ReadOneExactly | include/server_template/util/utf8.h:33-77 | one turn of the loop accepts exactly the encodings of scalar values: no surrogate, no overlong form, nothing above U+10FFFF |
| Utf8.IsValidUTF8Length | include/server_template/util/utf8.h:81-140 | the length overload's outcome, reads past the memory included |
| Utf8.LengthCountsCodePoints | include/server_template/util/utf8.h:90 | the length overload accepts if and only if the memory starts with that many encoded code points |
| Utf8.OverreadsExactly | include/server_template/util/utf8.h:81-140 | called with the byte length of any bytes it reads past the end if and only if they are not ASCII, and are UTF-8 or break off inside a character |
| Utf8.ValidTextOverreads | include/server_template/util/utf8.h:81-140 | called with the byte length of valid text it accepts if the text is ASCII and reads past the end if not |
| Base64.Encode | include/server_template/util/base64.h:56-88 | the output is the standard's: three bytes as four 6-bit digits, padded, 4 * ceil(n / 3) characters |
| Base64.Decode | include/server_template/util/base64.h:15-54 | the decoder's loop, rejecting bad lengths and characters and stopping inside a group at the reserved length |
| Base64.TableIsKept | include/server_template/util/base64.h:10-130 | the encoder's characters are the standard's table, the decoder inverts it, and knows no other character but '=' |
| Base64.DecodesExactly | include/server_template/util/base64.h:15-54 | a string is decoded if and only if its length is a multiple of four, the reserved length is not negative and the characters of the groups looked at are known |
| Base64.ReencodesIff | include/server_template/util/base64.h:15-98 | decoding then encoding gives the string back if and only if it is canonical |
| Base64.RoundTrip | include/server_template/util/base64.h:15-98 | decoding what was encoded succeeds with exactly the bytes |
| HttpParsing.Resumable | include/server_template/http/http_request_parser.h:25-34 | parsing in two parts leaves the same state, request, result and count as parsing at once (the byte-wise form of the loop; the parser object is tied to it by `HttpRequestParser.Parse`) |
| HttpParsing.StepKeepsSound | include/server_template/http/http_request_parser.h:42-323 | every byte keeps the parser's invariant: keys lower-case, a continuation's key present, payload below the declared length |
| HttpParsing.CompleteMeansDeclared | include/server_template/http/http_request_parser.h:281-316 | a whole request has exactly the declared number of payload bytes, within the limit |
| HttpParsing.FoldedLineFindsItsHeader | include/server_template/http/http_request_parser.h:191-280 | a continuation line extends the header before it and never starts a new one; with none before it, it is an error |
| HttpErrors.WaitsOnlyForRequests | include/server_template/http/http_request_parser.h:42-323 | as long as the parser waits, what it has read can still become a request, for some method table and content length, unless its first header line starts with a blank |
| HttpParsing.HttpRequestParser.OnRequestLine | include/server_template/http/http_request_parser.h:51-190 | one byte of the request line: method, URI, version and line end |
| HttpParsing.HttpRequestParser.OnHeader | include/server_template/http/http_request_parser.h:191-280 | one byte of a header line: key, value, continuation, stray CR |
| HttpParsing.HttpRequestParser.OnHeaderLine | include/server_template/http/http_request_parser.h:248-270 | stores the line, or joins it to the value there with a blank (continued) or a comma (repeated) |
| HttpParsing.HttpRequestParser.OnBody | include/server_template/http/http_request_parser.h:281-316 | the empty line decides by content length, and the payload ends the request at exactly that length |
| HttpParsing.HttpRequestParser.Parse | include/server_template/http/http_request_parser.h:25-34 | a call gives the verdict on its input from the state it found; errors are permanent |
| HttpPrinting.HeadersToBytes | include/server_template/http/http_header_map.h:55-62 | the block appended has one line per key, each key once, in some order, each text cut at its first NUL |
| HttpPrinting.LinesAreText | include/server_template/http/http_header_map.h:55-62 | the block in plain bytes: key, colon, blank, value, CR, LF for each key |
| HttpPrinting.NoCrIsSafe | include/server_template/http/http_request_parser.h:228-280 | a value without CR cannot end its line early |
| HttpPrinting.LinesReach | include/server_template/http/http_request_parser.h:191-280 | any printed list of header lines is parsed to what it means: case folded, repeated keys joined with a comma, continuations with a blank |
| HeaderValues.LinesMean | include/server_template/http/http_request_parser.h:248-270 | for every name, in any case, the map holds the joined values of the lines that belong to it: repeated ones behind a comma and a blank, continuations behind a blank |
| HttpRoundTrips.HeaderRoundTrip | include/server_template/http/http_header_map.h:55-62 | a header map that fits, printed in any order, is read back as the same map |
| HeaderBlocks.LinesBetween | include/server_template/http/http_request_parser.h:191-280 | whatever bytes take the parser from one line start to another are printed header lines, and what they mean is what is stored |
| HeaderBlocks.HeaderRoundTripIff | include/server_template/http/http_header_map.h:55-62 | any printed header map is read back if and only if its keys are lower-case and fit, and no value holds a NUL, starts with a blank or has a CR that can end its line |
| HeaderBlocks.LineBreakIsLost | include/server_template/http/http_header_map.h:55-62 | a value with a line break is printed but not read back |
| HttpRoundTrips.RequestRoundTrip | include/server_template/http/http_request_parser.h:42-323 | a printed request, followed by anything, is read back whole with exactly its own bytes consumed |
| HttpRoundTrips.RequestWithMapRoundTrip | include/server_template/http/http_request_parser.h:42-323 | the same for a request whose header map is printed in any order |
| HttpAcceptance.AcceptedExactly | include/server_template/http/http_request_parser.h:42-323 | input is accepted as this request, ending here, if and only if the bytes up to here are its text in some choice of header lines |
| Upgrades.ContentLengthDecides | include/server_template/http/http_request_parser.h:281-316 | the payload of an accepted request is as long as its "content-length" line says, in any case, and as "0" says without one |
| Upgrades.TextIsAnswered | include/server_template/http/http.h:88-127 | the first response to the text of a request, however cut, goes by its "connection" and "upgrade" lines: 400, unsupported or handshake, and only an accepted handshake leaves the connection open |
| Upgrades.UpgradeLinesDecide | include/server_template/http/http.h:108-110 | with one line each: a handshake if and only if "connection" says "Upgrade" or "upgrade" and the value of "upgrade" is a supported protocol |
| Upgrades.ExampleIsAnswered | include/server_template/http/http_request.h:21-25 | a GET with "Connection: Upgrade" and "UPGRADE: echo", byte by byte |
| HttpFront.FoldAllIsFold | include/server_template/http/http.h:32-61 | what the reads lead to is what the bytes that arrive lead to: all, or those up to the end of the first read in which the connection is closed |
| HttpFront.CutFreeIff | include/server_template/http/http.h:32-127 | the outcome does not depend on the cut if and only if nothing behind the byte that closes the connection would be seen |
| HttpFront.RequestInReads | include/server_template/http/http.h:32-61 | the first request is answered at its last byte, then the rest of that read is handled, then the later reads if the connection is open |
| HttpFront.UpgradeHandOver | include/server_template/http/http.h:32-127 | an upgrade request whose handshake succeeds, followed by anything and cut anywhere: one response, and the bytes after it are forwarded, all of them unless the upgraded protocol has closed |
| HttpFront.RefusedHandshake | include/server_template/http/http.h:117-126 | a handshake answered otherwise closes the connection: only the rest of the same read is forwarded |
| HttpFront.SecondTry | include/server_template/http/http.h:108-116 | an unknown protocol closes the connection: the rest of the same read is handled like a new stream, later reads not at all |
| HttpFront.OneBorder | include/server_template/http/http.h:32-127 | in what arrives of any stream there is at most one border, the last byte of a request that is taken: nothing before it is forwarded and everything after it is |
| HttpFront.OtherRequestsAreRefused | include/server_template/http/http.h:88-106 | a request that is no upgrade closes the connection and is answered with exactly one 400, plus one for every line feed right behind it in the same read if it declares no payload |
| HttpFront.LineFeedAnsweredTwice | include/server_template/http/http.h:88-106 | a plain GET and a line feed: two responses in one read, one in two |
| HttpFront.BadStreamCloses | include/server_template/http/http.h:36-46 | a stream that starts with no request is closed without a response, however it is cut |
| HttpFront.Http.OnTCPData | include/server_template/http/http.h:32-61 | the recursion terminates and leaves the object where the bytes handled leave a connection |
| HttpFront.Http.OnRead | include/server_template/tcp/tcp_connection_handler.h:56-81 | over all reads the object is where the reads leave a connection; none is handled after a close |
| HttpFront.Http.OnHttpMessage | include/server_template/http/http.h:88-106 | the response to a whole request, the close, and a fresh parser only after an upgrade request |
| HttpFront.Http.OnUpgrade | include/server_template/http/http.h:108-127 | a protocol in the table is taken over to, any other name is answered with a 400; the connection stays open only after SWITCHING_PROTOCOLS |
| ClientStreams.TextHandsOver | include/server_template/http/http.h:32-127 | the same for every text of a request that the server accepts |
| ClientStreams.ClientMessagesArrive | include/server_template/ws/websocket.h:184-306 | a client's upgrade request and frames, cut anywhere on the network and anywhere in the hand-over: the endpoint gets exactly the messages of those frames before the first close from either side |
| ClientStreams.ClientIsAnswered | include/server_template/ws/websocket.h:184-306 | and queued for the client are exactly the frames of what the endpoint sends in reaction to those messages |

## Left out

- libuv, TCP and threads: `writeBytes` appends to an output log, the async queue is first in first out, a write lock
  excludes, and each operation on shared state is one step. Buffer lifetimes, destructors and the memory model of
  the `volatile` status are not modelled.
- The application's calls and the parser's callbacks run on the loop thread, as libuv delivers them; an endpoint may
  call its session from inside its message callback. Calls of `sendMessage` from other threads are not modelled.
- Websockets.Websocket.OnMessage: an endpoint's reaction is a function of the messages it has been handed, in calls
  of `sendMessage` and `closeConnection`; its callbacks for the opening and the end of a connection are not modelled.
- The sender's loop is given as steps from position to position, not as a `while` loop of a method, because the loop
  thread changes the state it reads between any two of its operations. Locking, popping and unlocking are one step.
- Frames and messages in queues are values: allocation, `delete` and aliasing are not modelled. `getPayloadLength`
  is the payload's length (for an empty payload the code returns a capacity, which is 0 for the frames built).
- Websockets.Websocket.OnTCPData: requires a read that is not empty, the only kind the TCP handler passes on
  (include/server_template/tcp/tcp_connection_handler.h:105-109).
- EndToEnd.EndToEnd: requires of close reasons and received control frames that they fit the receiver's limit, and of
  frame lengths that 64 bits can hold them; the code checks neither when sending.
- Utf8.IsValidUTF8Length: what lies behind the memory is not modelled, so a read past it is an outcome of its own;
  for the message layer the text check is a function of the payload that agrees with the overload wherever the
  overload stays inside. The overload for a null pointer is not modelled.
- FrameBuilding.Build: the quotient of doubles is an exact rounded-up integer division, which it is for payloads
  below 2^53 bytes; loop indices do not overflow; a fragment size of 0 is excluded.
- HttpParsing.CompleteMeansDeclared: reading a content length is an uninterpreted function that may throw, and the
  method table and the URI parser are uninterpreted too. An exception, which an empty URI also raises, is not caught
  anywhere and ends the process; the model ends the parse with an error there.
- HttpFront.UpgradeHandOver: which handshakes succeed is an uninterpreted predicate, and so is which bytes make the
  upgraded protocol close the connection, until `ClientStreams.ClientMessagesArrive` says it is a Close frame.
- Base64.Decode: the reserved capacity is taken to be exactly the size asked for.
- `result` of the parsers and `rsv` of a message have no initialiser; they are taken as incomplete and all false.
- A limit set after construction (`setMaxPayloadLength`, `setMaxContentLength`): each parser keeps the limit it was
  made with. Failing allocation on a large declared length is not modelled.
- `maskPayload`: its key is random and has eight characters. Masked frames are modelled with the four-byte key they
  carry.
- Extensions.ProcessExtensions: the token syntax of the extension header and the parameters are not modelled;
  negotiation starts from the options already looked up by name.
- The handshake's checks and response headers, SHA-1, status and method tables, endpoints and sub-protocols.
- How often `closeConnection` is called on the TCP connection, and the time its callback takes: it closes, and no read
  arrives after it.
- Rules of RFC 6455 the code does not enforce: masking by the client, size and fin of control frames, reserved
  opcodes, a limit on a whole message.
- Response printing beyond the header block, `removeValue` and `count` of the header map.
