# A verified model of a WebSocket client

The repository is a WebSocket client in C (RFC 6455). This project models the path from a message to
wire bytes and back, from the masking loop up to the event loop, together with the URL and HTTP text
of the opening handshake, and proves what those layers promise. `dafny verify dfyconfig.toml` checks
all of it.

| file | what it models |
|---|---|
| `Bytes.dfy` | big-endian lengths: positional notation, and the shift-and-OR code proved equal to it |
| `Masking.dfy` | `src/simd.c`: the 16-byte block loop with its serial tail |
| `Wire.dfy` | the frame layout of section 5.2 of RFC 6455 and the two-step decoder, as functions |
| `Protocol.dfy` | `src/protocol.c`: the frame object and its in-place reader and writer |
| `Socket.dfy` | the byte stream and the environment that stand for `src/net.c` |
| `Reassembly.dfy` | the reassembly fold and its laws |
| `Reader.dfy`, `ReaderLaws.dfy` | `src/reader.c`: the reader object, and its laws over whole runs |
| `Session.dfy`, `SessionLaws.dfy` | `src/websocket.c`: write, pull and event loop as functions, and their laws |
| `WireBytes.dfy` | what stands where in the frames read and the messages written, byte by byte |
| `LoopAnswers.dfy` | what a run of the event loop writes: PONGs and the callback's own bytes |
| `LoopDelivery.dfy` | what a run of the event loop delivers when nothing outside interferes |
| `Client.dfy` | `src/websocket.c`: the client and connection objects |
| `Text.dfy`, `Url.dfy`, `Http.dfy`, `Handshake.dfy` | C string functions, the URL parser, `src/http.c`, the opening request |
| `Sequences.dfy`, `Types.dfy` | sequence facts; the enumerations of `headers/protocol.h` |

## How it is built

Code that changes things in place is a class or an array method proved against a function; the laws
are then lemmas about the functions. Everything outside the program is one environment record:
how many bytes each peek and read is granted, how many each send is granted (an error, a short count,
or all of it), the random masking keys, and the moments at which another thread calls
`ws_client_shutdown_loop`. Lemmas quantify over all environments. Those that need full peeks and reads
say so with `Full`, those that need full sends with `FullSends`; neither implies the other.
A callback is any function of the messages delivered to it so far; it may refuse, shut the loop down
and send bytes of its own.

The reader object carries a ghost history of everything it took in. Its `Valid()` ties that history to
the messages handed out, the message queue and the frame queue, and every method keeps it, so it holds
in every reachable state. The request object carries the history of its header sets in the same way.

The laws do not take the specification functions at their word. Each operation has statements that
name no function of its own: the bytes of a frame by their position (`WireBytes.dfy`), the opcodes,
first bytes and grants by number, and the URL, the request and the handshake by their text.

Every lemma carries `{:induction false}`: all inductions are written out.

## Main results

- **Loopback** (`SessionLaws.Loopback`): whatever messages are written, under whatever keys, a reader of those
  bytes pulls exactly the messages that could be written, in order, and ends as it began.
- **Synchronisation** (`ReaderLaws.RunDecomposes`, `ReaderLaws.RunIsTheDecomposition`): over any run of the reader,
  under any short counts and however it ended, the stream is the layouts of exactly the frames accepted, and of no
  others, followed by what the last successful call left.
- **Fragmentation and interleaving** (`ReaderLaws.FragmentationPreservesMeaning`): a body cut into any pieces, masked
  in any way, with any control frames between the pieces, arrives as one message.
- **Conservation** (`ReaderLaws.ReachableConservation`): in every reachable state no payload byte is lost,
  duplicated or reordered.
- **The event loop** (`SessionLaws.RunTrace`, `SessionLaws.RunConsumes`, `LoopAnswers.RunWrites`): it terminates on
  every stream; what it hands to the callback, takes from the stream and writes, and when it stops, for every
  environment and callback.
- **What the peer hears** (`LoopAnswers.PeerHears`): for input that arrives in any pieces and a callback that writes any
  messages of its own, a peer pulls, in order, one PONG per answered PING and the callback's messages for each TEXT
  or BIN, and nothing else, as long as no send is cut short. `LoopAnswers.PingsArePonged` is the case of a callback that
  writes nothing.
- **Delivery** (`LoopDelivery.UndisturbedRun`, `LoopDelivery.UndisturbedDelivery`): for every byte stream and every
  callback, with full counts and no shutdown from another thread, how far the loop gets and why it stops, and exactly
  when every TEXT and BIN message before the first CLOSE is delivered.
- **The codec** (`Wire.DecodesIffLayout`, `Protocol.WsFrame.Write`, `WireBytes.BytesDecode`, `WireBytes.WrittenBytes`):
  the decoder accepts exactly the layouts of section 5.2, byte by byte, and the in-place writer produces the shortest
  of them for every length but one.
- **One receive** (`ReaderLaws.HandleOutcomes`): under any grants, exactly when a call of the reader is idle, takes a
  frame in, takes a lost connection for a CLOSE, or fails.
- **Masking** (`Masking.ApplyMaskSimd`): the block loop is the byte-wise definition of section 5.3.
- **Handshake text** (`Handshake.HandshakeText`, `Http.RequestRoundTrip`, `Http.SetsSurviveTheWire`, `Handshake.UrlToHandshake`): from any URL, with
  or without port and TLS, to the printed request and back, for every order in which the header map may be walked.
- **Bounds of the text parsers** (`Url.PortOverrunIff`, `Http.FieldsOverrunIff`, `Http.StartOverrunIff`): the texts on
  which the C parsers leave their buffers, exactly.

## Where the code and its documentation differ

The model follows the code; these are proved, not assumed.

- `ws_frame_write` fails for a payload of exactly 65536 bytes and for no other, because
  `ws_frame_output_size` uses `<=` where the writer uses `<` (`Protocol.WsFrame.Write`, `Wire.SizesAgree`).
- A frame that is unmasked and empty is refused. Servers do not mask, so an empty PING or an empty
  CLOSE from a conforming server ends the connection with an error (`SessionLaws.PullAcceptsIff`).
- A reassembled message takes the last opcode that is not a continuation. That differs from the first
  frame's opcode if and only if some later frame carries an opcode that is neither a continuation nor
  the first one, with only continuations after it (`Reassembly.TypeIsFirstOpcodeIff`, with the
  counterexample `Reassembly.TypeCanDiffer`).
- The reader handles fragments, but `ws_client_on_msg` stops on the first frame that is not final
  (`LoopDelivery.FragmentStopsLoop`, an if-and-only-if), and on a PING of 65536 bytes. TEXT and BIN
  messages behind such a frame are lost; `LoopDelivery.UndisturbedDelivery` says exactly when none is,
  and `LoopDelivery.FragmentedTextIsLost` is an input on which one is.
- A short count from the socket on a write is taken for success. The whole frame went out if and only
  if the stream was open and the grant for that send covered it (`SessionLaws.WriteCompleteIff`, with
  the counterexample `SessionLaws.ShortWriteSucceeds`). What the peer then sees of a PONG is what its
  own send let through (`LoopAnswers.RunWrites`).
- A CLOSE ends the loop and frees the client without any answer being sent (`LoopAnswers.RunWrites`).
- `ws://` followed by a one-character host and nothing else is refused for its length
  (`Url.UrlRoundTrip`, `Url.ShortUrls`).
- A port of more than five characters leaves the six-byte buffer of `ws_client_from_str`, on exactly
  the URLs of a known scheme that have one (`Url.PortOverrunIff`, with the input of `Url.SixDigitPort`).
- A header line that is not the empty line and has no colon before its last character makes
  `http_message_from_str` step past its text, and nothing else does (`Http.LineOverrunIff`,
  `Http.FieldsOverrunIff`, with the input of `Http.NoColonOverruns`). So does a start line that is the
  whole text and has fewer than two spaces (`Http.StartOverrunIff`, `Http.BareMethodOverruns`).
- `http_request_to_str` hands out a C string without its length. A body that holds a NUL byte comes back
  cut at it, and only such a body does not come back whole (`Http.RequestAsCString`).
- The Host header names the port modulo 65536 (`Handshake.HostNamesPortIff`).

## Model

| member | source | states |
|---|---|---|
| Bytes.DigitsThenValue | src/protocol.c:51-75 | a number below 256^w is the positional value of its w big-endian digits |
| Bytes.ValueThenDigits | src/protocol.c:34-46 | every byte string is the digits of its value, which fits the width |
| Bytes.ShiftOutIsDigits | src/protocol.c:55-71 | the shift-and-mask writers produce exactly the positional digits of the length |
| Bytes.OrInIsValue16 | src/protocol.c:35-38 | the 16-bit shift-and-OR reader computes the positional value of its two bytes |
| Bytes.OrInIsValue64 | src/protocol.c:39-45 | the 64-bit shift-and-OR reader computes the positional value of its eight bytes |
| Bytes.LengthCodecInverse16 | src/protocol.c:34-58 | 16-bit writer and reader are inverse in both directions, for every value and every two bytes |
| Bytes.LengthCodecInverse64 | src/protocol.c:39-71 | 64-bit writer and reader are inverse in both directions, for every value and every eight bytes |
| Masking.MaskedTwice | src/simd.c:6-16 | masking twice with one key restores the source, for every length and key |
| Masking.KeyPhase | src/simd.c:49-72 | at a block boundary the repeated key's lanes are the key bytes the serial definition uses there |
| Masking.ApplyMaskSerial | src/simd.c:6-16 | the serial loop masks positions offset..len and touches nothing else |
| Masking.ApplyMaskSimd | src/simd.c:39-72 | the block loop with its tail leaves src[i] XOR key[i mod 4] at every i, in bounds, and touches nothing else |
| Masking.ApplyMask | src/simd.c:181-193 | on either path destination byte i of the window is source byte i XOR key byte i mod 4, and the rest is untouched |
| Protocol.HandlePayload | src/protocol.c:96-113 | destination byte i of the window is source byte i, XORed with key byte i mod 4 when asked, and the rest is untouched |
| Protocol.WsFrame.ExtendedLen | src/protocol.c:16-49 | succeeds exactly when the window holds the extended length, which it reads as a positional value |
| Protocol.WsFrame.ReadHeader | src/protocol.c:151-166 | reads a header exactly when the window decodes to one, and stores that header |
| Protocol.WsFrame.ExtractMask | src/protocol.c:77-90 | takes the four key bytes when the mask bit is set and they are there |
| Protocol.WsFrame.ReadBody | src/protocol.c:168-190 | succeeds exactly when the body decodes, and then the object holds the decoded frame |
| Protocol.WsFrame.WriteLen | src/protocol.c:51-75 | the length field holds the big-endian digits of the payload length in the chosen width |
| Protocol.WsFrame.Write | src/protocol.c:192-230 | fails exactly for 65536 bytes; otherwise the whole output is the frame's encoding; every write is in bounds either way |
| Wire.LayoutDecodes | src/protocol.c:151-190 | decoding any layout of a frame returns that frame and its extent, whatever follows |
| Wire.DecodedIsLayout | src/protocol.c:151-190 | whatever decodes is, byte for byte, the layout of the returned frame in the announced length form |
| Wire.DecodesIffLayout | src/protocol.c:16-49 | a prefix decodes to a frame if and only if it is one of that frame's layouts and not unmasked and empty |
| Wire.EncodeDecodesIff | src/protocol.c:168-230 | a written frame is read back, key dropped when unmasked, if and only if it is masked or not empty |
| Wire.SizesAgree | src/protocol.c:115-127 | the precomputed size is the size written for every length but 65536, where it is six short |
| Wire.EncodeIsShortest | src/protocol.c:201-207 | the length form chosen is the only shortest one that fits (section 5.2 of RFC 6455) |
| Wire.LayoutUnique | src/protocol.c:192-230 | two frame layouts that start the same bytes are the same frame in the same form |
| Wire.EncodePrefixFree | src/protocol.c:192-230 | no written frame is a proper prefix of another |
| Wire.EncodeAllInjective | src/protocol.c:192-230 | equal concatenations of written frames come from equal lists of frames |
| WireBytes.LayoutBytes | src/protocol.c:192-230 | every byte of a frame by its position: first byte, mask bit and code, extended length most significant byte first, key, payload XOR key |
| WireBytes.DecodedBytes | src/protocol.c:151-190 | whatever decodes has those bytes, with FIN and opcode from the first byte and mask and length form from the second |
| WireBytes.BytesDecode | src/protocol.c:151-190 | whatever has those bytes decodes to that frame, unless it is unmasked and empty |
| WireBytes.WrittenBytes | src/websocket.c:445-481 | a message written in full is the byte 0x80 OR its opcode, mask bit with the shortest length form, the environment's key, and body XOR key |
| WireBytes.PongBytes | src/websocket.c:416-422 | a PING, opcode 0x9, is answered by a frame whose first byte is 0x8A, with the same body |
| Reassembly.Conservation | src/reader.c:136-162 | from any queue, the payload bytes taken in are those emitted and then those pending, on each path, in order |
| Reassembly.ControlInterleaving | src/reader.c:136-162 | wherever control frames stand, data messages equal those without them and control messages equal the control frames |
| Reassembly.ControlComesOutInPlace | src/reader.c:137-147 | a control frame comes out at the point where it went in and disturbs nothing around it |
| Reassembly.StepByFirstByte | src/reader.c:136-162 | routing by the first byte alone: FIN clear joins the queue; FIN set with opcode 8 or more comes out at once; FIN set with a lower one takes the queue with it |
| Reassembly.FragmentsMakeOneMessage | src/reader.c:14-54 | a fragmented message becomes one message of all its pieces and leaves the queue empty |
| Reassembly.InterleavedFragmentsMakeOneMessage | src/reader.c:136-162 | the same with any control frames between the fragments |
| Reassembly.TypeIsFirstOpcodeIff | src/reader.c:34-36 | the type differs from the first frame's opcode if and only if a later frame carries another opcode than it and CONT, with only CONT after it |
| Reassembly.TypeCanDiffer | src/reader.c:34-36 | TEXT followed by a final BIN is delivered as BIN |
| Reassembly.TypeTellsPath | src/reader.c:136-162 | when control frames are never fragmented, a message's type tells by which path it came |
| Reader.Insert | src/reader.c:37-45 | the byte-by-byte insertion appends exactly the payload |
| Reader.FrameReader.ConstructMessage | src/reader.c:14-54 | draining the frame queue queues the one assembled message and empties the frame queue |
| Reader.FrameReader.Handle | src/reader.c:64-164 | one call does what the specification says for every environment, keeps Valid and extends the history |
| Reader.FrameReader.TakeLostClose | src/reader.c:105-119 | a failed read of a CLOSE frame queues an empty CLOSE message unless the reader is closed |
| Reader.FrameReader.RouteFrame | src/reader.c:136-163 | a decoded frame is routed as the fold says, unless the reader is closed |
| Reader.FrameReader.NextMsg | src/reader.c:165-171 | hands out the oldest queued message, or nothing when the queue is empty or the reader closed |
| ReaderLaws.AcceptedMeansDecoded | src/reader.c:73-135 | under any short counts, an accepted frame is the first frame of the stream and exactly its extent was consumed |
| ReaderLaws.HandleOutcomes | src/reader.c:64-164 | under any grants: idle iff the peek moved nothing; a frame iff open, header peeked and its whole extent read; a CLOSE in its place iff that read failed and the header's opcode is 8; otherwise failure with the reader unchanged |
| ReaderLaws.FullHandle | src/reader.c:64-164 | with full counts one call is exactly the decoder, and an idle call exactly the end of the stream |
| ReaderLaws.DecompositionUnique | src/reader.c:95-130 | any two ways to cut one byte string into frames are the same |
| ReaderLaws.RunDecomposes | src/reader.c:64-164 | under any counts and however the run ended, the stream is the layouts of exactly the frames accepted, then what the last successful call left; only a failed call takes more, off the front |
| ReaderLaws.RunFolds | src/reader.c:64-164 | under any counts a run leaves the reader as the fold of its events and sends nothing |
| ReaderLaws.RunIsTheDecomposition | src/reader.c:64-164 | however the stream can be cut into frames, those a run accepted are the first of that cut, or all of it and more |
| ReaderLaws.FullRun | src/reader.c:64-164 | with full counts every stream of decodable frames is taken in frame by frame |
| ReaderLaws.CodesByteIs | src/websocket.c:448-454 | the first byte of a written frame is 0x80 OR the opcode, reserved bits clear |
| ReaderLaws.FragmentBytes | src/reader.c:136-162 | first bytes of fragments: the opcode on the first one, FIN on the last one, zero otherwise |
| ReaderLaws.FragmentationPreservesMeaning | src/reader.c:136-162 | bytes of a body cut, masked and interleaved with control frames in any way yield that one data message and stay in step |
| ReaderLaws.FragmentedEqualsWhole | src/reader.c:14-54 | a body in one frame and in any number of frames leave the reader in the same state |
| ReaderLaws.ReachableConservation | src/reader.c:8-54 | in every reachable state bytes taken in are those handed out, then in the message queue, then in the frame queue |
| Session.PullInLockstep | src/websocket.c:360-371 | no message waits between calls; each is the one its own frame completed; none exactly when idle or not final |
| Session.TurnProgress | src/websocket.c:393-438 | a turn that goes on consumed at least two bytes, so the loop terminates on every finite stream |
| Session.PullWithinLoad | src/websocket.c:360-371 | a message handed out is made of bytes that were pending or unread |
| SessionLaws.SentBytes | src/websocket.c:445-481 | full writes put the client frames of the sendable messages on the wire, in order |
| SessionLaws.Loopback | src/websocket.c:445-481 | everything written is pulled back in order, every byte consumed, the reader as it began; bodies of 65536 bytes excepted |
| SessionLaws.WriteCompleteIff | src/websocket.c:445-481 | a write succeeds iff the body is not of 65536 bytes, the stream is open and that send is not failed, and sent the whole frame iff moreover its grant covers it |
| SessionLaws.ShortWriteSucceeds | src/websocket.c:84-91 | a write of which one byte was taken is reported as a success |
| SessionLaws.PullAcceptsIff | src/protocol.c:168-172 | a well-formed frame is accepted if and only if it is masked or not empty |
| SessionLaws.DispatchByOpcode | src/websocket.c:410-433 | opcodes 1 and 2, and no others, go to the callback; 8 ends the loop; 9 is answered with opcode 0xA; every other opcode changes nothing |
| SessionLaws.RunTrace | src/websocket.c:385-443 | a run's messages are the emissions of the frames taken in; callbacks are exactly its messages of opcode 1 or 2; only the last message can end it |
| SessionLaws.RunConsumes | src/websocket.c:385-443 | however the loop ended, the stream is the layouts of exactly the frames it took in, then what its last successful receive left |
| SessionLaws.NullMessageEnding | src/websocket.c:405-409 | for every environment and callback, a run that ended for want of a message ended on an open stream, on a peek that moved nothing or on a fragment that is not final |
| SessionLaws.GoingOnMeansRunning | src/websocket.c:434-438 | a turn that goes on found the flag set and no shutdown at either of its ticks |
| SessionLaws.ShutdownEndsRun | src/websocket.c:495-505 | another thread's shutdown at the head of a turn ends the run there, with nothing more pulled, delivered, read or sent |
| SessionLaws.RunBound | src/websocket.c:393-438 | every message but the last cost at least two bytes of input |
| LoopAnswers.RunWrites | src/websocket.c:416-430 | a run wrote, in order, one PONG per PING with the same body, under the key of its own send and cut only where the environment cut that send, the callback's own bytes, and nothing for the rest; only the last message can lack its PONG, exactly when it could not be written |
| LoopAnswers.PeerHears | src/websocket.c:410-433 | whatever pieces the input arrives in and whatever messages the callback writes, if no send is cut short, a peer reading what the loop wrote pulls the PONGs and the callback's messages, one reply per answered message, in order, and nothing else |
| LoopAnswers.PingsArePonged | src/websocket.c:416-422 | when the callback writes nothing and no send is cut short, the peer pulls one PONG per answered PING, same bodies, same order, and nothing else |
| LoopDelivery.FragmentStopsLoop | src/websocket.c:405-409 | whatever the callback, an undisturbed turn ends for want of a message if and only if the frame was not final |
| LoopDelivery.EveryStream | src/websocket.c:393-438 | every byte stream is some decodable frames and then bytes that do not decode, so the next rows cover every input |
| LoopDelivery.UndisturbedRun | src/websocket.c:393-438 | for every byte stream, every callback and whatever is pending, with full counts and no foreign shutdown, the loop pulls exactly the messages up to the first that stops it (fragment, CLOSE, PING of 65536 bytes, refusing or shutting callback), and ends for that reason or where decoding ends |
| LoopDelivery.FreshCourse | src/websocket.c:393-438 | with nothing pending, the course of a stream is told frame by frame: each frame before the first that stops the loop is a message of its own, and that one too unless it is a fragment |
| LoopDelivery.UndisturbedDelivery | src/websocket.c:423-430 | for every callback, every TEXT and BIN message before the first CLOSE is delivered if and only if a CLOSE stopped the loop or no such message is in the frames it left; otherwise a first part of them is |
| LoopDelivery.FreshDelivery | src/websocket.c:423-430 | with nothing pending, the loop delivers exactly the TEXT and BIN frames up to the first frame that stops it, that one included if it is not a fragment |
| LoopDelivery.FragmentedTextIsLost | src/websocket.c:405-409 | a TEXT in two fragments is one message of which no callback hears |
| Client.Connection.Write | src/websocket.c:445-481 | one final masked frame of the body is written, or the call fails as specified |
| Client.Connection.NextMsg | src/websocket.c:360-371 | one pull as specified, keeping lockstep |
| Client.Connection.Dispatch | src/websocket.c:410-433 | the switch on the message type does what the specification says |
| Client.Connection.Turn | src/websocket.c:393-438 | one turn of the loop does what the specification says, keeping lockstep |
| Client.WsClient.OnMsg | src/websocket.c:385-443 | refused when not connected; otherwise ends as the specified loop, with its callbacks, and freed exactly on CLOSE |
| Client.WsClient.NextMsg | src/websocket.c:360-371 | refused when not connected; otherwise one pull as specified, keeping lockstep |
| Client.WsClient.Free | src/websocket.c:512-534 | drops host, path and connection and closes the socket |
| Client.WsClient.ShutdownLoop | src/websocket.c:495-505 | clears the loop flag and closes the stream of a connected client |
| Client.WsClient.FromStr | src/websocket.c:178-240 | the offset parser fills the client exactly as the URL grammar says, and never leaves the string |
| Client.WsClient.InitialHandshake | src/websocket.c:127-156 | nothing without a host or a nonce; otherwise the print of the specified handshake request in some header order |
| Url.UrlRoundTrip | src/websocket.c:178-240 | what becomes of every printable URL: refused if six characters or shorter or the scheme is not built in, buffer overrun if the port is longer than five, else host, port (80 if none) and path restored |
| Url.EveryUrl | src/websocket.c:178-240 | every text that starts with a scheme is a printable URL |
| Url.PortOverrunIff | src/websocket.c:223-234 | the port buffer is left on exactly the URLs of a known scheme whose port is longer than five characters |
| Url.SixDigitPort | src/websocket.c:223-234 | a URL on which the port buffer is left |
| Url.ShortUrls | src/websocket.c:193-198 | the printable URLs refused for length are exactly ws:// with a one-character host alone |
| Url.NumericPort | src/websocket.c:223-234 | every decimal port below 100000 comes back as that number, in either scheme, and no larger one does |
| Url.DefaultPortUrls | src/websocket.c:178-240 | literal ws:// and wss:// URLs without a port parse to port 80; wss:// is refused in a build without TLS |
| Url.LiteralPortUrls | src/websocket.c:223-234 | literal ports: a number, nothing, a number with a letter after it, and -1, which becomes 2^32 - 1 |
| Text.AtoiReads | src/websocket.c:232 | atoi on white space, sign, digits and anything else gives the digits' value with the sign |
| Text.StrcspnIsFirst | src/websocket.c:216-225 | strcspn stops at the first delimiter or terminator and not before |
| Http.MethodRoundTrip | src/http.c:13-47 | every valid method is read back from its own name |
| Http.MethodEnumIff | src/http.c:13-47 | a text is read as a method if and only if it starts with that method's name |
| Text.LowerLetters | src/http.c:49-63 | each of A to Z becomes the letter in the same place of a to z, and nothing else changes |
| Http.LastSetWins | src/http.c:97-128 | a get returns the value of the last set whose key agrees up to case |
| Http.OtherSetsKeep | src/http.c:97-128 | sets of other keys leave a get as it was |
| Http.MessageRoundTrip | src/http.c:133-202 | for every enumeration order the printed headers and body parse back to the map and the body |
| Http.StartRoundTrip | src/http.c:311-336 | the printed start line parses back to its three parts |
| Http.StartIff | src/http.c:311-336 | the start-line parser succeeds with given parts if and only if the line is made of them, within its length |
| Http.RequestRoundTrip | src/http.c:342-398 | for every order the printed request parses back to its parts, Host included, without leaving the text |
| Http.RequestAsCString | src/http.c:359-398 | read as a C string, without its length, the printed request parses back to its parts, its body whole if and only if it holds no NUL |
| Http.RequestText | src/http.c:359-398 | the printed request as text: method name, path and protocol, one line per header, Host with its port, the empty line, and the body with a line end or nothing |
| Text.DecimalDigits | src/http.c:377 | the last printed digit is the number modulo ten in ASCII and the others print the number divided by ten |
| Http.CleanSetsMakeCleanHeaders | src/http.c:97-114 | any sequence of clean sets makes headers that can be printed and parsed |
| Http.SetsSurviveTheWire | src/http.c:97-398 | after any clean sets, printing in any order and parsing the C string, a get returns the last agreeing set's value, nothing when none agrees, and the host for Host |
| Http.LineOverrunIff | src/http.c:139-160 | a line cannot be read in bounds if and only if it is not the empty line and has no colon before its last character |
| Http.BlankLineStops | src/http.c:139-147 | the empty line ends the headers and what follows its two characters is the body |
| Http.FieldsOverrunIff | src/http.c:133-173 | the header parser leaves its text if and only if such a line is what is left after some whole fields |
| Http.NoColonOverruns | src/http.c:133-173 | a text on which the header parser leaves its text |
| Http.StartOverrunIff | src/http.c:311-336 | the start-line parser leaves its text if and only if there is no line end and fewer than two spaces |
| Http.BareMethodOverruns | src/http.c:342-357 | a text on which the request parser leaves its text |
| Http.HttpRequest.Set | src/http.c:97-114 | the value is stored under the lower-cased key and the set joins the history |
| Http.HttpRequest.Lookup | src/http.c:116-128 | the value of the last set, ever made on the request, whose key agrees up to case, or nothing when none does |
| Http.HttpRequest.MessageFromStr | src/http.c:133-173 | the parse loop computes the header grammar and reports the first step past the text |
| Http.HttpRequest.FromStr | src/http.c:342-357 | the request parser computes the request grammar |
| Http.HttpRequest.MessageToStr | src/http.c:178-202 | the printer walks the map in some order, each header once |
| Http.HttpRequest.ToStr | src/http.c:359-398 | prints exactly when nothing required is missing, after setting Host in the request |
| Handshake.HandshakeReparses | src/websocket.c:93-156 | the printed opening handshake parses back to GET, path, protocol and exactly the five header fields |
| Handshake.HandshakeText | src/websocket.c:93-156 | the opening handshake as text in full: GET line with HTTP/1.1, the five header lines in any order, port modulo 65536, empty line |
| Handshake.UrlToHandshake | src/websocket.c:127-240 | for every printable URL, port and TLS or not, that is neither refused nor overruns: the printed handshake asks for its path and names its host and port |
| Handshake.HostNamesPortIff | src/websocket.c:140-143 | the Host header names the client's port if and only if it fits in 16 bits |

## Left out

- Protocol.WsFrame.Write: payloads of 2^63 bytes and more are outside its precondition; section 5.2 of RFC 6455 forbids them and no buffer holds them.
- Reader.FrameReader.Handle: the sum of header, key and payload length is unbounded here, so a length field near 2^64, which section 5.2 of RFC 6455 forbids, is a short read instead of a wrapped sum.
- Client.WsClient.OnMsg: the pending and unread bytes together stay below 2^63, as any stream that fits in memory does.
- LoopAnswers.RunWrites: does not model writes that another thread makes while the loop runs, as `main.c` does; the loop and its callback are the only senders.
- Client.Connection.Interleave: another thread's shutdown takes effect at the head of a turn or just before the flag test, not in the middle of a read or a write.
- Allocation failure, freeing of buffers and leaks: allocation succeeds with the requested capacity.
- Callbacks that free the client while the loop runs, or that call `ws_client_next_msg` or `ws_client_on_msg` themselves: a callback answers and writes, it does not read.
- `src/net.c` and `src/encode.c`: sockets are the environment, nonces and masking keys are arbitrary.
- The NEON, SSE2 and fallback variants in `src/simd.c`, which clang and gcc do not select.
- `ws_frame_read`: it decodes the body at offset 2 whatever the length form; the reader does not use it.
- HTTP responses, and the connection sequence of `ws_client_connect`: a single read and a truncated status code leave no round trip.
- Unicode lower-casing: header names are lower-cased in ASCII. The cstd string, queue and map library is not part of this model; it appears as text, sequences and finite maps.
- `ws_client_set_net_info` and the debug printers: plain assignment and output.
