# Protocol and codec cores of the Rokid voice stack

A Dafny model of the parts of the voice stack whose correctness rests on long-lived state: how bytes become
WebSocket messages and messages become bytes, how CELT decides and codes its time-frequency resolution and stereo
angles, how nanopb writes and reads messages, how a voice session is opened, fed and closed, how a key is wrapped,
and how a socket and a group of sockets survive partial sends and removals. `dafny verify dfyconfig.toml` checks
everything.

Each part has the same build. A specification says what should happen as a function of values (the whole byte stream,
all paths, all records, the whole run); classes and methods in the form of the C and C++ code, with their arrays,
loops, linked lists and in-place updates, are proved to compute it; and the lemmas prove what the specification is
for. So that the specification itself can be trusted, its elementary functions are tied to something that does not
mention them: bits, digits and literal numbers, the tables and examples of the standards, a second automaton.

| files | part | main results |
|---|---|---|
| `WebSocketStream`, `WebSocketFrames`, `WebSocketExamples`, `WebSocketInterleaving`, `WebSocketInvariants`, `WebSocketMasking`, `WebSocketParser`, `WebSocketSender`, `Utf8` | the streaming WebSocket parser, for both roles, without compression (sections 5.2 to 5.5 of RFC 6455, section 4 of RFC 3629) | `ChunkInvariance`, `ClosingRoundTrip`, `ExactlyByTheBook`, `DeliveredFromOwnFragments`, `ReachableBounds`, `EveryEventIsProper`, `ReadAll`, `IsValidUtf8` |
| `CeltMath`, `TfTables`, `TfSearch`, `TfCoding`, `SplitAngle` | CELT: the search for time-frequency resolutions, their coding, and the coding of the split angle (RFC 6716) | `TfAnalysis`, `CodersAgree`, `CutOff`, `NeverOverrun`, `ThetaRoundTrip`, `ComputeQn`, `Isqrt32` |
| `PbWire`, `PbTable`, `PbEncode`, `PbPasses`, `PbEncodable`, `PbOutput`, `PbDecode`, `PbBounds`, `PbSeen`, `PbInput`, `PbDecoder`, `PbRoundTrip`, `PbArrival`, `PbRecords`, `PbVersions`, `PbExamples`, `PbTransfer` | nanopb: table-driven encoder and decoder with nested messages and callback fields, and the speech client on top of it | `RoundTrip`, `WhatArrives`, `OtherVersion`, `EncodesExactly`, `DecodeStaysInBounds`, `PassesAgree`, `Transfer`, `InterleavingIsIrrelevant`, `RequiredFields` |
| `AudioBuffer`, `VoiceSession`, `VoicePhases`, `VoiceActivation` | the voice session machine and its audio buffer | `EveryRun`, `EveryRunFollows`, `ResumedExactly`, `DeliveredSamples`, `EndIsComplete`, `FrameKeepsSamples`, `CancelOnlyWhenOpen`, `EncodedIsNormal` |
| `KeyWrap` | AES key wrap (RFC 3394) over an abstract block cipher | `UnwrapOfWrap`, `WrapOfUnwrap`, `WrapIsShiftRegister` |
| `SendProtocol`, `SendQueue`, `GroupList` | the send queue of a socket, and the intrusive list of a group | `SendProtocol.EveryRun`, `DrainsCompletely`, `Group.ForEach` |

Inputs from outside are parameters: the bytes of a read, the masking key, how much the kernel takes of a send, what the
wake-word and voice detectors answer, the block cipher and its inverse, what a nanopb callback writes in each of its
calls, the range coder's position as a function of the symbols coded so far. C integers are written out where their
width matters.

Where the code does something its documentation or a reader would not expect, the model follows the code:

- Section 5.4 of RFC 6455 forbids another message inside an unfinished one. The acceptance rule lets a binary frame in,
  and even a text frame once a ping has come in between; the bytes of the unfinished message are then delivered inside
  the intruder (`BinaryIntruder`, `TextIntruderAfterPing`). These two are the only cases (`AcceptAgrees`), and the source
  is the receiver of section 5.4 if and only if none of them is let in (`ExactlyByTheBook`). The two-entry opcode stack
  stays within its bounds in any case (`ReachableBounds`).
- `reset_asr` clears the cancelled flag before it tests it, so a wake word that finds a suspended session sends CANCEL
  although no session is open. `CancelOnlyWhenOpen` shows that this is the only way, `CancelWithoutStart` gives a run.
- The encoder of the voice buffer stops short of the last sample, so at END between 1 and 320 samples of any utterance,
  and a whole frame of one whose length is a multiple of 320, are not delivered (`EndIsComplete`, `WholeFrameLost`).
- The audio gain is fixed with the samples that are there when encoding begins, often a few hundred, and what comes
  later is turned down by it however loud it is (`EncodedIsNormal`, `QuietThenLoud`). Of those samples the loudest window
  is only looked for behind the first one (`FirstWindowDecides`, `LoudFirstWindow`).
- A nanopb submessage whose callbacks write more or less in the second pass than in the first does not encode
  (`OStream.EncodeSubmessage`, `GrowingFails`); with callbacks of stable size that never happens (`PassesAgree`).
- A required callback field without a function is silently left out: the message encodes and the receiver refuses it
  (`PbRoundTrip.RoundTrip`, `AuthRequestNeedsEveryString`).
- The client's `decode_string` does nothing for an empty string, so an empty string cannot be told from an absent one
  (`StringsArrive`).
- A static nanopb string that fills its buffer without a terminator encodes but does not decode; `PbRoundTrip.RoundTrip`
  holds if and only if there is none, `UnterminatedString` gives one.
- In an empty field table the iterator "finds" tag 0 at the terminator, and a record with tag 0 and a non-zero wire type
  is then an error, while other tables skip it (`FieldIter.Find`, `OneRecord`).
- `AES_unwrap_key` subtracts 8 from an unsigned length, so the length 0, and no other, is taken for 4 GB
  (`OnlyZeroWraps`); the `int` it and `AES_wrap_key` return is negative for lengths from 2 GB on (`WrapResult`,
  `UnwrapResult`). `AES_wrap_key` accepts a single block although RFC 3394 starts at two.

## Model

| member | source | states |
|---|---|---|
| Utf8.IsValidUtf8 | rokid-openvoice-process-android-ndk/jni/uWS/src/WebSocketProtocol.h:213-248 | for every byte string the validator, fast path for four ASCII bytes included, answers true exactly when the bytes are the concatenated encodings of some sequence of Unicode scalar values (section 4 of RFC 3629) |
| Utf8.MultibyteLength | rokid-openvoice-process-android-ndk/jni/uWS/src/WebSocketProtocol.h:225-244 | the three tests for multi-byte sequences accept one exactly when a scalar value is encoded there, and tell its length |
| Utf8.LeadLengthOfEncoding | rokid-openvoice-process-android-ndk/jni/uWS/src/WebSocketProtocol.h:225-244 | every encoded scalar, whatever follows it, is recognised with exactly its own length: no valid sequence is refused |
| Utf8.LeadDecodes | rokid-openvoice-process-android-ndk/jni/uWS/src/WebSocketProtocol.h:225-244 | whatever is recognised is the encoding of a scalar: no overlong form, surrogate or value above U+10FFFF is accepted |
| Utf8.Unfold | rokid-openvoice-process-android-ndk/jni/uWS/src/WebSocketProtocol.h:215-246 | cutting the first recognised sequence off is the only way to read a string as text, so checking from left to right is complete |
| Utf8.SkipFourAscii | rokid-openvoice-process-android-ndk/jni/uWS/src/WebSocketProtocol.h:216-217 | skipping four ASCII bytes at once never changes whether the whole is text |
| Utf8.EncodingIsStandard | rokid-openvoice-process-android-ndk/jni/uWS/src/WebSocketProtocol.h:213-248 | the encoding that counts as text is that of section 3 of RFC 3629: length by range, leading bits, and the bits of the number in their places |
| Utf8.Illegal | rokid-openvoice-process-android-ndk/jni/uWS/src/WebSocketProtocol.h:225-244 | overlong forms, surrogates, numbers above U+10FFFF and stray bytes are refused, whatever follows them |
| WebSocketStream.ChunkInvariance | rokid-openvoice-process-android-ndk/jni/uWS/src/WebSocketProtocol.h:329-369 | any two ways of cutting one byte stream into reads yield the same deliveries, pongs and close, and the same residual state (spill, opcode stack, bytes still due, rotated mask, reassembly buffer) |
| WebSocketStream.FeedPieces | rokid-openvoice-process-android-ndk/jni/uWS/src/WebSocketProtocol.h:329-369 | feeding two pieces one after the other does what feeding their concatenation does, from every resting state, in a header or in a payload |
| WebSocketStream.ParseHeadsPieces | rokid-openvoice-process-android-ndk/jni/uWS/src/WebSocketProtocol.h:337-365 | a read that ends inside a header: the spilled bytes followed by the next read parse as if they had come together |
| WebSocketStream.FeedBodyPieces | rokid-openvoice-process-android-ndk/jni/uWS/src/WebSocketProtocol.h:165-202 | a read that ends inside a payload: continuing it with the next read is the same as having had both |
| WebSocketStream.FragmentPieces | rokid-openvoice-process-android-ndk/jni/uWS/src/WebSocket.cpp:295-399 | handing over a payload in two parts leaves the same reassembly buffer, control tail and deliveries as handing it over whole |
| WebSocketStream.UnmaskPieces | rokid-openvoice-process-android-ndk/jni/uWS/src/WebSocketProtocol.h:86-101 | unmasking a payload in two reads, the second with the mask rotated by the length of the first, equals unmasking it at once |
| WebSocketStream.RotateTwice | rokid-openvoice-process-android-ndk/jni/uWS/src/WebSocketProtocol.h:86-92 | rotations of the mask add up, so the phase survives any number of reads |
| WebSocketStream.UnmaskAt | rokid-openvoice-process-android-ndk/jni/uWS/src/WebSocketProtocol.h:74-77 | each byte of an unmasked payload is, bit by bit, the exclusive or of the byte and the mask byte for its position modulo four |
| WebSocketStream.HeaderIsPrefixStable | rokid-openvoice-process-android-ndk/jni/uWS/src/WebSocketProtocol.h:337-361 | a header once recognised, as well formed or as an error, is not reinterpreted when more bytes arrive |
| WebSocketStream.FeedRestsStable | rokid-openvoice-process-android-ndk/jni/uWS/src/WebSocketProtocol.h:362-365 | between two reads a connection is always in a resting state: never a complete header in the spill, never a payload with nothing due |
| WebSocketFrames.RoundTrip | rokid-openvoice-process-android-ndk/jni/uWS/src/WebSocketProtocol.h:279-327 | messages sent by the opposite role, with any keys, arrive once each, in order and unchanged, however the bytes are cut, and the receiver ends idle |
| WebSocketFrames.ParseFrames | rokid-openvoice-process-android-ndk/jni/uWS/src/WebSocketProtocol.h:109-163 | on the bytes of any sequence of legal frames the byte parser does exactly what a receiver that is handed whole frames does |
| WebSocketFrames.ParseOneFrame | rokid-openvoice-process-android-ndk/jni/uWS/src/WebSocketProtocol.h:128-147 | one legal frame is consumed to its last byte, whatever follows it |
| WebSocketFrames.ParseFrameStart | rokid-openvoice-process-android-ndk/jni/uWS/src/WebSocketProtocol.h:279-308 | the header that is written is the header that is read: opcode, FIN, 7, 16 or 64-bit length and key |
| WebSocketFrames.UnmaskTwice | rokid-openvoice-process-android-ndk/jni/uWS/src/WebSocketProtocol.h:318-324 | unmasking with the sender's key restores what masking hid |
| WebSocketFrames.Reassembly | rokid-openvoice-process-android-ndk/jni/uWS/src/WebSocket.cpp:319-345 | a message in any number of fragments, with pings and pongs between them, is delivered once, whole, with the control frames in their places, and whatever frames follow find the connection idle |
| WebSocketFrames.ReceiveContinuations | rokid-openvoice-process-android-ndk/jni/uWS/src/WebSocket.cpp:319-345 | from the middle of a fragmented message, the rest of it completes the message whatever control frames interleave, and the connection is idle for what follows |
| WebSocketFrames.ReceiveControls | rokid-openvoice-process-android-ndk/jni/uWS/src/WebSocket.cpp:347-395 | control frames inside a message are delivered and leave the part received so far untouched |
| WebSocketFrames.FragmentedRoundTrip | rokid-openvoice-process-android-ndk/jni/uWS/src/WebSocket.cpp:295-399 | any traffic, messages whole or in any number of fragments, pings and pongs between messages and between fragments, arrives once each, in order and unchanged, however its bytes are cut into reads |
| WebSocketFrames.ClosingRoundTrip | rokid-openvoice-process-android-ndk/jni/uWS/src/WebSocketProtocol.h:329-369 | any traffic followed by a close frame and any bytes, cut in any way: everything arrives, the close is reported with its code and reason, and what follows is ignored |
| WebSocketFrames.CloseRoundTrip | rokid-openvoice-process-android-ndk/jni/uWS/src/WebSocketProtocol.h:256-277 | a close frame with an acceptable code and a textual reason is reported with exactly that code and reason |
| WebSocketExamples.RefusedExactly | rokid-openvoice-process-android-ndk/jni/uWS/src/WebSocketProtocol.h:340-347 | as soon as a short header is there, the connection is dropped if and only if a reserved bit is set, the opcode is unknown, or a control frame is fragmented or longer than 125 bytes |
| WebSocketExamples.ShortestLength | rokid-openvoice-process-android-ndk/jni/uWS/src/WebSocketProtocol.h:289-308 | a frame starts with FIN and opcode and with the shortest form of its length, the mask bit set by the client and by nobody else |
| WebSocketExamples.MaskedMessages | rokid-openvoice-process-android-ndk/jni/uWS/src/WebSocketProtocol.h:279-327 | the masked text and pong "Hello" of section 5.7 of RFC 6455, byte by byte |
| WebSocketExamples.UnmaskedMessages | rokid-openvoice-process-android-ndk/jni/uWS/src/WebSocketProtocol.h:279-327 | the unmasked, fragmented and long messages of section 5.7 of RFC 6455, byte by byte |
| WebSocketExamples.PingIsAnswered | rokid-openvoice-process-android-ndk/jni/uWS/src/WebSocket.cpp:347-395 | a ping is answered with its own payload and then reported, a pong only reported, and neither touches the message being received |
| WebSocketExamples.CloseCodes | rokid-openvoice-process-android-ndk/jni/uWS/src/WebSocketProtocol.h:256-265 | the acceptable close codes are 1000 to 1003, 1007 to 1011 and 4000 to 4999, and no others |
| WebSocketExamples.CloseOctets | rokid-openvoice-process-android-ndk/jni/uWS/src/WebSocketProtocol.h:256-265 | a close payload is a code, most significant byte first, and a reason, reported if the code is acceptable and the reason text |
| WebSocketInterleaving.AcceptAgrees | rokid-openvoice-process-android-ndk/jni/uWS/src/WebSocketProtocol.h:111-121 | between frames, the acceptance rule agrees with section 5.4 if and only if the frame is not a binary inside an unfinished message, nor a text there after a frame with FIN |
| WebSocketInterleaving.BinaryIntruder | rokid-openvoice-process-android-ndk/jni/uWS/src/WebSocketProtocol.h:111-121 | a frame list on which the source is wrong: a binary frame inside an unfinished text is let in and is delivered with the bytes of the text in front |
| WebSocketInterleaving.TextIntruderAfterPing | rokid-openvoice-process-android-ndk/jni/uWS/src/WebSocketProtocol.h:111-121 | a frame list on which the source is wrong: after a ping inside an unfinished text a second text is let in and is delivered with the bytes of the first in front |
| WebSocketInterleaving.StepByTheBook | rokid-openvoice-process-android-ndk/jni/uWS/src/WebSocketProtocol.h:111-121 | one frame that does not intrude is accepted, refused and handled as section 5.4 says |
| WebSocketInterleaving.DeviatesExactly | rokid-openvoice-process-android-ndk/jni/uWS/src/WebSocketProtocol.h:111-126 | a frame is handled as section 5.4 says if and only if it is not an intruder that is let in; an intruder that is too long, or a text that turns out to be none, drops the connection as it should |
| WebSocketInterleaving.ByTheBook | rokid-openvoice-process-android-ndk/jni/uWS/src/WebSocket.cpp:295-399 | on any frames without an intruder the source is the receiver of section 5.4 of RFC 6455, event by event, refusals and drops included |
| WebSocketInterleaving.ExactlyByTheBook | rokid-openvoice-process-android-ndk/jni/uWS/src/WebSocketProtocol.h:111-126 | the source does what section 5.4 says at every point of a run if and only if no intruder that fits the maximal payload is let in: the first that is makes the two part at once |
| WebSocketInterleaving.StrictOrigins | rokid-openvoice-process-android-ndk/jni/uWS/src/WebSocket.cpp:295-399 | every message a receiver of section 5.4 delivers is made of its own fragments, wherever it starts listening |
| WebSocketInterleaving.DeliveredFromOwnFragments | rokid-openvoice-process-android-ndk/jni/uWS/src/WebSocket.cpp:295-399 | as long as no data frame intrudes, every message that is delivered is the concatenation of the payloads of its own fragments: the frame that opens it, the continuations after it and nothing else |
| WebSocketInvariants.FeedKeepsWellFormed | rokid-openvoice-process-android-ndk/jni/uWS/src/WebSocketProtocol.h:329-369 | every step keeps the parser invariant: opcode stack within its two entries, spill shorter than a long header, a payload due only with an opcode on the stack, control frames short and unfragmented |
| WebSocketInvariants.ReachableBounds | rokid-openvoice-process-android-ndk/jni/uWS/src/WebSocketProtocol.h:329-369 | in every reachable state the packed fields of the source hold their values: stack index -1..1, spill below the long header, control tail at most 125 bytes |
| WebSocketInvariants.FeedAllKeepsWellFormed | rokid-openvoice-process-android-ndk/jni/uWS/src/WebSocketProtocol.h:329-369 | the invariant holds after any number of reads of any content |
| WebSocketInvariants.EveryEventIsProper | rokid-openvoice-process-android-ndk/jni/uWS/src/WebSocket.cpp:295-399 | whatever bytes come, cut in any way: delivered texts are UTF-8, control payloads have at most 125 bytes, and a reported close has an acceptable code and a textual reason or neither |
| WebSocketInvariants.AcceptedIsInBody | rokid-openvoice-process-android-ndk/jni/uWS/src/WebSocketProtocol.h:111-121 | the acceptance rule of the source never overflows the opcode stack and never leaves a payload without an opcode |
| WebSocketInvariants.ParseHeadsOnFrame | rokid-openvoice-process-android-ndk/jni/uWS/src/WebSocketProtocol.h:109-163 | the branches of `consumeMessage` (refuse, whole frame, partial frame) compute one step of the whole-stream parser |
| WebSocketMasking.UnmaskImprecise | rokid-openvoice-process-android-ndk/jni/uWS/src/WebSocketProtocol.h:72-79 | moving a payload down over its header in groups of four unmasks exactly the payload; what it writes in excess lies below the next frame, every byte of which is kept |
| WebSocketMasking.UnmaskInplace | rokid-openvoice-process-android-ndk/jni/uWS/src/WebSocketProtocol.h:94-101 | whole groups are unmasked in place and nothing outside them is written |
| WebSocketMasking.UnmaskTail | rokid-openvoice-process-android-ndk/jni/uWS/src/WebSocketProtocol.h:170-172 | the last one to three bytes are unmasked with the mask in the right phase |
| WebSocketMasking.UnmaskExactly | rokid-openvoice-process-android-ndk/jni/uWS/src/WebSocketProtocol.h:165-173 | the end of a payload is unmasked to the last byte and not beyond |
| WebSocketMasking.RotateMask | rokid-openvoice-process-android-ndk/jni/uWS/src/WebSocketProtocol.h:86-92 | shifting the mask up by `4 - n % 4` leaves it as the byte after `n` more bytes sees it |
| WebSocketMasking.UnmaskPrefix | rokid-openvoice-process-android-ndk/jni/uWS/src/WebSocketProtocol.h:72-101 | unmasking more bytes than are needed does not disturb the needed ones |
| WebSocketMasking.RotatePhase | rokid-openvoice-process-android-ndk/jni/uWS/src/WebSocketProtocol.h:86-92 | only the offset modulo four matters |
| WebSocketParser.ReadAll | rokid-openvoice-process-android-ndk/jni/uWS/src/WebSocketProtocol.h:329-369 | a connection fed any reads through one padded buffer has the events and the state of the reference parser on the concatenated stream |
| WebSocketParser.Connection.OnData | rokid-openvoice-process-android-ndk/jni/uWS/src/WebSocket.cpp:173-186 | one read: nothing more is looked at once the connection is closed, otherwise it is consumed |
| WebSocketParser.Connection.Consume | rokid-openvoice-process-android-ndk/jni/uWS/src/WebSocketProtocol.h:329-369 | `consume`, spill and padding included, refines one step of the reference parser and touches no byte outside the padded buffer |
| WebSocketParser.Connection.ParseNext | rokid-openvoice-process-android-ndk/jni/uWS/src/WebSocketProtocol.h:336-365 | the header loop: as many frames as are there, then the rest spilled, equals the reference parser on those bytes |
| WebSocketParser.Connection.ConsumeMessage | rokid-openvoice-process-android-ndk/jni/uWS/src/WebSocketProtocol.h:109-163 | one frame, whole or partial, in place: the remaining bytes are those of the next frame, unharmed |
| WebSocketParser.Connection.ConsumeContinuation | rokid-openvoice-process-android-ndk/jni/uWS/src/WebSocketProtocol.h:165-202 | a payload continued or finished, with the mask rotated for the next read |
| WebSocketParser.Connection.AcceptOpcode | rokid-openvoice-process-android-ndk/jni/uWS/src/WebSocketProtocol.h:111-121 | accepts an opcode exactly when the acceptance rule does, with the stack as the rule says |
| WebSocketParser.Connection.OpenFrame | rokid-openvoice-process-android-ndk/jni/uWS/src/WebSocketProtocol.h:111-126 | refuses exactly the frames that break the acceptance rule or exceed the maximal payload, and drops the connection then |
| WebSocketParser.Connection.HandleFragment | rokid-openvoice-process-android-ndk/jni/uWS/src/WebSocket.cpp:295-399 | a piece of payload changes the reassembly buffer, the control tail and the events as the reference says, in every combination of whole, partial, data and control |
| WebSocketParser.Connection.HandleData | rokid-openvoice-process-android-ndk/jni/uWS/src/WebSocket.cpp:299-346 | data frames: text is checked when complete, the buffer is emptied when delivered |
| WebSocketParser.Connection.HandleControl | rokid-openvoice-process-android-ndk/jni/uWS/src/WebSocket.cpp:347-395 | control frames share the tail of the reassembly buffer and give it back unchanged |
| WebSocketParser.Connection.Spill | rokid-openvoice-process-android-ndk/jni/uWS/src/WebSocketProtocol.h:362-365 | what is kept for the next read is exactly what was not parsed, and it fits |
| WebSocketParser.ParseClosePayload | rokid-openvoice-process-android-ndk/jni/uWS/src/WebSocketProtocol.h:256-267 | code and reason are reported exactly for the acceptable codes with a textual reason, otherwise neither |
| WebSocketSender.FormatMessage | rokid-openvoice-process-android-ndk/jni/uWS/src/WebSocketProtocol.h:279-327 | writes exactly one unfragmented frame, masked for a client, and changes nothing behind it |
| WebSocketSender.MaskPayload | rokid-openvoice-process-android-ndk/jni/uWS/src/WebSocketProtocol.h:313-325 | the client's masking loop leaves in every payload byte the bitwise exclusive or of the byte and the mask byte for its position, and touches not one byte outside the payload |
| WebSocketSender.FormatClosePayload | rokid-openvoice-process-android-ndk/jni/uWS/src/WebSocketProtocol.h:269-277 | the close payload is the code in network order and the reason, or nothing without a code |
| TfSearch.TfAnalysis | rokid-openvoice-process-android-pro/external/libopus/celt/celt_encoder.c:640-710 | the path left in `tf_res` costs what the selection pass computed for the chosen table, and no path is cheaper; on transients no path of either table is cheaper |
| TfSearch.NoPathIsCheaper | rokid-openvoice-process-android-pro/external/libopus/celt/celt_encoder.c:663-692 | the value of the two-state recurrence is a lower bound for the cost of every one of the 2^len paths, and is attained |
| TfSearch.CostIsSum | rokid-openvoice-process-android-pro/external/libopus/celt/celt_encoder.c:642-701 | what the search minimises is lambda for every change of choice, and the distance of each metric but the first from twice the resolution chosen |
| TfSearch.ForwardPass | rokid-openvoice-process-android-pro/external/libopus/celt/celt_encoder.c:661-692 | the forward pass leaves the best cost for either last choice, and predecessors that attain the best costs of every band |
| TfSearch.BackwardPass | rokid-openvoice-process-android-pro/external/libopus/celt/celt_encoder.c:693-701 | following the predecessors back yields a path whose own cost is the best cost |
| TfSearch.SelectCost | rokid-openvoice-process-android-pro/external/libopus/celt/celt_encoder.c:642-656 | the cost-only pass finds the same minimum without remembering a path |
| TfCoding.CodersAgree | rokid-openvoice-process-android-pro/external/libopus/celt/celt_encoder.c:713-751 | for any bands, budget and `tell`, the decoder ends with the encoder's final resolutions, choice of table and symbol history, bands cut off by the budget included |
| TfCoding.BandsAgree | rokid-openvoice-process-android-pro/external/libopus/celt/celt_encoder.c:728-740 | reading back the loop's symbols restores the bits it kept, the change flag and the coder position |
| TfCoding.SelectIsNeverLost | rokid-openvoice-process-android-pro/external/libopus/celt/celt_encoder.c:741-749 | with the bit reserved, the resolutions are those of the caller's choice of table, even when the choice is not coded |
| TfCoding.ChangesMatter | rokid-openvoice-process-android-pro/external/libopus/celt/celt.c:174-179 | where a choice of table exists, a changed band makes the two tables differ |
| TfTables.ResolutionsInClosedForm | rokid-openvoice-process-android-pro/external/libopus/celt/celt.c:174-179 | the table in closed form: -1 or -2 and one more for the other table, and on transients LM or 0, 1 or -1 |
| TfCoding.CodedInFull | rokid-openvoice-process-android-pro/external/libopus/celt/celt_encoder.c:713-751 | with room for everything: one flag a band saying whether its choice differs from the one before, 2 or 4 bits for the first and 4 or 5 for the others, then tf_select if a band changed or a transient has four or more blocks; the resolutions are the caller's |
| TfCoding.CutOff | rokid-openvoice-process-android-pro/external/libopus/celt/celt_encoder.c:728-740 | with less room: exactly as many flags as fit, and every band from there on keeps the last choice that was coded |
| TfCoding.SentAsFarAsItFits | rokid-openvoice-process-android-pro/external/libopus/celt/celt_encoder.c:713-740 | that, in a frame of so many bytes, one bit of which is kept for tf_select when there is a choice and it fits |
| TfCoding.SelectMattersExactly | rokid-openvoice-process-android-pro/external/libopus/celt/celt_encoder.c:741-747 | tf_select is coded exactly for frames with more than one block in which a band changed, or transients of four blocks or more |
| TfCoding.NeverOverrun | rokid-openvoice-process-android-pro/external/libopus/celt/celt_encoder.c:713-751 | with a range coder that spends at most what a symbol is given, the flags and tf_select never run past the end of the frame |
| TfCoding.TfEncode | rokid-openvoice-process-android-pro/external/libopus/celt/celt_encoder.c:713-751 | the in-place encoder leaves the resolutions and symbols that the specification computes, and touches only its bands |
| TfCoding.TfDecode | rokid-openvoice-process-android-pro/external/libopus/celt/celt_decoder.c:286-323 | the in-place decoder leaves the resolutions the specification computes and reads exactly its symbols |
| TfCoding.SendAndReceive | rokid-openvoice-process-android-pro/external/libopus/celt/celt_decoder.c:286-323 | encoder and decoder run one after the other: the two arrays end up equal |
| SplitAngle.ThetaRoundTrip | rokid-openvoice-process-android-pro/external/libopus/celt/bands.c:704-771 | for each distribution, the decoder finds the encoded angle from every point of the encoder's interval and reports back the same interval |
| SplitAngle.IntervalsTile | rokid-openvoice-process-android-pro/external/libopus/celt/bands.c:711-746 | the intervals of the values 0..qn start at 0, follow each other without gap or overlap, and end at the total |
| SplitAngle.Disjoint | rokid-openvoice-process-android-pro/external/libopus/celt/bands.c:711-746 | no point of the range lies in the intervals of two different angles |
| SplitAngle.DecodeTriangular | rokid-openvoice-process-android-pro/external/libopus/celt/bands.c:749-770 | the integer square root puts every point of the range into the interval it belongs to |
| SplitAngle.DecodeStep | rokid-openvoice-process-android-pro/external/libopus/celt/bands.c:722-729 | every point of the range is put into the interval it belongs to |
| SplitAngle.EncodeTheta | rokid-openvoice-process-android-pro/external/libopus/celt/bands.c:711-748 | what goes to the range coder is a non-empty interval inside the total |
| SplitAngle.DecodeTheta | rokid-openvoice-process-android-pro/external/libopus/celt/bands.c:721-770 | the decoded angle is in range, its interval contains the point, and is the one reported back |
| SplitAngle.ComputeQn | rokid-openvoice-process-android-pro/external/libopus/celt/bands.c:614-637 | below half a bit the resolution is 1; otherwise it is the even number up to 256 that is nearest to 2^(qb/8), qb being the bits for the angle in eighths |
| SplitAngle.AngleBits | rokid-openvoice-process-android-pro/external/libopus/celt/bands.c:619-627 | the bits for the angle are the least of 64 eighths, an even share, and what is left when 32 eighths and a pulse are kept for the side |
| SplitAngle.RoundedIsNearest | rokid-openvoice-process-android-pro/external/libopus/celt/bands.c:614-635 | the table and its shifts yield the nearest even number: (qn - 1)^8 <= 2^qb < (qn + 1)^8 |
| SplitAngle.NearestIsUnique | rokid-openvoice-process-android-pro/external/libopus/celt/bands.c:629-635 | no other number is the nearest |
| SplitAngle.KeptForTheSide | rokid-openvoice-process-android-pro/external/libopus/celt/bands.c:622-631 | a band whose bits the cap leaves too few of, so that the angle is not coded at all |
| SplitAngle.Weights | rokid-openvoice-process-android-pro/external/libopus/celt/bands.c:711-746 | the distributions of section 4.3.4.3 of RFC 6716: weights 3 and 1, flat, or a triangle, for which frames, and their totals |
| SplitAngle.QuantisedRange | rokid-openvoice-process-android-pro/external/libopus/celt/bands.c:706-707 | a quantised angle is the nearest of 0..qn, and scaled back it is an angle again |
| SplitAngle.Isqrt32 | rokid-openvoice-process-android-pro/external/libopus/celt/mathops.c:42-65 | the bit-by-bit loop yields the integer square root of every positive 32-bit number, and nothing in it wraps around |
| KeyWrap.UnwrapOfWrap | rokid-openvoice-process-android-ndk/jni/boringssl/android_compat_keywrap.c:64-125 | over any cipher with an inverse, any IV and any whole blocks: unwrapping what was wrapped gives it back |
| KeyWrap.WrapOfUnwrap | rokid-openvoice-process-android-ndk/jni/boringssl/android_compat_keywrap.c:94-125 | whatever unwraps successfully is exactly what wrapping the result produces |
| KeyWrap.WrapIsShiftRegister | rokid-openvoice-process-android-ndk/jni/boringssl/android_compat_keywrap.c:76-89 | the indexed in-place loop computes the shift register of section 2.2.1 of RFC 3394 |
| KeyWrap.RegisterIsTurnedIndex | rokid-openvoice-process-android-ndk/jni/boringssl/android_compat_keywrap.c:78-88 | at every single step the shift register is the indexed state turned to the block that comes next |
| KeyWrap.BeforeUndoesAfter | rokid-openvoice-process-android-ndk/jni/boringssl/android_compat_keywrap.c:105-118 | undoing from any step of the six rounds returns to the start |
| KeyWrap.AfterRedoesBefore | rokid-openvoice-process-android-ndk/jni/boringssl/android_compat_keywrap.c:105-118 | redoing from any step of the undoing returns to the end |
| KeyWrap.StepOctets | rokid-openvoice-process-android-ndk/jni/boringssl/android_compat_keywrap.c:79-87 | a step replaces one block by the second half of the enciphered A and block, A by the first half with the counter added, and changes no other byte |
| KeyWrap.ShiftOctets | rokid-openvoice-process-android-ndk/jni/boringssl/android_compat_keywrap.c:79-87 | the same for a step of the shift register of section 2.2.1 of RFC 3394 |
| KeyWrap.CountersOnly | rokid-openvoice-process-android-ndk/jni/boringssl/android_compat_keywrap.c:76-88 | under a cipher that changes nothing A collects the counters, 1 to 6 for one block and 1 to 12 for two |
| KeyWrap.DefaultIvValue | rokid-openvoice-process-android-ndk/jni/boringssl/android_compat_keywrap.c:60-62 | the default IV is 0xA6A6A6A6A6A6A6A6 |
| KeyWrap.CounterIsAdded | rokid-openvoice-process-android-ndk/jni/boringssl/android_compat_keywrap.c:81-86 | each bit of A is changed exactly by the bit of the counter for its position |
| KeyWrap.AddCounter | rokid-openvoice-process-android-ndk/jni/boringssl/android_compat_keywrap.c:81-86 | the conditional byte-wise update combines every byte of A, bit by bit, with the byte of the 64-bit counter for its position by exclusive or, for every 32-bit counter |
| KeyWrap.AesWrapKey | rokid-openvoice-process-android-ndk/jni/boringssl/android_compat_keywrap.c:64-92 | writes the wrapped key for a positive multiple of eight bytes and answers its length as an `int`, otherwise answers -1 and writes nothing; nothing behind the result changes |
| KeyWrap.AesUnwrapKey | rokid-openvoice-process-android-ndk/jni/boringssl/android_compat_keywrap.c:94-125 | for every length: leaves the data when the IV comes back and zeros when it does not, refuses what is not a positive multiple of eight after the unsigned subtraction, and changes nothing behind the data |
| KeyWrap.UnwrapResult | rokid-openvoice-process-android-ndk/jni/boringssl/android_compat_keywrap.c:124-124 | the returned `int` is the length exactly below 2^31 bytes, and never one of the two error codes |
| KeyWrap.WrapResult | rokid-openvoice-process-android-ndk/jni/boringssl/android_compat_keywrap.c:91-91 | the returned `int` is the length exactly below 0x7ffffff8 bytes, and never the error code |
| KeyWrap.OnlyZeroWraps | rokid-openvoice-process-android-ndk/jni/boringssl/android_compat_keywrap.c:98-100 | the subtraction makes a wrong length acceptable for the length 0 and no other, and 0 is then taken for 4 GB |
| KeyWrap.WrapStep | rokid-openvoice-process-android-ndk/jni/boringssl/android_compat_keywrap.c:79-87 | one turn of the inner loop is one indexed step on A and the block at R |
| KeyWrap.UnwrapStep | rokid-openvoice-process-android-ndk/jni/boringssl/android_compat_keywrap.c:108-116 | one turn of the inner loop undoes one indexed step |
| PbWire.VarintRoundTrip | rokid-openvoice-process-android-ndk/jni/speech/nanopb/pb_decode.c:250-271 | every 64-bit number comes back from its varint, and the reader stops right behind it |
| PbWire.Varint32RoundTrip | rokid-openvoice-process-android-ndk/jni/speech/nanopb/pb_decode.c:182-242 | every 32-bit number comes back from its varint through the 32-bit reader with its overflow and sign checks |
| PbWire.ZigZagRoundTrip | rokid-openvoice-process-android-ndk/jni/speech/nanopb/pb_encode.c:560-569 | zigzag maps the signed onto the unsigned 64-bit numbers one to one, small magnitudes to small numbers |
| PbWire.FixedRoundTrip | rokid-openvoice-process-android-ndk/jni/speech/nanopb/pb_encode.c:571-597 | little-endian numbers of any width come back |
| PbWire.StringRoundTrip | rokid-openvoice-process-android-ndk/jni/speech/nanopb/pb_encode.c:638-644 | a length-prefixed string is read back, and nothing of what follows it |
| PbWire.ReadVarintFits | rokid-openvoice-process-android-ndk/jni/speech/nanopb/pb_decode.c:250-271 | ten bytes at most are read, at least one is consumed, and the value fits 64 bits |
| PbWire.SkipIsLocal | rokid-openvoice-process-android-ndk/jni/speech/nanopb/pb_decode.c:316-326 | skipping a value consumes at least one byte and looks at nothing behind it |
| PbWire.RawIsLocal | rokid-openvoice-process-android-ndk/jni/speech/nanopb/pb_decode.c:331-358 | a raw value consumes at least one byte, and nothing behind it is looked at |
| PbWire.ReadVarintExactly | rokid-openvoice-process-android-ndk/jni/speech/nanopb/pb_decode.c:250-271 | a varint is read exactly if it ends within ten bytes, as the number its groups of seven bits spell modulo 2^64 |
| PbWire.Varint32IsLowHalf | rokid-openvoice-process-android-ndk/jni/speech/nanopb/pb_decode.c:182-242 | whatever the 32-bit reader accepts, over-long and negative forms too, it reads the low half of the number the 64-bit reader reads, and stops where that stops |
| PbWire.Varint32AcceptsExactly | rokid-openvoice-process-android-ndk/jni/speech/nanopb/pb_decode.c:182-242 | of the varints of up to five bytes it accepts exactly those below 2^32 |
| PbWire.RawIsWhatIsSkipped | rokid-openvoice-process-android-ndk/jni/speech/nanopb/pb_decode.c:331-358 | a raw value is exactly the bytes that skipping the value would drop, four or eight for a fixed-width one |
| PbWire.VarintAt | rokid-openvoice-process-android-ndk/jni/speech/nanopb/pb_encode.c:538-558 | byte k of a varint holds bits 7k to 7k + 6, and the top bit says whether more follow |
| PbWire.FixedAt | rokid-openvoice-process-android-ndk/jni/speech/nanopb/pb_encode.c:571-597 | byte k of a fixed-width number holds bits 8k to 8k + 7 |
| PbTable.FieldIter.Next | rokid-openvoice-process-android-ndk/jni/speech/nanopb/pb_common.c:20-75 | the iterator walks the table in order and wraps around at its end, and its index is always the number of required fields before it |
| PbTable.FieldIter.Find | rokid-openvoice-process-android-ndk/jni/speech/nanopb/pb_common.c:77-95 | from any position the search ends, finds a tag exactly when the table has it, and otherwise returns to where it started |
| PbTable.FindFrom | rokid-openvoice-process-android-ndk/jni/speech/nanopb/pb_common.c:77-95 | with distinct tags the search ends at the only field with the tag, whatever was searched for before |
| PbTable.LookupIsUnique | rokid-openvoice-process-android-ndk/jni/speech/nanopb/pb_common.c:77-95 | in a well-formed table a tag determines its field |
| PbTable.DefaultsForget | rokid-openvoice-process-android-ndk/jni/speech/nanopb/pb_decode.c:805-890 | after setting the defaults nothing is left of the old struct but its callbacks, at every level of singular submessages |
| PbTable.DefaultsTwice | rokid-openvoice-process-android-ndk/jni/speech/nanopb/pb_decode.c:805-890 | the defaults are a fixed point: setting them again changes nothing, at any level |
| PbEncode.PackedFixedSize | rokid-openvoice-process-android-ndk/jni/speech/nanopb/pb_encode.c:143-151 | a packed array of fixed-width values occupies the size that is computed without a sizing pass |
| PbOutput.OStream.Write | rokid-openvoice-process-android-ndk/jni/speech/nanopb/pb_encode.c:70-114 | all bytes are stored at the end of what was there, or "stream full" is reported when they do not fit; a counting stream counts the same number |
| PbOutput.OStream.EncodeVarint | rokid-openvoice-process-android-ndk/jni/speech/nanopb/pb_encode.c:538-558 | the ten-byte buffer suffices for every 64-bit number, and exactly its varint is written |
| PbOutput.VarintBuffer | rokid-openvoice-process-android-ndk/jni/speech/nanopb/pb_encode.c:549-555 | the loop leaves the varint in the buffer, with the top bit of the last byte cleared again |
| PbOutput.OStream.EncodeScalar | rokid-openvoice-process-android-ndk/jni/speech/nanopb/pb_encode.c:698-828 | each value is written in the form of its type, or refused for its size |
| PbOutput.OStream.PackedSize | rokid-openvoice-process-android-ndk/jni/speech/nanopb/pb_encode.c:143-163 | the size announced for a packed array is the number of bytes its values take |
| PbOutput.OStream.EncodeArray | rokid-openvoice-process-android-ndk/jni/speech/nanopb/pb_encode.c:124-209 | arrays are packed when the type allows it, with the exact length in front, and refused beyond their maximal size |
| PbOutput.OStream.EncodeSubmessage | rokid-openvoice-process-android-ndk/jni/speech/nanopb/pb_encode.c:646-694 | with callbacks that may write anything at any time: succeeds if and only if both passes do, write the same number of bytes and there is room, and then has written the length and the second pass; a second pass that writes less ends with "submsg size changed", one that wants more with "stream full", and one that writes as much with neither |
| PbOutput.OStream.EncodeField | rokid-openvoice-process-android-ndk/jni/speech/nanopb/pb_encode.c:305-424 | required fields are always written, optional ones when present, repeated ones entry by entry, callback fields by their function or not at all |
| PbOutput.OStream.Encode | rokid-openvoice-process-android-ndk/jni/speech/nanopb/pb_encode.c:485-507 | succeeds exactly when the message, callbacks included, has no encoding error and fits, and then has appended exactly its encoding |
| PbOutput.OStream.GetEncodedSize | rokid-openvoice-process-android-ndk/jni/speech/nanopb/pb_encode.c:524-533 | one counting pass; with callbacks of stable size the reported size is the number of bytes that encoding writes, and it is reported exactly when encoding succeeds |
| PbOutput.PackedLength | rokid-openvoice-process-android-ndk/jni/speech/nanopb/pb_encode.c:158-164 | no packed array exceeds ten bytes a value, so its length is a legal varint |
| PbOutput.OStream.EncodeCallbackField | rokid-openvoice-process-android-ndk/jni/speech/nanopb/pb_encode.c:387-404 | the function is called once and its bytes and its verdict are taken over; without a function nothing is written and there is no error |
| PbOutput.OStream.EncodeText | rokid-openvoice-process-android-ndk/jni/speech/src/common/nanopb_encoder.cc:50-58 | the client's callback writes the tag and the string of its field, the same in every pass |
| PbPasses.PassesAgree | rokid-openvoice-process-android-ndk/jni/speech/nanopb/pb_encode.c:646-694 | so a submessage encodes exactly when it can be sized: "submsg size changed" is never reached, at any depth |
| PbPasses.MessageSize | rokid-openvoice-process-android-ndk/jni/speech/nanopb/pb_encode.c:646-694 | with callbacks whose sizes are stable, any two passes over a message take the same room or both fail, at every nesting depth |
| PbPasses.SameMessage | rokid-openvoice-process-android-ndk/jni/speech/nanopb/pb_encode.c:485-507 | with deterministic callbacks the pass does not matter at all: every pass writes the same bytes |
| PbPasses.WrittenAsMeasured | rokid-openvoice-process-android-ndk/jni/speech/nanopb/pb_encode.c:646-694 | with deterministic callbacks a submessage encodes whenever it can be sized, to exactly what was sized |
| PbPasses.GrowingFails | rokid-openvoice-process-android-ndk/jni/speech/nanopb/pb_encode.c:672-691 | a callback that writes one byte more in the second pass: both passes succeed by themselves and the message does not encode |
| PbEncodable.EncodesExactly | rokid-openvoice-process-android-ndk/jni/speech/nanopb/pb_encode.c:485-507 | with callbacks of stable size a message encodes if and only if every value fits the width or buffer of its field, no array is longer than its maximum, and the callbacks agree to write, at every level |
| PbEncodable.CStringExactly | rokid-openvoice-process-android-ndk/jni/speech/nanopb/pb_encode.c:790-813 | a string buffer is acceptable exactly if its only zero is its last byte, or it is full and has none |
| PbExamples.IntegerRecords | rokid-openvoice-process-android-ndk/jni/speech/nanopb/pb_encode.c:605-644 | the bytes of small records of the three varint types, as the encoding guide has them |
| PbExamples.FloatRecord | rokid-openvoice-process-android-ndk/jni/speech/nanopb/pb_encode.c:571-597 | the bytes of a 32-bit and a 64-bit record |
| PbExamples.TextRecords | rokid-openvoice-process-android-ndk/jni/speech/nanopb/pb_encode.c:638-644 | the bytes of the record "testing" as bytes, string, fixed-length bytes and from the client's callback |
| PbExamples.NestedRecords | rokid-openvoice-process-android-ndk/jni/speech/nanopb/pb_encode.c:646-694 | the bytes of the nested message and of the packed array of the encoding guide |
| PbExamples.TwoRecords | rokid-openvoice-process-android-ndk/jni/speech/nanopb/pb_encode.c:485-507 | the fields are written in the order of the table |
| PbDecode.OneRecord | rokid-openvoice-process-android-ndk/jni/speech/nanopb/pb_decode.c:905-958 | every accepted record consumes at least one byte and keeps the shape of the message, so decoding ends |
| PbDecode.TrackedExactly | rokid-openvoice-process-android-ndk/jni/speech/nanopb/pb_decode.c:948-980 | the required fields that are kept track of are the first 64 of the table |
| PbVersions.OtherVersion | rokid-openvoice-process-android-ndk/jni/speech/nanopb/pb_decode.c:894-1018 | forward and backward compatibility: what is encoded with one table is decoded with any other that agrees on the shared tags if and only if the strings of the shared fields are terminated and every tracked required field of the receiver was sent; shared fields then hold what was sent, all others their defaults |
| PbVersions.ValueIsSkipped | rokid-openvoice-process-android-ndk/jni/speech/nanopb/pb_encode.c:605-632 | what is written for a field of any type is skipped to its last byte by a reader that knows only the wire type in front of it |
| PbVersions.SlotIsSkipped | rokid-openvoice-process-android-ndk/jni/speech/nanopb/pb_decode.c:919-947 | whatever is written for a field, singular, packed, repeated or by a callback, a table without its tag passes over exactly |
| PbBounds.DecodeStaysInBounds | rokid-openvoice-process-android-ndk/jni/speech/nanopb/pb_decode.c:395-468 | whatever bytes arrive, the decoded struct fits: numbers their width, strings terminated within their buffer, arrays their maximum, at every level |
| PbBounds.VarintAccepted | rokid-openvoice-process-android-ndk/jni/speech/nanopb/pb_decode.c:1239-1274 | a signed varint is accepted exactly if its low 32 bits, or all 64 for a 64-bit field, are a signed number of the width of the field |
| PbBounds.UVarintAccepted | rokid-openvoice-process-android-ndk/jni/speech/nanopb/pb_decode.c:1276-1298 | an unsigned varint is accepted exactly if it is below 2 to the width of the field |
| PbBounds.SVarintAccepted | rokid-openvoice-process-android-ndk/jni/speech/nanopb/pb_decode.c:1300-1322 | a zigzag varint is accepted exactly if the number it stands for fits the field |
| PbBounds.BlobAccepted | rokid-openvoice-process-android-ndk/jni/speech/nanopb/pb_decode.c:1341-1458 | bytes and strings are accepted exactly if they are shorter than the struct's room, fixed-length bytes exactly at their length, the empty form meaning zeros |
| PbExamples.UnknownFloat | rokid-openvoice-process-android-ndk/jni/speech/nanopb/pb_decode.c:316-326 | an unknown 32-bit float is passed over and the number behind it is read |
| PbExamples.UnpackedIsAppended | rokid-openvoice-process-android-ndk/jni/speech/nanopb/pb_decode.c:412-468 | a number of a packed array that comes by itself is appended like the others |
| PbExamples.MessagesMerge | rokid-openvoice-process-android-ndk/jni/speech/nanopb/pb_decode.c:1413-1435 | a submessage that comes in two records is merged |
| PbExamples.EntriesStartAfresh | rokid-openvoice-process-android-ndk/jni/speech/nanopb/pb_decode.c:1424-1430 | in an array each submessage starts from the defaults |
| PbExamples.ZeroEnds | rokid-openvoice-process-android-ndk/jni/speech/nanopb/pb_decode.c:912-918 | a zero tag ends the message whatever follows |
| PbRoundTrip.RoundTrip | rokid-openvoice-process-android-ndk/jni/speech/nanopb/pb_decode.c:894-1018 | for every well-formed table, static and callback fields alike, every message with the client's callbacks that encodes to less than 4 GB and every receiver: decoding returns the message, its strings in the receiver's callbacks and defaults in absent optional fields, if and only if every static string that was sent has its terminator inside its buffer and no tracked required field has an unset callback |
| PbArrival.WhatArrives | rokid-openvoice-process-android-ndk/jni/speech/nanopb/pb_decode.c:894-1018 | what is accepted has the contents that were sent, said without the decoder: present fields present with the value sent, absent ones absent with the default of the table, arrays entry by entry, non-empty strings in the callbacks, at every level |
| PbRoundTrip.MessageRoundTrip | rokid-openvoice-process-android-ndk/jni/speech/nanopb/pb_encode.c:485-507 | the same for a message decoded onto the defaults, at any nesting level and in any pass |
| PbRoundTrip.FieldsRoundTrip | rokid-openvoice-process-android-ndk/jni/speech/nanopb/pb_decode.c:905-958 | after the records of the first fields, exactly those fields have been set and marked as seen, and the others still hold their defaults |
| PbRoundTrip.ArrayRoundTrip | rokid-openvoice-process-android-ndk/jni/speech/nanopb/pb_decode.c:412-451 | a repeated field, packed or not, comes back entry by entry |
| PbRoundTrip.CallbackRoundTrip | rokid-openvoice-process-android-ndk/jni/speech/nanopb/pb_decode.c:651-698 | what the sender's callback writes reaches the receiver's callback, or is skipped if there is none; an unset callback sends nothing |
| PbRoundTrip.ValueRoundTrip | rokid-openvoice-process-android-ndk/jni/speech/nanopb/pb_decode.c:1239-1458 | each single value comes back, and a string without terminator is refused |
| PbRoundTrip.BlobRoundTrip | rokid-openvoice-process-android-ndk/jni/speech/nanopb/pb_decode.c:1341-1411 | bytes come back whatever they contain; a string comes back exactly when it is terminated |
| PbRoundTrip.VarintValueRoundTrip | rokid-openvoice-process-android-ndk/jni/speech/nanopb/pb_decode.c:1239-1274 | a signed number of any width survives the detour over 32 or 64 bits |
| PbRoundTrip.TagRoundTrip | rokid-openvoice-process-android-ndk/jni/speech/nanopb/pb_decode.c:293-314 | a record that starts with a field's tag is read as that field |
| PbRecords.InterleavingIsIrrelevant | rokid-openvoice-process-android-ndk/jni/speech/nanopb/pb_decode.c:905-958 | two streams with the same records for each field, in the same order, decode alike, whatever the interleaving and whatever unknown records are in between |
| PbRecords.AnyOrder | rokid-openvoice-process-android-ndk/jni/speech/nanopb/pb_decode.c:905-958 | records of pairwise different fields may come in any order |
| PbRecords.UnknownIsIgnored | rokid-openvoice-process-android-ndk/jni/speech/nanopb/pb_decode.c:919-947 | a well-formed record with an unknown tag, inserted at any record boundary, changes nothing |
| PbRecords.FieldsAreIndependent | rokid-openvoice-process-android-ndk/jni/speech/nanopb/pb_decode.c:395-468 | the final contents of a field are a function of its own records alone |
| PbRecords.AcceptedFieldByField | rokid-openvoice-process-android-ndk/jni/speech/nanopb/pb_decode.c:905-958 | a stream of whole records is accepted exactly when every field accepts its own |
| PbRecords.RequiredFields | rokid-openvoice-process-android-ndk/jni/speech/nanopb/pb_decode.c:960-1001 | on whole records decoding succeeds if and only if every tracked required field has occurred |
| PbRecords.RecordIsLocal | rokid-openvoice-process-android-ndk/jni/speech/nanopb/pb_decode.c:905-958 | reading a record looks at nothing behind it |
| PbSeen.FullWord | rokid-openvoice-process-android-ndk/jni/speech/nanopb/pb_decode.c:984-998 | a word equals `allbits >> (32 - n)` exactly when its first `n` bits are set and no other |
| PbSeen.MarkField | rokid-openvoice-process-android-ndk/jni/speech/nanopb/pb_decode.c:950-955 | setting the bit of a field records that field and no other |
| PbSeen.AllMarked | rokid-openvoice-process-android-ndk/jni/speech/nanopb/pb_decode.c:960-998 | the first bits are all set exactly when every tracked required field has been seen |
| PbInput.IStream.DecodeVarint32 | rokid-openvoice-process-android-ndk/jni/speech/nanopb/pb_decode.c:182-242 | the loop with its overflow, sign and end-of-stream checks reads what the specification reads |
| PbInput.IStream.DecodeVarint | rokid-openvoice-process-android-ndk/jni/speech/nanopb/pb_decode.c:250-271 | the shifting loop accumulates the number the bytes spell, and refuses an eleventh byte |
| PbInput.IStream.DecodeSVarint | rokid-openvoice-process-android-ndk/jni/speech/nanopb/pb_decode.c:1190-1202 | yields the number whose zigzag form was sent |
| PbInput.IStream.SkipField | rokid-openvoice-process-android-ndk/jni/speech/nanopb/pb_decode.c:273-326 | advances by exactly the value, or fails |
| PbInput.IStream.ReadRawValue | rokid-openvoice-process-android-ndk/jni/speech/nanopb/pb_decode.c:331-358 | yields the bytes of one value as they are, at most ten for a varint |
| PbInput.IStream.MakeSubstream | rokid-openvoice-process-android-ndk/jni/speech/nanopb/pb_decode.c:361-374 | the substream is the bytes of the string, and the parent keeps only what follows them |
| PbInput.IStream.CloseSubstream | rokid-openvoice-process-android-ndk/jni/speech/nanopb/pb_decode.c:376-389 | the parent stands right behind the string, whatever the substream left unread |
| PbInput.AccumulateByte | rokid-openvoice-process-android-ndk/jni/speech/nanopb/pb_decode.c:258-266 | one byte shifted into the result is one digit of the number, only bits beyond 64 being lost |
| PbDecoder.DecodeMessage | rokid-openvoice-process-android-ndk/jni/speech/nanopb/pb_decode.c:894-1004 | succeeds exactly when the records are well formed and all tracked required fields occur, and then leaves what the specification says |
| PbDecoder.DecodeRecord | rokid-openvoice-process-android-ndk/jni/speech/nanopb/pb_decode.c:905-958 | one turn of the loop: iterator, bit set and message move together as the specification says |
| PbDecoder.DecodeSubmessage | rokid-openvoice-process-android-ndk/jni/speech/nanopb/pb_decode.c:1413-1435 | a submessage is decoded from its own bytes only; the parent advances by exactly the length prefix and the length |
| PbDecoder.DecodeStatic | rokid-openvoice-process-android-ndk/jni/speech/nanopb/pb_decode.c:395-468 | a record is merged into its field, appended to it, or refused for lack of room |
| PbDecoder.DecodeField | rokid-openvoice-process-android-ndk/jni/speech/nanopb/pb_decode.c:700-725 | a record goes to the struct or to the callback of its field, as the specification says |
| PbDecoder.DecodeCallback | rokid-openvoice-process-android-ndk/jni/speech/nanopb/pb_decode.c:651-698 | the callback is called until the string is used up, gets a single number as its raw bytes, and the stream stands right behind the value; without a function the value is skipped |
| PbDecoder.DecodeText | rokid-openvoice-process-android-ndk/jni/speech/src/common/nanopb_decoder.cc:17-37 | the client's callback takes everything there is, and leaves the string as it was when there is nothing |
| PbDecoder.SetToDefaults | rokid-openvoice-process-android-ndk/jni/speech/nanopb/pb_decode.c:877-890 | the iterator loop sets every field to its default, at every level, and stops |
| PbDecoder.DecodePacked | rokid-openvoice-process-android-ndk/jni/speech/nanopb/pb_decode.c:417-441 | a packed array is taken over whole or refused |
| PbDecoder.DecodeBlob | rokid-openvoice-process-android-ndk/jni/speech/nanopb/pb_decode.c:1341-1458 | bytes, strings and fixed-length bytes are accepted exactly when they fit, the empty fixed-length form meaning zeros |
| PbDecoder.DecodeInt | rokid-openvoice-process-android-ndk/jni/speech/nanopb/pb_decode.c:1239-1322 | a number is accepted exactly when it fits the width of its field |
| PbDecoder.CountRequired | rokid-openvoice-process-android-ndk/jni/speech/nanopb/pb_decode.c:963-980 | running the iterator to the end counts the required fields, capped at the number that is tracked |
| PbDecoder.AllSeen | rokid-openvoice-process-android-ndk/jni/speech/nanopb/pb_decode.c:982-1000 | the test by words and remaining bits is true exactly when the first `count` bits are set |
| PbDecoder.NoteRequired | rokid-openvoice-process-android-ndk/jni/speech/nanopb/pb_decode.c:950-955 | after noting a field the bits are again exactly the required fields seen |
| PbDecoder.DecodeBuffer | rokid-openvoice-process-android-ndk/jni/speech/nanopb/pb_decode.c:1006-1018 | decoding a whole buffer starts from the defaults, with the callbacks the receiver has set |
| PbTransfer.Transfer | rokid-openvoice-process-android-ndk/jni/speech/src/common/nanopb_decoder.cc:11-15 | a message that was serialised with the client's callbacks is accepted at the other end if and only if no tracked required field lacks its callback and every static string is terminated, and is then the message that was sent |
| PbTransfer.SerializeToString | rokid-openvoice-process-android-ndk/jni/speech/src/common/nanopb_encoder.cc:31-39 | whatever the callbacks do, succeeds exactly when the message encodes into the one-megabyte buffer, and yields its encoding |
| PbTransfer.StringsArrive | rokid-openvoice-process-android-ndk/jni/speech/src/common/nanopb_decoder.cc:17-37 | a string arrives in the receiver's callback if and only if it is not empty; an empty one leaves what an absent one leaves |
| PbTransfer.AuthRequestNeedsEveryString | rokid-openvoice-process-android-ndk/jni/speech/nanopb-gen/auth.pb.c:13-22 | an `AuthRequest` always encodes, whichever of its seven strings have been set, and decodes if and only if all of them have |
| PbTransfer.UnterminatedString | rokid-openvoice-process-android-ndk/jni/speech/nanopb/pb_encode.c:790-813 | a message that encodes to three bytes which the same table refuses |
| PbRoundTrip.ReceivedEncodesAlike | rokid-openvoice-process-android-ndk/jni/speech/nanopb/pb_encode.c:485-507 | without callback fields, a received message encodes to the bytes it came from |
| VoiceSession.EveryRun | vsys-activation/src/voice_activation.cpp:318-465 | with local voice detection, after any inputs: DATA and END only in an open session, START only when none is open, a session is open exactly when output is on and not cancelled, what was delivered since the last START is the first part of the encoded audio, and a paused buffer means cancelled |
| VoiceSession.FrameKeepsInv | vsys-activation/src/voice_activation.cpp:331-465 | one frame keeps all of that, whatever the recognisers answer |
| VoiceSession.EndIsComplete | vsys-activation/src/voice_activation.cpp:444-464 | at END everything encoded has been delivered, and what is missing of the utterance is exactly its last (n - 1) % 320 + 1 samples, so delivery is complete if and only if nothing was heard |
| VoiceSession.WholeFrameLost | vsys-activation/src/legacy/r2mem_cod.cpp:117-192 | a run in which a command of exactly 320 samples opens and ends a session and none of it is delivered |
| VoiceSession.DeliveredSamples | vsys-activation/src/legacy/r2mem_cod.cpp:117-192 | after any inputs, the k-th sample an open session has received is the k-th voice sample since voice last started, scaled by the gain of the first m voice samples, where m, and the voice samples, are functions of the inputs |
| VoiceSession.QuietThenLoud | vsys-activation/src/legacy/r2mem_cod.cpp:117-192 | a run in which a session starts with silence and loud speech is then encoded without being turned down |
| VoiceSession.RunFixes | vsys-activation/src/voice_activation.cpp:331-465 | in every run the gain is fixed with the voice samples heard by the first frame after which a session is open and more than 320 have been heard |
| VoiceSession.RunHears | vsys-activation/src/voice_activation.cpp:331-465 | in every run the buffer holds the voice samples since voice last started, as the inputs alone determine them |
| VoiceSession.PromptDelivery | vsys-activation/src/voice_activation.cpp:444-448 | after a frame without a wake word, an open session lacks at most 370 samples of what was heard |
| VoiceSession.WakeCommandOpens | vsys-activation/src/voice_activation.cpp:371-416 | a wake word with a command opens a session in the frame in which voice starts, after announcing it |
| VoiceSession.FrameKeepsSamples | vsys-activation/src/voice_activation.cpp:331-465 | with or without local detection: no voice sample is dropped or reordered, and the assertions of the buffer hold |
| VoiceSession.StepKeepsSafe | vsys-activation/src/legacy/r2mem_cod.cpp:91-119 | the assertions in `resume` and `processdata` are never violated, in any run |
| VoiceSession.CancelOnlyWhenOpen | vsys-activation/src/voice_activation.cpp:318-329 | a frame sends CANCEL only in an open session if and only if it is not a wake word that finds a suspended session |
| VoiceSession.CancelWithoutStart | vsys-activation/src/voice_activation.cpp:318-329 | a run of two frames in which CANCEL comes although START never did |
| VoiceSession.DeliverKeeps | vsys-activation/src/voice_activation.cpp:444-448 | a delivery sends exactly the encoded samples that have not been sent |
| VoiceSession.VoiceStageKeeps | vsys-activation/src/voice_activation.cpp:397-451 | starting, cancelling, resuming and delivering keep the protocol and the audio |
| VoiceSession.VadOnStageKeeps | vsys-activation/src/voice_activation.cpp:371-385 | voice starting never cuts an open session short |
| VoiceSession.VadBits | vsys-activation/src/voice_activation.cpp:519-565 | voice ends only after it has begun, and begins only when it was off |
| VoicePhases.EveryRunFollows | vsys-activation/src/voice_activation.cpp:331-465 | in every run with local detection the application is told exactly what a small automaton says that sees only the recognisers' answers and the number of voice samples: which events besides the audio, in which order, and when a session is open |
| VoicePhases.FrameFollows | vsys-activation/src/voice_activation.cpp:331-465 | one frame does and tells what the automaton says |
| VoicePhases.ResumedExactly | vsys-activation/src/voice_activation.cpp:437-443 | a suspended session is resumed in a frame in which voice just goes on if and only if less than 96000 samples have been heard and more than 8000 since it was suspended |
| VoicePhases.SuspendedExactly | vsys-activation/src/voice_activation.cpp:418-436 | an open session goes on in such a frame if and only if at most 96000 samples have been heard and a wake word or the application wants it |
| VoicePhases.OpenedOnRequest | vsys-activation/src/voice_activation.cpp:409-415 | voice that starts without a wake word opens a session if and only if the application has asked to listen and there are at most 96000 samples |
| VoicePhases.ControlDecides | vsys-activation/src/voice_activation.cpp:238-251 | after "awake" the next voice opens a session; after "sleep" it does not, and an open session is suspended in the next frame of voice, for good |
| VoicePhases.WakePauseQuestion | vsys-activation/src/voice_activation.cpp:437-443 | a run from the start: a wake word without a command, then 8001 samples of voice; START is sent and 8000 of them are delivered |
| VoicePhases.AmountDelivered | vsys-activation/src/voice_activation.cpp:444-447 | a frame delivers everything that is encoded in whole frames of 320 as soon as that is more than 50 samples, and nothing before |
| VoicePhases.RemoteDetection | vsys-activation/src/voice_activation.cpp:418-436 | without local detection there is no limit and no END: an open session goes on until voice stops, or is cancelled with it when nobody wants it |
| VoicePhases.Starts | vsys-activation/src/voice_activation.cpp:519-565 | when voice starts, the samples from that detection on are voice |
| VoicePhases.Stops | vsys-activation/src/voice_activation.cpp:554-561 | when it stops, those of the stopping detection are the last |
| VoiceActivation.VoiceActivation.ProcessFrm | vsys-activation/src/voice_activation.cpp:331-465 | the object's fields, buffer and events after a frame are those of the state machine |
| VoiceActivation.VoiceActivation.CheckVoiceActivity | vsys-activation/src/voice_activation.cpp:519-565 | the detection loop reports start, stop and samples as the specification does, and looks at nothing after the stop |
| VoiceActivation.VoiceActivation.ResetAsrState | vsys-activation/src/voice_activation.cpp:318-329 | the reset of a wake word, in the order in which the source clears its flags |
| VoiceActivation.VoiceActivation.Voice | vsys-activation/src/voice_activation.cpp:397-451 | what happens while voice is on, step by step on the object |
| VoiceActivation.VoiceActivation.ControlAction | vsys-activation/src/voice_activation.cpp:238-251 | wake and sleep commands change the flags they should and nothing else and answer 0; any other command changes nothing and answers -1 |
| VoiceActivation.EncodedOnce | vsys-activation/src/legacy/r2mem_cod.cpp:194-221 | asking for the length and then fetching the data encodes nothing twice |
| VoiceActivation.CheckVadStops | vsys-activation/src/voice_activation.cpp:554-561 | detections after the end of voice have no effect |
| AudioBuffer.OutOnlyGrows | vsys-activation/src/legacy/r2mem_cod.cpp:117-192 | encoding more samples never changes what was encoded before: the gain of an utterance is fixed with its first frame |
| AudioBuffer.GainNormalises | vsys-activation/src/legacy/r2mem_cod.cpp:121-155 | after scaling, the level the gain is computed from is exactly 0.3 if it was above, and quiet speech is left alone |
| AudioBuffer.WindowIsNoLouder | vsys-activation/src/legacy/r2mem_cod.cpp:134-147 | no full window that ends behind the first is louder than the level the gain is computed from |
| AudioBuffer.AdvanceExactly | vsys-activation/src/legacy/r2mem_cod.cpp:117-192 | encoding frame by frame leaves exactly the last (n - 1) % 320 + 1 samples behind |
| AudioBuffer.LaterWindowIsNormal | vsys-activation/src/legacy/r2mem_cod.cpp:121-165 | of the samples that were there when the gain was fixed, every full window that ends behind the first has a mean of at most 0.3 after scaling |
| AudioBuffer.AllWindowsNormal | vsys-activation/src/legacy/r2mem_cod.cpp:121-165 | whatever samples the gain was fixed with and whatever is scaled with it: every full window has a mean of at most 0.3 if and only if each is quiet by itself or no louder than the level of those samples |
| AudioBuffer.EncodingFixesGain | vsys-activation/src/legacy/r2mem_cod.cpp:119-155 | the gain is computed with the first frame that is encoded, from the samples there are then, and never again for the utterance |
| AudioBuffer.EncodedIsNormal | vsys-activation/src/legacy/r2mem_cod.cpp:117-192 | what has been encoded of an utterance has only windows of at most 0.3 if and only if none of them is both louder than that and louder than the level of the samples that fixed the gain |
| AudioBuffer.FirstWindowDecides | vsys-activation/src/legacy/r2mem_cod.cpp:121-155 | of the samples that were there when the gain was fixed, all windows are turned down to 0.3 if and only if the first one, which the source does not look at, is |
| AudioBuffer.LoudFirstWindow | vsys-activation/src/legacy/r2mem_cod.cpp:134-147 | 960 samples of 0.9 are not turned down at all |
| AudioBuffer.PcmOfPrefix | vsys-activation/src/legacy/r2mem_cod.cpp:157-190 | encoding is sample by sample: the encoding of a first part is the first part of the encoding |
| AudioBuffer.PcmAt | vsys-activation/src/legacy/r2mem_cod.cpp:157-184 | every encoded sample is its raw sample, scaled and truncated |
| AudioBuffer.PcmTruncates | vsys-activation/src/legacy/r2mem_cod.cpp:157-184 | the conversion truncates the scaled sample towards zero |
| AudioBuffer.LevelIsAMean | vsys-activation/src/legacy/r2mem_cod.cpp:121-150 | the level is the mean of |x| over all samples if there are fewer than 960, otherwise over the loudest window of 960 |
| AudioBuffer.LoudestIsAWindow | vsys-activation/src/legacy/r2mem_cod.cpp:134-147 | the loudest window is one of the full windows behind the first |
| AudioBuffer.PeakLoudness | vsys-activation/src/legacy/r2mem_cod.cpp:134-147 | the sliding sum finds the loudest window |
| AudioBuffer.ComputeGain | vsys-activation/src/legacy/r2mem_cod.cpp:121-155 | both branches compute the gain of the utterance |
| AudioBuffer.MemCod.Encode | vsys-activation/src/legacy/r2mem_cod.cpp:117-192 | whole frames are scaled in place and converted; encoded and raw samples stay in step |
| AudioBuffer.MemCod.GetData2 | vsys-activation/src/legacy/r2mem_cod.cpp:211-221 | hands out everything encoded and not handed out before |
| AudioBuffer.MemCod.PauseBuffer | vsys-activation/src/legacy/r2mem_cod.cpp:82-89 | a pause makes everything encoded so far due again |
| AudioBuffer.MemCod.ProcessSamples | vsys-activation/src/legacy/r2mem_cod.cpp:99-115 | samples are appended, normalised, and nothing encoded changes |
| SendProtocol.EveryRun | rokid-openvoice-process-android-ndk/jni/uWS/src/Socket.h:217-411 | under every pattern of full, partial, blocked and failing sends: bytes given to the kernel followed by those queued are the accepted messages in order, each callback is called at most once and in order, success is reported exactly for the first so and so many accepted messages, of which the kernel has every byte and which on an open socket are all that are not queued, and a queue is polled for |
| SendProtocol.StepKeeps | rokid-openvoice-process-android-ndk/jni/uWS/src/Socket.h:217-411 | each send, writable event or end of the connection keeps conservation |
| SendProtocol.DrainKeeps | rokid-openvoice-process-android-ndk/jni/uWS/src/Socket.h:227-257 | the writable loop keeps conservation however often the kernel takes part of a message |
| SendProtocol.SendKeeps | rokid-openvoice-process-android-ndk/jni/uWS/src/Socket.h:304-411 | a message is sent, queued, cut or refused without loss or reordering |
| SendProtocol.EndKeeps | rokid-openvoice-process-android-ndk/jni/uWS/src/WebSocket.cpp:270-291 | at the end every callback not yet called is called once, as cancelled, and no further success is reported |
| SendProtocol.CancelFires | rokid-openvoice-process-android-ndk/jni/uWS/src/WebSocket.cpp:282-288 | cancelling calls the queued callbacks in order and reports no success |
| SendProtocol.DrainsCompletely | rokid-openvoice-process-android-ndk/jni/uWS/src/Socket.h:229-242 | when the kernel takes everything, a writable socket sends all it has, reports success for all of it, and stops polling |
| SendProtocol.FrontProgress | rokid-openvoice-process-android-ndk/jni/uWS/src/Socket.h:230-254 | each turn of the loop hands over exactly what the kernel takes of what is next |
| SendProtocol.SendTakes | rokid-openvoice-process-android-ndk/jni/uWS/src/Socket.h:304-411 | a message on an idle socket goes to the kernel at once as far as it takes it, and only the rest waits; behind others it waits as a whole; a failing kernel refuses it |
| SendProtocol.FrontTakes | rokid-openvoice-process-android-ndk/jni/uWS/src/Socket.h:229-254 | on a writable socket the same happens to the message in front, and a failing kernel ends the connection |
| SendQueue.Queue.Push | rokid-openvoice-process-android-ndk/jni/uWS/src/Socket.h:63-74 | the linked list grows by the message at its end |
| SendQueue.Queue.Pop | rokid-openvoice-process-android-ndk/jni/uWS/src/Socket.h:48-58 | the linked list loses its first message, head and tail staying right when it was the only one |
| SendQueue.Socket.Write | rokid-openvoice-process-android-ndk/jni/uWS/src/Socket.h:304-350 | sends what the kernel takes, queues the rest, and asks to be told when the socket is writable |
| SendQueue.Socket.SendTransformed | rokid-openvoice-process-android-ndk/jni/uWS/src/Socket.h:352-411 | the object after a send is in the state the protocol says |
| SendQueue.Socket.OnWritable | rokid-openvoice-process-android-ndk/jni/uWS/src/Socket.h:227-257 | the loop on the linked queue does what the protocol says |
| SendQueue.Socket.OnEnd | rokid-openvoice-process-android-ndk/jni/uWS/src/WebSocket.cpp:270-291 | the queue is emptied and every callback called as cancelled |
| GroupList.Group.ForEach | rokid-openvoice-process-android-ndk/jni/uWS/src/Group.h:108-122 | every socket that was in the list is visited exactly once, in order, whichever visited sockets are removed; the others remain, in order, and the iterator stack is restored |
| GroupList.Group.RemoveWebSocket | rokid-openvoice-process-android-ndk/jni/uWS/src/Group.cpp:111-128 | the doubly linked list stays well formed without the socket, and the iteration in progress continues with its successor |
| GroupList.Group.AddWebSocket | rokid-openvoice-process-android-ndk/jni/uWS/src/Group.cpp:99-109 | the list stays well formed with the socket in front |
| GroupList.Group.Neighbours | rokid-openvoice-process-android-ndk/jni/uWS/src/Group.cpp:116-117 | equal neighbours mean a single socket, so the short cut in the removal is right |
| GroupList.Group.VisitAndMoveOn | rokid-openvoice-process-android-ndk/jni/uWS/src/Group.h:112-120 | after each visit the iteration stands on what followed the visited socket |
| GroupList.Group.Terminate | rokid-openvoice-process-android-ndk/jni/uWS/src/Group.cpp:250-256 | terminating the group visits everyone and leaves nobody |
| GroupList.Group.DropSilent | rokid-openvoice-process-android-ndk/jni/uWS/src/Group.cpp:17-26 | after a timer tick exactly the sockets without an outstanding pong remain, and all of them have one outstanding |
| GroupList.KeptMembers | rokid-openvoice-process-android-ndk/jni/uWS/src/Group.h:108-122 | the remaining sockets are exactly those the visitor did not remove |
| GroupList.ChosenLeave | rokid-openvoice-process-android-ndk/jni/uWS/src/Group.cpp:17-26 | a visitor removes exactly those it chooses: those without an answer to the last ping, all, or any selection |
| GroupList.KeptInOrder | rokid-openvoice-process-android-ndk/jni/uWS/src/Group.h:108-122 | the remaining sockets keep their order |

## Left out

- permessage-deflate: inflating is foreign code, and the compressed flag of a split header would be set again when the header is parsed again.
- Handlers that close the socket from inside a WebSocket callback, and writing to a socket from inside a completion callback: callbacks only observe in the model.
- SSL sockets, polling, timeouts, transfers between event loops, corking and the allocation of small memory blocks: I/O plumbing.
- `WebSocketParser.Connection.OnData`: does not model the corking of the socket nor that a read clears `hasOutstandingPong`, which the parser never looks at.
- Failing sends after which the application sends again: a fatal answer to `write` reports the message as cancelled, as in the source, and what the kernel does with later sends is again up to it.
- `Queue`: the memory of popped messages is not modelled as freed.
- Prepared and batched WebSocket messages, and HTTP sockets and responses: buffer sizing and reuse of response objects only.
- `GroupList.Group.ForEach`: does not model nested iterations nor the removal of a socket other than the one being visited, because the source's iterator stack follows only its top entry; sockets added during an iteration are not modelled.
- `GroupList.Group.DropSilent`: does not model the ping or message that `timerCallback` broadcasts after the iteration.
- CELT signal processing (energies, transforms, pulse coding) and the metric that `tf_analysis` computes before its search: floating point and data, taken as the input `metric`.
- `SplitAngle.ThetaRoundTrip`: does not model the inversion flag, the intensity and bit-budget arithmetic and the gains that `compute_theta` derives from the angle.
- The range coder: a channel for symbols, its position any function of the symbols coded so far.
- nanopb oneof fields, extensions, pointers and dynamic allocation, and proto3 singular fields: no generated table of the repository has one. A submessage in an array starts with its callbacks unset.
- `PbTable.FieldIter.Next`: does not model the advance of `pData` and `pSize` through the struct, because a message is a value with one slot for each field; offsets, padding and aliasing of struct members are not captured, nor are the contents of array entries behind the count.
- `PbOutput.OStream.EncodeArray`: does not model arrays whose entries are pointers.
- `PbOutput.OStream.EncodeField`: does not model oneof, pointer, extension and implicit-presence fields.
- `PbOutput.OStream.EncodeCallbackField`: models a callback as one write and a verdict; a callback that goes on after a failed `pb_write` and then reports success is not captured, nor which message a failing callback leaves.
- `PbDecode.OneRecord`: does not model the search for an extension field.
- `PbDecoder.DecodeRecord`: does not model the search for an extension field.
- `PbDecoder.DecodeMessage`: does not model extension fields.
- `PbDecoder.DecodeCallback`: models the reading callback of the speech client, the only one in the repository; other reading functions are not captured.
- `PbDecoder.DecodeText`: does not model a null `arg`, because `init_string_field` always sets it.
- `PbDecoder.DecodeField`: does not model the release of oneof data nor pointer fields.
- `PbInput.IStream.DecodeVarint32`: does not model the wrap-around of the 8-bit bit position, because it takes more than 36 bytes of padding in one varint.
- The partly decoded message after an error: only the failure is stated.
- `PbOutput.OStream.Encode`: assumes lengths below 2^64 bytes, the range of the source's size type, and does not say how much of a message was stored before an error.
- `PbRoundTrip.ReceivedEncodesAlike`: excludes callback fields, because a received struct holds reading functions where the sent one holds writing functions.
- `AudioBuffer.MemCod.Encode`: models floating-point samples as real numbers and PCM samples as unbounded integers, so rounding and the overflow of 16 bits are not captured.
- `AudioBuffer.PeakLoudness`: is exact over real numbers; the rounding of the sliding sum in floating point is not modelled.
- `AudioBuffer.ComputeGain`: is exact over real numbers; rounding is not modelled.
- `VoiceSession.DeliveredSamples`: does not model floating-point rounding nor the conversion to 16 bits.
- `AudioBuffer.PcmAt`: does not model floating-point rounding nor the conversion to 16 bits.
- `VoiceSession.EveryRun`: does not state the START and END order without local voice detection, where the source sends no END; safety of the buffer is proved there too (`StepKeepsSafe`).
- `VoiceActivation.VoiceActivation.CheckVoiceActivity`: does not model the buffering of its input nor the forced start.
- Buffering of microphone samples, beam forming, speaker location and the word tables in `VoiceActivation`: the frame's contents are input.
- JNI, audio drivers, configuration, logging and generated tables other than `AuthRequest`: nothing with state to prove.
