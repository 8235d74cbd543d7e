# Byte protocols of the camera server, verified

A Dafny model of the parts of the server that read and write bytes under a protocol, and proofs of what they promise.
Each part is written twice: as methods and classes with the loops, buffers and fields of the program, and as a short
specification taken from the standard it implements. Methods are proved against the specification, and the theorems
are about the specification and about runs of the classes.

`dafny verify dfyconfig.toml` checks everything.

## Files

| file | what it holds |
|---|---|
| `Arithmetic.dfy` | division with remainder |
| `Bytes.dfy` | bytes, big-endian numbers, concatenation, memory copies |
| `Bits.dfy` | numbers as bits, and the bitwise operations |
| `Strings.dfy` | texts as bytes |
| `Incremental.dfy` | resumable parsing in general: a step function whose verdicts survive more input makes the cut of a stream into reads unobservable |
| `WsFrame.dfy` | the frame codec of RFC 6455 |
| `WsReceive.dfy` | what frames do to a session; chunk independence; memory bounds |
| `WsEndToEnd.dfy` | from a peer's messages to the message handler |
| `WsReactions.dfy` | what every single frame does to a session: which ones keep it Active, and the answer to the others |
| `WsHeadroom.dfy` | for which limits every conforming peer is heard under every cut |
| `WsHandshake.dfy` | the end of the HTTP request, the hand-over to frames, the accept key |
| `WsProtocols.dfy` | token lists and subprotocol choice |
| `WsSystem.dfy` | the session as a step system: write queue, both sides of the close, memory |
| `WsRuns.dfy` | what a session hears over whole runs, with everything else that happens between the reads |
| `WsEndings.dfy` | over whole runs: refused requests, the frame that ends a session, reported codes |
| `WsOutgoing.dfy` | what the peer reads of the wire, and what the application sent among it |
| `WsHeartbeat.dfy` | the heartbeat over whole runs |
| `WsHandlers.dfy` | the session class, handler by handler, as a refinement of the step system |
| `Bitstream.dfy` | bits and Exp-Golomb codes of the test-stream generator, with the readers of ITU-T H.264 |
| `AnnexB.dfy` | emulation prevention, start codes, the start-code scanner |
| `NalSource.dfy` | grouping of units into frames |
| `Packetizer.dfy` | single-unit and FU-A packets, with the depacketiser of RFC 6184 |
| `PacketStream.dfy` | the endless packet stream of a playing session |
| `RtpFraming.dfy` | RTP headers and interleaved frames |
| `Interleaved.dfy` | the receiving side of interleaved framing |
| `Delivery.dfy` | from the file to a receiver, across all of these stages |
| `Hashing.dfy`, `Base64.dfy` | streaming SHA-1 (RFC 3174) and Base64 (RFC 4648) |
| `HttpParser.dfy` | the incremental HTTP request parser |
| `HttpRequests.dfy` | requests as clients print them, and what the parser makes of them |

## How the program is modelled

- Bytes are integers below 256, words integers below 2^32. Shifts and masks of disjoint bit fields are division and
  remainder; the bitwise operations of masking and of SHA-1 are defined on the bits of numbers. Wrap-around is written out
  where it can happen (sequence numbers, timestamps, the words and the bit count of SHA-1, `value + 1` in `write_ue`).
- Sockets, clocks, files and user callbacks become parameters and logs. A read is a sequence of bytes; a write takes as
  many bytes as a parameter says; time is an argument of the handlers; a file is its bytes; a callback is an append to
  a log, and does not call back into the session.
- Handlers of a WebSocket session run one at a time, in any order. The strand is the order of `posted`: `posted[..ran]`
  are the tasks it has run. A write that began on a closed socket fails. The application gets hold of a session when it
  is opened, so it sends nothing while the handshake is still going on; it sends texts, binaries, pings and closes. Whether a request text is a valid upgrade is a
  function parameter, since the hand-over does not depend on it.
- `ProcessFrameBuffer` is split into one turn (`ProcessFrame`) and the loop, `ReadNextFrame`, `HandleFrame`, `Update`
  and `feed` likewise into their parts. Bodies keep the branches of the source.
- `std::stoul` is a parameter of the HTTP parser: a function from text to a number, or to nothing where it throws.
- Methods that take a list or a number of turns (`RunSession`, `ReceiveAll`, `ReadAllFrames`, `ProducePackets`, `SendAll`,
  `PlayTicks`, `DeliverFile`, `HashParts`, `FeedParts`, `WriteFile`, `WriteRbsp`) stand for the caller that calls the
  source's functions again and again.

## What was found

- The frame-buffer guard of `OnFrameData` looks at the buffer before complete frames are taken out of it, so a stream
  whose frames and messages are all within the limits can be closed with 1009 because of how it is cut into reads. This
  cannot happen if and only if the buffer limit is at least the largest frame, less one byte, plus one read of 65536
  bytes (`WsHeadroom.BufferSufficesIff`). The default limits meet this (`WsHeadroom.DefaultsSuffice`).
- `write_ue` is right for every 32-bit value but the largest (`Bitstream.UeReadBackIff`). For 2^32 - 1 a single zero bit
  is written; in a flushed payload of its own it is read as the value 1 (`Bitstream.LargestUeIsReadAsOne`).
- A packetised unit can be recovered if and only if its type is 1 to 23 (`Packetizer.PacketsRoundTrip`); the packetiser
  does not look at the type.
- `docs/websocket.md:249` gives a peer the heartbeat timeout, from the ping, to answer; the code measures the timeout from
  the last activity (`src/server/ws/ws_session.cpp:383-389`). The documented rule holds in every run if and only if the
  timeout is no longer than the interval, which the clamp on the options leaves only where the two are equal
  (`WsHeartbeat.PingIsWaitedForIff`); the default options, 15 and 45 seconds, break it. A pinged peer always has one
  interval.
- The parameter sets that PLAY sends ahead of the stream are put at offset 12 of the packet, where the header ends up at
  offsets 4 to 15, so each loses its first four bytes, its type among them (`Delivery.ParameterSetIsCut`). Those in the
  stream itself are whole.
- `AsioTcpRtpSender` writes the media channel index, not the channel negotiated in SETUP. A client gets the frames on its
  negotiated channels if and only if they happen to agree (`Delivery.DeliverFile`, `Delivery.NegotiatedChannelIff`); on
  channels 2 and 3 it gets nothing (`Delivery.ChannelsTwoAndThree`).
- A Close without a status is answered with a Close whose payload is 03 ED (`WsEndings.PeerCloseIsAnswered`), the 1005
  that section 7.4.1 of RFC 6455 reserves and that must not be sent.
- OPTIONS announces GET_PARAMETER (`src/rtsp/rtspsession.cpp:222`), the only announced request that is not recognised
  between interleaved frames; it is dropped with all that is in the buffer (`Interleaved.AnnouncedRequests`).
- A timestamp that comes out as zero is taken for one that is not set, and the frame is stamped with the local clock
  (`src/rtp/h264source.cpp:41-43`). `Delivery.DeliverFile` gives the stamp of every other frame.
- The guard of the fragmenting loop wraps for a unit of 2^32 - 1 bytes, and only for that; then all of it is copied into
  one packet buffer of 1600 bytes (`Packetizer.CopiesFitIff`).

The model follows the code where comments disagree with it. The comment at `src/server/ws/ws_session.cpp:512` says that
closing is done once; `DoClose` proceeds, and calls the close handler, every time.
`include/server/http/http_parser.hpp:69-70` promises -1 on an error; `feed` returns the number of bytes used.
`include/ai-camera/rtp/rtp.h:79` says that the octet count leaves out headers; `src/rtp/rtptransport.cpp:99` adds the size
of the packet with them. When a file starts over, the frame counter does too (`src/rtsp/rtspsession.cpp:533`), so every
pass repeats the timestamps of the first one.

## Model

| member | source | states |
|---|---|---|
| WsFrame.ParseHeader | include/server/ws/ws_frame.hpp:73-143 | the result code and the header are the verdict that section 5.2 of RFC 6455 gives on the bytes: incomplete, malformed, or accepted with these fields |
| WsFrame.ReadLongLength | include/server/ws/ws_frame.hpp:115-131 | the eight-byte length is accepted exactly if it is below 2^32, and then read correctly |
| WsFrame.ApplyMask | include/server/ws/ws_frame.hpp:149-159 | in place, bit k of byte i becomes the sum modulo two of bit k of the byte and bit k of key byte i mod 4 |
| WsFrame.EncodeServerFrame | include/server/ws/ws_frame.hpp:167-198 | the frame is the unmasked header with the shortest length field, then the payload |
| WsFrame.DecodeStable | include/server/ws/ws_frame.hpp:73-143 | a verdict on a header never changes when more bytes arrive |
| WsFrame.DecodeEncoded | include/server/ws/ws_frame.hpp:73-143 | parsing inverts encoding in all length forms, masked or not, exactly for lengths below 2^32; longer ones are malformed |
| WsFrame.AcceptedIsCanonical | include/server/ws/ws_frame.hpp:73-143 | an accepted header is byte for byte the encoding of its fields, so only shortest lengths are accepted |
| WsFrame.MaskedTwice | include/server/ws/ws_frame.hpp:149-159 | masking twice with the same key is the identity, for every key and length |
| WsFrame.MaskedBits | include/server/ws/ws_frame.hpp:156-158 | bit k of masked byte i is the sum modulo two of bit k of byte i and bit k of key byte i mod 4 |
| WsFrame.ExamplesOfSection57 | include/server/ws/ws_types.hpp:14-21 | the frames of section 5.7 of RFC 6455, byte by byte, masked and unmasked, with their opcodes |
| WsFrame.LongExamplesOfSection57 | include/server/ws/ws_frame.hpp:167-198 | the two headers with extended lengths of the same section, byte by byte |
| WsReceive.FrameStepStable | src/server/ws/ws_session.cpp:158-237 | what the frame loop does at the front of the buffer does not depend on bytes still to come |
| WsReceive.ChunkIndependence | src/server/ws/ws_session.cpp:139-251 | on arbitrary bytes, if no read overflows the buffer, every cut into reads ends in the session of the uncut parse with the same left-over bytes, or leaves Active at the same frame for the same reason with the same logs |
| WsReceive.GuardIsDecisive | src/server/ws/ws_session.cpp:149-152 | on a stream that keeps the session Active, the received session is the expected one if and only if no read overflows the buffer |
| WsReceive.MemoryBounds | src/server/ws/ws_session.cpp:158-251 | from any bytes and state, messages stay within the limit, and a session that reads on holds less than one admissible frame |
| WsReactions.FrameReaction | src/server/ws/ws_session.cpp:158-361 | for every Active session and every frame of a client: it stays Active if and only if the frame is in order and within the limits; otherwise it is dropped with 1002 and nothing posted, posts a Close with 1009 and the reason, or answers a Close with its first two bytes, or 03 ED without them; every frame counts as heard unless something is too big |
| WsReactions.UnmaskedIsDropped | src/server/ws/ws_session.cpp:162-184 | a frame without a mask drops the connection with 1002 |
| WsReactions.MalformedIsDropped | include/server/ws/ws_frame.hpp:81-87 | so does a reserved bit or opcode, as soon as two bytes are there |
| WsReactions.HugeIsDropped | include/server/ws/ws_frame.hpp:115-131 | so does a header that announces 2^32 bytes or more, before any of them has arrived |
| WsReactions.OverflowIsTooBig | src/server/ws/ws_session.cpp:149-152 | a read that outgrows the buffer posts one Close with 1009, and nothing more is read |
| WsEndToEnd.EndToEnd | src/server/ws/ws_session.cpp:139-361 | for reads that follow each other, any messages, fragmentation, interleaved pings and pongs, keys and cut: the handler gets exactly the messages and each ping one pong in order, if and only if no read overflows the buffer |
| WsHeadroom.EndToEndWithHeadroom | src/server/ws/ws_session.cpp:139-361 | with room for one frame less a byte and one read, that holds for every cut into reads of at most 65536 bytes |
| WsHeadroom.NoRoom | src/server/ws/ws_session.cpp:149-152 | with less room than that, for any admissible size of frame, some conforming peer with only such frames is not heard |
| WsHeadroom.BufferSufficesIff | src/server/ws/ws_session.cpp:139-361 | every conforming peer is heard under every cut if and only if the buffer limit is at least the size of the largest frame within the limits, less one, plus the size of a read |
| WsHeadroom.DefaultsSuffice | include/server/ws/ws_types.hpp:72-73 | with the default limits every conforming peer is heard |
| WsHandshake.FindHeaderEnd | include/server/ws/ws_handshake.hpp:58-69 | the consumed count is the position behind the first blank line, or zero if there is none |
| WsHandshake.FirstEndStable | include/server/ws/ws_handshake.hpp:58-69 | the end of the request, once found, does not move when more bytes arrive |
| WsHandshake.FirstBlankLine | include/server/ws/ws_handshake.hpp:58-69 | the end that is found is the first CR LF CR LF, and it is found if there is one |
| WsHandshake.HandOverLosesNothing | src/server/ws/ws_session.cpp:60-125 | however request and frames are cut into reads, the session ends as if it had been opened first and then given the frame bytes alone |
| WsHandshake.ComputeAcceptKey | include/server/ws/ws_handshake.hpp:203-207 | 28 characters that decode to exactly the SHA-1 digest of the key and the GUID of section 1.3 of RFC 6455 |
| WsProtocols.Trim | include/server/ws/ws_handshake.hpp:136-150 | the result is the text without the white space around it, and nothing else is |
| WsProtocols.SplitHeaderTokens | include/server/ws/ws_handshake.hpp:153-169 | the tokens are the comma-separated parts, trimmed, in order, without empty ones |
| WsProtocols.JoinedNamesAreSplit | include/server/ws/ws_handshake.hpp:153-169 | names joined by commas with any white space around them are split into exactly these names |
| WsProtocols.TwoNames | include/server/ws/ws_handshake.hpp:153-169 | "chat, superchat", an example of section 1.3 of RFC 6455, is split into the two names |
| WsProtocols.NegotiateSubProtocol | include/server/ws/ws_handshake.hpp:172-200 | the first supported protocol among the names in the request's protocol header, or nothing if none is |
| WsSystem.StepEvolves | src/server/ws/ws_session.cpp:256-531 | in every step the state only moves forward, logs only grow, and a Close is posted only when leaving Active, and once |
| WsSystem.StepKeepsQueue | src/server/ws/ws_session.cpp:437-505 | every step keeps the queue invariant: at most one write, of the front of the queue; written and queued frames are the posted ones in order |
| WsSystem.WriteQueueSafety | src/server/ws/ws_session.cpp:437-505 | in every run: at most one write in progress, no pop of an empty queue, written frames are a prefix of the enqueued ones, at most one Close enqueued and nothing written after it |
| WsSystem.StateMovesForward | src/server/ws/ws_session.cpp:262-291 | over any continuation of any run the state does not move back and no log is rewritten |
| WsSystem.ReachableMemory | src/server/ws/ws_session.cpp:60-361 | in every state a new session can reach, messages, handshake buffer and frame buffer are within their limits |
| WsRuns.RunFromActive | src/server/ws/ws_session.cpp:139-531 | over every run of a session that reads, with writes, sends, timers and closes between the reads: what is delivered is a beginning of what the parse of all arrived bytes delivers, and all of it while the session is Active, with the same fragments and left-over bytes and its replies in order among the frames posted; if that parse leaves Active, so has the session |
| WsRuns.RunFromStart | src/server/ws/ws_session.cpp:54-531 | the same over every run of a new session, for the bytes behind the request |
| WsRuns.ScriptOverRuns | src/server/ws/ws_session.cpp:54-531 | in every run against a conforming peer the handler has got the first of its messages in order, none twice and none skipped; and all of them, with one pong per ping in order among the frames posted, if the session is Active when all bytes have arrived |
| WsRuns.WhatEndsASession | src/server/ws/ws_session.cpp:139-531 | with room for the largest frame less a byte and a read, only the application, a failed read or write, or the heartbeat ends the session of a conforming peer, in any run |
| WsEndings.OnlyAcceptedRequestsOpen | src/server/ws/ws_session.cpp:54-124 | in every run: a session that is Active or Closing, has been refreshed or has delivered anything has had a complete request that passes the upgrade check; one that is handshaking has had no blank line |
| WsEndings.RequestArrives | src/server/ws/ws_session.cpp:60-124 | what the next read makes of a session still waiting, in every run: a refused or oversized request closes it with 1002, a failed reply with 1006, in both cases for good and without a timer; an accepted one opens it and counts as activity |
| WsEndings.FrameOverRuns | src/server/ws/ws_session.cpp:139-361 | in every run, when the last bytes of any frame arrive behind frames that kept the session Active: it stays Active if and only if the frame is one to keep it; otherwise it is dropped with 1002, or the last frame posted is the Close that is due, byte by byte, with the replies to the frames before it in front, in order |
| WsEndings.PeerCloseIsAnswered | src/server/ws/ws_session.cpp:264-291 | in every run against a conforming peer that closes after its messages, in any cut: all messages have been delivered, one pong per ping is posted in order, and the last frame posted is the Close with the status received, or 1005; the session is Closing and reads no more |
| WsEndings.ReportedCodes | src/server/ws/ws_session.cpp:139-531 | for every step, exactly which codes the close handler gets: 1006 for a failed read, write or reply and for the heartbeat, 1000 for a written Close, 1002 for what arrives, and nothing otherwise |
| WsOutgoing.WhatIsPosted | src/server/ws/ws_session.cpp:373-453 | for every step, the frames it posts as their reader sees them: a text, binary or ping of the application with its opcode and payload, its close while Active, the automatic ping exactly when it is due; and all that is posted is whole frames |
| WsOutgoing.PeerReadsTheWire | src/server/ws/ws_session.cpp:410-505 | in every run the peer reads the wire as whole frames, which are the first of those posted, in order; and all messages and pings of the application are among those posted, in the order in which they were sent, each as it was given |
| WsHeartbeat.SetSessionOptions | include/server/ws/ws_server.hpp:64-69 | the heartbeat timeout is raised to the interval if it is below it, and nothing else changes |
| WsHeartbeat.SilentPeerIsClosed | src/server/ws/ws_session.cpp:363-396 | with a timer at most d late, whatever still happens while the session is Active happens at most timeout + 2 (interval + d) after the last accepted frame or handshake |
| WsHeartbeat.HeartbeatClosesIff | src/server/ws/ws_session.cpp:363-396 | after any run, a firing of the timer drops the connection if and only if the session is Active, a ping has been posted since the peer was last heard, and that was at least the timeout ago; the ping comes at least one interval after the peer was last heard |
| WsHeartbeat.LivelyPeerIsKept | src/server/ws/ws_session.cpp:363-396 | in every run with time running forward in which handshake and complete frames come less than the timeout apart, up to the last event that finds the session Active, the heartbeat never drops the connection |
| WsHeartbeat.PingIsWaitedForIff | src/server/ws/ws_session.cpp:363-396 | for all options, and a timer that is never early: in every run a dropped peer has had at least an interval since the ping, and it has had the timeout, as documented, if and only if the timeout is no longer than the interval (or no time passes at all); otherwise a run is constructed in which it has had less |
| WsHeartbeat.OnePingPerSilence | src/server/ws/ws_session.cpp:363-396 | between two frames from the peer at most one automatic ping is posted |
| WsHandlers.WsSession.ProcessFrame | src/server/ws/ws_session.cpp:162-237 | one turn of the loop does to the fields what one step of the specification does, and refreshes the heartbeat exactly for complete frames |
| WsHandlers.WsSession.ProcessFrameBuffer | src/server/ws/ws_session.cpp:158-251 | the loop handles every complete frame, keeps the rest, and reads on exactly while the session is neither closing nor closed |
| WsHandlers.WsSession.HandleControlFrame | src/server/ws/ws_session.cpp:256-311 | replies to pings, ignores pongs, and does with a Close what the step on frames does, which `WsReactions.FrameReaction` and `WsEndings.PeerCloseIsAnswered` pin down: a Close with the same status is posted |
| WsHandlers.WsSession.HandleDataFrame | src/server/ws/ws_session.cpp:316-361 | starts, continues, delivers or refuses a message |
| WsHandlers.WsSession.Close | src/server/ws/ws_session.cpp:437-453 | posts one Close frame with code and reason, only while Active |
| WsHandlers.WsSession.OnHandshakeData | src/server/ws/ws_session.cpp:54-124 | size limit, incomplete request, refusal, failed reply, or hand-over of the bytes behind the request; what each leads to is `WsEndings.RequestArrives` |
| WsHandlers.WsSession.OnWriteDone | src/server/ws/ws_session.cpp:467-505 | a completed write leaves the queue; a failure or a written Close drops the connection; otherwise the next write starts |
| WsHandlers.WsSession.OnHeartbeatTimer | src/server/ws/ws_session.cpp:373-396 | closes, pings or leaves the session alone, and arms the timer again unless it closed |
| WsHandlers.WsSession.Handle | src/server/ws/ws_session.cpp:139-531 | every handler of the class does what its step of the system does |
| WsHandlers.RunSession | src/server/ws/ws_session.cpp:27-531 | a new session to which a possible run happens is in the state the step system reaches, so the run theorems are about the class |
| Bitstream.BitWriter.WriteBit | tools/gen_test_h264.cpp:17-24 | appends one bit to the bits written |
| Bitstream.BitWriter.WriteBits | tools/gen_test_h264.cpp:26-29 | appends the n low bits of the value, highest first, also for negative values |
| Bitstream.BitWriter.WriteUe | tools/gen_test_h264.cpp:32-41 | appends the Exp-Golomb code of every 32-bit value but the largest, for which it appends a zero bit |
| Bitstream.BitWriter.WriteSe | tools/gen_test_h264.cpp:44-51 | appends the code of the number that section 9.1.1 of ITU-T H.264 maps to the signed value |
| Bitstream.BitWriter.Flush | tools/gen_test_h264.cpp:54-58 | appends the stop bit and as few zeros as align the output to bytes |
| Bitstream.TrailingBitsAre | tools/gen_test_h264.cpp:54-58 | the trailing bits are a one and fewer than eight zeros |
| Bitstream.WriteRbsp | tools/gen_test_h264.cpp:106-125 | the bytes of a cleared, filled and flushed writer hold the elements and the trailing bits |
| Bitstream.ReadUeCode | tools/gen_test_h264.cpp:32-41 | a reader following section 9.1 recovers every unsigned value and stops behind its code |
| Bitstream.ReadSeCode | tools/gen_test_h264.cpp:44-51 | a reader following section 9.1.1 recovers every signed value |
| Bitstream.UeLength | tools/gen_test_h264.cpp:32-41 | the code has 2 floor(log2(v + 1)) + 1 bits |
| Bitstream.FirstCodes | tools/gen_test_h264.cpp:32-51 | the first codes of section 9.1 and the first numbers of section 9.1.1, bit by bit |
| Bitstream.UeReadBackIff | tools/gen_test_h264.cpp:32-41 | whatever follows, a reader gets the value back and stops in front of it if and only if the value is not 2^32 - 1 |
| Bitstream.LargestUeIsReadAsOne | tools/gen_test_h264.cpp:32-58 | 2^32 - 1 written alone and flushed is read as 1 |
| Bitstream.RbspRoundTrip | tools/gen_test_h264.cpp:13-65 | reading elements of the same kinds from the bytes recovers any sequence of elements and leaves the trailing bits |
| Bitstream.LastByteNonZero | tools/gen_test_h264.cpp:54-58 | the last byte of a flushed payload is not zero |
| AnnexB.WriteNal | tools/gen_test_h264.cpp:70-101 | appends a four-byte start code and the escaped header and payload |
| AnnexB.UnescapeEscape | tools/gen_test_h264.cpp:75-101 | dropping prevention bytes as in section 7.3.1 gives back any unit, also after zeros already written |
| AnnexB.EscapeIsClean | tools/gen_test_h264.cpp:75-101 | no 00 00 00, 00 00 01 or 00 00 02 is written, and 00 00 03 only in front of a byte up to 03 |
| AnnexB.EscapeKeepsLast | tools/gen_test_h264.cpp:75-101 | the last byte of a unit is written as it is |
| AnnexB.EndOfUnit | src/rtp/rawh264source.cpp:162-171 | the inner loop ends at the next start code or at the end of the data |
| AnnexB.ExtractNALUnits | src/rtp/rawh264source.cpp:141-185 | the result is the list of non-empty units of the stream's tiling, in order, each with the type of its header byte |
| AnnexB.StreamIsTiled | src/rtp/rawh264source.cpp:141-185 | any bytes are a code-free prefix followed by start codes with code-free units |
| AnnexB.TilingIsUnique | src/rtp/rawh264source.cpp:141-185 | any such tiling of the bytes is the one that is found, so no start code straddles a boundary |
| AnnexB.FileUnits | tools/gen_test_h264.cpp:70-101 | of a written list of units, the scanner finds exactly as many, in order, clean, and each unescapes to what was written |
| AnnexB.WriteFile | tools/gen_test_h264.cpp:194-219 | the scanner finds in the written file one unit per unit, each with its header, its elements readable, and no zero byte at its end |
| AnnexB.FileRoundTrip | tools/gen_test_h264.cpp:70-101 | from the scanned file every unit's header and syntax elements are read back, and no unit ends in a zero byte |
| NalSource.RawH264Source.Open | src/rtp/rawh264source.cpp:10-43 | succeeds exactly if the file holds a unit; caches the units and the last parameter sets; says what a failed attempt leaves behind |
| NalSource.LastOfTypeIs | src/rtp/rawh264source.cpp:29-32 | the parameter set remembered is the last unit of its type |
| NalSource.LastOfTypeNone | src/rtp/rawh264source.cpp:29-32 | without such a unit the old one stays |
| NalSource.RawH264Source.ReadNextFrame | src/rtp/rawh264source.cpp:56-106 | a frame exactly if there is more data: the units up to the second one with picture data, without later delimiters |
| NalSource.RawH264Source.ReadAllFrames | src/rtp/rawh264source.cpp:56-106 | reading until there is no frame yields the frames of the grouping |
| NalSource.FramesPartition | src/rtp/rawh264source.cpp:56-106 | the frames together are the units in order, with exactly the delimiters after the first unit dropped |
| NalSource.GroupedMore | src/rtp/rawh264source.cpp:87-90 | of the units of a file a further one is kept unless it is a delimiter (type 9) and not the first |
| NalSource.FrameShape | src/rtp/rawh264source.cpp:56-106 | a frame is not empty and has at most one unit with picture data; frames after the first begin with it |
| NalSource.FrameCount | src/rtp/rawh264source.cpp:56-106 | there are as many frames as units with picture data, and one if there is none |
| Packetizer.H264Source.HandleFrame | src/rtp/h264source.cpp:37-123 | hands over the packets of the unit, each inside its own 1600-byte buffer, up to and including the first one that is refused |
| Packetizer.CopiesFitIff | src/rtp/h264source.cpp:60-111 | every copy of the fragmenting branch stays inside its packet's buffer if and only if the unit is shorter than 2^32 - 1 bytes; one of that length is copied into one buffer |
| Packetizer.H264Source.SendFragments | src/rtp/h264source.cpp:60-120 | the fragmenting loop hands over exactly the fragments of the unit |
| Packetizer.PacketShape | src/rtp/h264source.cpp:45-120 | payloads of at most 1420 bytes; marker exactly on the last; ceil((n - 1) / 1418) fragments with start flag exactly on the first, end flag exactly on the last, none empty |
| Packetizer.FragmentAt | src/rtp/h264source.cpp:68-119 | fragment k carries bytes 1418 k onward of the unit's body |
| Packetizer.PacketsRoundTrip | src/rtp/h264source.cpp:45-120 | a depacketiser following RFC 6184 recovers a unit if and only if its type is 1 to 23 |
| Packetizer.AllPacketsRoundTrip | src/rtp/h264source.cpp:45-120 | the packets of a list of such units carry exactly this list |
| PacketStream.VideoSession.FeedNextNALFrame | src/rtsp/rtspsession.cpp:527-550 | queues the packets of the next frame, rewinding at the end, with the timestamp of that frame; what is still to come is unchanged, or the whole file again; its timestamps are those of `PacketStream.TimestampAt` |
| PacketStream.TimestampAt | src/rtsp/rtspsession.cpp:539 | packet n of the file has the timestamp base + i * step modulo 2^32, with i the number of the frame it belongs to, counted by the packets of each frame |
| PacketStream.KeyframesAreIdr | src/rtsp/rtspsession.cpp:544 | exactly the packets of IDR slices are marked as those of a key frame |
| PacketStream.VideoSession.ProduceNextPacket | src/rtsp/rtspsession.cpp:511-525 | with an open file there is always a packet, and it is the next one of what is still to come |
| PacketStream.VideoSession.ProducePackets | src/rtsp/rtspsession.cpp:511-550 | packet k is element k of the endless repetition of the packetised file, with type and timestamp |
| PacketStream.VideoSession.LoadVideoFile | src/rtsp/rtspsession.cpp:25-69 | opens the file at its start, keeps the queue, and remembers the parameter sets of the first frame |
| PacketStream.LastOfIs | src/rtsp/rtspsession.cpp:48-56 | the parameter set sent ahead is the last unit of its type in the first frame |
| PacketStream.LastOfNone | src/rtsp/rtspsession.cpp:41-56 | without such a unit there is none |
| PacketStream.VideoSession.Play | src/rtsp/rtspsession.cpp:365-408 | the part of PLAY that concerns the stream: refused unless ready; otherwise the stream becomes what is queued and then the file from its start, again and again |
| PacketStream.EndlessAt | src/rtsp/rtspsession.cpp:527-537 | in closed form: the queue, then the file's packets with the index taken modulo their number |
| PacketStream.StreamIsTheFile | src/rtsp/rtspsession.cpp:511-550 | after k passes a depacketiser has the file's grouped units k times over and is not inside a unit |
| RtpFraming.RtpTransport.FillRtpHeader | src/rtp/rtptransport.cpp:182-195 | writes the twelve header bytes, leaves all others alone, and uses up one sequence number |
| RtpFraming.RtpTransport.Send | src/rtp/rtpsender.cpp:12-35 | writes the dollar sign, channel, length and packet, as far as the connection takes it, or nothing for a packet without content |
| Interleaved.WireFrameBytes | src/rtp/rtpsender.cpp:20-24 | a frame of three bytes on channel 1 is 24 01 00 03 and these bytes |
| RtpFraming.RtpTransport.SendRtpPacket | src/rtp/rtptransport.cpp:88-102 | the wire gets what is taken of the framed packet; the counters advance only on success, the sequence number always |
| RtpFraming.RtpTransport.SendAll | src/rtp/rtptransport.cpp:88-102 | of a list of packets, each taken as far as the connection will, frame k is numbered k after the first, and the channel is what the attempts make of it |
| RtpFraming.NumbersAreConsecutive | src/rtp/rtptransport.cpp:88-102 | what attempts make of a channel: numbers advance by one modulo 2^16 whether or not a packet went out, and the counters are those of the packets that did |
| RtpFraming.ParseFilled | src/rtp/rtptransport.cpp:182-195 | a filled packet parses by section 5.1 of RFC 3550 to version 2, marker equal to last, the channel's numbers, and the payload |
| Interleaved.FrameStepIsStable | src/rtsp/rtspsession.cpp:83-113 | what lies at the front of the buffer is decided independently of later bytes |
| Interleaved.RtspReader.ProcessInterleavedData | src/rtsp/rtspsession.cpp:83-113 | the handlers get the frames of the parse of the buffer, by channel; other bytes are taken for a request by their first letter and dropped |
| Interleaved.AnnouncedRequests | src/rtsp/rtspsession.cpp:102-104 | of the requests that OPTIONS announces, exactly GET_PARAMETER is not recognised between frames |
| Interleaved.OnlyAnnouncedRequests | src/rtsp/rtspsession.cpp:102-104 | nothing is recognised that does not begin like one of the others |
| Interleaved.RtspReader.OnBytes | src/rtsp/rtspsession.cpp:71-81 | a read is appended and parsed while playing or ready, and is a request otherwise |
| Interleaved.RtspReader.ReceiveAll | src/rtsp/rtspsession.cpp:71-113 | from a stream of frames in any chunks the handlers get all frames in order and nothing is left |
| Interleaved.FramingRoundTrip | src/rtsp/rtspsession.cpp:83-113 | any list of frames, framed and cut in any way, is split back into the same list |
| Delivery.Player.SendSpsPps | src/rtsp/rtspsession.cpp:423-446 | the remembered parameter sets go out, each if there is one, in frames whose header has replaced the first four bytes of the set; the numbers go on from there |
| Delivery.ParameterSetIsCut | src/rtsp/rtspsession.cpp:424-435 | such a frame parses to the set without its first four bytes, or not at all if there are fewer; never to the set |
| Delivery.Player.Play | src/rtsp/rtspsession.cpp:365-421 | refused unless ready; otherwise the file starts over, the parameter sets go out, and the timer starts |
| Delivery.StartPlaying | src/rtsp/rtspserver.cpp:21-45 | from accepting a connection through loading, SETUP and PLAY: the wire has the parameter sets, and the stream is the file from its start |
| Delivery.Player.SetPlaying | src/rtp/rtptransport.cpp:197-243 | playing starts the timer loop once and arms the timer, stopping ends it and cancels the timer, and repeating either changes nothing |
| Delivery.Player.OnTimer | src/rtp/rtptransport.cpp:245-276 | while playing, the next packet, if there is one, goes out as a parsed RTP packet on its channel, as far as the connection takes it, and the timer is armed again |
| Delivery.Player.PlayTicks | src/rtp/rtptransport.cpp:245-276 | after n turns the wire has what was taken of n frames: consecutive sequence numbers, markers, timestamps and payloads of the endless stream of the same file |
| Delivery.FileIsDelivered | src/rtsp/rtspsession.cpp:511-550 | frames that carry the stream behind some others, in any chunks, are found by a receiver, and depacketising gives the units of the file k times over |
| Delivery.DeliverFile | src/rtsp/rtspsession.cpp:25-550 | from the bytes of a file through the accepted connection, SETUP, PLAY, the timer and the wire: however the bytes are cut, a receiver gets the frames of the cut parameter sets and behind them the grouped units of the file k times over, in frames with consecutive numbers; in every pass frame n is stamped 3600 clock ticks later for each picture of the file before its own, unless that comes out as zero; and a client on its negotiated channels gets them if and only if these are 0 for RTP and another for RTCP |
| Delivery.NegotiatedChannelIff | src/rtp/rtpsender.cpp:20-24 | frames on one channel reach a client's RTP handler if and only if that is its RTP channel and not its RTCP channel |
| Delivery.DispatchedAsRtcp | src/rtsp/rtspsession.cpp:94-98 | frames on the RTCP channel go to the RTCP handler, even if the RTP channel is the same |
| Delivery.ChannelsTwoAndThree | src/rtp/rtpsender.cpp:20-24 | a client that has negotiated channels 2 and 3 gets nothing |
| Hashing.Sha1.ProcessBlock | src/ws/sha1.cpp:105-153 | one block is compressed as in section 6.1 of RFC 3174: eighty rounds, added to the chaining value |
| Hashing.Sha1.Schedule | src/ws/sha1.cpp:110-121 | the eighty words are those of the standard's recurrence on the big-endian block |
| Hashing.Sha1.RunRounds | src/ws/sha1.cpp:123-146 | the five rotating variables hold the standard's registers after eighty rounds |
| Hashing.RoundIs | src/ws/sha1.cpp:123-146 | one round in ordinary arithmetic: the rotations as products and quotients, choice, parity and majority bit by bit, the sum modulo 2^32 |
| Hashing.ScheduleBits | src/ws/sha1.cpp:119-121 | bit k of a word of the schedule is the sum modulo two of bit k + 1 of the words 3, 8, 14 and 16 before it |
| Hashing.ConstantsAreRoots | src/ws/sha1.cpp:127-138 | the constants of the rounds are 2^30 times the square roots of 2, 3, 5 and 10, rounded down |
| Hashing.InitialWords | src/ws/sha1.cpp:13-17 | the initial words, byte by byte |
| Hashing.CompressIs | src/ws/sha1.cpp:148-152 | after the rounds a block is added to the chaining value, word by word, modulo 2^32 |
| Hashing.Sha1.Update | src/ws/sha1.cpp:21-54 | after any update the object holds the hash of all whole blocks, fewer than 64 buffered bytes, and the bit count |
| Hashing.Sha1.PadToLength | src/ws/sha1.cpp:60-69 | the padding loop that feeds zeros through Update ends, with as few zeros as leave eight bytes of a block |
| Hashing.Sha1.Final | src/ws/sha1.cpp:56-92 | the digest of RFC 3174 of everything taken in, with the bit count from before the padding |
| Hashing.PaddedBits | src/ws/sha1.cpp:56-78 | what is hashed, bit by bit: the message, a one, fewer than 512 zeros that fill a block but for 64 bits, and the number of bits modulo 2^64 in these 64 |
| Hashing.DigestWords | src/ws/sha1.cpp:80-90 | the digest is the five words, each from its highest byte to its lowest |
| Hashing.Hash | src/ws/sha1.cpp:94-98 | the digest of the data |
| Hashing.HashParts | src/ws/sha1.cpp:21-92 | for every split into parts, empty ones included, the digest of the whole |
| Base64.Base64Encode | src/ws/sha1.cpp:159-195 | the encoding of section 4 of RFC 4648 |
| Base64.DecodedEncoded | src/ws/sha1.cpp:159-195 | decoding gives back every byte string |
| Base64.EncodedDecoded | src/ws/sha1.cpp:159-195 | a text the strict decoder accepts is the encoding of what it decodes to |
| Base64.LengthAndPadding | src/ws/sha1.cpp:159-195 | 4 ceil(n / 3) characters, of which exactly the last (3 - n mod 3) mod 3 are padding |
| Base64.TestVectors | src/ws/sha1.cpp:159-195 | test vectors of section 10 of RFC 4648, and one with the digits + and / |
| HttpParser.Parser.TryConsumeLine | src/server/http/http_parser.cpp:12-26 | the next line up to a line feed, without the carriage return in front of it |
| HttpParser.Parser.TakeHeaders | src/server/http/http_parser.cpp:96-140 | the loop over header lines stops where the parse of the buffer does: waiting, failed, or at the empty line |
| HttpParser.Parser.TakeBody | src/server/http/http_parser.cpp:142-163 | the body is as long as Content-Length says; the conversion may throw |
| HttpParser.Parser.Feed | src/server/http/http_parser.cpp:42-167 | one call takes the parse as far as it goes, returns the bytes used, and keeps the rest; after an error the buffer is not shortened; what the parse makes of a request is `HttpRequests.PrintedIsParsed` |
| HttpParser.ChunkIndependence | src/server/http/http_parser.cpp:42-167 | however a connection is cut into pieces, the parser ends in the same phase with the same request |
| HttpParser.RequestTakesHeaderAndBody | src/server/http/http_parser.cpp:96-163 | a finished request took the bytes up to the empty line and Content-Length more, which are its body |
| HttpRequests.PrintedIsParsed | src/server/http/http_parser.cpp:42-167 | round trip: of every request a client can write, in any layout of its lines, with names in any case, the parser finds the verb, the uri, the version, every field under its lower-cased name with the value of the last field of that name, and the body, and leaves what follows; with an unknown version it fails |
| HttpRequests.RequestLineIs | src/server/http/http_parser.cpp:58-90 | a first line of three words is taken, with its verb, uri and version, if and only if the last is HTTP/1.0 or HTTP/1.1 |
| HttpRequests.TooFewWords | src/server/http/http_parser.cpp:58-90 | a first line of fewer words is an error |
| HttpRequests.BadFieldIsRefused | src/server/http/http_parser.cpp:96-163 | behind good fields, a line without a colon is an error that leaves the rest, and a Content-Length that is no number makes the conversion throw |
| HttpParser.FeedParts | src/server/http/http_parser.cpp:42-167 | until an error, counts returned and bytes held are all bytes given; when done, the counts add up to header and body |

## Left out

- Sockets, threads, the io_context, random session ids, logging, reading files and clocks: only their effects appear, as parameters and logs.
- Races on the session state outside the strand: handlers are atomic steps.
- A claim that the close handler runs once, or that no message is delivered after the session has left Active: the code does not provide either.
- WsHandlers.WsSession.OnHandshakeData: parsing of the request text and the upgrade check are a function parameter, the text of the reply is not modelled, and a refusal does not show the 400 response.
- Interleaved.RtspReader.OnBytes: the RTSP request handlers are an append to a log that may leave any channels and state behind.
- Packetizer.H264Source.HandleFrame: requires a unit shorter than 2^32 - 1 bytes, because for that one length the wrapped guard (`Packetizer.CopiesFitIff`) leads outside the packet buffer, where the source has no defined meaning.
- RtpFraming.RtpTransport.SendRtpPacket: counters are unbounded, where the source has 64 bits, and the buffer of a packet has room for both headers.
- HttpParser.FeedParts: says nothing about a parser that is used again after the conversion of Content-Length has thrown.
- HttpParser.Parser.Feed: the states URI, VERSION and HEADER_VALUE are never entered by the code and do not exist here.
- Bitstream.WriteRbsp: takes the list of elements that the functions building parameter sets and slices write one by one.
- Delivery.DeliverFile: leaves out the RTSP responses, which are written to the same connection; and requires remembered parameter sets to fit a packet buffer, since the source copies longer ones out of bounds.
- PacketStream.VideoSession.Play: the text of request and response is not modelled; the parameter sets and the timer are part of Delivery.Player.Play.
- The UDP and multicast senders; RTCP.
- RTSP and SDP text, session setup, the initial sequence number and the playing flag, which have no initialiser: sequence numbers start anywhere.
- Router, Response and Server of the HTTP side, and requests that follow each other on one connection (`reset` drops the buffer).
- Access units: the marker is set for every unit, and nothing is claimed about pictures.
