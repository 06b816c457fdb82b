# MIDI over a cartridge and a network: a verified model

The repository carries an Atari ST's MIDI byte stream from a ROM cartridge (an RP2040 with Wi-Fi)
to an orchestrator that relays it round a ring of players. This project models the parts of it
where something can be lost, doubled, replayed or drawn wrong, and proves what they promise.
`dafny verify dfyconfig.toml` checks all of it.

**The byte pipe** (`rp/src/midi.c`)
- `ByteRing`: the two 16384-slot rings. `MidiPipe`: every handler of the driver as a method of one
  class that owns both rings, the link and the longwords shared with the Atari. Its `View()` is a
  value of the session machine in `Session`, and each method's contract says which step of that
  machine it takes, and what is written to the connection besides; `Session` then proves what holds
  over whole runs (no byte of one session is replayed in another), and `PoliteServer` under which
  condition on the server's bytes. `InRing` says which bytes a receive leaves in the IN ring,
  `Drain` how far a drain of the OUT ring goes and why it ends, `LinkLaws` how a session comes up
  and what single events do.
- `OutStream`: one WebSocket session end to end, from the OUT ring to the orchestrator's decoder.
- `Bconin`: the shared-memory handshake with the Atari's interrupt hook, one store or load a step.

**The two WebSocket codecs**
- `StreamParser` is the theory of incremental parsers: chunk independence and delivery for any
  parser whose verdicts later bytes cannot change. `FrameCodec` (`orchestrator/ws.py`) is an
  instance of it.
- `DeviceWs` (`rp/src/midi_ws.c`) is a byte machine, and the class that refines it a segment at a
  time. `Digest` is the SHA-1, base64 and accept key of the same file.
- `WireLaws` and `KnownAnswers` tie both to what lies outside: the machine's exclusive or, the
  examples of RFC 6455, the test vectors of RFC 3174.

**The orchestrator** (`orchestrator/orchestrator.py`)
- `RingRegistry`: one ring under churn. `OrchestratorRooms`: the room table and its reaper.
  `RoomRuns`: all handlers as atomic steps between awaits, over whole runs, and where every relayed
  chunk goes. `RoomLaws`: what each step does, in plain sequences and tables. `NeverJoined`: when
  the reaper spares a room nobody has joined.

**The command channel** (`rp/src/include/tprotocol.h`, `rp/src/chandler.c`)
- `CommandParser`: the timed word parser. `TokenReply`: the pending slot, the reply, and the polling
  waiter on the Atari, interleaved.

**Drawing**
- `Polygon`, `Circle`, `Line`, `HvLine`, `Xbm`, `Glyph` (`rp/src/u8g2`) and `Terminal`
  (`rp/src/term.c`): each loop against a closed form or a plain specification. `CircleLaws`,
  `GlyphLaws` and `TerminalLaws` say pixel by pixel, bit by bit and cell by cell what those
  specifications come to.

`Bytes` and `Arithmetic` hold what several modules share.

## Reading the contracts

The C code changes things in place, so the model does too: classes with the source's fields, arrays
where the source has buffers, loops where it has loops. Ghost fields (`contents`, `handed`,
`wire`, `offers`, `windows`, `stores`, `painted`, `spans`, `log`) are histories; no code reads them. Eras in `Session`
number the sessions, so that a byte knows where it came from. Bytes are numbers below 256, and a
disjoint bitwise or of shifted values is written as their sum. Widths are modelled where they
matter: the acknowledge counter, the reply counter and the checksum wrap, coordinates of lines are
16 bits wide.

## Assumptions

- `tcp_write` takes a write whole or not at all; window, success and mask keys are arbitrary.
- Loads and stores of a longword are atomic; the two longwords of a reply may be stored in either order.
- lwIP delivers a connect result, data or an error only to a connection that exists.
- No reload happens while a name look-up is outstanding.
- `Bconin` covers runs in which the IN ring is not flushed under a reader.
- Coordinates of polygons and circles are small enough for 16-bit differences; lines are modelled
  for all 16-bit coordinates with 15-bit differences.
- `pixel_buf_width` is eight times the tile width, as every u8g2 setup has it.
- A glyph is at most 127 by 127, so that the decoder's signed 8-bit fields do not wrap, and the font
  holds one byte more than the glyph, which the bit reader fetches ahead.

## What turned out false

Each of these keeps the code as it is, shows where it fails, and proves exactly when it does not.

- `midi_ws_decode` keeps decoding a segment after its close callback has reset the link, so data
  behind a Close frame is queued for the next session: a run from boot shows it
  (`Session.CloseThenDataLeaks`), and it happens exactly when data follows a close
  (`Session.DropIsClean`, `Session.ReceivedFresh`). A server that sends no data behind a close, as
  section 5.5.1 of RFC 6455 asks, never meets it, however its bytes are cut
  (`Session.NoReplay`, `PoliteServer.NoReplayFromBoot`).
- The docstring of `reap_empty` says a provisioned, never-joined room is left alone. A join overtaken
  by a deletion marks the key although it was admitted to the default ring; the room created next
  under that key is reaped (`RoomRuns.StaleJoinRun`, `RoomRuns.NeverJoinedIsReaped`). In runs without
  such a join the docstring holds (`NeverJoined.NeverJoinedAreKept`), and in any reachable state
  such rooms are safe if and only if every key marked used has had a player
  (`NeverJoined.SafeIffMeant`).
- The comment in `chandler_loop` says the seed must differ from the request token. For one boot value
  in 2^32 it does not (`TokenReply.FirstReplySeen`), and a late reply to a command that timed out can be
  taken for the answer to the next one: exactly when it carries the new token and its count, still to be
  stored, differs
  (`TokenReply.FooledIffDeceptive`), which a run from boot brings about (`TokenReply.FooledFromBoot`).
- The last word of a command of odd size is received but not summed (`CommandParser.OneWordAltered`),
  and a size altered by one so that the number of words stays is noticed exactly when the last word
  is not 0xFFFF (`CommandParser.SizeWordAltered`).
- The comment of the terminal's ESC J says it erases to the end of the screen. It blanks the corner
  below and to the right of the cursor, which is the rest of the screen, whatever it holds, if and
  only if the cursor is in the first column or the last row (`TerminalLaws.EraseToEndIff`).
- `pg_hline` draws nothing when its edges are exchanged and the smaller one is off the left side
  (`Polygon.ClippingExact`), so that a plain triangle across the left border loses lines
  (`Polygon.TriangleLosesLines`); an area comes out whole if and only if no scan line of it is of
  that kind (`Polygon.WholeIffNoneLost`).
- A line whose major axis ends at 0xFFFF stops one pixel short, and no other does
  (`Line.EndpointsDrawn`).
- The device expects an empty answer when its key is longer than 60 characters
  (`Digest.HandshakeAgrees`); its own keys have 24.

Other places where the documentation and the code differ, and the model follows the code: the comment
of `midi_net_send_byte` says a byte is dropped while the link is down, but it is queued;
`MAX_PROTOCOL_PAYLOAD_SIZE` lacks parentheses, so the payload buffer has 2080 words;
`WsConn.recv` returns end of file for a read that holds a Close, discarding data in front of it
(`OutStream.RecvFrames`), which is why the stream theorems are about decoded frames.

## Model

| member | source | states |
|---|---|---|
| StreamParser.DrainSplit | orchestrator/ws.py:139-147 | for any stable parser: draining a buffer equals draining its first part and resuming with the rest, frames, residue and error alike |
| StreamParser.ChunkIndependence | orchestrator/ws.py:139-147 | feeding any partition of a stream gives the frames and residual buffer of feeding it whole, when no error is raised on the way |
| StreamParser.AllDelivered | orchestrator/ws.py:139-147 | a stream of frames that each read back is delivered exactly, whatever the chunks |
| StreamParser.SomeDelivered | orchestrator/ws.py:139-147 | any cut-off part of such a stream raises no error and delivers a prefix of the frames |
| FrameCodec.EncodeFrame | orchestrator/ws.py:89-108 | the wire bytes of a frame, or the error for a key that is not four bytes or a length over 64 bits |
| FrameCodec.FrameDecoder.constructor | orchestrator/ws.py:135-137 | an empty buffer and the payload limit |
| FrameCodec.FrameDecoder.Next | orchestrator/ws.py:149-181 | takes exactly the first frame off the buffer, or leaves the buffer alone |
| FrameCodec.FrameDecoder.ReadLength | orchestrator/ws.py:155-166 | the length field of every class, and where it ends |
| FrameCodec.FrameDecoder.TakeBody | orchestrator/ws.py:169-181 | key, payload and unmasking behind it |
| FrameCodec.FrameDecoder.Feed | orchestrator/ws.py:139-147 | the loop drains the buffer: frames, residue and error are those of the stream theory |
| FrameCodec.ParseExtends | orchestrator/ws.py:149-181 | a verdict on a buffer is never changed by bytes that arrive later |
| FrameCodec.FrameParserStable | orchestrator/ws.py:149-181 | so chunk independence holds of this decoder |
| FrameCodec.LengthFieldRoundTrip | orchestrator/ws.py:96-104 | the 16- and 64-bit length fields read back (section 5.2 of RFC 6455) |
| FrameCodec.ParseEncoded | orchestrator/ws.py:89-181 | an encoded frame, masked or not, of any length class reads back exactly when its payload is within the limit, and is refused when it is not |
| FrameCodec.SentIsRead | orchestrator/ws.py:89-181 | every frame of a list reads back in its place |
| FrameCodec.StreamRoundTrip | orchestrator/ws.py:139-181 | any list of encoded frames, in any chunks, decodes to exactly the original opcodes and payloads with nothing left over |
| FrameCodec.PartialDelivery | orchestrator/ws.py:139-181 | while bytes are still on their way the frames returned are a prefix of those sent |
| WireLaws.XorIsMachine | rp/src/midi_ws.c:149-151 | masking is the machine's exclusive or of two bytes |
| WireLaws.MaskedByte | orchestrator/ws.py:107 | byte i of a masked payload is the exclusive or of byte i with byte i mod 4 of the key |
| WireLaws.ZeroKey | orchestrator/ws.py:107 | a zero key leaves the payload as it is |
| WireLaws.HelloOnTheWire | orchestrator/ws.py:89-108 | the unmasked text frame, the masked text frame and the ping of section 5.7 of RFC 6455 come out byte for byte as given there |
| WireLaws.SmallFramesOnTheWire | orchestrator/ws.py:89-108 | frames of at most 125 bytes written out: first byte 0x80 and the opcode, the length with the mask bit, the key, the payload |
| WireLaws.LongFramesOnTheWire | orchestrator/ws.py:94-104 | the first bytes of frames of 125, 126, 256, 65535 and 65536 bytes, the most significant length byte first |
| WireLaws.DeviceRefuses | rp/src/midi_ws.c:171-201 | whatever two bytes a frame begins with, the device refuses a masked frame and a control frame of more than 125 bytes, and nothing else |
| WireLaws.DeviceIgnoresHighBits | rp/src/midi_ws.c:171-178 | FIN and the reserved bits mean nothing to the device |
| WireLaws.ServerIgnoresHighBits | orchestrator/ws.py:149-181 | nor to the server, whatever follows |
| DeviceWs.BuildFrame | rp/src/midi_ws.c:134-153 | the device's frame builder writes the bytes of the server's encoder, masked |
| DeviceWs.MaskInto | rp/src/midi_ws.c:149-151 | the masking loop writes the masked payload in place |
| DeviceWs.RunSplit | rp/src/midi_ws.c:163-247 | the byte machine on a then b is the machine on a and b together |
| DeviceWs.SegmentationIndependence | rp/src/midi_ws.c:163-247 | any cut of the same bytes into segments gives the same events and the same final state |
| DeviceWs.RunOfPayload | rp/src/midi_ws.c:209-233 | a stretch of payload bytes absorbed at once is the same as byte by byte |
| DeviceWs.RunOfSlice | rp/src/midi_ws.c:210-225 | so one slice of a segment can stand for its bytes |
| DeviceWs.Decoder.constructor | rp/src/midi_ws.c:158-161 | a decoder starts before a frame |
| DeviceWs.Decoder.Init | rp/src/midi_ws.c:158-161 | and can be put back there at any time |
| DeviceWs.Decoder.TakeOpcode | rp/src/midi_ws.c:171-178 | one step of the byte machine on an opcode byte |
| DeviceWs.Decoder.TakeLength | rp/src/midi_ws.c:179-201 | one step on a length byte; a mask bit or an over-long control frame is an error |
| DeviceWs.Decoder.TakeExtended | rp/src/midi_ws.c:202-208 | one step on a byte of an extended length |
| DeviceWs.Decoder.TakePayload | rp/src/midi_ws.c:214-224 | a run of payload: reported at once, or stored without truncation in a control frame |
| DeviceWs.Decoder.EndFrame | rp/src/midi_ws.c:226-231 | reports exactly the control frame that has just been completed |
| DeviceWs.Decoder.TakeSlice | rp/src/midi_ws.c:210-225 | what the segment has of the payload is absorbed and reported as the byte machine would |
| DeviceWs.Decoder.PayloadArm | rp/src/midi_ws.c:209-233 | the arm either consumes bytes or leaves the payload state: the step that consumes nothing cannot repeat |
| DeviceWs.Decoder.Arm | rp/src/midi_ws.c:170-236 | each turn of the switch keeps the callbacks in step with the byte machine |
| DeviceWs.Decoder.Decode | rp/src/midi_ws.c:163-247 | the buffered decoder refines the byte machine: same events, same final state, same verdict, for any segment |
| DeviceWs.RunOfLength | rp/src/midi_ws.c:179-208 | the machine reads every length class back |
| DeviceWs.RunOfHeader | rp/src/midi_ws.c:171-208 | and every unmasked header |
| DeviceWs.RunOfFrame | rp/src/midi_ws.c:163-247 | it inverts the server's unmasked encoder for every opcode and length class |
| DeviceWs.OnlyLongControlRefused | rp/src/midi_ws.c:185-187 | an encoded frame is refused if and only if it is a control frame of more than 125 bytes |
| DeviceWs.RunOfWire | rp/src/midi_ws.c:163-247 | the server's frames in one piece decode to exactly their events, in order |
| DeviceWs.ControlsAreShort | rp/src/midi_ws.c:185-187 | a control frame the decoder reports is never longer than 125 bytes, so its buffer holds it whole |
| DeviceWs.DownstreamTransparent | rp/src/midi_ws.c:163-247 | any list of server frames, in any segments, gives exactly the events of those frames, data bytes and control frames alike, and leaves the decoder between frames; the data bytes among them are the payloads of the data frames |
| DeviceWs.WireDelivers | orchestrator/orchestrator.py:304-305 | the data bytes among the events of any frames are their data payloads, in order |
| Digest.Base64Length | rp/src/midi_ws.c:17-42 | base64 output has four characters for every started group of three bytes (section 4 of RFC 4648) |
| Digest.Base64RoundTrip | rp/src/midi_ws.c:17-42 | base64 output decodes back to the input |
| Digest.WriteGroup | rp/src/midi_ws.c:21-24 | the four shifted and masked table look-ups are the base-64 digits of the group |
| Digest.EncodeBase64 | rp/src/midi_ws.c:17-42 | the buffer holds the base64 of the input and its terminator, within 4*ceil(n/3)+1 characters |
| Digest.EncodeGroup | rp/src/midi_ws.c:20-26 | one turn of the loop |
| Digest.EncodeRest | rp/src/midi_ws.c:27-40 | the last one or two bytes, padded |
| Digest.Expand | rp/src/midi_ws.c:48-54 | the 80 words of the message schedule (section 6.1 of RFC 3174) |
| Digest.Hash.AddBlock | rp/src/midi_ws.c:47-84 | the loop with its rotating registers computes the recursive block function |
| Digest.Gap | rp/src/midi_ws.c:95-101 | the padding is the least that completes a block |
| Digest.Hash.AddTail | rp/src/midi_ws.c:94-106 | one block below a remainder of 56 and two from there: the fold over the tail with its padding (section 4 of RFC 3174) |
| Digest.Hash.Digest | rp/src/midi_ws.c:86-114 | for every length, the digest is the fold of the block function over the padded message |
| Digest.BigEndian | rp/src/midi_ws.c:102-113 | length and state bytes, each shifted down from its place, are the big-endian encoding |
| Digest.AcceptKey | rp/src/midi_ws.c:118-131 | the expected answer, or the empty string for a key that does not fit the buffer |
| Digest.AnswerHoldsDigest | orchestrator/ws.py:35-38 | the answer is 28 characters and the digest can be read back from it |
| Digest.SameAnswer | orchestrator/ws.py:35-38 | two keys get one answer exactly when their digests collide |
| Digest.HandshakeAgrees | rp/src/midi_ws.c:118-131 | device and server agree on the answer if and only if the key has at most 60 characters |
| KnownAnswers.AbcDigest | rp/src/midi_ws.c:46-114 | the digest of "abc" is A9993E36 4706816A BA3E2571 7850C26C 9CD0D89D (section 7.3 of RFC 3174) |
| KnownAnswers.SampleDigest | rp/src/midi_ws.c:46-114 | a message of two blocks: the digest of the sample key and the GUID, as section 1.3 of RFC 6455 gives it |
| KnownAnswers.SampleAnswer | rp/src/midi_ws.c:118-131 | the sample key of section 1.3 of RFC 6455 is answered s3pPLMBiTxaQ9kYGzzhZRbK+xOo= |
| KnownAnswers.AlphabetIs | rp/src/midi_ws.c:17-24 | the alphabet of section 4 of RFC 4648 |
| KnownAnswers.EncodedVectors | rp/src/midi_ws.c:17-42 | one, two and three bytes encoded as section 10 of RFC 4648 does |
| ByteRing.Ring.constructor | rp/src/midi.c:106-119 | an empty ring |
| ByteRing.Ring.Empty | rp/src/midi.c:121-132 | head equals tail exactly when nothing is queued |
| ByteRing.Ring.Push | rp/src/midi.c:106-119 | appends, or refuses exactly when the ring holds one less than its size |
| ByteRing.Ring.Head | rp/src/midi.c:121-132 | the oldest byte |
| ByteRing.Ring.Skip | rp/src/midi.c:731-733 | removes from the front, and moves the tail round by as much |
| ByteRing.Ring.Flush | rp/src/midi.c:582-592 | forgets everything |
| ByteRing.Ring.Contiguous | rp/src/midi.c:537-547 | the longest run within the limit that does not cross the wrap: its length is the least of what is queued, what lies in front of the wrap, and the limit |
| Session.OnEventsSplit | rp/src/midi.c:260-277 | callbacks on two lists of events are callbacks on the joined list |
| Session.CallbackEffect | rp/src/midi.c:260-277 | decoder callbacks with a close among them drop the link and leave exactly the data behind the last close in the ring; without one they change nothing but the IN ring |
| Session.SegmentsFresh | rp/src/midi.c:384-397 | segments received while UP leave only this session's bytes, or none, unless data followed a close |
| Session.ReceivedFresh | rp/src/midi.c:364-419 | a receive keeps the IN ring free of old bytes if and only if no data frame follows a close in the same segment |
| Session.OthersFresh | rp/src/midi.c:174-197 | every other event keeps both rings free of bytes of earlier sessions |
| Session.SegmentsDrop | rp/src/midi.c:384-397 | segments either leave the link up, adding to the IN ring and nothing else, or lose it with nothing left to send and no byte shown; bytes are left behind if and only if data follows a close |
| Session.HandshakeDrops | rp/src/midi.c:326-362 | the same of the bytes that complete the handshake |
| Session.AskedSplit | rp/src/midi.c:268-272 | the pings to be answered in two lists of events are those of the first, then those of the second in the state the first leaves |
| Session.EveryPingAsked | rp/src/midi.c:268-272 | as long as no close arrives, every ping is to be answered, in order |
| InRing.CallbacksQueue | rp/src/midi.c:106-119 | callbacks without a close append exactly their data bytes, in order, as far as the ring has room, and change nothing else |
| InRing.CallbacksUpToClose | rp/src/midi.c:260-277 | so it is of the data in front of a close, which then empties the ring |
| InRing.SegmentsQueue | rp/src/midi.c:384-397 | so it is of segments received while UP |
| InRing.UpReceives | rp/src/midi.c:384-411 | a receive while UP: every data byte decoded is queued as far as there is room, the head of the ring is shown, and nothing else changes |
| InRing.UpEnds | rp/src/midi.c:384-411 | a receive while UP loses the link if and only if it holds a close or bytes the decoder refuses |
| InRing.FramesArrive | rp/src/midi.c:384-411 | in the server's terms: frames without a close, cut into any segments, add exactly their data payloads |
| InRing.TcpReceives | rp/src/midi.c:398-411 | over plain TCP every received byte is queued, as far as there is room, and the head of the ring is shown |
| LinkLaws.HeaderEndIs | rp/src/midi.c:334-341 | the header ends behind the first CR LF CR LF of the response, or not at all when there is none |
| LinkLaws.ShakeReceives | rp/src/midi.c:326-362 | bytes of the response: more than 512 of them or a wrong response end the attempt, without a blank line they are kept, with one the link is UP and the frames behind it are received, unless a close or an error is among them, which ends it |
| LinkLaws.TcpComesUp | rp/src/midi.c:430-447 | from boot the link is UP over plain TCP once the connection is |
| LinkLaws.WsComesUp | rp/src/midi.c:326-362 | and over WebSocket once a right response of at most 512 bytes has arrived, in two receives cut anywhere before its end |
| LinkLaws.PingsAsked | rp/src/midi.c:268-272 | frames without a close, cut into any segments, ask for exactly the answers to their pings, in order and with their payloads |
| LinkLaws.PingsBehindResponse | rp/src/midi.c:343-361 | so do the frames that come in behind the upgrade response |
| LinkLaws.AtariByte | rp/src/midi.c:510-523 | a byte from the Atari is queued whatever the link does, unless 16383 bytes wait already |
| LinkLaws.AdvanceShowsNext | rp/src/midi.c:730-742 | an advance takes the head of the IN ring away and shows the next byte |
| LinkLaws.LostForgets | rp/src/midi.c:184-197 | a lost link, and an attempt that fails at once, leave nothing behind but the history |
| LinkLaws.DrainHandsOver | rp/src/midi.c:554-557 | a drain hands over the front of the OUT ring in order, and nothing else changes |
| LinkLaws.CleanupEmpties | rp/src/midi.c:576-596 | the cleanup empties the rings that are stale, and takes the shown byte away with the IN ring |
| Session.DropIsClean | rp/src/midi.c:184-197 | every event that ends a session, a close frame, a protocol error or a refused upgrade inside a receive included, leaves the link down without a connection, the OUT ring and the handshake bytes empty; the IN ring is empty and the status published as none if and only if no data follows a close |
| Session.CarrierKept | rp/src/midi.c:364-467 | UP or handshaking only with a connection, down only without one, and the handshake only over WebSocket: every event keeps all three |
| Session.NoReplay | rp/src/midi.c:174-197 | in every run in which the server is quiet after a close, each byte handed over entered the ring after the previous session ended and each byte in the IN ring was received in this one |
| Session.CloseThenDataLeaks | rp/src/midi.c:384-397 | a run of four events from boot, the last a segment with a close and a data frame behind it, after which a byte of the dead session is queued while the link is down |
| PoliteServer.PoliteIsQuiet | rp/src/midi.c:384-397 | frames with no data frame behind a close decode to events with no data behind a close |
| PoliteServer.PoliteDecodes | rp/src/midi_ws.c:163-247 | so does any part of their bytes that has arrived |
| PoliteServer.PoliteIsEnough | rp/src/midi.c:364-419 | over WebSocket, whatever the segments and reconnects: if on each connection the bytes behind the response are frames with no data behind a close, no step of the run leaks and no byte is replayed |
| PoliteServer.NoReplayFromBoot | rp/src/midi.c:174-197 | the same of every run from boot |
| MidiPipe.Tcp.SndBuf | rp/src/midi.c:535-536 | any window; what was reported is on record |
| MidiPipe.Tcp.Write | rp/src/midi.c:552-563 | a write is taken whole or not at all |
| MidiPipe.BufferShows | rp/src/midi.c:121-132 | the low byte of the published longword is the head byte |
| MidiPipe.FindHeaderEnd | rp/src/midi.c:334-341 | the scan finds the end of the first blank line |
| Session.HeaderEndStays | rp/src/midi.c:334-341 | more bytes do not move it |
| MidiPipe.Pipe.constructor | rp/src/midi.c:845-860 | boot state: nothing queued, nothing published, link down |
| MidiPipe.Pipe.InPush | rp/src/midi.c:106-119 | one byte at the end of the IN ring, or dropped when 16383 are there; the first one starts the ring's clock |
| MidiPipe.Pipe.InPublish | rp/src/midi.c:121-132 | publishes the head byte, then the status; no byte and no status when empty |
| MidiPipe.Pipe.FlushQueues | rp/src/midi.c:174-180 | both rings empty, handshake bytes gone, status published as none |
| MidiPipe.Pipe.Reset | rp/src/midi.c:184-197 | the session machine's drop |
| MidiPipe.Pipe.ResetInCallback | rp/src/midi.c:273-275 | the drop from inside the close callback |
| MidiPipe.Pipe.SendFrame | rp/src/midi.c:246-257 | one masked frame whose payload is cut to a chunk is given to TCP, and is on the wire when TCP took it; without a connection nothing is; nothing else changes |
| MidiPipe.Pipe.OnDataRun | rp/src/midi.c:260-266 | a payload run is the data events of its bytes |
| MidiPipe.Pipe.OnControl | rp/src/midi.c:268-277 | a ping that finds the connection is answered by one masked pong with its payload, a close drops the link, and nothing else is written |
| MidiPipe.Pipe.Dispatch | rp/src/midi.c:260-277 | the callbacks of a decode call are the machine's events, in order; one pong is given to TCP for each ping that finds the connection, in order and with its payload, those taken are on the wire, and nothing else is written |
| MidiPipe.Pipe.DecodeSegment | rp/src/midi.c:387-392 | one segment, with its reset on an error; what is written is its pongs |
| MidiPipe.Pipe.HandshakeData | rp/src/midi.c:326-362 | header collection, its limit, the upgrade and the frames behind it; what is written is their pongs |
| MidiPipe.Pipe.WsSegments | rp/src/midi.c:386-394 | the segment loop, stopped by a reset; what is written is the pongs of the segments before it |
| MidiPipe.Pipe.RecvCb | rp/src/midi.c:364-419 | the receive callback is the session machine's receive, in both transports: over TCP, and over WebSocket while UP without a close, the bytes received are added to the IN ring as far as there is room and its head is published; what is written to the connection is one pong for each ping that finds it there, and nothing else |
| MidiPipe.Pipe.ConnectTo | rp/src/midi.c:451-467 | the connection attempt and its failures |
| MidiPipe.Pipe.ConnectedCb | rp/src/midi.c:430-447 | UP over TCP, the handshake over WebSocket |
| MidiPipe.Pipe.SendByte | rp/src/midi.c:510-523 | an OUT byte goes to the end of the ring whatever the link does, and is dropped only when 16383 are there; the first one starts the ring's clock |
| MidiPipe.Pipe.ConsumeIn | rp/src/midi.c:730-742 | the head of the ring goes, then byte and status of the next are published, then the acknowledgement, in that order |
| MidiPipe.Pipe.Rom3Consumer | rp/src/midi.c:722-750 | a sample closes the gate, takes the head of the IN ring, adds its byte to the OUT ring or is not for MIDI; nothing else changes |
| MidiPipe.RouteByBits | rp/src/midi.c:722-750 | which of these it is, for any sample written bit by bit: bit 10 before bit 9 before bit 8, the byte in the low eight, and nothing while the gate is closed |
| MidiPipe.Pipe.QueueCleanup | rp/src/midi.c:576-596 | a queue that holds bytes and has not moved for more than a second is emptied, and only then |
| MidiPipe.Pipe.DrainFrame | rp/src/midi.c:540-557 | one frame: its payload is the front of the ring, cut to exactly what is queued, contiguous, within the window less eight bytes and within 1024; on the wire exactly when it left the ring |
| MidiPipe.Pipe.DrainTurnWs | rp/src/midi.c:535-557 | one turn of the loop: a window of at most eight bytes or a refused write ends the drain and leaves the ring alone, else the queue is shorter by exactly one such frame |
| MidiPipe.Pipe.FlushOutWs | rp/src/midi.c:529-572 | what left the ring is, in order, the payloads of the masked frames on the wire, one window and one write each; the drain ends only with the ring empty, a window of at most eight bytes, or a refused write |
| MidiPipe.Pipe.DrainRun | rp/src/midi.c:559-565 | the same for a raw run over plain TCP, cut to the window |
| MidiPipe.Pipe.FlushOutTcp | rp/src/midi.c:529-572 | over plain TCP the bytes that left the ring are the wire bytes; the drain ends only with the ring empty, a window of 0, or a refused write |
| MidiPipe.Pipe.FlushOut | rp/src/midi.c:529-532 | the drain of the transport in use, to its end, while UP; nothing unless UP |
| MidiPipe.Pipe.TryConnect | rp/src/midi.c:484-505 | literal, cached, pending and failed look-ups |
| MidiPipe.Pipe.Poll | rp/src/midi.c:618-665 | drain to one of those ends, then discard each queue that is stale by the one-second rule, counting the drain as movement, and reconnect only when down, enabled, addressed and due |
| Drain.GoesOn | rp/src/midi.c:534-565 | a write that is taken is one piece more, cut to exactly that size |
| Drain.Ends | rp/src/midi.c:534-565 | a drain that goes on ends with the ring empty, with a window without room, or with a refused write, and says which |
| Drain.OpenDrainEmpties | rp/src/midi.c:529-572 | with room in every window and every write taken, a drain empties the ring |
| Drain.DrainStarts | rp/src/midi.c:534-565 | with bytes queued the window is asked for, and with room in it a write is offered; taken, its piece is exactly one cut of the front of the queue |
| MidiPipe.ServedTwice | rp/src/midi.c:246-257 | answers add up: two stretches in which only the pongs owed were written make one |
| MidiPipe.OnEventsIgnoresDec | rp/src/midi.c:260-277 | the callbacks neither read the decoder nor change it |
| OutStream.DrainConserves | rp/src/midi.c:529-572 | a drain keeps the account of the session: framed bytes and queue together are the accepted bytes |
| OutStream.PongConserves | rp/src/midi.c:268-272 | an interleaved pong adds nothing to the data |
| OutStream.PlayConserves | rp/src/midi.c:510-572 | so does any run of enqueues, drains and pongs |
| OutStream.Transparent | rp/src/midi.c:529-572 | for any windows, write failures, mask keys, pongs and chunking, the data the server decodes is a prefix of the accepted bytes, and with the whole wire delivered that prefix and the ring are all of them |
| OutStream.AnswersArePongs | rp/src/midi.c:268-272 | what a receive writes to the connection is a run of the pong steps that OutStream.Transparent ranges over |
| OutStream.StaleFlushLoses | rp/src/midi.c:587-595 | the cleanup, by the test of the driver, keeps the account of the session if and only if the OUT ring is empty or has moved within the last second |
| OutStream.RecvFrames | orchestrator/orchestrator.py:285-302 | one read of the server: end of file exactly when it holds a close, else its data and the pongs owed |
| Bconin.CommitKeeps | rp/src/midi.c:121-132 | each single store of the publication keeps the protocol invariant |
| Bconin.HookReads | rp/src/include/target_firmware.h:70-72 | each read of the Atari's hook keeps it |
| Bconin.HookReturns | rp/src/include/target_firmware.h:70-72 | so does its return |
| Bconin.NextKeeps | rp/src/midi.c:730-742 | so does every micro-step of either side |
| Bconin.PlayKeeps | rp/src/midi.c:730-742 | so does every interleaving |
| Bconin.ExactDelivery | rp/src/midi.c:121-132 | over every interleaving the bytes returned are exactly the bytes accepted, in order, none lost, doubled or stale; at most one is delivered and not yet popped |
| Bconin.NeverStuck | rp/src/include/target_firmware.h:70-72 | a reader that waits for an acknowledgement always has one coming |
| Bconin.ReceiveTakes | rp/src/midi.c:106-119 | a receive takes as much of its data as the ring has room for |
| Bconin.NextIsReturned | rp/src/include/target_firmware.h:70-72 | progress: while an accepted byte has not been returned, at most 28 steps of the two sides, with at most one pop and no other receive, return the next one |
| Bconin.AllAreReturned | rp/src/include/target_firmware.h:70-72 | so every accepted byte can be returned, from any state of the handshake |
| RingRegistry.Registry.constructor | orchestrator/orchestrator.py:329-330 | an empty ring |
| RingRegistry.Registry.Add | orchestrator/orchestrator.py:332-333 | a new player goes to the end, a known one keeps its place |
| RingRegistry.Registry.Remove | orchestrator/orchestrator.py:335-336 | the player goes and everybody else keeps the order |
| RingRegistry.Registry.NextPlayer | orchestrator/orchestrator.py:341-353 | the successor, wrapping round; nobody once the player is gone |
| RingRegistry.RingIsOneCycle | orchestrator/orchestrator.py:341-353 | from any player, as many relays as there are players visit everybody exactly once and come back |
| RingRegistry.SuccBijective | orchestrator/orchestrator.py:341-353 | next_player is a bijection |
| RingRegistry.RemoveRelinks | orchestrator/orchestrator.py:335-336 | a removal links predecessor to successor and changes no other link |
| RingRegistry.JoinLinks | orchestrator/orchestrator.py:332-333 | a join lands between last and first and changes no other link |
| RingRegistry.CycleUnderChurn | orchestrator/orchestrator.py:325-353 | after any sequence of joins and departures the ring is one cycle through everybody |
| OrchestratorRooms.ReapedAt | orchestrator/orchestrator.py:390-412 | what a reap does, key by key |
| OrchestratorRooms.Rooms.constructor | orchestrator/orchestrator.py:364-369 | the default room alone |
| OrchestratorRooms.Rooms.IsFull | orchestrator/orchestrator.py:380-383 | full exactly when one more player would take the ring past the cap; a key without a room is never full |
| OrchestratorRooms.Rooms.Get | orchestrator/orchestrator.py:449-454 | a ring of the table, reached by no key but the one asked for, or by the default key alone when there is no such room |
| OrchestratorRooms.Rooms.Create | orchestrator/orchestrator.py:456-463 | a new ring and its metadata, only for an unknown key |
| OrchestratorRooms.Rooms.Delete | orchestrator/orchestrator.py:465-475 | every trace of the key goes, except for the default room; its players are returned |
| OrchestratorRooms.MarkedIsSpared | orchestrator/orchestrator.py:385-412 | a join's mark spares the room from the next reap whatever its timer said, and its idle time starts afresh |
| OrchestratorRooms.Rooms.ReapKey | orchestrator/orchestrator.py:396-409 | one turn of the reaper's loop touches one key |
| OrchestratorRooms.Rooms.ReapEmpty | orchestrator/orchestrator.py:390-412 | the loop over a snapshot of the keys is the reap of them all at once |
| RoomRuns.JoinKeeps | orchestrator/orchestrator.py:581-602 | a join, however late, keeps the cap and the ring's identity |
| RoomRuns.RemovedKeeps | orchestrator/orchestrator.py:661-664 | a departure or a kick keeps them |
| RoomRuns.ReapKeeps | orchestrator/orchestrator.py:390-412 | a reap keeps them |
| RoomRuns.CreateKeeps | orchestrator/orchestrator.py:456-463 | a creation keeps them |
| RoomRuns.DeleteKeeps | orchestrator/orchestrator.py:465-475 | a deletion keeps them |
| RoomLaws.JoinLands | orchestrator/orchestrator.py:581-602 | a join goes to the end of the ring of its key, or of the default room, and marks the key; the seventeenth player of a ring is turned away and changes nothing |
| RoomLaws.LeaveCuts | orchestrator/orchestrator.py:661-664 | a player that leaves is cut out of its ring and is in no ring any more; everybody else keeps place and order |
| RoomLaws.LeaveTwice | orchestrator/orchestrator.py:661-664 | leaving twice changes no ring |
| RoomLaws.KickCuts | orchestrator/orchestrator.py:496-501 | a kick cuts the player out of the ring its key names now, and does nothing when the key is gone or names another ring |
| RoomLaws.CreateOpens | orchestrator/orchestrator.py:456-463 | a new room is an empty ring of its own, unmarked; a known key is left as it is |
| RoomLaws.DeleteForgets | orchestrator/orchestrator.py:465-475 | a deletion leaves no trace of the key, touches no other key and no ring, and spares the default room |
| RoomLaws.ReapSweeps | orchestrator/orchestrator.py:390-412 | key by key: a reap removes exactly the marked empty rooms whose timer is older than the time to live, starts a timer where there is none, and stops it where there are players |
| RoomRuns.RelayKeeps | orchestrator/orchestrator.py:632-646 | a relay appends to the log exactly the chunk from its sender to the player behind it in the sender's own ring, from the last one to the first, and a player no longer in its ring sends to nobody; every invariant is kept |
| RoomRuns.RelayGoesOn | orchestrator/orchestrator.py:632-646 | the same with the sender at place i: the chunk goes to place i + 1, round the ring |
| RoomRuns.HopsAreLogged | orchestrator/orchestrator.py:632-646 | over any run the log grows by exactly these chunks, one for each relay of a player still in its ring |
| RoomRuns.Lap | orchestrator/orchestrator.py:632-646 | as many relays in turn as there are players, from any of them, bring a chunk to every player once and back |
| RoomRuns.NextKeeps | orchestrator/orchestrator.py:563-664 | every atomic step keeps the invariant |
| RoomRuns.EveryRun | orchestrator/orchestrator.py:581-646 | in every reachable state no ring exceeds the cap, the chunks relayed are exactly one for each relay of a player still in its ring, sent to the player behind it inside one Registry object, across deletion and re-creation of the key, and exactly the provisioned keys have metadata |
| RoomRuns.ReapIsJustified | orchestrator/orchestrator.py:390-412 | a reap removes only keys other than the default, marked used, whose ring has been empty without interruption for longer than the time to live |
| RoomRuns.UsedMeansJoinedKept | orchestrator/orchestrator.py:385-388 | one event keeps "used" meaning "has had a player" if and only if it is not a join that finds its key deleted |
| RoomRuns.NeverJoinedIsKept | orchestrator/orchestrator.py:391-397 | in a state where it means that, a reap leaves every never-joined room alone |
| RoomRuns.StaleJoinRun | orchestrator/orchestrator.py:563-602 | a run of four events in which a join is overtaken by a deletion |
| RoomRuns.NeverJoinedIsReaped | orchestrator/orchestrator.py:390-412 | after which a room nobody ever joined is reaped |
| NeverJoined.UsedMeansJoinedThroughout | orchestrator/orchestrator.py:385-388 | over any run without a join that finds its key deleted, "used" goes on meaning "has had a player" |
| NeverJoined.NeverJoinedAreKept | orchestrator/orchestrator.py:390-412 | in every run from the start without such a join, no reap at any point, for any time to live, removes a room nobody has joined |
| NeverJoined.MarkedIsReaped | orchestrator/orchestrator.py:396-409 | a key marked used whose ring has never had a player is reaped by some continuation |
| NeverJoined.LostMeaningBetrays | orchestrator/orchestrator.py:390-412 | wherever the meaning of "used" is lost, some continuation without another such join reaps a never-joined room |
| NeverJoined.SafeIffMeant | orchestrator/orchestrator.py:385-412 | in every reachable state, never-joined rooms are safe in all continuations without such a join if and only if every key marked used has had a player |
| CommandParser.Parser.constructor | rp/src/include/tprotocol.h:130-141 | waiting for a header |
| CommandParser.Parser.FinalChecksum | rp/src/include/tprotocol.h:228-234 | the 16-bit sum of command, size and the whole words of the payload |
| CommandParser.Parser.Step | rp/src/include/tprotocol.h:179-253 | one word through the parser, with its restart after a pause and the fall-through of the size word |
| CommandParser.Parser.Feed | rp/src/include/tprotocol.h:179-253 | a batch of samples through the parser is the recursive parse of them, as long as the buffer has room |
| CommandParser.Parser.Receive | rp/src/include/tprotocol.h:179-253 | a parser waiting for a header delivers exactly the commands of any proper stream, and waits for a header again |
| CommandParser.ParseAllSplit | rp/src/include/tprotocol.h:179-253 | parsing is independent of how the samples are batched |
| CommandParser.BodyParses | rp/src/include/tprotocol.h:212-225 | a payload that the buffer holds is collected word by word |
| CommandParser.CommandHeld | rp/src/include/tprotocol.h:189-225 | after header, command, size and a payload that the buffer holds, the command is held |
| CommandParser.FrameEnds | rp/src/include/tprotocol.h:226-247 | for a command that the buffer holds, the checksum word decides between the two callbacks, and the parser waits for a header again |
| CommandParser.FramesDelivered | rp/src/include/tprotocol.h:179-253 | any sequence of prompt commands that the 2080-word buffer holds, separated by words that are not headers, is delivered exactly once each, in order, and the buffer has room for every word |
| CommandParser.RecoversAfterPause | rp/src/include/tprotocol.h:182-187 | so it is from any state after a pause |
| CommandParser.PayloadAltered | rp/src/include/tprotocol.h:228-234 | one altered payload word changes the sum if and only if it is one of the size/2 words summed |
| CommandParser.OneWordAltered | rp/src/include/tprotocol.h:226-247 | one altered command, payload or checksum word of a command that the buffer holds gives only the checksum callback, except for the last word of an odd size |
| CommandParser.SizeWordAltered | rp/src/include/tprotocol.h:226-247 | with the size word altered but not the number of words, the error is reported if and only if the last word is not 0xFFFF |
| CommandParser.LateIs | rp/src/include/tprotocol.h:182-187 | late is more than ten milliseconds on a 32-bit microsecond clock that wraps |
| CommandParser.FramesWritten | rp/src/include/tprotocol.h:179-253 | frames word for word: two words, none, an odd size, a sum that wraps |
| CommandParser.FrameRead | rp/src/include/tprotocol.h:179-253 | the first of them read back, for any time of its header |
| TokenReply.Overlay | rp/src/include/tprotocol.h:111-122 | a copied payload keeps what lies beyond its size |
| TokenReply.OverlayCopiesBytes | rp/src/include/tprotocol.h:102-122 | byte by byte: the first bytes are the command's, as many as its size says and at most 2112, the others stay |
| TokenReply.TokenWritten | rp/src/chandler.c:183-224 | a token of four known bytes, high word first |
| TokenReply.Handler.constructor | rp/src/chandler.c:58-82 | the boot-time token and seed |
| TokenReply.Handler.AddCallback | rp/src/chandler.c:91-119 | appended once, up to the limit |
| TokenReply.Handler.HandleCommand | rp/src/chandler.c:140-155 | the pending slot is filled once; a command that comes while it is full is dropped |
| TokenReply.Handler.DispatchPending | rp/src/chandler.c:183-224 | every callback in order, then one count and one reply; an all-zero command is cleared without either |
| TokenReply.NextKeeps | rp/src/chandler.c:205-218 | every store, poll and dispatch keeps the account of what can have been seen |
| TokenReply.SuccessMeansReply | rp/src/chandler.c:205-218 | for either order of the stores and any interleaving, time-outs and retries: success means a reply was stored since the token was sampled, and a command dispatched since unless the reply then in flight was deceptive |
| TokenReply.FooledIffDeceptive | rp/src/include/target_firmware.h:30-37 | a token sampled now can be answered without a dispatch if and only if the late reply in flight carries that token and another count |
| TokenReply.LateReplyRun | rp/src/include/target_firmware.h:30-37 | from any world with such a reply in flight, the run that does it |
| TokenReply.ReplyStored | rp/src/chandler.c:205-218 | a dispatch and its two stores, in either order, leave the command's token and the count of commands in the two slots |
| TokenReply.FooledFromBoot | rp/src/include/target_firmware.h:30-37 | such a world is reached from boot: a run of eight steps in which the first command times out after its dispatch and the second waiter succeeds without one, for every boot value but 0xDEADBEEE |
| TokenReply.ReplySeen | rp/src/include/target_firmware.h:30-37 | an undisturbed reply is recognised if and only if the new count differs from the token |
| TokenReply.LaterReplySeen | rp/src/chandler.c:209-216 | after any first reply it always is |
| TokenReply.FirstReplySeen | rp/src/chandler.c:64-75 | the first reply goes unseen for exactly one boot value, 0xDEADBEEE |
| Polygon.Edge.Init | rp/src/u8g2/u8g2_polygon.c:96-121 | a walker on the first line of its edge, for both signs of dx |
| Polygon.Edge.Next | rp/src/u8g2/u8g2_polygon.c:78-94 | one line down, or the end of the edge |
| Polygon.WalkerIsExact | rp/src/u8g2/u8g2_polygon.c:78-121 | after k lines the abscissa is x1 + ceil(k*dx/height), with -height < error <= 0 |
| Polygon.WalkerOnChain | rp/src/u8g2/u8g2_polygon.c:267-294 | on every line the walker stands where its chain of edges is |
| Polygon.LineInit | rp/src/u8g2/u8g2_polygon.c:247-265 | the next edge of the outline |
| Polygon.Down | rp/src/u8g2/u8g2_polygon.c:277-291 | down a line over any vertices; on a descending chain no edge of zero height is set up |
| Polygon.ClippingExact | rp/src/u8g2/u8g2_polygon.c:210-245 | a clipped line covers exactly the visible columns between the edges, if and only if it is not an exchanged line whose right end is off the left side |
| Polygon.OffScreen | rp/src/u8g2/u8g2_polygon.c:217-220 | a line above or below the window draws nothing |
| Polygon.WholeIffNoneLost | rp/src/u8g2/u8g2_polygon.c:210-294 | the calls of a run of scan lines cover exactly the visible area between the chains if and only if no scan line has right < 0 < left |
| Polygon.TriangleLosesLines | rp/src/u8g2/u8g2_polygon.c:210-321 | the plain triangle (0,0), (-5,10), (5,10) is a legal outline with such a line: nothing of its line 4 is drawn |
| Polygon.Screen.Draw | rp/src/u8g2/u8g2_polygon.c:210-245 | one span, clipped |
| Polygon.FillLine | rp/src/u8g2/u8g2_polygon.c:276-292 | one turn of the scan-line loop |
| Polygon.Exec | rp/src/u8g2/u8g2_polygon.c:267-294 | one line for each consecutive scan line, each between the exact edges |
| Polygon.Reaches | rp/src/u8g2/u8g2_polygon.c:126-140 | either way round, every point is reached |
| Polygon.ExpandTop | rp/src/u8g2/u8g2_polygon.c:142-152 | moves along a flat top to its end |
| Polygon.Prepare | rp/src/u8g2/u8g2_polygon.c:154-207 | the extent, the two ends of the top, and whether there is anything to fill |
| Polygon.DrawPolygon | rp/src/u8g2/u8g2_polygon.c:314-321 | an outline that descends on both sides is filled line by line without a gap, as many lines as it is high, less one when its top is a single point; every visible pixel of those lines is drawn exactly when it lies between the chains if and only if no line has its right end off the left side and its left end right of it; one of no lines is not drawn |
| Circle.LoopStep | rp/src/u8g2/u8g2_circle.c:93-104 | the incremental sums keep f = (x+1)^2 + y^2 - y - rad^2, ddF_x = 2x+1 and ddF_y = -2y |
| Circle.LoopBounded | rp/src/u8g2/u8g2_circle.c:93-104 | the decision variable stays within 2*rad+1 of zero |
| Circle.NearestUnique | rp/src/u8g2/u8g2_circle.c:74-107 | at most one ordinate is nearest |
| Circle.Turn | rp/src/u8g2/u8g2_circle.c:95-104 | one turn of the loop |
| Circle.DrawCircle | rp/src/u8g2/u8g2_circle.c:74-107 | every plotted point is in the band x^2+y^2-y <= rad^2 <= x^2+y^2+y, one per column of the octant, each but the last the nearest, and the last on the diagonal only when that is nearest |
| Circle.DrawDisc | rp/src/u8g2/u8g2_circle.c:160-193 | the same octant, filled |
| Circle.DrawCircleSection | rp/src/u8g2/u8g2_circle.c:43-72 | the eight reflections, by quadrant |
| Circle.DrawDiscSection | rp/src/u8g2/u8g2_circle.c:129-158 | their vertical lines |
| Circle.NoMissingColumn | rp/src/u8g2/u8g2_circle.c:160-193 | the vertical lines leave no column of the disc out |
| Circle.OctantUnique | rp/src/u8g2/u8g2_circle.c:74-107 | the octant is determined by the radius, its length and last column included |
| CircleLaws.SectionPlots | rp/src/u8g2/u8g2_circle.c:43-72 | a section plots the eight reflections of its point about the centre, as far as their quadrants are selected, and no other pixel |
| CircleLaws.SectionCovers | rp/src/u8g2/u8g2_circle.c:129-158 | a filled section covers exactly the columns of those reflections, from the centre line to their heights |
| CircleLaws.CirclePlots | rp/src/u8g2/u8g2_circle.c:74-107 | the circle is the sections of all columns |
| CircleLaws.CircleInBand | rp/src/u8g2/u8g2_circle.c:74-107 | every plotted pixel lies in a selected quadrant, and its squared distance differs from rad^2 by at most rad |
| CircleLaws.DiscCovers | rp/src/u8g2/u8g2_circle.c:160-193 | the disc is the filled sections of all columns |
| CircleLaws.DiscIsRound | rp/src/u8g2/u8g2_circle.c:160-193 | the disc has no holes: it covers every pixel of the selected quadrants within the radius, and none whose squared distance is above rad^2 + rad |
| Line.HalfPixel | rp/src/u8g2/u8g2_line.c:74-90 | at step k the minor displacement m satisfies 2*abs(m*dx - k*dy) <= dx |
| Line.MinorIsNearest | rp/src/u8g2/u8g2_line.c:74-90 | it is the one integer nearest to k*dy/dx, and of two as near the lower |
| Line.EndsMeet | rp/src/u8g2/u8g2_line.c:74-90 | it is 0 at the start and dy at the end |
| Line.Connected | rp/src/u8g2/u8g2_line.c:74-90 | it grows by at most one a step |
| Line.MinorInRange | rp/src/u8g2/u8g2_line.c:74-90 | 0 <= err < dx at every loop head |
| Line.Advance | rp/src/u8g2/u8g2_line.c:79-89 | one step of the loop |
| Line.Plot | rp/src/u8g2/u8g2_line.c:69-90 | the loop draws the pixels of the normalised line |
| Line.DrawLine | rp/src/u8g2/u8g2_line.c:39-91 | every octant reduces to that line through the exchanges |
| Line.EndpointsDrawn | rp/src/u8g2/u8g2_line.c:66-90 | first and last pixel are the two endpoints if and only if the far end of the major axis is not 0xFFFF; there one pixel is missing and no pixel lies at 0xFFFF |
| Line.Reversible | rp/src/u8g2/u8g2_line.c:39-91 | exchanging the endpoints draws the same pixels |
| HvLine.DrawPixel | rp/src/u8g2/u8g2_ll_hvline.c:161-199 | one pixel, in either byte layout |
| HvLine.SlowLine | rp/src/u8g2/u8g2_ll_hvline.c:201-236 | the pixel-at-a-time writer is the fold of its pixels |
| HvLine.FastVertical | rp/src/u8g2/u8g2_ll_hvline.c:72-152 | the moving-mask writer of the column layout leaves the same buffer |
| HvLine.FastHorizontal | rp/src/u8g2/u8g2_ll_hvline.c:244-299 | so does that of the row layout |
| HvLine.NextDown | rp/src/u8g2/u8g2_ll_hvline.c:118-146 | the masks move through the byte and to the next row of bytes |
| HvLine.NextRight | rp/src/u8g2/u8g2_ll_hvline.c:270-284 | and to the next byte |
| HvLine.DistinctBits | rp/src/u8g2/u8g2_ll_hvline.c:161-199 | different pixels of the buffer are different bits |
| HvLine.WherePixelsAre | rp/src/u8g2/u8g2_ll_hvline.c:161-199 | in which byte of either layout a pixel lies, and which bit the first and the last pixel of a byte are |
| HvLine.NextPixelsAre | rp/src/u8g2/u8g2_ll_hvline.c:161-199 | within a byte the next pixel is the next bit: upwards in the column layout, downwards in the row layout |
| HvLine.PixelChanges | rp/src/u8g2/u8g2_ll_hvline.c:161-199 | a pixel write clears, sets or inverts that pixel and no other |
| HvLine.LineChanges | rp/src/u8g2/u8g2_ll_hvline.c:72-152 | a line changes exactly its own pixels, once each |
| Xbm.DrawRowOld | rp/src/u8g2/u8g2_bitmap.c:117-137 | the old loop draws the row pixel by pixel |
| Xbm.PixelOfByte | rp/src/u8g2/u8g2_bitmap.c:117-165 | pixel i of a byte, counted from the left, is its bit of weight 2^i |
| Xbm.OpaqueRow | rp/src/u8g2/u8g2_bitmap.c:117-137 | with an opaque background every pixel is drawn in its place, a clear one in colour 0, or 1 when that is the draw colour |
| Xbm.TransparentRow | rp/src/u8g2/u8g2_bitmap.c:117-137 | with a transparent one exactly the set pixels are |
| Xbm.FindRun | rp/src/u8g2/u8g2_bitmap.c:139-152 | a run of equal bits, at least one long, that ends at a different bit or at the end of the row |
| Xbm.RunOfRow | rp/src/u8g2/u8g2_bitmap.c:139-163 | a run of equal bits is one line, or nothing |
| Xbm.DrawSpan | rp/src/u8g2/u8g2_bitmap.c:153-163 | a run drawn in one call extends the row by its pixels |
| Xbm.DrawRow | rp/src/u8g2/u8g2_bitmap.c:107-165 | run batching draws the same pixels, colours and order as the old loop, and restores the colour |
| Glyph.SplitNumber | rp/src/u8g2/u8g2_font.c:237-264 | masking and shifting a number are taking and dropping bits |
| Glyph.ShiftedByte | rp/src/u8g2/u8g2_font.c:249-257 | the next byte shifted within a byte |
| Glyph.JoinBits | rp/src/u8g2/u8g2_font.c:244-257 | what is left of a byte and the start of the next, joined |
| Glyph.Decoder.GetBits | rp/src/u8g2/u8g2_font.c:237-264 | returns bits [pos, pos+cnt) of the least-significant-first stream and advances by cnt |
| Glyph.RowIsLine | rp/src/u8g2/u8g2_font.c:387-482 | a stretch of a row is one horizontal line |
| Glyph.Decoder.DecodeLen | rp/src/u8g2/u8g2_font.c:387-482 | a run covers exactly the raster interval of its length from where the decoder stands |
| Glyph.Decoder.DrawGroup | rp/src/u8g2/u8g2_font.c:693-700 | a group of the font draws its pair once and again for every set bit behind it |
| Glyph.Decoder.DecodeGlyph | rp/src/u8g2/u8g2_font.c:687-704 | for any packing that fills the box with its last group, exactly the dots the groups stand for are painted, in raster order |
| Glyph.IndexOfAdvance | rp/src/u8g2/u8g2_font.c:387-482 | n dots on, the raster index is n more |
| Glyph.FullAtRow | rp/src/u8g2/u8g2_font.c:702-703 | the row test is the test for a full box |
| Glyph.Picture | rp/src/u8g2/u8g2_font.c:691-704 | the dot at row r and column c has the colour of bit r*w+c of the bitmap |
| GlyphLaws.BitAt | rp/src/u8g2/u8g2_font.c:237-264 | bit i of a font is bit i mod 8 of byte i / 8, the least significant first |
| GlyphLaws.GroupDots | rp/src/u8g2/u8g2_font.c:691-700 | which dots a group stands for: its pairs one after the other, in each the clear ones first |
| GlyphLaws.PackedFields | rp/src/u8g2/u8g2_font.c:691-700 | how a group is packed: the two runs in their fields, then a set bit for every further repetition and a clear one |
| Glyph.EveryBitmapPacks | rp/src/u8g2/u8g2_font.c:691-704 | every bitmap has a packing |
| Terminal.Term.ScrollUp | rp/src/term.c:253-258 | every row moves up by one, the last is blanked |
| Terminal.Term.PutChar | rp/src/term.c:261-273 | one cell, then right, down or scroll |
| Terminal.Term.RenderChar | rp/src/term.c:277-297 | line ends, the terminator and printable characters |
| Terminal.Term.Erase | rp/src/term.c:340-378 | cells at or right of the column, in the rows given, and no other |
| Terminal.Term.Process | rp/src/term.c:309-396 | the VT52 commands, with their bounds |
| Terminal.Term.PrintString | rp/src/term.c:398-449 | the printer machine over the whole string; a sequence cut off by its end is shown as text |
| Terminal.Term.FeedChar | rp/src/term.c:403-440 | one character of it; the escape buffer holds at most four characters |
| Terminal.Term.ClearScreen | rp/src/term.c:223-230 | blank, cursor home |
| Terminal.Feed | rp/src/term.c:403-440 | for any character from any sound state: cursor in bounds, at most three characters held |
| Terminal.Printed | rp/src/term.c:398-449 | for any string at all, cut-off escapes included, the cursor stays in bounds |
| Terminal.PrintedAppend | rp/src/term.c:398-449 | printing in two calls is printing in one when the cut is not inside an escape |
| Terminal.AddressedCell | rp/src/term.c:378-389 | a character behind a direct cursor address changes exactly the addressed cell and moves the cursor on; in the last cell it scrolls up |
| TerminalLaws.CursorMoves | rp/src/term.c:314-362 | up, down, right and left move by one and stop at the edges; home is the upper left corner |
| TerminalLaws.ClearEmpties | rp/src/term.c:340-350 | clear leaves 960 blank cells and the cursor at home |
| TerminalLaws.EraseLine | rp/src/term.c:372-377 | K blanks the cursor's row from the cursor on, and nothing else |
| TerminalLaws.EraseCorner | rp/src/term.c:363-371 | J blanks the cells below and to the right of the cursor, its own row and column included, and nothing else |
| TerminalLaws.EraseToEndIff | rp/src/term.c:363-371 | which is the rest of the screen, as its comment promises, for every screen if and only if the cursor is in the first column or in the last row |
| TerminalLaws.UnknownEscape | rp/src/term.c:309-396 | an escape the terminal does not know changes nothing |
| TerminalLaws.AnyAddress | rp/src/term.c:378-389 | a direct address is the row and column above a space; one off the screen is ignored |
| TerminalLaws.OneCharacter | rp/src/term.c:261-297 | a printable character goes to the cursor's cell and no other, and the cursor to the next cell; in the last cell the whole screen moves up a row |
| TerminalLaws.LineEnd | rp/src/term.c:283-290 | a line end of either kind goes to the start of the next row, and scrolls in the last |
| TerminalLaws.CutOffIsText | rp/src/term.c:441-449 | a sequence that the end of the string cuts off is shown as text |
| Terminal.RenderShows | rp/src/term.c:277-297 | a rendered character extends the page in view |
| Terminal.ExtendedIsPage | rp/src/term.c:277-297 | extending a page character by character is wrapping its lines |
| Terminal.WindowOnPage | rp/src/term.c:398-449 | plain text on a cleared screen: the buffer is the last rows of the unbounded wrapped page, blank below, cursor at its end |

## Left out

- lwIP, asyncio, sockets, DNS, Wi-Fi, the LED, reverse DNS, heartbeats and logging: their results are parameters or events.
- PIO, DMA and flash code: samples of the cartridge bus are an input sequence.
- HTTP routing, pages, JSON persistence and header parsing, and the MIDI Maze inspector: plumbing around the relay.
- The status-line and accept-key search in the handshake response: a function parameter of the session machine.
- The connection backoff: whether an attempt is due is a parameter of `Poll`.
- The pseudo-random generator behind mask keys and nonces: keys are arbitrary.
- `midi_net_reload` and name look-ups that complete late: only the assumption above is stated.
- TLS, `gateway.py` and the client side of `ws.py`: they reuse the codec around blocking I/O.
- MidiPipe.Pipe.Rom3Consumer: says what a sample does to the pipe, not the debug counters beside it.
- OrchestratorRooms.Rooms.ReapEmpty: the reaped keys are a set, because the order of a dictionary's keys is not modelled.
- OutStream.RecvFrames: the pongs owed are listed; what the transport makes of them is not modelled.
- CommandParser.Parser.Step: a payload above the buffer's 2080 words is written past its end in the C code and is outside the model, as is its 16-bit byte count there; every size up to it, odd or even, is inside, and the stream lemmas show that such streams always meet the precondition.
- TokenReply.Handler.DispatchPending: callbacks are names; what they do to the payload is not modelled, except that they may ask for the list to be dropped.
- Polygon.DrawPolygon: outlines whose sides turn back up are outside it, since the C code divides by the height of an edge; `Fillable` says which are inside.
- Polygon.Screen.Draw, Circle and Line: a call of the horizontal or pixel primitive is an entry of a trace; `HvLine` says what the primitive does to the buffer, and clipping to the user window is not modelled.
- Xbm.DrawRow: the early return for rows outside the window is not modelled.
- Glyph.Decoder.DecodeGlyph: begins behind the glyph's header (width, height, offsets); rotation and the window test are not modelled.
- Terminal.Term.PrintString: the text screen and cursor; the pixels that `display_termChar`, the cursor block and reverse video draw are not modelled.
- Ellipses, the 2x font decoder, kerning, bus drivers and the menu code of u8g2: further instances of what is here, or tables.
