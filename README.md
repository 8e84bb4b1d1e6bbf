# A verified model of the Samsung HVAC wall-controller bus

The system reads and emulates the proprietary half-duplex bus that connects Samsung indoor
units (IUs), ventilation units (ERVs) and wall remote controllers (WRCs). This Dafny project
models its core and proves what that core does.

**Frame codec** (`codec.dfy`)
- A frame is `0x32, src, dst, cmd, data[S], checksum, 0x34` with S = 1 (short) or S = 8 (long).
- The checksum is the XOR of src, dst, cmd and the data.
- The decoder tries a short candidate first. It tries a long candidate only when byte 6 is not
  the end marker, and otherwise drops one byte to resynchronise.
- The decoder is modelled as a pure function `DecodeFrame`, and as the imperative loop
  `FrameCodec.Decode` over a `ByteBuffer` object. The loop is proved equal to the function.

**Payload layouts and address plan** (`commands.dfy`, `addresses.dfy`, `iu.dfy`, `bytes.dfy`)
- The msb0 bit layouts of the commands the emulators use are modelled. Each layout has pack and
  unpack functions.
- Proved about them: round trips, the declared bit positions, and the `check` invariants.
- Also proved: the `Default` payloads, the two mode encodings, and the offset-55 temperature
  conversion.

**Protocol roles**
- The indoor-unit emulator `iuemu.dfy` is a per-frame step function plus the receive loop.
- The main-WRC emulator `mainwrcemu.dfy` emits the Tracking → Enumeration → NormalOperation
  schedule. Each frame is modelled with the pause after it.
- The sub-WRC task `subwrc.dfy` acknowledges the main WRC's handover pings.
- The reset tool `reset.dfy` answers the first end-of-phase broadcast.
- The dump tool's classifiers are in `dump.dfy`.
- Lemmas connect the roles to each other:
  - the sub WRC acknowledges exactly the main WRC's pings;
  - the reset tool fires on frame 144 of the main WRC's schedule;
  - the dump tool labels the emulators' frames.

**Message bus and raw bridge** (`bus.dfy`, `bridge.dfy`)
- The in-process bus is a `Bus` object with transmit and receive logs. `BusClient` objects each
  hold a read cursor.
- The raw-byte bridge is a `SharedState` object with its port counter and its table of writers.

**Mapping to the source**
- Bytes are `bv8`. Rust's `u8` arithmetic is modelled as wrap-around, as in a release build.
- The Rust program's panics (`todo!()`, a failed `check`, `unpack_as` on the wrong size class)
  and its `?` errors are explicit outcomes such as `Panicked` and `Failed`.
- `mainwrcemu.rs` does not compile as written:
  - it calls `Command52Request::new()` etc., but the empty-command macro only derives `Default`
    (src/protocol/commands.rs:59-65);
  - it builds `CommandC4Request` with field names that struct does not have.
- The model sends what the emulator evidently means: the default eight zero bytes, and the C4
  bytes in the order written.

## Model

| member | source | states |
|---|---|---|
| Codec.NewFrame | src/protocol/codec.rs:51-58 | the frame carries exactly the given source, destination, command and data |
| Codec.Id | src/protocol/codec.rs:97-103 | a received frame has no identity exactly when it is corrupted, otherwise the identity of the frame it carries |
| Codec.ToRx | src/protocol/codec.rs:128-135 | the received form of a transmitted frame keeps its size class, identity and data and is never corrupted |
| Codec.UnpackData | src/protocol/codec.rs:106-126 | `unpack_as` yields the payload exactly when the frame's size class is the layout's, with DataSize bytes; otherwise it panics |
| Codec.ChecksumAppend | src/protocol/codec.rs:161-165 | the XOR fold of a concatenation is the XOR of the folds of the parts |
| Codec.ChecksumFold | src/protocol/codec.rs:161-165 | the source's fold from the left, starting from 0, is the same byte as the XOR of the bytes |
| Codec.ChecksumFlip | src/protocol/codec.rs:161-165 | flipping bits of any one byte flips the same bits of the checksum |
| Codec.ChecksumDetectsByteChange | src/protocol/codec.rs:249-253 | any change to a single byte of src, dst, cmd or data changes the checksum |
| Codec.WireLayout | src/protocol/codec.rs:320-341 | the encoded image is 6+S bytes: the markers at both ends, the identity at bytes 1..3, the data at 4..4+S, and the checksum of those bytes before the end marker |
| Codec.EncodeAsWritten | src/protocol/codec.rs:332-341 | the encoder as written keeps the pending bytes and appends 6+S bytes that agree with the wire image everywhere except possibly the checksum |
| Codec.EncodeAsWrittenIntoEmpty | src/protocol/codec.rs:332-341 | into an empty buffer the encoder as written emits exactly the wire image |
| Codec.EncodeAsWrittenFoldsPendingBytes | src/protocol/codec.rs:339-340 | into a non-empty buffer the encoder as written emits the wire image exactly when the buffer's bytes after its first XOR to 0x32 |
| Codec.PendingFrameSkewsChecksum | src/protocol/codec.rs:339-340 | behind a complete frame still in the buffer, the encoder as written emits a checksum off by 0x06, so the output is not the two wire images |
| Codec.TryReadFrame | src/protocol/codec.rs:219-267 | too small exactly when fewer than 6+S bytes; a consumed window starts with 0x32 and ends with 0x34; a framed result is the frame whose wire image is the window |
| Codec.FirstMatch | src/protocol/codec.rs:269-279 | the first pass reports "need more" exactly in the NeedsMore cases and a missing marker exactly when the first byte must be dropped |
| Codec.DecodeFrame | src/protocol/codec.rs:269-313 | decode leaves a suffix of the buffer; it returns nothing only when that suffix is too short for its candidate, leaves a too-short buffer untouched, and consumes at least 7 bytes with any frame |
| Codec.SkipOneByte | src/protocol/codec.rs:292-300 | when the first byte is dropped, decoding continues exactly as on the rest of the buffer |
| Codec.CorruptedMeansBadChecksum | src/protocol/codec.rs:236-253 | a corrupted result only comes from a checksum mismatch, whose window has already been split off the buffer |
| Codec.DecodedFrameIsWindow | src/protocol/codec.rs:236-263 | a decoded frame was read from a window that is exactly its wire image, behind the dropped bytes and before what is left |
| Codec.JunkIsSkipped | src/protocol/codec.rs:292-300 | bytes that are not a start marker, followed by at least 7 bytes, are dropped and decoding gives what the following bytes alone give |
| Codec.RoundTrip | src/protocol/codec.rs:270-276 | decoding the wire image of a short frame, or of a long frame whose data[2] is not 0x34, yields that frame and leaves what follows |
| Codec.LongFrameWithEndMarkerAtByte6 | src/protocol/codec.rs:270-276 | a long frame whose data[2] is 0x34 does not round-trip: its first seven bytes are taken as a short candidate |
| Codec.TwoFramesInOrder | src/protocol/codec.rs:389-398 | two round-tripping frames back to back decode in order, neither mistaken for the other size class |
| Codec.JunkThenFrame | src/protocol/codec.rs:377-385 | junk without start markers in front of a frame decodes to exactly that frame |
| Codec.DamagedChecksumIsSkipped | src/protocol/codec.rs:305-308 | with the corrected mismatch handling, a frame with a damaged checksum byte is reported corrupted and decoding resumes right behind its window |
| Codec.WrongChecksumIsSkipped | src/protocol/codec.rs:251-253 | any byte other than the checksum in the checksum position makes the frame read as corrupted, leaving exactly the bytes after its window |
| Codec.BadChecksumPanicsAsWritten | src/protocol/codec.rs:305-308 | the decoder as written panics on the short test vector with its checksum changed; the corrected one reports it corrupted |
| Codec.DecodeAsWritten | src/protocol/codec.rs:269-313 | the decoder as written returns what the corrected decoder returns, never a corrupted frame, and panics only where a window with a checksum mismatch starts |
| Codec.ShortVectorDecodes | src/protocol/codec.rs:365-369 | the codec test's valid short frame decodes to (0x84, 0xeb, 0xf9, [0x00]) |
| Codec.LongVectorDecodes | src/protocol/codec.rs:371-374 | the codec test's valid long frame is the wire image of (0x20, 0x84, 0x52, ...) and decodes to it |
| Codec.JunkBeforeLongVectorIsSkipped | src/protocol/codec.rs:377-385 | the test's junk 01 02 32 01 02 32 in front of the long vector is dropped byte by byte, and the long frame is decoded |
| Codec.TwoShortVectorsDecodeInOrder | src/protocol/codec.rs:389-398 | two short test vectors back to back give the first frame and leave the second |
| Codec.ByteBuffer.TryRead | src/protocol/codec.rs:219-236 | the outcome is `try_read_frame` on the buffer, and the window is split off exactly on a frame or a checksum mismatch |
| Codec.FrameCodec.constructor | src/protocol/codec.rs:194-202 | the start time is the clock's reading and no frame has been received or sent |
| Codec.FrameCodec.Decode | src/protocol/codec.rs:218-314 | the decode loop returns what DecodeFrame returns and leaves its rest in the buffer; only a well-formed frame stamps the receive times |
| Codec.FrameCodec.Encode | src/protocol/codec.rs:320-353 | the buffer becomes what the encoder as written produces, with the checksum over `dst[1..]`; from an empty buffer that is exactly the frame's wire image; the send times are stamped |
| Addresses.RangesSpan32 | src/protocol/addresses.rs:2-6 | the indoor-unit and ERV ranges each hold exactly 32 addresses |
| Addresses.RangesDisjoint | src/protocol/addresses.rs:2-6 | no address is both an indoor unit and an ERV |
| Addresses.SpecialsDistinctAndOutsideRanges | src/protocol/addresses.rs:8-16 | the five special addresses are pairwise distinct and outside both unit ranges |
| Addresses.MarkersAreIndoorUnitAddresses | src/protocol/addresses.rs:2-3 | the frame markers 0x32 and 0x34 are indoor-unit addresses, so they can occur inside frames |
| Commands.EmptyLongDefault | src/protocol/commands.rs:59-65 | the default of an empty long command is eight zero bytes |
| Commands.EmptyLongCheckIsDefault | src/protocol/commands.rs:50-75 | an empty long command's check accepts an eight-byte payload exactly when it is the default |
| Commands.ModeA0FromCode | src/protocol/commands.rs:81-87 | the 0xa0 mode field decodes exactly the codes 0..4, each to the mode with that code |
| Commands.ModeA0ConversionsInverse | src/protocol/commands.rs:90-112 | the two `From` conversions between IndoorUnitMode and the 0xa0 mode are mutually inverse |
| Commands.Mode52FromCode | src/protocol/commands.rs:278-284 | the 0x52 mode field decodes exactly the codes 0, 1, 2, 4 and 8, each to the mode with that code |
| Commands.Mode52ConversionsInverse | src/protocol/commands.rs:287-309 | the two `From` conversions between IndoorUnitMode and the 0x52 mode are mutually inverse |
| Commands.ModeEncodingsDiffer | src/protocol/commands.rs:278-284 | each encoding is injective, and the two encodings agree only on Auto |
| Commands.UnpackA0 | src/protocol/commands.rs:126-186 | unpacking an 0xa0 payload fails exactly when its mode bits 29..31 hold 5..7 |
| Commands.A0RoundTrip | src/protocol/commands.rs:126-186 | unpacking a packed 0xa0 command gives the command back |
| Commands.A0Repack | src/protocol/commands.rs:126-186 | repacking an unpacked 0xa0 payload keeps exactly its declared bits and clears the others |
| Commands.A0FieldPositions | src/protocol/commands.rs:138-172 | fan speed is msb0 bits 16..18, setpoint 19..23, s-plasma ion bit 25, reset clean filter 26, humidifier 27, mode 29..31 and power bit 34 |
| Commands.NewTemperature | src/protocol/commands.rs:253-258 | a new temperature stores the value plus 55, with the unit given |
| Commands.CelsiusOfNewTemperature | src/protocol/commands.rs:253-265 | reading back a new Celsius temperature gives its value; a Fahrenheit one reads back as its raw value, the value plus 55 |
| Commands.TemperatureWireRoundTrip | src/protocol/commands.rs:243-265 | a Celsius value survives the 7-bit temperature byte exactly when value + 55 fits in 7 bits, i.e. 0..72 (or 201..255 with wrap-around) |
| Commands.UnpackTemperature | src/protocol/commands.rs:243-249 | packing the unpacked temperature byte gives the byte back |
| Commands.TemperatureByteRoundTrip | src/protocol/commands.rs:243-249 | unpacking a packed temperature gives it back when its raw value fits 7 bits |
| Commands.TemperatureFieldPositions | src/protocol/commands.rs:243-249 | the unit is msb0 bit 0 and the raw value bits 1..7 of the byte |
| Commands.Unpack52 | src/protocol/commands.rs:334-403 | unpacking a 0x52 response fails exactly when its mode nibble is not a 0x52 mode code |
| Commands.Response52RoundTrip | src/protocol/commands.rs:334-403 | unpacking a packed 0x52 response whose fields fit gives it back |
| Commands.Response52FieldPositions | src/protocol/commands.rs:358-381 | fan speed is msb0 bits 29..31, power bit 32, defrost bit 35, mode bits 36..39 and clean filter bit 43 |
| Commands.Pack53 | src/protocol/commands.rs:440-443 | the 0x53 response carries the humidifier flag in bit 59 and zeros elsewhere |
| Commands.Response54RoundTrip | src/protocol/commands.rs:461-487 | unpacking a packed 0x54 response gives it back |
| Commands.Response54FieldPositions | src/protocol/commands.rs:463-475 | outdoor-air intake is msb0 bit 56 and s-plasma ion bit 59 |
| Commands.Response55RoundTrip | src/protocol/commands.rs:506-514 | a packed 0x55 response unpacks to itself, humidity in bits 0..3 and CO2 in bits 4..7 |
| Commands.UnpackC4Request | src/protocol/commands.rs:684-710 | the 0xc4 request keeps bytes 0, 1, 4 and 7 and repacks with the undeclared bytes 2, 3, 5 and 6 cleared |
| Commands.UnpackC5Request | src/protocol/commands.rs:728-748 | the 0xc5 request round-trips, and its check holds exactly when byte 0 is 0x22 |
| Commands.DefaultC5Response | src/protocol/commands.rs:771-778 | the default 0xc5 response is 0x22 followed by seven zeros |
| Commands.UnpackC6 | src/protocol/commands.rs:787-804 | the 0xc6 broadcast round-trips, and its check holds exactly when byte 0 is 0x22 |
| Commands.DefaultFA | src/protocol/commands.rs:849-856 | the default 0xfa command is 0xaa followed by seven zeros |
| Commands.CheckFAIsDefault | src/protocol/commands.rs:858-864 | the 0xfa check accepts exactly the default payload |
| Commands.UnpackFB | src/protocol/commands.rs:868-903 | the 0xfb state is msb0 bits 6..7 of byte 0 with codes 0, 1, 2; unpacking fails exactly on code 3 |
| Commands.UnpackShort | src/protocol/commands.rs:909-944 | a one-byte tracking payload (hello, assign, assigned) unpacks to its byte and repacks to the same payload |
| IndoorUnitEmulator.InitialState | src/bin/iuemu.rs:71-82 | the unit starts powered, heating, fan auto, setpoint 23, defrost and clean filter set, every other flag clear |
| IndoorUnitEmulator.IsIuRxFrame | src/bin/iuemu.rs:85-93 | only an assigned unit is addressed, by the destination 10 above its indoor-unit address, which for addresses below 22 lies in the indoor-unit range |
| IndoorUnitEmulator.ApplyA0 | src/bin/iuemu.rs:180-186 | the 0xa0 settings: the command's mode, setpoint and power, clean filter toggled by its reset bit, fan speed, defrost, outdoor air and away kept |
| IndoorUnitEmulator.OnTracking | src/bin/iuemu.rs:109-150 | a tracking reply keeps the settings and goes to the main WRC |
| IndoorUnitEmulator.OnAssign | src/bin/iuemu.rs:151-164 | an assignment reply keeps the settings and goes to the main WRC |
| IndoorUnitEmulator.OnQuery | src/bin/iuemu.rs:194-262 | a read reply keeps address and settings and goes back to the sender under the same command with the given payload |
| IndoorUnitEmulator.OnCommand | src/bin/iuemu.rs:167-267 | a command reply goes back to the sender; only 0xa0 changes the settings, keeping the setpoint below 32, and is answered as 0x50 |
| IndoorUnitEmulator.Step | src/bin/iuemu.rs:105-272 | a corrupted frame is ignored, every reply goes to a WRC, and only an 0xa0 command changes the settings |
| IndoorUnitEmulator.Run | src/bin/iuemu.rs:99-274 | the unit sends at most one frame per frame received |
| IndoorUnitEmulator.Emulate | src/bin/iuemu.rs:95-275 | the receive loop sends what Run computes from a temporary address and the initial settings, and ends as Run does |
| IndoorUnitEmulator.TrackingRule | src/bin/iuemu.rs:109-149 | a tracking broadcast is answered exactly on TrackingStart, on DiscoverUnassigned to a temporary unit and on DiscoverAssigned to an assigned one; the answer is a short 0xfc [0] from the new address after address × 100 ms |
| IndoorUnitEmulator.TrackingErrors | src/bin/iuemu.rs:109-110 | a tracking broadcast with state bits 3 ends the emulator with an error; a short one makes it panic |
| IndoorUnitEmulator.AssignRule | src/bin/iuemu.rs:151-164 | an assignment to the current address makes the payload the assigned address and is confirmed with 0xfe from the old address |
| IndoorUnitEmulator.OnlyAddressedFramesHandled | src/bin/iuemu.rs:85-93 | corrupted frames are ignored; besides tracking and assignment, only an assigned unit reacts, to WRC frames sent to 0x20 + address + 10 |
| IndoorUnitEmulator.UnknownCommandsIgnored | src/bin/iuemu.rs:264-264 | addressed commands other than 0xa0 and 0x52..0x55 are ignored |
| IndoorUnitEmulator.A0Rule | src/bin/iuemu.rs:169-191 | 0xa0 sets setpoint, s-plasma ion, humidifier, mode and power, toggles clean filter, keeps fan speed, defrost, outdoor air and away, and replies 0x50 with the payload repacked |
| IndoorUnitEmulator.A0Errors | src/bin/iuemu.rs:169-170 | an 0xa0 with mode bits 5..7 ends with an error, one whose bit 35 differs from its power bit panics |
| IndoorUnitEmulator.QueryNeedsEmptyPayload | src/bin/iuemu.rs:194-195 | a read request panics exactly when its payload is not eight zeros, and is otherwise answered from the unit under the same command |
| IndoorUnitEmulator.Reply52Decodes | src/bin/iuemu.rs:194-219 | the 0x52 reply decodes to the settings-based response with the clean-filter bit cleared by the byte-5 patch, bytes 5 and 6 read 0xc1 and 0xff, and the setpoint reads back |
| IndoorUnitEmulator.Reply53Decodes | src/bin/iuemu.rs:222-229 | the 0x53 reply carries the humidifier flag in msb0 bit 59 and has every other bit clear |
| IndoorUnitEmulator.Reply54Decodes | src/bin/iuemu.rs:232-249 | the 0x54 reply starts with 0xff and decodes to the unit's outdoor air, away and s-plasma ion flags |
| IndoorUnitEmulator.Reply55Decodes | src/bin/iuemu.rs:252-261 | the 0x55 reply decodes to humidity 1 and CO2 1 |
| IndoorUnitEmulator.RunRepliesToWrcs | src/bin/iuemu.rs:99-274 | along a whole run every frame the unit sends goes to a WRC |
| IndoorUnitEmulator.StepKeepsSetpointBelow32 | src/bin/iuemu.rs:180-180 | the setpoint the unit keeps stays below 32 |
| IndoorUnitEmulator.Run52Replies | src/bin/iuemu.rs:194-219 | along a whole run every 0x52 reply decodes, with a setpoint below 32 and the clean-filter flag clear |
| MainWrcEmulator.Emulate | src/bin/mainwrcemu.rs:58-298 | the loop, driven by its phase, sends Schedule(cycles): tracking, enumeration, then the given number of normal-operation cycles |
| MainWrcEmulator.SendTracking | src/bin/mainwrcemu.rs:78-113 | the tracking phase sends TrackingFrames |
| MainWrcEmulator.SendPolls | src/bin/mainwrcemu.rs:119-134 | the polling loop sends one poll per address of the range, in order |
| MainWrcEmulator.SendEnumeration | src/bin/mainwrcemu.rs:114-209 | the enumeration phase sends the 0x52 pass, then the 0x54 pass |
| MainWrcEmulator.SendPass | src/bin/mainwrcemu.rs:117-205 | one pass polls every indoor-unit address, every ERV address, then sends the handshake |
| MainWrcEmulator.SendCycle | src/bin/mainwrcemu.rs:211-289 | one normal-operation cycle sends CycleFrames(4) |
| MainWrcEmulator.Schedule | src/bin/mainwrcemu.rs:75-298 | the schedule has 5 + 136 + 16 × cycles frames, the normal-operation cycles after the first 141 |
| MainWrcEmulator.SchedulePhases | src/bin/mainwrcemu.rs:62-207 | the schedule is 5 tracking frames, 136 enumeration frames, then 16 frames per cycle |
| MainWrcEmulator.DiscoverAssignedShape | src/bin/mainwrcemu.rs:86-93 | the first frame is a long 0xfb from 0x84 to 0xeb whose state unpacks as DiscoverAssigned, followed by 8000 ms |
| MainWrcEmulator.TrackingShape | src/bin/mainwrcemu.rs:95-111 | tracking assigns addresses 0, 1, 2 with short 0xfd frames to those addresses, then sends short 0xf9 [0] to 0xeb and waits 600 ms |
| MainWrcEmulator.SpanMembers | src/bin/mainwrcemu.rs:119-119 | an address is polled exactly when its distance from the first address is below the count |
| MainWrcEmulator.PassAddresses | src/bin/mainwrcemu.rs:119-137 | a pass polls exactly the indoor-unit and ERV addresses, each range from its first address in ascending order |
| MainWrcEmulator.PassShape | src/bin/mainwrcemu.rs:117-205 | a pass has 68 frames: 32 indoor-unit polls, 32 ERV polls and the handshake |
| MainWrcEmulator.EnumerationShape | src/bin/mainwrcemu.rs:115-205 | enumeration is the 0x52 pass then the 0x54 pass, with the handshake after each |
| MainWrcEmulator.PollPayload | src/bin/mainwrcemu.rs:120-133 | a poll is an empty long request from 0x84, followed by 180 ms |
| MainWrcEmulator.HandshakePayloads | src/bin/mainwrcemu.rs:154-201 | the handshake's 0xc5 is (0x22, 0x00) and passes its check, its 0xc4 is (0, 1, 0, 0x44), its 0xc6 is (0x22, 1, 0x20 0xb0 ...) and passes its check |
| MainWrcEmulator.AfterKindShape | src/bin/mainwrcemu.rs:243-273 | after each kind: 0xc4 (0x01, 1, 0x20, 0x44) and 0xc5 (0x22, 0x80) to the sub WRC with 900 ms each, then 0xd1 [1, 0...] to 0xad with 300 ms |
| MainWrcEmulator.CycleShape | src/bin/mainwrcemu.rs:212-273 | a cycle polls 0x20 with 0x52, 0x52, 0x54, 0x55, each poll followed by the after-kind frames |
| MainWrcEmulator.NormalCyclesRepeat | src/bin/mainwrcemu.rs:210-291 | normal operation repeats the same 16-frame cycle |
| MainWrcEmulator.ScheduleSourceAndPauses | src/bin/mainwrcemu.rs:93-273 | every frame comes from 0x84 and is followed by the pause of its kind: 8000 after 0xfb, 600 after 0xf9, 300 after 0xd1, 900 after a normal-operation ping, 180 otherwise |
| SubWrc.C4Ack | src/subwrc.rs:40-40 | the 0xc4 acknowledgement is a long 0xc4 from 0x85 to 0x84 with eight zero bytes |
| SubWrc.C5Ack | src/subwrc.rs:46-46 | the 0xc5 acknowledgement is a long 0xc5 from 0x85 to 0x84 |
| SubWrc.React | src/subwrc.rs:33-54 | corrupted frames are skipped and every reply is one of the two acknowledgements |
| SubWrc.Run | src/subwrc.rs:32-59 | at most one reply per frame received, each one of the two acknowledgements |
| SubWrc.SubWrcTask | src/subwrc.rs:32-59 | the receive loop sends what Run computes and ends as Run does |
| SubWrc.ReplyRule | src/subwrc.rs:36-47 | a frame is answered exactly when it is a long 0xc4, or a long 0xc5 with byte 0 = 0x22, from 0x84 to 0x85; 0xc4 gets eight zeros, 0xc5 gets [0x22, 0 × 7] |
| SubWrc.PanicRule | src/subwrc.rs:37-44 | a short ping or a long 0xc5 whose byte 0 is not 0x22 makes the sub-WRC task panic, and nothing else does |
| SubWrc.OtherFramesSkipped | src/subwrc.rs:49-53 | every other identity, the end-of-phase broadcast included, gets no reply |
| SubWrc.RunOutcome | src/subwrc.rs:32-59 | the sub-WRC task runs to the end of the stream exactly when no frame stops it; it sends at most one reply per frame, each to the main WRC |
| SubWrc.RunAnswersInOrder | src/subwrc.rs:32-57 | without a panic the replies are exactly the answered frames' reactions, in stream order |
| SubWrc.AcknowledgesMainWrcPings | src/subwrc.rs:36-53 | the main WRC's handover pings in enumeration and normal operation are all acknowledged; its broadcasts are not |
| Reset.ResetFrame | src/bin/reset.rs:38-38 | the reset is a long 0xd1 from 0x85 to 0x84 with eight zero bytes, which passes the empty-command check |
| Reset.FirstEndOfPhase | src/bin/reset.rs:33-48 | the index found is an end-of-phase broadcast and no earlier frame is one; none is found only when no frame is one |
| Reset.ResetTool | src/bin/reset.rs:33-52 | the tool sends exactly one reset right after the first end-of-phase broadcast and exits, or sends nothing when the stream ends first |
| Reset.ResetIffEndOfPhase | src/bin/reset.rs:33-44 | the reset is sent exactly when some frame is an end-of-phase broadcast |
| Reset.OnlyTheBroadcastTriggers | src/bin/reset.rs:34-47 | a frame triggers the reset exactly when it is a well-formed 0xd1 from the main WRC to the broadcast address; corrupted frames never do |
| Reset.ResetsTheMainWrc | src/bin/reset.rs:33-44 | against the main-WRC emulator the first end-of-phase broadcast is frame 144 |
| MessageBus.Republish | src/bus.rs:42-45 | the forwarding task republishes every transmitted item, in order, with the same sender and the frame converted |
| MessageBus.NextForeign | src/bus.rs:123-127 | the item found is the first at or after the cursor that another client sent; none only when all the rest are the caller's |
| MessageBus.Deliveries | src/bus.rs:122-128 | a client reads at most the items on the channel, each one from the channel and sent by another client |
| MessageBus.Bus.constructor | src/bus.rs:31-55 | both channels start empty and client ids start at 1 |
| MessageBus.Bus.NewClient | src/bus.rs:57-61 | a new client gets the next id, never the external one, and the counter increases by one |
| MessageBus.Bus.NewClientWithId | src/bus.rs:63-69 | the client has the given id and reads from the current end of the channel |
| MessageBus.Bus.AttachPort | src/bus.rs:72-75 | attaching a port only creates a client with the shared external id 0 |
| MessageBus.Bus.Forward | src/bus.rs:42-45 | one round of the forwarding task appends the next transmitted item, converted, to the receive channel |
| MessageBus.BusClient.Send | src/bus.rs:131-133 | send publishes the pair of the client's own id and the frame |
| MessageBus.BusClient.Recv | src/bus.rs:122-128 | recv returns the first item after its cursor that another client sent, passing over its own |
| MessageBus.DeliveriesMembers | src/bus.rs:122-128 | a client reads an item exactly when the item is on the channel and another client sent it |
| MessageBus.RecvThenRest | src/bus.rs:123-127 | repeated reads yield the deliveries in publish order |
| MessageBus.SentFrameReachesOthers | src/bus.rs:122-133 | a frame sent by one client and forwarded reaches every other client, and never its sender |
| MessageBus.PortsFilterEachOther | src/bus.rs:72-107 | a client with the external id receives nothing of what other ports, sharing that id, put on the bus |
| Bridge.Delivered | src/bin/bridge.rs:111-117 | fanning out one chunk keeps the set of registered writers |
| Bridge.AfterProcess | src/bin/bridge.rs:97-123 | the read loop keeps the registered writers, or removes exactly the port's own |
| Bridge.SharedState.constructor | src/bin/bridge.rs:34-36 | the shared state starts with port id 0 and no writers |
| Bridge.SharedState.AttachPort | src/bin/bridge.rs:79-87 | the port gets the current id, which was not registered, the counter increases and its writer is registered empty |
| Bridge.SharedState.Fanout | src/bin/bridge.rs:111-117 | one chunk is written to every writer but the sender's own, except those whose write fails |
| Bridge.SharedState.Process | src/bin/bridge.rs:97-123 | the read loop leaves the writers as AfterProcess says and keeps every id below the counter |
| Bridge.ProcessKeys | src/bin/bridge.rs:105-122 | the port's own writer, and no other, is removed exactly when its stream ends |
| Bridge.ProcessDelivers | src/bin/bridge.rs:111-117 | every other writer receives the port's chunks unchanged and in order, except the writes that failed |
| Bridge.ProcessSkipsOwnWriter | src/bin/bridge.rs:112-112 | the port's own writer never receives its own chunks |
| Bridge.NoFailureReceivesAll | src/bin/bridge.rs:100-117 | a writer whose writes never fail receives exactly the bytes read before the end of the stream |
| Dump.AddressDesc | src/bin/dump.rs:31-54 | an address is labelled an indoor unit exactly in 0x20..0x3f and an ERV exactly in 0x50..0x6f, with its offset in the range |
| Dump.AddressLabelsDistinguish | src/bin/dump.rs:32-51 | the five special addresses get their roles, Unknown exactly outside the roles and ranges, and distinct known addresses get distinct labels |
| Dump.CommandDescAsWritten | src/bin/dump.rs:56-77 | `cmd_desc` as written never labels Info 2 Request, and agrees with the corrected classifier except on 0x53 requests from a WRC |
| Dump.CommandDesc | src/bin/dump.rs:56-77 | the corrected classifier labels Info k Request only frames from a WRC with information command k, and IU Info k Response only frames from an indoor unit to a WRC with command k |
| Dump.Info2RequestUnreachableAsWritten | src/bin/dump.rs:58-61 | as written no frame is labelled Info 2 Request, and a 0x53 request from a WRC is labelled Unknown |
| Dump.CorrectionOnlyTouches53 | src/bin/dump.rs:61-61 | the corrected classifier differs from the written one exactly on 0x53 requests from a WRC |
| Dump.InfoLabels | src/bin/dump.rs:58-68 | command k is labelled Info k Request exactly when a WRC sends it, IU Info k Response exactly when an indoor unit sends it to a WRC |
| Dump.PhaseLabels | src/bin/dump.rs:70-74 | as written, the handover, end-of-phase and bus-reset labels are given exactly to their identities |
| Dump.DumpFrames | src/bin/dump.rs:99-122 | the dump loop, walking the frames forward, produces one line per well-formed frame, in order, labelled by the classifier as written |
| Dump.LinesAppend | src/bin/dump.rs:99-122 | a frame arriving after others adds its own line, if any, behind the lines already printed |
| Dump.LinesSkipCorrupted | src/bin/dump.rs:103-110 | the number of lines is the number of frames less the corrupted ones |
| Dump.LabelsOfTheEmulators | src/bin/dump.rs:58-74 | as written, the main WRC's polls, pings and broadcast and the reset tool's frame get the labels meant for them |

## Left out

- Async runtime, channels and tasks: tokio, `async_broadcast` and its capacity-1 backpressure, and the bridge's `Mutex`. Each is modelled as sequential steps over logs. A bridge fan-out runs as one atomic step. The bus's overflow errors are not modelled.
- Bus channel closing: `Bus::new` drops each channel's only receiver as soon as it is made (src/bus.rs:32-33), and the forwarding task and the clients create theirs afterwards. If `async_broadcast` treats a channel left without receivers as closed, every client `send` reaches its `expect` (src/bus.rs:132) and the bus as written never delivers. That library behaviour is not in the repository's text, so the model assumes the channels stay open.
- Clocks and sleeps: `SystemTime` and `delta_ms` are not modelled. The codec's timestamps take the clock reading as a parameter. The emulators' pauses are numbers in the emitted schedule.
- Randomness: the byte `rand::random` draws for a temporary address is a parameter, one byte per received frame.
- Port I/O errors: the `?` on `try_next` and `send`, the bridge's `expect("read")`, and `dump`'s stop on a stream error. A failed bridge `write_all` is modelled as writing nothing, though the source may have written part of the chunk before the error. Streams are finite sequences of frames or chunks.
- `MessageBus.BusClient.Recv`: returns `None` where the source awaits more items.
- `MainWrcEmulator.Emulate`: the normal-operation loop never ends in the source. The model stops after `cycles` rounds.
- `MessageBus.ClientId` and `Bridge.PortId`: unbounded naturals. The `u32` and `usize` wrap-around of the counters is not modelled.
- Integer overflow in debug builds panics. The model uses release-build wrap-around for `u8`, e.g. `Temperature::new` and `0x20 + address + 10`.
- `PrecisionTemperature`: uses `f32`, so it is not modelled.
- Commands the modelled binaries and library do not use: `CommandA2`, `Command64Request`, the EEPROM reads and `Command52ErvResponse`.
- The internals of `packed_struct`: the declared bit positions are modelled directly. A value wider than its field is assumed to be truncated when packed.
- `dump`'s output formatting: `coloured()`, the numbers and the padding. Labels are values; `AddressText` and `CommandText` give their words.
- `src/main.rs`: a superseded prototype that does not compile. It is not part of this model.
- `src/config.rs`: port opening and URL dispatch. It is not part of this model.
- `dump.py`: a serial-to-UDP forwarder, not part of this model. Its resynchronisation test joins its two conditions with `and` (dump.py:27).
- Console output, the command-line parsing, and the logging of `println!` are left out.
- IndoorUnitEmulator.Reply52Decodes: needs a setpoint of at most 72, because the 7-bit temperature byte cannot carry more; `Run52Replies` covers every setpoint the emulator can hold, which stays below 32.
- Emulator sends: the emulators' replies are modelled as the frame's wire image (`FrameBytes`), that is `Codec.FrameCodec.Encode` into an empty buffer; every send in the modelled binaries is a `send(...).await` on the framed port, which flushes the frame out before returning, so the encoder's buffer does start empty (e.g. src/bin/iuemu.rs:274).
- Commands.Pack53: states the packed layout only; the modelled binaries and library never unpack the 0x53 response, so there is no round trip.
- Bridge.Delivered: states only that the set of writers is kept; what each writer receives is stated by `Bridge.ProcessDelivers` over a whole read loop.

## Findings

| source | as written | input that shows it | evidently intended | confidence | as-written member | corrected member |
|---|---|---|---|---|---|---|
| src/protocol/codec.rs:305-308 | a checksum mismatch reaches `todo!()` and panics, after the window is already split off | `32 84 eb f9 00 97 34` (the short test vector with its checksum changed) | report a corrupted frame and keep decoding behind the window | not executed | Codec.BadChecksumPanicsAsWritten | Codec.DamagedChecksumIsSkipped |
| src/protocol/codec.rs:339 | the checksum is the XOR of `dst[1..]`, which includes every byte already in the buffer | encoding any frame behind a complete frame still in `dst`: the checksum is off by 0x06 | the XOR of the frame's own src, dst, cmd and data | not executed | Codec.PendingFrameSkewsChecksum | Codec.RoundTrip |
| src/bin/dump.rs:61 | the "Info 2 Request" arm matches `Command52Request::ID` (0x52), which the Info 1 arm before it already takes | a frame (0x84, 0x20, 0x53): labelled Unknown | match `Command53Request::ID` (0x53) | not executed | Dump.Info2RequestUnreachableAsWritten | Dump.InfoLabels |
