# msp-rs protocol engine in Dafny

This project models the protocol engine of msp-rs, a small MSP (MultiWii Serial Protocol) client for flight controllers. It covers three parts:

- **The frame codec** (`src/msp.rs`):
  - the CRC-8/DVB-S2 checksum `crc8_dvb_s2`;
  - the two request encoders: `encode_msp` (MSPv1, XOR checksum) and `encode_msp2` (MSPv2, CRC);
  - the `MSPRes`/`MSPMsg` records.
- **The decoder `reader`** (`src/msp.rs`): a byte-at-a-time state machine over the `States` enum. It keeps five variables across reads: the state `n`, `crc`, `count`, `dirnok` and `msg`. It sends one `MSPMsg` per completed frame, then a default (`Fail`) message when the stream ends or a read fails.
- **The request sequencing of the client** (`src/main.rs`):
  - the encoder the protocol version selects;
  - the first IDENT request;
  - the command requested after each message received.

Modules:

- `MspCodec` (`msp_codec.dfy`): the constants, the records, the CRC and the encoders. Each encoder loop is a method proved against a function that gives the frame's layout.
- `MspReader` (`msp_reader.dfy`): the decoder.
  - Each arm of the `match n` is the function `Transition`.
  - The inner byte loop is the method `FeedChunk` and the outer read loop is the method `Reader`. Both are proved against the functions `FeedAll` and `ReadAll`.
  - The byte-level lemmas live here: resynchronisation, at most one message per byte, and chunking.
- `MspFrames` (`msp_frames.dfy`): whole frames through the decoder.
  - Decoding a well-formed frame sends exactly one message.
  - Encoder and decoder round-trip once the direction byte becomes `>`.
  - A corrupted payload byte is caught, and so is a corrupted flags, command or checksum byte in MSPv2 and a corrupted command or checksum byte in MSPv1.
  - An echoed empty-payload request (the only kind the client sends, `src/main.rs:83`, `src/main.rs:194`) is silent; a payload can itself hold a frame.
  - A zero-length frame carries stale data.
- `Session` (`session.dfy`): the version-selecting encoder, the next-command function `NextCmd`, the `Ok` walk, and the receive loop `Run`.

Conventions:

- Bytes are `bv8`.
- The Rust `u16` fields are the subtype `uint16`.
- The truncating casts `(x & 0xff) as u8` and `(x >> 8) as u8` are the functions `Lo` and `Hi`.
- The decoder's five variables are one `ReaderState` value that `Transition`, `FeedChunk` and `Reader` pass along, rather than an object: the source's `reader` is a function whose state lives in local variables.
- `msg.cmd |= (*e as u16) << 8` is written `+ Widen(e) * 256`. This is sound because in the states `XId2` and `XLen2` only the low byte has been stored, an invariant that `ReaderState.Valid` keeps.

What the code does, and the model with it:

- The `$` arm (`src/msp.rs:124-131`) resets the outcome, length, command and direction flag but not `msg.data`, so a zero-length frame carries the previous frame's payload (`MspFrames.StaleDataV2`).
- `src/main.rs` opens the port with a 500 ms read timeout and has no timeout handling of its own. A read that times out ends `reader` like any read error (`ReadErr`). There is no version negotiation and no reconnection. The version is fixed at start-up, and a reply that is not `Ok` is followed by a request for the same command.
- `src/main.rs` tests `x.ok` as a boolean although it is the `MSPRes` enum. The model reads that test as "the outcome is `Ok`".

## Model

| member | source | states |
|---|---|---|
| MspCodec.Crc8DvbS2 | src/msp.rs:39-49 | the eight-round loop computes `Crc8(c, a)`: XOR the byte into the register, then eight shift rounds with polynomial 0xD5 |
| MspCodec.CrcCheckValue | src/msp.rs:39-49 | the CRC of "123456789" folded from 0 is the CRC-8/DVB-S2 check value 0xBC, and `crc8_dvb_s2(0, 0) == 0` |
| MspCodec.RoundsInjective | src/msp.rs:41-47 | the shift rounds are a bijection on the register: two registers give the same result after k rounds exactly when they are equal |
| MspCodec.Crc8InjectiveInByte | src/msp.rs:39-49 | different input bytes into the same register give different CRCs |
| MspCodec.CrcFoldAppend | src/msp.rs:63-66 | folding the CRC over `a + b` is folding over `a`, then over `b` from that register |
| MspCodec.CrcFoldDetectsOneByte | src/msp.rs:63-66 | the CRC folded over a byte string changes whenever exactly one byte changes |
| MspCodec.XorFoldDetectsOneByte | src/msp.rs:81-84 | the MSPv1 XOR checksum changes whenever exactly one byte changes |
| MspCodec.LoHiSplit | src/msp.rs:58-61 | the low and high bytes written for a 16-bit value put that value back together |
| MspCodec.FoldCrc | src/msp.rs:63-66 | the `encode_msp2` checksum loop returns the CRC folded from 0 over its bytes in order |
| MspCodec.FoldXor | src/msp.rs:81-84 | the `encode_msp` checksum loop returns the seed XOR every payload byte |
| MspCodec.EncodeMsp2 | src/msp.rs:51-69 | `encode_msp2` returns exactly `Msp2Frame(cmd, payload)` |
| MspCodec.Msp2FrameLayout | src/msp.rs:51-69 | an MSPv2 frame has `paylen + 9` bytes: `$X<`, flags 0, cmd little-endian, paylen little-endian, the payload, and last the CRC from 0 over bytes 3..paylen+7 |
| MspCodec.EncodeMsp | src/msp.rs:71-87 | `encode_msp` returns exactly `MspFrame(cmd, payload)`; the checksum seeded with `len ^ cmd` equals the XOR over bytes 3..paylen+4 |
| MspCodec.MspFrameLayout | src/msp.rs:71-87 | an MSPv1 frame has `paylen + 6` bytes: `$M<`, the low byte of paylen and of cmd, the payload, and last the XOR of bytes 3..paylen+4 |
| MspReader.Verdict | src/msp.rs:196-201 | the outcome of a finished frame is `Ok` iff the checksum matches and the direction was `>`, `Crc` iff the checksum differs, and never `Fail` |
| MspReader.Transition | src/msp.rs:123-238 | each arm of the state machine keeps the decoder's invariant: while payload is expected, `count < len == |data|`, so the indexed store into `msg.data` is in range |
| MspReader.Zeros | src/msp.rs:183 | `vec![0; len]` has `len` elements |
| MspReader.FeedChunk | src/msp.rs:122-239 | the inner loop over one read ends in the state, and with the messages sent, that `FeedAll` gives |
| MspReader.Reader | src/msp.rs:108-248 | `reader` sends exactly the messages `ReadAll` gives for the sequence of read results |
| MspReader.ChecksumArm | src/msp.rs:196-204 | the checksum arms of both versions return to `Init` and set only the outcome |
| MspReader.ByteSends | src/msp.rs:196-237 | one byte sends at most one message, and sends one exactly in a checksum state; the message sent is the one assembled, with its outcome set |
| MspReader.InitHunts | src/msp.rs:124-132 | in `Init` every byte except `$` is ignored; `$` clears outcome, length, command and direction flag and keeps the payload buffer |
| MspReader.FramingErrorResets | src/msp.rs:133-157 | a wrong format byte after `$`, or a wrong direction byte, sends the decoder back to `Init` with nothing else changed |
| MspReader.NoiseIgnored | src/msp.rs:124-132 | from `Init`, any run of bytes without `$` changes nothing and sends nothing |
| MspReader.Need | src/msp.rs:123-238 | a lower bound on the bytes needed before anything is sent from a state; it is 1 exactly in the checksum states |
| MspReader.NeedStep | src/msp.rs:123-238 | each byte brings the decoder at most one byte closer to sending |
| MspReader.FeedShortSilent | src/msp.rs:122-239 | fewer bytes than the state needs send nothing |
| MspReader.FramesNeverFail | src/msp.rs:196-237 | every message a frame produces has outcome `Ok`, `Crc` or `Dirn` |
| MspReader.FeedAllAppend | src/msp.rs:115-123 | feeding `a + b` is feeding `a` and then `b` from the state `a` left; the decoder state carries across reads |
| MspReader.ReadAllIsFeedAll | src/msp.rs:115-247 | the reader sends what feeding the whole stream sends, then the default message exactly when a read reports end of stream or an error |
| MspReader.ChunkingIrrelevant | src/msp.rs:115-123 | two ways of cutting the same stream into reads send the same messages |
| MspReader.FailOnlyAtEnd | src/msp.rs:116-120 | a `Fail` message is sent only as the last message, exactly when the stream ends or a read fails, and it is the default message |
| MspFrames.FeedLast | src/msp.rs:196-204 | the checksum byte of a frame sends the checked message and nothing after it |
| MspFrames.DecodeV2 | src/msp.rs:150-204 | a well-formed MSPv2 reply frame fed from `Init` sends exactly one message with the frame's command, length, payload and CRC verdict, and leaves the decoder in `Init` |
| MspFrames.DecodeV1 | src/msp.rs:205-237 | the same for an MSPv1 reply frame, with the XOR checksum seeded from the length byte |
| MspFrames.RoundTripV2 | src/msp.rs:51-69 | an `encode_msp2` frame with byte 2 turned into `>` (or `!`) decodes to one message with the same command and payload, outcome `Ok` (or `Dirn`) |
| MspFrames.RoundTripV1 | src/msp.rs:71-87 | an `encode_msp` frame with byte 2 turned into `>` (or `!`) decodes to one message with the payload and the low byte of the command |
| MspFrames.V2ChangePayload | src/msp.rs:188-195 | changing one payload byte of an MSPv2 frame keeps its shape and changes only that byte of the payload and the CRC compared |
| MspFrames.CorruptPayloadV2 | src/msp.rs:196-201 | an MSPv2 reply with one payload byte changed in transit is sent with outcome `Crc` and the changed payload |
| MspFrames.V2ChangeChecked | src/msp.rs:158-176 | changing the flags, a command byte or the checksum byte of an MSPv2 frame that checks keeps its shape, length and payload and makes the CRC comparison fail |
| MspFrames.CorruptCheckedV2 | src/msp.rs:196-201 | an MSPv2 reply with its flags, a command byte or its checksum byte changed in transit is sent with outcome `Crc`, the frame's length and payload, and the command unchanged unless a command byte was hit |
| MspFrames.CorruptPayloadV1 | src/msp.rs:229-234 | the same for MSPv1 and its XOR checksum |
| MspFrames.V1ChangeChecked | src/msp.rs:210-212 | changing the command byte or the checksum byte of an MSPv1 frame that checks keeps its shape, length and payload and makes the XOR comparison fail |
| MspFrames.CorruptCheckedV1 | src/msp.rs:229-234 | an MSPv1 reply with its command byte or its checksum byte changed in transit is sent with outcome `Crc`, the frame's length and payload, and the command's low byte unless the command byte was hit |
| MspFrames.EchoSilentV2 | src/msp.rs:150-157 | an empty-payload MSPv2 request echoed unchanged (direction `<`) sends nothing |
| MspFrames.EchoSilentV1 | src/msp.rs:140-149 | an empty-payload MSPv1 request echoed unchanged sends nothing |
| MspFrames.StaleDataV2 | src/msp.rs:124-131 | after a frame with a payload, a zero-length frame is sent with length 0 and the previous frame's payload |
| Session.EncodeMspVers | src/main.rs:45-51 | the encoder closure builds an MSPv1 frame for version 1 and an MSPv2 frame for any other version |
| Session.VersionSelects | src/main.rs:22 | the marker byte is `M` exactly for version 1 and `X` otherwise; the default version 2 writes MSPv2 |
| Session.EmptyRequest | src/main.rs:194 | every request has an empty payload: its length field reads 0 and its command field reads the command (the low byte in MSPv1) |
| Session.RequestEchoed | src/main.rs:82-84 | a request echoed back with direction `>` is read as an `Ok` reply of length 0 for the same command (its low byte in MSPv1), with the previous frame's payload |
| Session.NextCmd | src/main.rs:86-193 | the next command moves along the walk table exactly when the reply is `Ok` for a listed command (with more than 2 bytes for API_VERSION), and is the reply's own command otherwise |
| Session.RetryUnlessOk | src/main.rs:88-192 | a reply that is not `Ok`, or one for an unlisted command, asks for the same command again; the final default message asks for command 0 |
| Session.OkWalkAdd | src/main.rs:86-195 | k + j requests along an `Ok` walk are k requests, then j more |
| Session.IdentSteps | src/main.rs:90-151 | with `Ok` replies longer than 2 bytes, each identification request is followed by the next in the order IDENT, NAME, API_VERSION, FC_VARIANT, FC_VERSION, BUILD_INFO, BOARD_INFO, WP_GETINFO |
| Session.TelemetryLoop | src/main.rs:152-184 | from ANALOG, `Ok` replies alternate ANALOG and RAW_GPS for ever |
| Session.OkWalkFromIdent | src/main.rs:89-184 | from IDENT, `Ok` replies longer than 2 bytes walk the eight identification requests once, then poll ANALOG and RAW_GPS in turn |
| Session.ShortApiVersionStalls | src/main.rs:104-109 | if the API_VERSION reply has at most 2 bytes, the client asks for API_VERSION for ever |
| Session.InBounds | src/main.rs:90-191 | the printing never indexes past the payload of a reply that is not `Ok`, is for an unlisted command, or has at least 19 bytes; BUILD_INFO needs at least 19; with no bytes only NAME, DEBUGMSG, a zero-length IDENT and an API_VERSION of at most 2 bytes get through |
| Session.Answers | src/main.rs:86-193 | one command is requested per message received, each `NextCmd` of that message, up to the first message whose printing indexes past its payload |
| Session.Run | src/main.rs:82-195 | the client writes the IDENT request, then one empty-payload request per message for the command `NextCmd` picks, and panics exactly at the first message whose printing indexes past its payload |
| Session.HealthyRun | src/main.rs:82-195 | when each request is answered `Ok` for the command requested, every reply with its own length above 2 bytes and a payload the printing can index, the commands requested are the `Ok` walk from IDENT |

## Left out

- Serial I/O: `sd.read` becomes a sequence of read results (bytes, or an error). Reads are not limited to the 256-byte `inp` buffer. This does not matter, because cutting the stream into reads does not change what is sent (`MspReader.ChunkingIrrelevant`).
- Threads and the crossbeam channel: the messages sent are a sequence. `Session.Run` takes the messages it receives as input, because what the flight controller answers is outside the program.
- A `tx.send(..).unwrap()` that panics because the receiver is gone is not modelled.
- Session.Run: the loop in `src/main.rs` never ends. Once the reader thread has stopped, `rcv.recv().unwrap()` panics. The model's loop stops when the given messages run out, and it does not model a `write_all` error returned by `?` or the panic of the first write's `.unwrap()`.
- Session.InBounds: a panic is modelled only as the point where the loop stops. The model records the bounds the printing code needs of `x.data` (including the `x.len > 8` and `x.len > 16` branches), but not the printed values.
- All `println!` output is left out: floating-point scaling, `from_utf8_lossy` and `from_le_bytes` field extraction.
- Command-line parsing with getopts, `-h`, a `--mspvers` value that fails to parse (a panic), and serial port discovery and opening are left out. The version is a parameter.
- MspFrames.RoundTripV2: requires payloads shorter than 65536 bytes. The length field is 16 bits, and `encode_msp2` truncates a longer length.
- MspFrames.RoundTripV1: requires payloads shorter than 256 bytes, for the same reason with the 8-bit length field. Only the low byte of the command survives.
- Version negotiation, reconnection and any special handling of `!` replies are not modelled: the code has none of them. The 500 ms read timeout set in `src/main.rs:70-72` is modelled only as a read that ends `reader` (`ReadErr`).
- MspFrames.EchoSilentV1: only empty-payload echoes are covered, because those are the only requests the client sends; a payload can itself hold a complete frame, which the decoder would send.
- MspFrames.EchoSilentV2: likewise only empty-payload echoes, for the same reason.
