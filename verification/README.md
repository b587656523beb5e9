# SmartAudio VTX driver, modelled in Dafny

This project models the SmartAudio driver of a flight controller
(`src/drivers/drv_serial_smart_audio.c`). The driver controls a video
transmitter over a single-wire, half-duplex UART. One exchange,
`serial_smart_audio_send_payload`, does the following:

1. builds a request frame `00 AA 55 (cmd<<1)|1 size payload… crc`, where
   the CRC-8 (polynomial 0xD5, seed 0, MSB first) runs from `AA` to the
   end of the payload;
2. clears the receive buffer and runs the auto-baud hill climber;
3. sends the frame byte by byte;
4. reads back its own echo from the shared wire;
5. reads one response frame, checks it and applies it to the settings
   record.

The auto-baud climber works as follows:

- it keeps the baud rate on a 50-baud grid inside 4650–4950;
- it computes and records the success rate
  `packets_recv * 100 / packets_sent` on every call, and evaluates it once
  at least 3 frames were sent while the last recorded rate is 0, or at
  least 10 otherwise;
- it moves one step when the rate is below 70%;
- it turns around when the rate improved, and at the range bounds.

The files:

| file | module | what |
|---|---|---|
| `bytes.dfy` | `Bytes` | `byte`, `uint16`, and the 32-bit modulus |
| `crc.dfy` | `Crc` | `crc8`, `crc8_data`: the functions, the C loops proved against them, and the algebra of the fold |
| `frame.dfy` | `Encoder` | the request frame: `FrameOf`, and `EncodeFrame`, which fills the frame array |
| `echo.dfy` | `Echo` | the echo check of `read_frame_back` over the receive queue |
| `baud.dfy` | `BaudControl` | `smart_audio_auto_baud` as a step function on the link state |
| `decoder.dfy` | `Decoder` | `read_packet` as a function of the receive queue: magic resync, the running CRC, the trailer check, and the command switch |
| `driver.dfy` | `SmartAudio` | the whole exchange as a function (`Exchange`), and the class `Driver` |

The class `Driver` holds the driver's globals and statics as fields. Its
methods follow the control flow of the C functions, with two
simplifications in `ReadPacket`: the 750-poll wait for two bytes becomes a
check that fewer than two bytes are queued, and the command switch is one
call of the pure function `Decoder.Apply`. Each method is proved equal to
the corresponding function.

How the environment is represented:

- **Receive buffer.** It is a queue (`seq<byte>`) holding every byte that
  will arrive. A read from an empty queue is a timeout.
- **Transmitter.** How many bytes it accepts before a TXE wait times out
  is the parameter `txReady`.
- **Out-of-range payload reads.** The command switch reads
  `payload[0..5]` whatever the payload length. Those reads see a
  caller-supplied 6-byte `Residue`.

Behaviour of the code that the model keeps exactly:

- The trailer check does not compare the trailer with the CRC of the
  bytes before it. `read_byte_crc` folds the trailer into the running CRC
  first, and the result is then compared with the trailer. So the check
  accepts a trailer `t` iff `crc8(crc, t) == t`. This CRC starts at the
  command byte, not at the magic. A trailer equal to the running CRC is
  accepted only when that CRC is 0 (`Decoder.TrailerEqualToRunningCrc`).
- Responses with raw command ids 0x01 and 0x09 have no trailer.
- A GET_SETTINGS response (any of the three variants) is rejected when the
  running CRC equals `payload[5]`.
- An unknown response id changes nothing but still counts as a success and
  increments `packets_recv`.
- `packets_sent` is incremented only when every byte of the frame went
  out.
- The warm-up branch records the rate but does not reset the counters.
- The direction flips when `last_percent < current_percent`, that is, when
  the rate improved.
- The optional pad byte: `read_frame_back` accepts a first byte that is
  either 0x00 or the first frame byte. In the 0x00 case it then matches
  the whole frame after it (`Echo.EchoCheck`).
- All counters wrap at 2^32 and `current_percent` is truncated to a byte.
- The CRC length `frame_length - 2` is an `int8_t`. Payloads of 124 to 249
  bytes therefore get a CRC byte of 0.

## Model

| member | source | states |
|---|---|---|
| Crc.ToInt8 | src/drivers/drv_serial_smart_audio.c:137 | the `int8_t` conversion lands in [-128, 127], agrees with its argument modulo 256, and is the identity on that range |
| Crc.Crc8Loop | src/drivers/drv_serial_smart_audio.c:122-135 | the XOR-in and the eight shift/XOR-0xD5 iterations compute `Crc8(crc, input)` |
| Crc.Crc8DataLoop | src/drivers/drv_serial_smart_audio.c:137-143 | a non-positive `len` gives 0; otherwise the loop gives the CRC of the first `len` bytes |
| Crc.CrcStepLinear | src/drivers/drv_serial_smart_audio.c:126-132 | one bit iteration distributes over XOR |
| Crc.CrcShiftLinear | src/drivers/drv_serial_smart_audio.c:126-132 | any number of bit iterations distributes over XOR |
| Crc.CrcShiftZero | src/drivers/drv_serial_smart_audio.c:126-132 | the bit loop maps 0 to 0 |
| Crc.Crc8OnlyXor | src/drivers/drv_serial_smart_audio.c:123-124 | `crc8(c, b)` depends only on `c ^ b` |
| Crc.Crc8Self | src/drivers/drv_serial_smart_audio.c:123-135 | folding a byte equal to the running CRC gives 0 |
| Crc.Crc8FoldAppend | src/drivers/drv_serial_smart_audio.c:137-143 | the CRC over `s + t` is the CRC over `t` seeded with the CRC over `s` |
| Crc.Crc8FoldSnoc | src/drivers/drv_serial_smart_audio.c:139-141 | one more byte is one more `crc8` step |
| Crc.Crc8DataEmpty | src/drivers/drv_serial_smart_audio.c:138 | the CRC of no bytes is the seed 0 |
| Crc.Crc8DataWithTrailer | src/drivers/drv_serial_smart_audio.c:137-143 | a sequence followed by its own CRC checksums to 0 |
| Crc.Crc8DataOfTwo | src/drivers/drv_serial_smart_audio.c:139-141 | the CRC of two bytes is two nested `crc8` steps from 0 |
| Crc.Crc8DataOfFour | src/drivers/drv_serial_smart_audio.c:139-141 | the CRC of four bytes is four nested `crc8` steps from 0 |
| Crc.Crc8DataOrderSensitive | src/drivers/drv_serial_smart_audio.c:137-143 | swapping two bytes changes the CRC (`01 02` vs `02 01`) |
| Crc.Crc8DataReferenceVector | src/drivers/drv_serial_smart_audio.c:122-143 | the CRC of `AA 55 03 00` (GET_SETTINGS) is 0x9F |
| Encoder.EncodeFrame | src/drivers/drv_serial_smart_audio.c:319-331 | filling the frame array and writing the `crc8_data` byte yields exactly `FrameOf(cmd, payload)` |
| Encoder.FillFrame | src/drivers/drv_serial_smart_audio.c:320-330 | a fresh array of `size + 6` bytes holding the pad, the magic, the command byte, the size and the payload |
| Encoder.CrcLengthCovers | src/drivers/drv_serial_smart_audio.c:331 | the `int8_t` length `frame_length - 2` covers the body exactly when the payload is at most 123 bytes, and is negative otherwise |
| Encoder.FrameLayout | src/drivers/drv_serial_smart_audio.c:323-331 | the frame's length and every byte: pad, magic, command byte, size, payload, and the CRC over bytes 1 to size+4 (or 0 past 123 bytes) |
| Encoder.FrameChecksumsToZero | src/drivers/drv_serial_smart_audio.c:331 | everything after the pad byte, CRC included, checksums to 0 |
| Encoder.CommandByteDecodes | src/drivers/drv_serial_smart_audio.c:326 | the command byte (the id shifted left, low bit set) is odd and carries the low seven bits of the id |
| Encoder.CommandByteInjective | src/drivers/drv_serial_smart_audio.c:326 | distinct ids below 128 have distinct command bytes |
| Encoder.EmptyRequest | src/drivers/drv_serial_smart_audio.c:319-331 | a payload-less request is `00 AA 55 cmd' 00 crc` with the CRC over the four bytes after the pad |
| Encoder.GetSettingsRequestBytes | src/drivers/drv_serial_smart_audio.c:319-331 | the GET_SETTINGS request is `00 AA 55 03 00 9F` |
| Echo.MatchFromIsPrefix | src/drivers/drv_serial_smart_audio.c:310-314 | the byte-by-byte check succeeds iff the queue starts with the expected bytes, and then consumes exactly them |
| Echo.MatchFromFailsAt | src/drivers/drv_serial_smart_audio.c:310-314 | the check fails at the first differing byte, consuming it, or when the queue runs out |
| Echo.EchoCheckAccepts | src/drivers/drv_serial_smart_audio.c:293-317 | the echo passes iff the queue starts with the frame, or with 0x00 and then the frame (when the frame does not start with 0x00), and exactly those bytes are consumed |
| Echo.FrameEchoAccepted | src/drivers/drv_serial_smart_audio.c:339 | a transmitted frame coming back with or without its pad byte passes and leaves what follows |
| BaudControl.Percent | src/drivers/drv_serial_smart_audio.c:91 | the rate is a byte, and 0 when nothing was sent |
| BaudControl.PercentIsRate | src/drivers/drv_serial_smart_audio.c:91 | without wrap-around and with `recv <= sent` the rate is `recv * 100 / sent`, at most 100 |
| BaudControl.InitialOnGrid | src/drivers/drv_serial_smart_audio.c:30 | the power-up state is on the grid at 4800 baud |
| BaudControl.AutoBaudKeepsGrid | src/drivers/drv_serial_smart_audio.c:97-115 | a call keeps the baud rate on the 50-step grid inside [4650, 4950] and the direction at ±1 |
| BaudControl.StepOnGrid | src/drivers/drv_serial_smart_audio.c:111 | one step from a grid point that is not at the bound in that direction lands on the grid, without wrap-around |
| BaudControl.WarmUpOnlyRecords | src/drivers/drv_serial_smart_audio.c:92-95 | during warm-up only `last_percent` changes: the counters are not reset |
| BaudControl.EvaluationResets | src/drivers/drv_serial_smart_audio.c:117-119 | after warm-up both counters are reset and the rate is recorded |
| BaudControl.StepsIffPoor | src/drivers/drv_serial_smart_audio.c:97-119 | after warm-up the rate moves by one step iff the success rate is below 70%; otherwise the direction is kept |
| BaudControl.DirectionRule | src/drivers/drv_serial_smart_audio.c:100-111 | the new direction is the old one negated iff the rate improved, then turned back at the bounds (and kept otherwise, including at a bound it already points away from); the step goes the new way |
| BaudControl.SessionStaysOnGrid | src/drivers/drv_serial_smart_audio.c:87-120 | over any sequence of calls and counter values the baud rate stays on the grid |
| BaudControl.SameRateKeepsDirection | src/drivers/drv_serial_smart_audio.c:97-119 | 3 of 10 after 30%: no flip, 4800 → 4850 |
| BaudControl.ImprovedRateFlips | src/drivers/drv_serial_smart_audio.c:100-103 | 5 of 10 after 30%: the direction flips, 4800 → 4750 |
| BaudControl.DegradedRateKeepsDirection | src/drivers/drv_serial_smart_audio.c:97-119 | 3 of 10 after 50%, going down: the rate dropped, so no flip, 4800 → 4750 |
| Decoder.Field | src/drivers/drv_serial_smart_audio.c:251-282 | `payload[k]` is the payload byte when it exists |
| Decoder.Drop | src/drivers/drv_serial_smart_audio.c:164-176 | reading `n` bytes shortens the queue by `n`, down to empty |
| Decoder.FewerThanTwoBytes | src/drivers/drv_serial_smart_audio.c:195-205 | with fewer than two bytes queued nothing is read and the read fails |
| Decoder.ResyncFindsMagic | src/drivers/drv_serial_smart_audio.c:207-215 | resync consumes a prefix; on success that prefix is at most two bytes per try and ends in `AA 55` |
| Decoder.ResyncSkipsNoise | src/drivers/drv_serial_smart_audio.c:207-215 | up to two non-0xAA noise bytes before the magic are skipped |
| Decoder.MagicFound | src/drivers/drv_serial_smart_audio.c:207-215 | a successful resync stops right behind an `AA 55` within the first six bytes |
| Decoder.ParseFrameAtMagic | src/drivers/drv_serial_smart_audio.c:207-215 | a queue starting with the magic is read from right behind it |
| Decoder.ParseBodySound | src/drivers/drv_serial_smart_audio.c:217-245 | a successful body read consumed command, length, payload and (unless skipped) a trailer `t` with `crc8(crc, t) == t` |
| Decoder.ParseBodyReads | src/drivers/drv_serial_smart_audio.c:217-245 | with the whole body queued the read is the skip case, the CRC failure or the success, exactly by the trailer check |
| Decoder.ParseBodyComplete | src/drivers/drv_serial_smart_audio.c:217-245 | a well-formed body is read back with its command and payload, or rejected when the trailer check fails |
| Decoder.HeaderCrc | src/drivers/drv_serial_smart_audio.c:217-234 | the running CRC after command, length and payload is the CRC of those bytes |
| Decoder.ParseFrameSound | src/drivers/drv_serial_smart_audio.c:207-245 | a successful read found the magic within six bytes and parsed the body right behind it |
| Decoder.TrailerEqualToRunningCrc | src/drivers/drv_serial_smart_audio.c:236-245 | a trailer equal to the running CRC passes the check iff that CRC is 0 |
| Decoder.TruncatedBodyTimesOut | src/drivers/drv_serial_smart_audio.c:219-240 | a body cut short by the end of the queue is a read timeout that empties the queue |
| Decoder.GetSettingsDecodes | src/drivers/drv_serial_smart_audio.c:248-261 | GET_SETTINGS with CRC ≠ `payload[5]` sets version 1/2/3, channel, power, mode and the big-endian frequency |
| Decoder.GetSettingsVariantsDifferInVersionOnly | src/drivers/drv_serial_smart_audio.c:256 | the three variants decode the same bytes identically except for the version |
| Decoder.GetSettingsQuirkRejects | src/drivers/drv_serial_smart_audio.c:251-254 | GET_SETTINGS fails iff the CRC equals `payload[5]` |
| Decoder.SetFrequencyDecodes | src/drivers/drv_serial_smart_audio.c:263-265 | SET_FREQUENCY sets the frequency to `payload[0] * 256 + payload[1]` and nothing else |
| Decoder.SetChannelAndModeDecode | src/drivers/drv_serial_smart_audio.c:267-283 | SET_CHANNEL sets the channel and SET_MODE the mode from `payload[0]`, nothing else |
| Decoder.SetPowerDecodes | src/drivers/drv_serial_smart_audio.c:271-280 | SET_POWER sets the power from `payload[1]` when `payload[0]` names the channel (plain or "weird"); otherwise from `payload[0]` when `payload[1]` is 1; otherwise nothing changes |
| Decoder.WeirdChannelDigits | src/drivers/drv_serial_smart_audio.c:273 | the "weird" channel writes band and slot as two decimal digits without wrap-around below 200 |
| Decoder.WeirdChannelExample | src/drivers/drv_serial_smart_audio.c:273 | channel 13 (band 1, slot 5) is written as 15 |
| Decoder.UnknownCommandKeepsSettings | src/drivers/drv_serial_smart_audio.c:285-290 | an unknown id leaves the settings and still succeeds |
| Decoder.FrameParses | src/drivers/drv_serial_smart_audio.c:207-245 | a checked response frame behind the magic is read as that frame |
| Decoder.SetFrequencyReplyParses | src/drivers/drv_serial_smart_audio.c:207-245 | `AA 55 04 02 hi lo t` with an accepted trailer parses as SET_FREQUENCY with payload `hi lo` |
| Decoder.SetFrequencyReplyAccepted | src/drivers/drv_serial_smart_audio.c:207-265 | such a reply sets the frequency to `hi * 256 + lo`, changes nothing else, and leaves what follows |
| Decoder.SetFrequencyReplyCrc | src/drivers/drv_serial_smart_audio.c:236-245 | 0x4B is an accepted trailer after `04 02 16 2C` (5676 MHz) |
| SmartAudio.Inc | src/drivers/drv_serial_smart_audio.c:161 | a `uint32_t` increment: the successor, wrapping to 0 |
| SmartAudio.AutoBaudInRange | src/drivers/drv_serial_smart_audio.c:87-120 | the auto-baud step keeps every field within its C type |
| SmartAudio.TransmitSends | src/drivers/drv_serial_smart_audio.c:333-337 | the wire gains a prefix of the frame, the whole frame iff `txReady` covers it, and the send is counted iff it is complete; the buffer is cleared; the settings are unchanged |
| SmartAudio.ReceiveIgnoresQueue | src/drivers/drv_serial_smart_audio.c:333 | after the buffer clear, only the bytes that arrive afterwards matter |
| SmartAudio.ReceiveKeepsBaud | src/drivers/drv_serial_smart_audio.c:339-348 | receiving changes only `packets_recv` (by one iff it succeeded) and the settings only on success |
| SmartAudio.EchoMismatchFails | src/drivers/drv_serial_smart_audio.c:339-342 | a bad echo fails before any response is read |
| SmartAudio.ReceiveSucceedsIff | src/drivers/drv_serial_smart_audio.c:339-348 | the exchange succeeds iff the echo passed and the response was read and accepted, and then the settings are the command switch's |
| SmartAudio.EchoedExchange | src/drivers/drv_serial_smart_audio.c:333-348 | a complete send echoed back with its pad byte is `read_packet` on what follows, with the send counted and, on success, the receive |
| SmartAudio.ExchangeInRange | src/drivers/drv_serial_smart_audio.c:319-349 | an exchange keeps every counter within its C type |
| SmartAudio.ExchangeKeepsGrid | src/drivers/drv_serial_smart_audio.c:319-349 | an exchange keeps the baud rate on its grid, moved only by the auto-baud step |
| SmartAudio.AutoBaudKeepsRecvWithinSent | src/drivers/drv_serial_smart_audio.c:87-120 | auto-baud never makes `packets_recv` exceed `packets_sent` |
| SmartAudio.ExchangeKeepsRecvWithinSent | src/drivers/drv_serial_smart_audio.c:319-349 | with complete sends, `packets_recv <= packets_sent` is kept |
| SmartAudio.RunKeepsGrid | src/drivers/drv_serial_smart_audio.c:319-349 | across any run of exchanges the baud rate stays on the grid in [4650, 4950] |
| SmartAudio.SetFrequencyExchange | src/drivers/drv_serial_smart_audio.c:319-349 | a SET_FREQUENCY exchange echoed and answered correctly sets the frequency, counts one send and one receive, and leaves what followed |
| SmartAudio.Driver.constructor | src/drivers/drv_serial_smart_audio.c:19-32 | the zero-initialised globals at 4800 baud, direction 1, on the grid |
| SmartAudio.Driver.AutoBaud | src/drivers/drv_serial_smart_audio.c:87-120 | the fields are updated exactly as `AutoBaudStep` says; the UART is reconfigured iff the rate moves |
| SmartAudio.Driver.SendData | src/drivers/drv_serial_smart_audio.c:145-162 | the wire gains the bytes the transmitter took; `packets_sent` is incremented iff all went out |
| SmartAudio.Driver.ReadByte | src/drivers/drv_serial_smart_audio.c:164-176 | succeeds iff a byte is queued, returns the oldest, and removes it |
| SmartAudio.Driver.CheckForByte | src/drivers/drv_serial_smart_audio.c:178-184 | succeeds iff the oldest queued byte is `check`; one byte is consumed if any |
| SmartAudio.Driver.ReadByteCrc | src/drivers/drv_serial_smart_audio.c:186-192 | as `ReadByte`, also folding the byte into the CRC; on a timeout the CRC is kept |
| SmartAudio.Driver.Resynchronise | src/drivers/drv_serial_smart_audio.c:207-215 | the three-try magic loop ends as `Resync` says |
| SmartAudio.Driver.ReadHead | src/drivers/drv_serial_smart_audio.c:217-234 | succeeds iff command, length and `length` payload bytes are queued, and returns them with their CRC |
| SmartAudio.Driver.ReadPayload | src/drivers/drv_serial_smart_audio.c:229-234 | reads `n` bytes into an `n`-byte array folding each into the CRC, or times out emptying the queue |
| SmartAudio.Driver.ReadBody | src/drivers/drv_serial_smart_audio.c:217-245 | the frame read and the remaining queue are `ParseBody`'s |
| SmartAudio.Driver.ReadPacket | src/drivers/drv_serial_smart_audio.c:194-291 | the queue, the settings and `packets_recv` end as `ReadPacketModel` says, with `packets_recv` incremented iff it returns 1 |
| SmartAudio.Driver.ReadFrameBack | src/drivers/drv_serial_smart_audio.c:293-317 | the result and the remaining queue are `EchoCheck`'s |
| SmartAudio.Driver.SendFrame | src/drivers/drv_serial_smart_audio.c:333-337 | the state after clear, auto-baud and send is `Transmit`'s |
| SmartAudio.Driver.AwaitReply | src/drivers/drv_serial_smart_audio.c:339-348 | the result and the state after echo and response are `Receive`'s |
| SmartAudio.Driver.SendPayload | src/drivers/drv_serial_smart_audio.c:319-349 | the result and the whole new state are `Exchange`'s; the grid invariant is kept; the UART is reconfigured iff the rate moves |

## Left out

- UART and GPIO set-up (`serial_smart_audio_reconfigure`, `serial_smart_audio_init`, lines 34-69): hardware register writes. The model keeps only a ghost count of reconfigurations.
- The interrupt handler (lines 71-85) is not modelled. It fills the receive buffer and sets `transfer_done`. The model instead has all arriving bytes queued before reading starts.
- The receive buffer is a plain queue. The model leaves out the circular buffer's internals, its 512-byte size and overflow.
- The waits are not modelled: `transfer_done`, `__WFI`, the delays, and the exact timeout counts (750 and 0x1000). A timeout is an empty receive queue, or the transmitter taking no more than `txReady` bytes.
- The `quic_debugf` logging is not modelled. The failure reasons survive as `Decoder.Failure`.
- The `SA_CMD_*` values come from a header that is not part of this model. The model uses the SmartAudio protocol's ids.
- The division by zero at line 91 when `packets_sent` is 0 is undefined in C. `BaudControl.Percent` gives 0, as a Cortex-M `UDIV` does when divide-by-zero trapping is off.
- The payload reads past `length` in the command switch (and the zero-length array) read unspecified stack bytes. The model supplies them as the `Residue` parameter.
- SmartAudio.Driver.SendPayload: requires a payload of at most 249 bytes. Beyond that `frame_length` wraps and the CRC store writes outside the frame array.
- SmartAudio.Driver.ReadFrameBack: requires fewer than 256 expected bytes. With more, the `uint8_t` loop index wraps before reaching `size`, so the function can never return 1: it reads until the first mismatch or read timeout and returns 0. `send_payload` passes at most 254.
- An encode→decode round trip is not stated: the code has none. A request frame read as a response has a different command byte (`(cmd<<1)|1`). Its CRC also covers the magic, while the decoder's CRC starts at the command byte and folds the trailer in. `Encoder.FrameChecksumsToZero` and `Decoder.ParseBodyComplete` state what each side does.
- The byte-level linearity of `crc8` as a function of the running CRC is not stated. Only the bit loop's linearity (`Crc.CrcShiftLinear`) is.
- `src/main/motor.c` and `src/util/vector.h` are not part of this model.
