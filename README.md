# PN532 host driver: framing and command exchange

This project models the host side of the PN532 NFC controller driver in
`PN532.cpp` (nfc-ble-keyboard), which talks to the chip over SPI, and proves
properties of that model in Dafny. The frame formats follow the NXP PN532
User Manual UM0701-02: for the normal information frame and the ACK frame,
section 6.2.1; for the InListPassiveTarget response, section 7.3.5.

Modules:

- `Bytes` holds `uint8_t`/`uint16_t` as subset types, with `U8` for C's
  truncation to 8 bits, and the byte-sequence helpers the specifications use:
  `Sum`, and `Take`/`Drop` on a scripted queue that reads 0x00 once empty.
- `Constants` holds frame markers, frame identifiers, SPI command bytes,
  opcodes, baud codes and the driver's status codes.
- `Transport` is the SPI device as a class `Bus`:
  - `enter`/`exit` set chip-select;
  - single-byte and buffer transfers are fed by two scripted queues, one of
    status bytes and one of data bytes standing in for the chip;
  - `delay` is recorded, not performed;
  - a ghost trace records every bus event in order.
- `Frame` gives the normal information frame as pure functions:
  - `Encode` is what `_write_frame` sends;
  - `Decode` is what `_read_frame` concludes from the `count + 8` bytes it
    reads, with one status code per failure, checked in the source's order;
  - lemmas cover the round trip, soundness, error order, detection of
    single-byte corruption, and the read past the buffer.
- `Exchange` gives pure functions of the two scripts:
  - `PollFrom` is the ready poll of `_wait_ready`;
  - `Try` and `Call` are `_call_function_try` and `_call_function`, except
    that the echo check follows the corrected `EchoCheck` (see Findings);
  - the lemmas prove their error cases, success and round trip.
- `Commands` states what the four commands send and how their answers are
  read: the UID table of `read_passive_target_id`, and the firmware and
  power-down round trips.
- `Driver` holds the class `PN532`, whose methods follow the source step by
  step (with the corrected echo check):
  - they work in place on arrays over the `Bus`, with the source's loops and
    out-parameters;
  - each method is proved to compute exactly the pure model: status, new
    length, buffer contents, what is left of both scripts, and the bus trace.

Some constants and status codes are not defined in `PN532.h` or `PN532.cpp`. They are set
once in `constants.dfy`, as listed under "Left out". Where `PN532.h` and
`PN532.cpp` disagree (`SPI_STATREAD` in the header vs `SPI_STATUSREAD` in
the code, and several signatures), the model follows `PN532.cpp`.

## Model

| member | source | states |
|---|---|---|
| Bytes.U8 | PN532.cpp:98 | truncation to `uint8_t` is the identity on bytes and agrees with its argument modulo 256 |
| Frame.ChecksumCancels | PN532.cpp:137 | the checksum byte `~sum + 1` added to its sum gives 0 modulo 256 |
| Frame.ChecksumUnique | PN532.cpp:98-99 | the checksum is the only byte that cancels a sum modulo 256, so a length checksum that passes determines LCS |
| Frame.Body | PN532.cpp:105-108 | the checksummed region TFI, data, DCS is two bytes longer than the data |
| Frame.Packet | PN532.cpp:127-138 | a packet from the start code on is six bytes longer than its data |
| Frame.BodySum | PN532.cpp:133-137 | TFI plus the data plus DCS sum to 0 modulo 256 |
| Frame.BodyData | PN532.cpp:119-120 | the data sits between the frame identifier and the data checksum |
| Frame.BodyChecksumAt | PN532.cpp:137 | the last byte of the checksummed region is the data checksum |
| Frame.EncodeLayout | PN532.cpp:124-138 | the frame is `count + 8` bytes `00 00 FF count+1 ~count D4 data… DCS 00`, with `(LEN + LCS) mod 256 == 0` and `(D4 + Σdata + DCS) mod 256 == 0` |
| Frame.EncodeHeaderAt | PN532.cpp:127-132 | bytes 0 to 5 of the encoded frame are the preamble, start code, LEN, LCS and TFI 0xD4 |
| Frame.EncodeDataAt | PN532.cpp:133-136 | bytes 6 to `count + 5` of the encoded frame are the data |
| Frame.PacketTrailerAt | PN532.cpp:137-138 | after the data a packet carries DCS and then the postamble |
| Frame.EncodeTrailerAt | PN532.cpp:137-138 | byte `count + 6` of the encoded frame is the data checksum and byte `count + 7` the postamble |
| Frame.FirstNonZero | PN532.cpp:87-91 | the index where the zero-skipping loop stops: every byte before it is zero, and the byte at it is not (or the buffer has ended) |
| Frame.FirstNonZeroAt | PN532.cpp:87-91 | zeros up to `k` followed by a non-zero byte make `k` the stopping index |
| Frame.Decode | PN532.cpp:76-122 | a decoded payload is at most `*count` bytes long, and every failure is one of the decoder's own status codes |
| Frame.DecodeLength | PN532.cpp:96-100 | as for Decode, from the length field on |
| Frame.DecodeBody | PN532.cpp:103-121 | as for Decode, from the frame identifier on |
| Frame.DecodeStartMarker | PN532.cpp:87-94 | after any number of leading zeros, including none: an all-zero buffer is ERR_BAD_PREAMBLE, any other first byte than 0xFF is ERR_BAD_PACKET_START, and 0xFF as the last byte is ERR_EMPTY_PACKET |
| Frame.DecodeHeaderOrder | PN532.cpp:96-103 | LEN 0 is ERR_EMPTY_RESPONSE, then a bad LEN+LCS is ERR_BAD_LENGTH_CHECKSUM, then a LEN overrunning the buffer is ERR_LONG_RESPONSE, whatever follows |
| Frame.DecodeBodyOrder | PN532.cpp:105-121 | once the header is sound: a bad data checksum, then a wrong TFI, then a missing postamble, then a payload over capacity, each with its own code; otherwise the payload |
| Frame.DecodeAt | PN532.cpp:87-100 | past a sound header at `k` the decoder checks the region starting at `k + 3` |
| Frame.DecodeChecked | PN532.cpp:110-121 | once the data checksum passes, the TFI, the postamble and the capacity decide the outcome |
| Frame.DecodeOverrunFails | PN532.cpp:98 | when 0xFF is the last byte but one, the source reads a byte past the buffer; every such frame is rejected, whatever that byte is |
| Frame.DecodeIgnoresPast | PN532.cpp:98 | neither whether a frame is accepted nor its payload depends on the byte read past the buffer |
| Frame.PacketFields | PN532.cpp:76-122 | where each field of a packet sits after `k` zero bytes, and that both checksums of it hold |
| Frame.DecodePacket | PN532.cpp:76-122 | round trip: a response packet after any number of zero bytes decodes to its data if the data fits the capacity, and is ERR_LONG_RESPONSE otherwise |
| Frame.DecodeResponseFrame | PN532.cpp:76-122 | round trip for a whole response frame, preamble included, after any zero bytes |
| Frame.DecodeRejectsHostFrame | PN532.cpp:110 | the host's own encoded frame read back is refused with ERR_BAD_TFI |
| Frame.DecodeBodySound | PN532.cpp:103-121 | an accepted region is the checksummed body of its payload with TFI 0xD5, followed by the postamble inside the buffer |
| Frame.RegionIsBody | PN532.cpp:105-108 | a region `tfi data… dcs` that sums to 0 modulo 256 carries the data checksum |
| Frame.DecodeSound | PN532.cpp:76-122 | soundness: an accepted buffer is zero bytes followed by a well-formed response packet carrying the payload |
| Frame.DecodeAccepted | PN532.cpp:87-100 | an accepted buffer has the start code, a non-zero length and a matching length checksum inside the buffer |
| Frame.PacketAt | PN532.cpp:92-111 | fields that pass every check make up the packet of their data |
| Frame.SumUpdate | PN532.cpp:105-107 | replacing one byte changes the sum by the difference |
| Frame.SumChanged | PN532.cpp:105-108 | changing one byte of a region that sums to 0 modulo 256 breaks the checksum |
| Frame.DecodeDetectsCorruption | PN532.cpp:92-111 | changing any one byte of a response packet is caught by the check of the field it lands in: start code, length, length checksum, data checksum or postamble |
| Frame.CorruptLength | PN532.cpp:97-99 | a changed LEN or LCS is ERR_EMPTY_RESPONSE (LEN 0) or ERR_BAD_LENGTH_CHECKSUM |
| Frame.CorruptPostamble | PN532.cpp:111 | a changed postamble is ERR_BAD_POSTAMBLE |
| Frame.CorruptStart | PN532.cpp:87-92 | a changed start code is ERR_BAD_PACKET_START |
| Frame.CorruptBody | PN532.cpp:105-108 | a changed TFI, data byte or DCS is ERR_BAD_DATA_CHECKSUM |
| Frame.BodyBroken | PN532.cpp:105-108 | a byte changed inside the region leaves the header sound and breaks the data checksum |
| Frame.DecodeBadDataChecksum | PN532.cpp:105-108 | a sound header with a region not summing to 0 is ERR_BAD_DATA_CHECKSUM |
| Exchange.PollFromFacts | PN532.cpp:45-60 | a wait consumes one status byte per poll, is ready only at a ready status byte after none, and polls the whole budget when it times out |
| Exchange.PollRest | PN532.cpp:50-51 | each poll consumes exactly one status byte |
| Exchange.BudgetStep | PN532.cpp:54-55 | one poll interval uses up one poll of the budget |
| Exchange.PollCount | PN532.cpp:50-57 | a ready wait polls at least once and at most one poll per started 5 ms; a timed-out wait polls exactly that many times |
| Exchange.PollScan | PN532.cpp:50-57 | a wait stops at the first status byte with bit 0 set |
| Exchange.WaitReadyIff | PN532.cpp:45-60 | `_wait_ready` is true iff some polled status byte has bit 0 set; it polls at most `ceil(timeout/5)` times and makes no poll when the timeout is 0 |
| Exchange.CommandData | PN532.cpp:149-153 | the data written is the opcode followed by the parameters |
| Exchange.EchoCheckAsWritten | PN532.cpp:173-179 | the echo check as the source has it returns only SUCCESS or ERR_WRONG_COMMAND_RESPONSE |
| Exchange.EchoEmptyPayloadUnderflows | PN532.cpp:173-178 | an empty payload whose stale first byte equals the echo passes the check, and the length underflows to 255 |
| Exchange.EchoCheck | PN532.cpp:173-179 | success iff the payload starts with opcode + 1; then the response is the rest of the payload and its length is counted; otherwise ERR_WRONG_COMMAND_RESPONSE with the decoded length |
| Exchange.EchoCheckAgrees | PN532.cpp:173-179 | the corrected check and the source agree on every non-empty payload |
| Exchange.Try | PN532.cpp:148-181 | the exchange returns SUCCESS or an error code, and on success a response no longer than the requested length |
| Exchange.Respond | PN532.cpp:170-179 | as for Try, for decoding the frame read and checking the echo |
| Exchange.CallAbortsIffFailure | PN532.cpp:183-194 | `_call_function` returns the status of the exchange, and its trace ends with the raw ACK frame written iff that status is not SUCCESS |
| Exchange.CallFailures | PN532.cpp:155-176 | the failure cases and the length each leaves: ERR_ACK_TIMEOUT, ERR_NO_COMMAND_ACK and ERR_RESPONSE_TIMEOUT with the length unchanged; a decode error passed through with the length incremented; ERR_WRONG_COMMAND_RESPONSE with the decoded length |
| Exchange.CallSuccessSound | PN532.cpp:155-180 | a successful exchange saw both ready waits and the ACK, and the frame decoded to opcode + 1 followed by the response |
| Exchange.CallRoundTrip | PN532.cpp:148-194 | a chip that is ready twice, ACKs, and answers with a response frame echoing opcode + 1, after any zero bytes that fit the read, makes the call succeed with exactly its answer |
| Exchange.RoundTripScript | PN532.cpp:159-179 | such a data script yields the ACK, then a read window that decodes and passes the echo check with the answer |
| Exchange.AckScript | PN532.cpp:159 | a script starting with the ACK frame yields it in the 6-byte read |
| Exchange.CallAnswers | PN532.cpp:148-194 | the round trip with no zero bytes before the response frame |
| Exchange.CallOk | PN532.cpp:148-194 | completeness: two ready waits, the ACK and a response passing the decoder and the echo check make the call succeed with that response |
| Exchange.RespondRoundTrip | PN532.cpp:170-179 | the read window over a response frame after zero bytes yields exactly the answer |
| Exchange.RespondOk | PN532.cpp:173-179 | a decoded payload echoing the opcode is answered with the rest of it |
| Exchange.CallIgnoresPast | PN532.cpp:98 | the byte read past the buffer never decides whether an exchange succeeds, nor its outcome apart from the error code |
| Commands.TargetUid | PN532.cpp:227-261 | a reported UID fits the caller's buffer, and comes from a response of more than one byte that lists a target |
| Commands.TargetUidByBaud | PN532.cpp:227-261 | for each baud code, both directions: a UID is reported iff the response is long enough for its length byte, lists a target, holds the UID at the baud's offset, and the UID fits; unsupported codes report none |
| Commands.TargetUidTypeA | PN532.cpp:229-233 | an ISO14443A answer with a 4-byte NFCID yields that NFCID, and a target count of 0 yields none |
| Commands.FirmwareOkLength | PN532.cpp:196-206 | a successful firmware probe carries exactly 4 version bytes |
| Commands.FirmwareRoundTrip | PN532.cpp:196-206 | a chip that answers GetFirmwareVersion with its 4 version bytes makes the probe succeed with exactly those bytes |
| Commands.FirmwareSizes | PN532.cpp:197-198 | GetFirmwareVersion with no parameters and 4 response bytes fits the frame length without wrapping |
| Commands.PowerDownRoundTrip | PN532.cpp:264-287 | a chip that answers PowerDown with status byte `s` makes the exchange succeed with `[s]` |
| Commands.PowerDownSizes | PN532.cpp:265-267 | PowerDown with its two parameters and one status byte fits the frame length |
| Transport.Bus.constructor | SPI_Device.cpp:3-16 | the device starts with chip-select released, an empty trace and the given scripts |
| Transport.Bus.Enter | SPI_Device.cpp:17-20 | asserts chip-select and records it |
| Transport.Bus.Exit | SPI_Device.cpp:21-24 | releases chip-select and records it |
| Transport.Bus.Transfer | SPI_Device.cpp:25-27 | a status read answers the next status byte and consumes it; any other byte answers nothing; the byte sent is recorded |
| Transport.Bus.Send | SPI_Device.h:20 | the buffer sent is recorded |
| Transport.Bus.Receive | SPI_Device.h:20 | the buffer is filled with the next data bytes, which are consumed and recorded |
| Transport.Bus.Sleep | PN532.cpp:54 | a delay is recorded and changes nothing else |
| Driver.PollReadyStep | PN532.cpp:50-53 | a ready status byte ends the wait after one poll |
| Driver.PollWaitStep | PN532.cpp:53-56 | any other status byte costs a poll and a 5 ms delay before the wait goes on |
| Driver.AddMod | PN532.cpp:105-106 | truncating a running `uint8_t` sum early does not change it |
| Driver.NegMod | PN532.cpp:137 | `~checksum + 1` in `uint8_t` is the data checksum |
| Driver.EncodeParts | PN532.cpp:127-138 | a buffer filled field by field as `_write_frame` does is the encoded frame |
| Driver.EncodeHeaderMatches | PN532.cpp:127-132 | the six header bytes written agree with the encoded frame |
| Driver.EncodeDataMatches | PN532.cpp:133-136 | the data bytes written agree with the encoded frame |
| Driver.EncodeTrailerMatches | PN532.cpp:137-138 | the checksum and postamble written agree with the encoded frame |
| Driver.SumSlice | PN532.cpp:105-107 | one more step of the checksum loop adds the next byte |
| Driver.SumSnoc | PN532.cpp:133-135 | one more step of the data loop adds the next byte |
| Driver.SkipZeros | PN532.cpp:87-91 | the loop stops at the first non-zero byte of the buffer |
| Driver.Checksum8 | PN532.cpp:105-107 | the loop's `uint8_t` checksum is the sum of the region modulo 256 |
| Driver.CopyOut | PN532.cpp:120 | the payload lands at the front of the caller's buffer and the rest of it is untouched |
| Driver.BuildFrame | PN532.cpp:124-138 | the buffer `_write_frame` fills is exactly `Encode(data[..count])` |
| Driver.FillPayload | PN532.cpp:133-136 | the loop copies the data after TFI, touches nothing else, and sums TFI and the data in `uint8_t` |
| Driver.ExtractUid | PN532.cpp:227-261 | the UID is found iff the UID table says so; it is then copied and its length returned, and otherwise `uid` and `*uid_len` are unchanged |
| Driver.ParseFrame | PN532.cpp:87-94 | the checks of `_read_frame` deliver what `Decode` says: on success the payload and its length, on an error the code with buffer and count untouched |
| Driver.ParseLength | PN532.cpp:96-100 | as for ParseFrame, from the length field on |
| Driver.ParseBody | PN532.cpp:103-121 | as for ParseFrame, from the frame identifier on |
| Driver.PN532.constructor | PN532.cpp:17-32 | wakes the chip and probes the firmware, a second time only if the first probe fails; `_wake_success` is whether either probe succeeded |
| Driver.PN532.WakeUp | PN532.cpp:38-43 | chip-select held for WAKE_DELAY ms, nothing else |
| Driver.PN532.WaitReady | PN532.cpp:45-60 | does exactly the poll `PollFrom` specifies, inside one transaction, and leaves the bus released |
| Driver.PN532.ReadData | PN532.cpp:62-67 | one data-read transaction fills the buffer with the next data bytes |
| Driver.PN532.WriteData | PN532.cpp:69-74 | one data-write transaction sends the buffer |
| Driver.PN532.WriteFrame | PN532.cpp:124-145 | the encoded frame of the data is written, as one data-write transaction bracketed by Enter and Exit |
| Driver.PN532.ReadFrame | PN532.cpp:76-122 | reads `count + 8` bytes and delivers what `Decode` says of them |
| Driver.PN532.SendCommand | PN532.cpp:149-153 | writes the frame of the opcode and parameters |
| Driver.PN532.CheckAck | PN532.cpp:159-164 | reads 6 bytes, and gives SUCCESS iff they are the ACK frame and ERR_NO_COMMAND_ACK otherwise |
| Driver.PN532.ReadResponse | PN532.cpp:170-180 | reads `*response_len + 1 + 8` bytes and returns what `Respond` says, with the response copied out only on success |
| Driver.PN532.CallFunctionTry | PN532.cpp:148-181 | status, new length, response, scripts and trace are those of `Try` |
| Driver.PN532.CallFunction | PN532.cpp:183-194 | status, new length, response, scripts and trace are those of `Call` |
| Driver.PN532.GetFirmwareVersion | PN532.cpp:196-206 | true iff the probe succeeded with 4 bytes, which are then the version |
| Driver.PN532.SamDisable | PN532.cpp:208-219 | true iff SAMConfiguration succeeded, and then with no response data |
| Driver.PN532.ReadPassiveTargetId | PN532.cpp:221-262 | true iff the exchange succeeded and the UID table yields a UID, which is then copied into `uid` with its length |
| Driver.PN532.PowerDown | PN532.cpp:264-287 | true iff the exchange succeeded with one status byte equal to 0, and only then followed by POWERDOWN_DELAY |

`Driver.PN532.WakeSuccess` (PN532.cpp:34-36) returns the flag the
constructor sets.

## Left out

- Debug output: `_print_uint8_hex` and every `Serial.print` branch are not modelled. They only print.
- SPI_Device.cpp is not part of this model beyond its interface. The bus is a scripted stand-in for the chip. The buffer `transfer` is declared there but not defined, so `Send`/`Receive` give it the meaning the driver relies on.
- Timing: `delay` is a `Delay(ms)` trace event, and no time passes.
- The status script and data script read 0x00 once exhausted. An exhausted status script is therefore never ready.
- `get_firmware_version` writes the version into a `uint32_t`. The model keeps the 4 bytes as a sequence, because the integer's value depends on endianness.
- `NACK_FRAME` and `ERROR_FRAME` are defined by the source but never used, so they are not modelled.
- IRQ handling (marked unimplemented in the source) is not modelled.
- The status codes are not defined in PN532.h or PN532.cpp. SUCCESS is 0, since the source tests `if (status)`. The thirteen error codes are the distinct values 1 to 13, in decoder-then-exchange order. POWERDOWN_NO_IRQ is 0, POWERDOWN_DELAY is 1 ms, and the poll interval is 5 ms.
- Driver.PN532.ReadFrame: when the start code is the second-to-last byte, the byte read past the buffer is an arbitrary value, returned as a ghost out-parameter. Its real contents are left undetermined. The lemmas prove that such a frame is always rejected.
- Exchange.Fits: the model excludes parameter and response lengths for which `count + 8` wraps in `uint8_t`. Every caller passes 0, 2 or 3 parameters and a response length of 0, 1, 4 or 23, so none of them comes near the wrap.
- Exchange.Fits: on the write side (PN532.cpp:125-138) a wrapped frame length is always an out-of-bounds write, since the data is copied into a shorter array.
- Exchange.Fits: on the read side (PN532.cpp:77) a wrapped length is not always an error. With `*response_len + 1 == 255` the source reads a 7-byte frame, and `FF 02 FE D5 xx DCS 00` then decodes to SUCCESS within bounds. The model does not cover such lengths.
- Exchange.EchoCheckAsWritten: for an empty payload, what the source's copy loop reads beyond the payload is not modelled. The response is left empty.
- Exchange.Respond: it uses `EchoCheck`, not `EchoCheckAsWritten`. So Respond, and through it Try, Call, every lemma about Call, the four commands and the constructor, differ from PN532.cpp:173-178 on one input: an empty payload whose uninitialised first byte equals `command + 1`. The source reports SUCCESS with length 255 there; the model reports ERR_WRONG_COMMAND_RESPONSE.
- Driver.PN532.ReadResponse: it follows the corrected echo check (see Findings). An empty payload is ERR_WRONG_COMMAND_RESPONSE, rather than whatever the uninitialised first byte decides.

## Findings

| source | as written | input that shows it | evidently intended | confidence | as-written member | corrected member |
|---|---|---|---|---|---|---|
| PN532.cpp:173-178 | the echo check reads `response_data[0]` even when the decoded payload is empty (LEN == 1); if that stale byte happens to equal `command + 1`, `*response_len -= 1` turns 0 into 255 | a response frame `00 00 FF 01 FF D5 2B 00`, whose payload is empty, with the stale stack byte equal to `command + 1` | an empty payload has no echo and is a wrong command response | not executed | Exchange.EchoCheckAsWritten, Exchange.EchoEmptyPayloadUnderflows | Exchange.EchoCheck |
