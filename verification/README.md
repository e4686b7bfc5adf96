# Oscup in Dafny

Oscup ("Open Source Custom Uart Protocol") moves small framed messages over
a serial line between a PC (the Python package pyOscup) and an ESP32
(the C++ class in oscup.cpp). This project models the parts of the
repository that build, check and exchange frames, and proves what they
guarantee and where they fall short.

- `Bytes` (bytes.dfy): bytes, 16-bit registers and the conversions between
  them (`& 0xFF`, C's narrowing to `uint8_t`), little-endian values.
- `Checksum` (checksum.dfy): the shared 16-bit checksum. It is a shift
  register fed least significant bit first, seeded with 0xFFFF, with
  constant 49061 (0xBFA5). `Crc` is the reference definition.
  `ProtComputeCrc` is the loop of prot.cpp, proved equal to it. The
  module proves two facts. Any single changed byte changes the checksum.
  A string followed by its own checksum, low byte first, has checksum 0.
- `Packets` (packet.dfy): pyOscup's `packet_t`. It covers the Python
  checksum loop, `encodeInteger`, `__updateBuff`, `pack`, `unpack` and
  `reset`, on the fixed 45-byte frame
  `id | command | length | payload padded to 40 | crc low | crc high`.
- `Protocol` (protocol.dfy): the decision logic of `Oscup.write` and
  `Oscup.read`. It also has corrected versions of both loops and an
  end-to-end handshake.
- `OscupDraft` (oscup_draft.dfy): the ESP32 draft codec. It covers
  `write`, `pack`, `bufferize`, `unpack` and `computeCRC` on 260-byte
  buffers, as written and corrected.
- `ReadDraft` (read_draft.dfy): the demo initiator in
  pyOscup/Examples/Test_read/Test_read.py. It has its own `packet_t` with
  `None` fields, and a `write` that resends its frame after some bursts.
- `AckOkDraft` (ack_ok_draft.dfy): the demo responder in
  pyOscup/Examples/Test_ack_ok/Test_ack_ok.py. It checks each 45-byte read
  and answers with its own `write`.

The serial port and the clock are parameters. A write loop receives a
script of what each `read(45)` returned, with the elapsed milliseconds
its budget check sees. A read loop receives the successive reads. When a
script runs out before a loop returns, the outcome is `None`. Python
exceptions that the source catches, such as the IndexError inside
`unpack`, are explicit outcomes. Python integers are unbounded; C's
`uint8_t` and `uint16_t` arithmetic, its narrowing conversions and its
wrap-around are written out where they matter.

## Model

| member | source | states |
|---|---|---|
| Bytes.NarrowWiden | pyOscup/pyOscup.py:169-170 | Masking a byte with 0xff and reading the low byte of the register gives the byte back; a widened byte has a clear high byte |
| Bytes.NarrowInjective | pyOscup/pyOscup.py:195-199 | Two registers have the same `& 0xFF` value exactly when their low bytes are equal |
| Bytes.ValueInjective | pyOscup/pyOscup.py:179 | Different 16-bit registers return different integers |
| Bytes.WidenNarrow | pyOscup/pyOscup.py:195 | Widening the low byte of a register gives the register masked with 0xFF |
| Checksum.EightRounds | prot.cpp:14-23 | The inner loop runs eight rounds, each shifting right and folding in 49061 when the dropped bit was 1 |
| Checksum.ProtComputeCrc | prot.cpp:5-28 | `Prot::ComputeCRC` absorbs the bytes one at a time, in order, and returns the reference checksum of the first `len` bytes, 0xFFFF for `len` 0 |
| Checksum.ShiftInjective | pyOscup/pyOscup.py:175-178 | One round can be undone: different registers stay different |
| Checksum.AbsorbInjectiveInRegister | pyOscup/pyOscup.py:168-178 | Absorbing the same byte keeps different registers apart |
| Checksum.AbsorbInjectiveInByte | pyOscup/pyOscup.py:168-178 | Absorbing different bytes into the same register gives different registers |
| Checksum.CrcLastByteChange | pyOscup/pyOscup.py:168-178 | Changing the last byte changes the checksum |
| Checksum.CrcSameByteAppended | pyOscup/pyOscup.py:168-178 | Appending the same byte keeps different checksums different |
| Checksum.CrcDetectsSingleByteChange | pyOscup/pyOscup.py:157-179 | Two strings of equal length that differ in exactly one byte have different checksums |
| Checksum.ShiftsClearLow | pyOscup/pyOscup.py:174-178 | Eight rounds on a register with a clear low byte only move the high byte down |
| Checksum.AbsorbOwnLowByte | pyOscup/pyOscup.py:172-178 | Absorbing a register's own low byte leaves its high byte in the low position |
| Checksum.CrcResidue | pyOscup/pyOscup.py:97-98 | The checksum of a string followed by its own checksum, low byte first, is 0 |
| Packets.ComputeCrc | pyOscup/pyOscup.py:157-179 | The returned value is below 0x10000 and is 0xFFFF for an empty array |
| Packets.PyComputeCrc | pyOscup/pyOscup.py:157-179 | The Python loop returns the integer value of the reference checksum; the `computeCRC` copies in both example scripts are the same loop |
| Packets.EncodeInteger | pyOscup/pyOscup.py:182-212 | For lengths 1 to 4 the bytes, read little-endian, give the value modulo 256 to the length; any other length gives that many zero bytes |
| Packets.EncodeInteger2 | pyOscup/pyOscup.py:197-199 | The two-byte encoding is `[value % 256, (value / 256) % 256]` and gives back the value modulo 65536 |
| Packets.EncodeShort | pyOscup/pyOscup.py:197-199 | A value below 0x10000 is recovered whole from its two bytes |
| Packets.EncodeValue | pyOscup/pyOscup.py:197-199 | The encoding of a register's value is its low byte, then its high byte |
| Packets.EncodeInteger2Matches | pyOscup/pyOscup.py:197-199 | Two bytes equal the encoding of a 16-bit value exactly when, low byte first, they give that value |
| Packets.ComputeCrcResidue | pyOscup/pyOscup.py:95-98 | Appending the encoded checksum to the bytes it covers makes the checksum of the whole 0 |
| Packets.Init | pyOscup/pyOscup.py:52-65 | A new packet keeps its id, has command, length and checksum 0, 40 zero payload bytes and a 45-byte buffer; its 43 header and payload bytes would be the id followed by zeros |
| Packets.Reset | pyOscup/pyOscup.py:52-79 | `reset` forgets everything, the id included: the packet equals the one `__init__` builds with id 0 |
| Packets.UpdateBuff | pyOscup/pyOscup.py:101-110 | The buffer is id, command, length, the payload, then zeros up to 43 bytes; a longer payload is not padded |
| Packets.Pack | pyOscup/pyOscup.py:82-98 | The fields are stored, the buffer is the rebuilt one plus two bytes, and those two bytes, low first, carry the checksum of everything before them |
| Packets.PackLayout | pyOscup/pyOscup.py:82-110 | For a payload of at most 40 bytes the frame is exactly 45 bytes with header, payload, zero padding and the checksum of the first 43 bytes |
| Packets.CopyPayload | pyOscup/pyOscup.py:129-130 | The copy loop succeeds exactly when neither index runs off its array, and copies exactly the bytes it reached |
| Packets.Unpack | pyOscup/pyOscup.py:112-132 | Unpacking refuses a missing buffer, one under 3 bytes or a length byte below 5, leaving the packet unchanged. It returns OK exactly for a buffer of at least 45 bytes whose length byte fits the payload area. Otherwise it raises part-way. The header is stated for every case. On OK, the first `length` payload bytes and the little-endian checksum are stated. On a raise, the payload bytes copied before the IndexError are stated, and the checksum is kept |
| Packets.UnpackPack | pyOscup/pyOscup.py:82-132 | A packed frame with a length byte of 5 to 40 unpacks to its header, its padded payload and a checksum equal to the one recomputed over its first 43 bytes |
| Packets.CorruptionDetected | pyOscup/pyOscup.py:326-327 | Changing any one byte of a frame whose trailer matches its checksum breaks the match |
| Protocol.Judge | pyOscup/pyOscup.py:264-286 | An answer decides `write` only when it is 45 bytes, and then only as OK, NACK or CRC_ERROR |
| Protocol.WriteLoop | pyOscup/pyOscup.py:263-293 | The loop reads at most as many answers as the script holds. It waits for more only when no answer decided anything |
| Protocol.WriteLoopOutcome | pyOscup/pyOscup.py:263-293 | Every answer before the last one read decided nothing, came after the wait window and was within the attempt budget. The last one either decided the returned code, or decided nothing and gave NO_DATA because it came within the wait window or `times` exceeded `MAX_ATTEMPTS` |
| Protocol.Write | pyOscup/pyOscup.py:250-293 | `write` sends exactly one frame, the one `pack` builds with this device's id, makes no more reads than the port delivers, and returns either the judgement of the last answer it read or NO_DATA, or no code when the port ran out of answers first |
| Protocol.WriteLoopBudget | pyOscup/pyOscup.py:291-293 | From pass `times` the loop reads at most `MAX_ATTEMPTS + 2 - times` answers |
| Protocol.WriteBudget | pyOscup/pyOscup.py:259-295 | `write` reads at most `MAX_ATTEMPTS + 2` answers |
| Protocol.WriteFirstAnswer | pyOscup/pyOscup.py:266-289 | A well-formed first answer decides `write` by checksum and command. An undecided one within `MAX_ACK_WAIT` ms ends it with NO_DATA at once |
| Protocol.WriteMalformedLength | pyOscup/pyOscup.py:264-280 | An answer with a length byte below 5 is checked against the 0 that `reset` left |
| Protocol.ReadPass | pyOscup/pyOscup.py:319-346 | One pass answers with ACK exactly when it returns OK and with NACK otherwise. NO_DATA comes only from a read that is not 45 bytes, and leaves the packet unchanged |
| Protocol.Reply | pyOscup/pyOscup.py:326-345 | A reply is a 45-byte frame with this device's id, the reply command, length 5, and zero payload and padding |
| Protocol.ReplyChecksum | pyOscup/pyOscup.py:327-329 | A reply ends with the checksum of its first 43 bytes, low byte first |
| Protocol.AckFrame | pyOscup/pyOscup.py:326-330 | The ACK reply is 45 bytes with this device's id and command 0xFE |
| Protocol.NackFrame | pyOscup/pyOscup.py:331-345 | The NACK reply is 45 bytes with this device's id and command 0xFF |
| Protocol.Read | pyOscup/pyOscup.py:306-352 | `read` on a fresh receive packet: a returned pair comes with one ACK or NACK reply matching its code, anything else with none |
| Protocol.ReadStartsFresh | pyOscup/pyOscup.py:313-347 | The receive packet starts as `packet_t()`: a first read that is not 45 bytes gives one NACK and `(NO_DATA, packet_t())` |
| Protocol.ReadLoop | pyOscup/pyOscup.py:318-350 | A returned pair comes with exactly one reply, ACK for OK and NACK otherwise; a bare code is NO_DATA with nothing sent |
| Protocol.ReadShortRead | pyOscup/pyOscup.py:342-346 | A read that is not a full frame gets one NACK and `(NO_DATA, packet)` |
| Protocol.ReadDropsShortLength | pyOscup/pyOscup.py:322-324 | A frame with a length byte below 5 is skipped without a reply or an attempt counted |
| Protocol.ReadAnswers | pyOscup/pyOscup.py:322-336 | A frame whose length fits is answered at once: ACK and OK when its checksum matches, NACK and CRC_ERROR otherwise, with the frame's header and payload |
| Protocol.ReadAcceptsPackedFrame | pyOscup/pyOscup.py:326-331 | Every frame `pack` builds with a length of 5 to 40 is acknowledged and returned with its header and payload |
| Protocol.ReadRejectsCorruptedFrame | pyOscup/pyOscup.py:332-336 | A packed frame with any single byte changed, whose length still fits, gets NACK and CRC_ERROR |
| Protocol.JudgeFrame | pyOscup/pyOscup.py:273-278 | A packed frame is judged OK when its command is ACK and NACK otherwise |
| Protocol.JudgeCorruptedFrame | pyOscup/pyOscup.py:279-280 | A packed frame with any single byte changed, whose length still fits, is judged CRC_ERROR |
| Protocol.WriteLoopIntended | pyOscup/pyOscup.py:288-293 | The corrected loop reads at most the script and waits only when nothing decided |
| Protocol.WriteIntended | pyOscup/pyOscup.py:250-257 | The corrected `write` still sends exactly the packed frame once |
| Protocol.WriteLoopIntendedWaits | pyOscup/pyOscup.py:288-293 | The corrected loop returns what the first deciding answer decides, provided every earlier answer came within the wait window and the budget allows |
| Protocol.WriteLoopIntendedBudget | pyOscup/pyOscup.py:291-293 | The corrected loop still reads at most `MAX_ATTEMPTS + 2` answers |
| Protocol.WriteMissesTimelyAck | pyOscup/pyOscup.py:288-289 | A timely ACK after one empty read is missed as written (NO_DATA) and accepted by the corrected loop (OK) |
| Protocol.Handshake | pyOscup/pyOscup.py:237-352 | The responder acknowledges the initiator's frame, and the corrected initiator returns OK on that reply |
| Protocol.AckHeardAfter | pyOscup/pyOscup.py:263-293 | With the wait check corrected, an ACK reply read after undecided, timely answers within the attempt budget makes the answer loop return OK |
| Protocol.ReadLoopIntended | pyOscup/pyOscup.py:348-349 | The corrected read loop always returns a pair |
| Protocol.ReadLoopIntendedAgrees | pyOscup/pyOscup.py:318-352 | The corrected read loop sends the same replies and returns the same pairs; it differs only where the original returns a bare NO_DATA |
| Protocol.OversizedRaises | pyOscup/pyOscup.py:129-130 | A length byte above 40 makes `unpack` raise |
| Protocol.ReadGivesUpBareFrom | pyOscup/pyOscup.py:337-350 | Oversized frames until the attempts run out end the loop with the bare code |
| Protocol.ReadGivesUpBare | pyOscup/pyOscup.py:348-349 | Twelve oversized frames make `read` return bare NO_DATA, while the corrected loop returns a pair |
| OscupDraft.DraftComputeCrc | oscup.cpp:179-209 | A NULL buffer gives 4; otherwise the result is the checksum of the last byte alone |
| OscupDraft.DraftLoop | oscup.cpp:194-207 | After the byte loop the register holds the checksum of the last byte only |
| OscupDraft.DraftPass | oscup.cpp:195-206 | One pass restarts the register from `0xFFFF ^ byte` |
| OscupDraft.DraftCrcCollision | oscup.cpp:197 | The reference checksum tells apart `[0, 7]` and `[1, 7]`, which the draft cannot |
| OscupDraft.CopyLoop | oscup.cpp:128-129 | With a `uint8_t` counter, the copy loop finishes exactly when the bound is at most 255, copying `payload[i - 3]` into each position it reaches |
| OscupDraft.CopyFrame | oscup.cpp:125-129 | The header and `length` payload bytes are written and nothing after them changes; it hangs for a length above 252 |
| OscupDraft.StoreCrc | oscup.cpp:131-134 | The two checksum bytes are 0 and the low byte of the checksum; nothing else changes |
| OscupDraft.HighByteTruncates | oscup.cpp:132 | `crc & 0xFF00` narrowed to a `char` is 0 |
| OscupDraft.Bufferize | oscup.cpp:108-135 | `bufferize` hangs exactly for a length above 252. Otherwise it writes header and payload, and for a nonzero checksum the bytes 0 and the checksum's low byte. Nothing else changes |
| OscupDraft.BufferizeDropsHighByte | oscup.cpp:131-134 | Two checksums with the same low byte give the same buffer |
| OscupDraft.BufferizeHangs | oscup.cpp:128 | A length of 253 or more hangs `bufferize` |
| OscupDraft.BufferizedLast | oscup.cpp:101-102 | Byte `length + 2` of the buffer is the last payload byte, or the length byte for an empty payload |
| OscupDraft.Pack | oscup.cpp:85-105 | `pack` always returns OK and stores the new fields. Its checksum is that of the last covered byte. It never returns when `bufferize` hangs |
| OscupDraft.Write | oscup.cpp:55-82 | A NULL payload gives NULLPOINTER with nothing sent. Otherwise `write` sends `length + 5` bytes: header, payload, and for a nonzero checksum a 0 byte and the checksum's low byte |
| OscupDraft.Unpack | oscup.cpp:168-176 | `unpack` copies only `len - 6` payload bytes. Its checksum is 1 exactly when the last byte is nonzero or a sign-extended byte sets the high bits, and 0 otherwise |
| OscupDraft.DraftRoundTripFails | oscup.cpp:172-174 | A frame with a checksum of 2 or more and a nonempty payload comes back with a different checksum and without its last payload byte |
| OscupDraft.PackFixed | oscup.cpp:85-105 | The corrected `pack` stores the fields, bufferizes, and checksums the first `length + 3` buffer bytes; that checksum is the reference checksum of the header and payload, whatever the buffer held before |
| OscupDraft.BufferizeFixed | oscup.cpp:128-134 | The corrected `bufferize` always returns and stores the checksum high byte first, recoverably |
| OscupDraft.UnpackFixed | oscup.cpp:172-174 | The corrected `unpack` copies all `len - 5` payload bytes |
| OscupDraft.DraftRoundTrip | oscup.cpp:108-176 | The corrected `bufferize` followed by the corrected `unpack` restores header, payload and checksum |
| OscupDraft.DraftPackRoundTrip | oscup.cpp:85-176 | End to end, the receiver's checksum equals the checksum of the header and payload it received |
| ReadDraft.Fresh | pyOscup/Examples/Test_read/Test_read.py:23-30 | A new demo packet sets only its id; every other field is unset, so `getBuff` raises until `update` has run |
| ReadDraft.Reset | pyOscup/Examples/Test_read/Test_read.py:32-39 | `reset` unsets every field, the id included |
| ReadDraft.EncodeInteger | pyOscup/Examples/Test_read/Test_read.py:88-113 | It returns bytes exactly for lengths 1 to 4: the value modulo 256 to the length, little-endian. Otherwise it returns `None`. The responder script's `encodeInteger` is the same function |
| ReadDraft.Rebuild | pyOscup/Examples/Test_read/Test_read.py:50-56 | `__updateBuff` succeeds exactly when the header and payload are set. The buffer is header plus payload, followed by the stored checksum when one is stored |
| ReadDraft.Update | pyOscup/Examples/Test_read/Test_read.py:41-48 | `update` succeeds exactly when the id is set, and the buffer then ends with the checksum of everything before it |
| ReadDraft.GetBuff | pyOscup/Examples/Test_read/Test_read.py:50-63 | `getBuff` succeeds exactly when the header and payload are set. It returns, and stores, the header and payload followed, when a checksum is set, by that checksum low byte first |
| ReadDraft.UpdateFresh | pyOscup/Examples/Test_read/Test_read.py:41-56 | The first `update` builds header, payload and their checksum, without padding |
| ReadDraft.GetBuffAfterUpdate | pyOscup/Examples/Test_read/Test_read.py:121-125 | After the first `update`, `getBuff` returns the same bytes every time |
| ReadDraft.ResetLosesId | pyOscup/Examples/Test_read/Test_read.py:32-39 | After `reset`, neither `update` nor `getBuff` can succeed |
| ReadDraft.UpdateTwice | pyOscup/Examples/Test_read/Test_read.py:55-56 | A second `update` keeps the old checksum bytes inside the frame and stores a checksum of 0 |
| ReadDraft.UpdateFixed | pyOscup/Examples/Test_read/Test_read.py:41-56 | The corrected `update` computes its checksum over the header and payload only |
| ReadDraft.UpdateFixedRepeatable | pyOscup/Examples/Test_read/Test_read.py:41-63 | Calling the corrected `update` twice gives the same packet, and `getBuff` returns its bytes |
| ReadDraft.WriteLoop | pyOscup/Examples/Test_read/Test_read.py:129-148 | The loop makes at most `MAX_ATTEMPTS + 1` passes and resends exactly once per burst with 0xFF in position 2 |
| ReadDraft.WriteLoopPasses | pyOscup/Examples/Test_read/Test_read.py:134-145 | Every pass was within the wait and read at least 3 bytes, except a last pass that raised |
| ReadDraft.WriteLoopEnding | pyOscup/Examples/Test_read/Test_read.py:134-148 | IndexError comes from a short last burst. Finishing comes from the attempts or the clock. Waiting happens only once the script is used up |
| ReadDraft.Write | pyOscup/Examples/Test_read/Test_read.py:118-148 | `write` sends the frame once plus once per marked burst, always the same header, payload and checksum bytes |
| ReadDraft.ShortBurstRaises | pyOscup/Examples/Test_read/Test_read.py:145 | A burst shorter than 3 bytes within the budget raises IndexError on that pass |
| AckOkDraft.CopyLoop | pyOscup/Examples/Test_ack_ok/Test_ack_ok.py:69-70 | The copy loop succeeds exactly when its indices stay inside the array and the payload, and copies `payload[i - 3]` into each position |
| AckOkDraft.Header | pyOscup/Examples/Test_ack_ok/Test_ack_ok.py:65-68 | A 43-byte zero array with id 0xC4, the command and the length in front |
| AckOkDraft.AckWrite | pyOscup/Examples/Test_ack_ok/Test_ack_ok.py:61-76 | `write` sends 43 bytes with the payload copied only below index `length` |
| AckOkDraft.AckReply | pyOscup/Examples/Test_ack_ok/Test_ack_ok.py:104-107 | The acknowledgement is what the demo's `write(0xFE, 5, [0] * 5)` sends: 43 bytes with header 0xC4, 0xFE, 5 and no checksum |
| AckOkDraft.Receive | pyOscup/Examples/Test_ack_ok/Test_ack_ok.py:81-107 | The responder answers exactly a 45-byte read whose last two bytes, low first, are the checksum of the first 43. The answer is the demo acknowledgement |
| AckOkDraft.TrailerCheck | pyOscup/Examples/Test_ack_ok/Test_ack_ok.py:96-104 | Comparing the encoded checksum with the trailer succeeds exactly for a 45-byte read with a matching trailer |
| AckOkDraft.ReceiveAnswersPackedFrame | pyOscup/Examples/Test_ack_ok/Test_ack_ok.py:96-107 | Every frame pyOscup packs gets an answer |
| AckOkDraft.ReceiveIgnoresCorruption | pyOscup/Examples/Test_ack_ok/Test_ack_ok.py:96-104 | A packed frame with any single byte changed gets no answer |
| AckOkDraft.AckWriteDropsPayloadTail | pyOscup/Examples/Test_ack_ok/Test_ack_ok.py:69 | With length 5, only the first two payload bytes are sent |
| AckOkDraft.AckReplyUnheard | pyOscup/Examples/Test_ack_ok/Test_ack_ok.py:76 | The 43-byte acknowledgement is never judged by the pyOscup initiator |
| AckOkDraft.AckWriteFixed | pyOscup/Examples/Test_ack_ok/Test_ack_ok.py:61-76 | The corrected `write` sends exactly the frame pyOscup packs, when the payload holds `length` bytes |
| AckOkDraft.ReceiveFixed | pyOscup/Examples/Test_ack_ok/Test_ack_ok.py:104-107 | The corrected responder answers the same reads, with pyOscup's ACK frame |
| AckOkDraft.AckReplyHeard | pyOscup/pyOscup.py:273-276 | With the corrected responder, the pyOscup initiator judges the reply to any packed frame as OK |

## Left out

- The serial port, its timeouts and baud rate: a loop receives a script of the reads (and, for `write`, the elapsed milliseconds).
- The clock (`get_timer`, `getTime`, `time.time_ns`): an elapsed value per pass is an input.
- `print`, `translate_bytes`, the `serial.Serial` constructor and the script-level `while True` loops that call `write` and `sleep`.
- The initial `crc = random()` in both Python `write` loops: it is never compared before being overwritten (pyOscup), or it never equals the receive packet's `None` checksum (Test_read). Only the loop behaviour that follows is modelled.
- The `Oscup` constructors and `testWrite`: hardware set-up and driver calls.
- The C++ `read` (oscup.cpp:138-165): only the `unpack` it calls is modelled. `read` then overwrites the caller's length with `len - 5`, discarding the received length byte, and memmoves `len - 5` payload bytes into the caller's packet; neither step is modelled.
- Protocol.Write: the NULLPOINTER exit is not modelled because `pack` always leaves a buffer, so `getBuff()` is never `None`.
- Packets.Pack: Python's ValueError for a field above 255 is excluded by typing every field as a byte.
- OscupDraft.Pack: no caller in the source sets `_packet_tx.id` on the ESP32. `OscupDraft` keeps whatever id the packet holds.
- OscupDraft.Pack: requires `length <= |buffer|`, and OscupDraft.Write requires the same of a non-NULL payload. Otherwise the C++ `memmove` of `length` bytes reads past the caller's buffer, which is undefined behaviour. OscupDraft.PackFixed and DraftPackRoundTrip carry the same requirement.
- OscupDraft.DraftComputeCrc: requires `len > 0`. For `len` 0 the C++ function returns an uninitialised `uint16_t`, which has no defined value.
- OscupDraft.Unpack: requires `2 <= len <= 260`. The C++ indexes outside `_RXBuffer` otherwise, which is undefined behaviour.
- OscupDraft.Bufferize: the branch for a zero checksum writes no trailer and leaves the old buffer bytes in place. This is modelled, but no separate finding is claimed.
- ReadDraft.Write: the resend test reads position 2 of a burst, which is the length byte, not the command byte. The model follows the code.
- ReadDraft.Write: the receive packet is reset and never filled, so its checksum stays `None`. The loop condition therefore reduces to the clock and the attempt counter.
- Packets.PyComputeCrc: the `assert array != None` at the top of `computeCRC` is not modelled, because the input is always a byte sequence.
- OscupDraft.BufferizeFixed: keeps the `if (packet->crc)` test, so a packet whose checksum is 0 is still sent without a trailer. Such checksums occur (Checksum.CrcResidue), and DraftPackRoundTrip therefore requires a nonzero checksum.
- Exceptions other than IndexError, such as a serial write failure, are not modelled.

## Findings

| source | as written | input that shows it | evidently intended | confidence | as-written member | corrected member |
|---|---|---|---|---|---|---|
| pyOscup/pyOscup.py:288 | `if elapsed <= MAX_ACK_WAIT: return NO_DATA` | an empty read at 10 ms, then an ACK frame at 12 ms: `write` returns NO_DATA | give up only after more than `MAX_ACK_WAIT` ms | high, not executed | Protocol.WriteMissesTimelyAck | Protocol.WriteLoopIntendedWaits |
| pyOscup/pyOscup.py:348-349 | `return ErrorCodes.NO_DATA` without the packet | twelve frames with length byte 41 | `return ErrorCodes.NO_DATA, packetRX` like every other exit | high, not executed | Protocol.ReadGivesUpBare | Protocol.ReadLoopIntendedAgrees |
| oscup.cpp:197 | `crc = (0xFFFF ^ byteValue) & 0xffff` | `[0, 7]` and `[1, 7]` get the same draft checksum | `crc = (crc ^ byteValue)` with `crc` starting at 0xFFFF, as in prot.cpp | high, not executed | OscupDraft.DraftCrcCollision | OscupDraft.DraftPackRoundTrip |
| oscup.cpp:132 | `_TXBuffer[len - 2] = packet->crc & 0xFF00` | checksums 0x1234 and 0x5634 produce the same buffer | `(packet->crc >> 8) & 0xFF` | high, not executed | OscupDraft.BufferizeDropsHighByte | OscupDraft.DraftRoundTrip |
| oscup.cpp:174 | `(hi & 0xFF00) \|\| (lo & 0x00FF)` | any checksum of 2 or more is read back as 0 or 1 | `(hi << 8) \| lo` | high, not executed | OscupDraft.DraftRoundTripFails | OscupDraft.DraftRoundTrip |
| oscup.cpp:172 | `for (int i = 3; i < len - 3; i++)` | a 1-byte payload with `len` 6 copies nothing | `i < len - 2`, all `len - 5` payload bytes | high, not executed | OscupDraft.DraftRoundTripFails | OscupDraft.DraftRoundTrip |
| oscup.cpp:128 | `for (uint8_t i = 3; i < 3 + packet->length; i++)` | length 253: `i` wraps from 255 to 0 and the loop never exits | an `int` counter | medium, not executed | OscupDraft.BufferizeHangs | OscupDraft.BufferizeFixed |
| pyOscup/Examples/Test_ack_ok/Test_ack_ok.py:69 | `for i in range(3, length)` | length 5 with payload `[1, 2, 3, 4, 5]` sends only 1 and 2 | `range(3, length + 3)` | high, not executed | AckOkDraft.AckWriteDropsPayloadTail | AckOkDraft.AckWriteFixed |
| pyOscup/Examples/Test_ack_ok/Test_ack_ok.py:76 | `ser.write(array)` | the 43-byte acknowledgement is never read as a 45-byte answer | `ser.write(combined)` | high, not executed | AckOkDraft.AckReplyUnheard | AckOkDraft.AckReplyHeard |
| pyOscup/Examples/Test_read/Test_read.py:55-56 | `__updateBuff` appends the stored checksum before `update` computes a new one | a second `update` with the same arguments stores checksum 0 over a frame that holds the old checksum | compute the checksum over header and payload only | low: the demo updates each packet once; not executed | ReadDraft.UpdateTwice | ReadDraft.UpdateFixedRepeatable |
