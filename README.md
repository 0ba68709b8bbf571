# Atm128Reflasher host core in Dafny

This project models the host side of Atm128Reflasher. That host reflashes an
ATmega128 bootloader over a serial line, and the model covers the following parts:

- **`CircIoBuffer`**: the ring buffer that stages received bytes.
  - Overwrite of the oldest data, head and tail markers, the write lock.
  - `peek`, `read`, `flush`, `flush_until` and `in`.
- **CRC-16/XMODEM** of `crc.py`, bit by bit.
- **Auxiliaries of `auxiliary_module.py`**:
  - the `Uint16` class, which wraps modulo 0xffff, not 0x10000;
  - the `struct` pack/unpack helpers;
  - the hex dump `raw_str_to_hex`.
- **Message framing of `message_handler.py`**:
  - the sender's context counter, which skips the reserved contexts 0 and 1;
  - `create_message`;
  - the receiver's tail scan `check_tail` and `get_message`.
- **The Intel-HEX parser `intel_hex_parser`.**
- **The reflash bookkeeping of the `main.py` window**:
  - `bin_segments_to_packets`;
  - `retrieve_messages`;
  - the bootloader handshake `test_connection_with_req`;
  - the packet loop of `reflash`.
- **The older window of `gui/reflasher.py`**:
  - `_find_version_of_hex_to_reflash`;
  - `bin_segments_to_packets`, which does not clear earlier packets;
  - `get_raw_rx_buffer_slot` and its `reflash` loop.

Bytes are `byte = int 0..255`. Packed integers are little-endian, which is the
native order of `struct` `'H'`/`'I'` on the x86 hosts the tool runs on. The ring
buffer, the sender, the receiver and the two windows are classes whose methods
update their fields. The parser, the CRC and the framing are functions and lemmas,
with a loop method beside each loop of the source, proved equal to its function.

Time is abstract. A wait is a sequence of polls. Each poll carries the responses
stored while the host slept and whether the wait's timeout had passed on waking.
The overall reflash deadline is a sequence of booleans, one per check of the
elapsed time.

Behaviour of the code that the model keeps as written:

- **Tail scan shift.** `check_tail` cuts its buffer at every rejected candidate but
  reports positions relative to the cut buffer. After a rejected `<`...`>` pattern,
  a later frame is found early by the search positions of the rejected candidates,
  added up. `MessageHandler.RejectedCandidateShifts` shows one rejected candidate
  searched from index 1, where the shift is one byte.
- **No `nack` from `get_message`.** It never returns a `nack`. A tail whose body
  fails its CRC is consumed together with its body, and `None` is returned.
- **Intel-HEX addresses are unused.** A data record appends to the *current*
  segment whatever its address. An 02 record opens a segment keyed by its value
  times 16 plus the address field of the *next* line. The checksum is never read.
  The appended data is modelled as the record's raw bytes; see "## Findings" for
  what the line that appends them does under Python 2.
- **Handshake timing.** The handshake wait stops at a timeout without looking at
  what its last poll stored. The window's `reflash` treats any result other than
  `False` as success.
- **Deadline checked after the round.** `reflash` checks its deadline after each
  round, so a transfer whose last packet is acknowledged in the round the deadline
  passes still fails.
- **The older window keeps responses.** It never drops stored responses, so an
  acknowledgement left from an earlier round answers a later round at once. Its
  `bin_segments_to_packets` keeps packets of an earlier image beyond the new
  image's last key.
- **Version text.** The version text is found only when `Version:R` starts past
  index 1. The text is cut one byte before the next newline, or two bytes before
  the end when no newline follows.

## Model

| member | source | states |
|---|---|---|
| Base.ClampIndex | intel_hex_handler.py:50 | a Python slice index: kept when in range, counted from the end when negative, clamped to 0 or the length otherwise |
| Base.Slice | intel_hex_handler.py:50-55 | `s[a:b]`: equals the Dafny slice whenever the bounds are in range, and is never longer than `s` |
| Base.SliceFrom | intel_hex_handler.py:65 | `s[a:]`: the suffix from `a`, empty past the end |
| Base.FindFrom | gui/reflasher.py:173 | `str.find(x, start)`: -1 exactly when `x` does not occur from `start`, otherwise the first index holding `x` |
| Base.Find | message_handler/message_handler.py:321 | `str.find(x)`: -1 exactly when `x` is absent, otherwise its first index |
| Base.OccursIsSubstring | circ_io_buffer/circ_io_buffer.py:139-140 | the executable substring search agrees with the definition of `in` on strings, both ways |
| Auxiliary.ToUint16 | auxiliary_module.py:29-35 | `Uint16(value)` is congruent to `value` modulo 0xffff, and keeps any value below 0xffff |
| Auxiliary.Add | auxiliary_module.py:37-38 | the sum modulo 0xffff: exact below 0xffff, and 0xffff itself wraps to 0 |
| Auxiliary.Sub | auxiliary_module.py:40-41 | the difference modulo 0xffff: exact when non-negative, 0xffff added when it is negative |
| Auxiliary.Mul | auxiliary_module.py:43-44 | the product modulo 0xffff |
| Auxiliary.FloorDiv | auxiliary_module.py:46-47 | Python 2 `/` on integers floors for either sign of the divisor |
| Auxiliary.Div | auxiliary_module.py:46-47 | for a positive divisor, the plain quotient; for a negative one, 0 when `a` is 0 and otherwise the floor quotient of Python 2 wrapped by adding 0xffff |
| Auxiliary.AddSubInverse | auxiliary_module.py:37-41 | subtracting what was added gives the original `Uint16` back |
| Auxiliary.Uint16ToRaw | auxiliary_module.py:93 | `struct.pack('H', u)`: two bytes, low byte first, whose value is `u` |
| Auxiliary.Uint8ToRaw | auxiliary_module.py:94 | `struct.pack('B', u)`: the single byte `u` |
| Auxiliary.Uint32ToRaw | message_handler/message_handler.py:395 | `struct.pack('I', n)`: four bytes, low byte first, whose little-endian value is `n` |
| Auxiliary.UintToRaw | auxiliary_module.py:95 | one byte up to 0xff and two bytes above, always unpacking to `u` |
| Auxiliary.RawToUint16 | auxiliary_module.py:89 | `struct.unpack('H')`: a value up to 0xffff that packs back to the same two bytes |
| Auxiliary.RawToUint8 | auxiliary_module.py:90 | `struct.unpack('B')`: the byte itself |
| Auxiliary.RawToUint32 | message_handler/message_handler.py:395 | `struct.unpack('I')`: the little-endian value of the four bytes, below 2^32, which packs back to the same bytes |
| Auxiliary.RawToUint | auxiliary_module.py:91 | one-byte input gives that byte; two-byte input gives a value up to 0xffff that packs back to the same two bytes |
| Auxiliary.HexValue | intel_hex_handler.py:51 | `int(s, 16)` on digits: defined exactly when `s` is non-empty and all hex digits, and below 16^len |
| Auxiliary.HexDigitChar | auxiliary_module.py:74 | the upper-case digit for a nibble, which reads back as that nibble |
| Auxiliary.ByteToHex | auxiliary_module.py:74 | `"{:02X} "`: three characters, two upper-case digits that read back as the byte, then a space |
| Auxiliary.RawStrToHex | auxiliary_module.py:74 | the dump is three characters per byte |
| Auxiliary.RawStrToHexAt | auxiliary_module.py:74 | the i-th triple of the dump reads back as the i-th byte, followed by a space |
| Crc.CrcOf | message_handler/crc.py:17-21 | `crc(buffer)`: two bytes, the packed XMODEM register |
| Crc.Step | message_handler/crc.py:28-35 | one `crc_xmodem` byte step gives 0 exactly when the data byte, in the high half, equals the register |
| Crc.Register | message_handler/crc.py:19-20 | the register over a buffer from a start value; a zero start over zero bytes stays 0 |
| Crc.UnpackCrc | message_handler/crc.py:24-25 | `unpack_crc`: a 16-bit value |
| Crc.Signed | message_handler/crc.py:20 | `struct.unpack('b')`: a value in -128..127 congruent to the byte modulo 256 |
| Crc.CrcXmodem | message_handler/crc.py:28-35 | the loop of eight shift/xor rounds computes one byte step of the polynomial 0x1021 register, within 16 bits |
| Crc.Crc | message_handler/crc.py:17-21 | the loop over the buffer returns `CrcOf(buffer)`, whose unpacked value is the register over the whole buffer from 0 |
| Crc.CrcLoopStep | message_handler/crc.py:19-20 | feeding the signed byte to `crc_xmodem` extends the register by that byte: the loop invariant |
| Crc.RegisterAppend | message_handler/crc.py:19-20 | the register over `a + b` continues from the register over `a` |
| Crc.RegisterSnoc | message_handler/crc.py:19-20 | one more byte is one more step |
| Crc.CrcOfEmpty | message_handler/crc.py:17-21 | the CRC of nothing is `00 00` |
| Crc.XmodemCheckValue | message_handler/crc.py:28-35 | the standard CRC-16/XMODEM check value: `123456789` gives 0x31C3 |
| Crc.XmodemCheckBytes | message_handler/crc.py:17-21 | packed, the check value is `C3 31` |
| Crc.LeadingZerosIgnored | message_handler/crc.py:17-21 | zero bytes in front of a buffer do not change its CRC (the register starts at 0) |
| Crc.RoundLinear | message_handler/crc.py:31-34 | one round is linear over xor |
| Crc.RoundsInjective | message_handler/crc.py:30-34 | distinct registers stay distinct through any number of rounds |
| Crc.StepInjectiveInByte | message_handler/crc.py:28-35 | from the same register, distinct bytes give distinct registers |
| Crc.StepInjectiveInRegister | message_handler/crc.py:28-35 | with the same byte, distinct registers give distinct registers |
| Crc.RegisterInjective | message_handler/crc.py:19-20 | distinct starting registers stay distinct over any buffer |
| Crc.SingleByteErrorDetected | message_handler/crc.py:17-21 | changing any one byte of a buffer changes its CRC |
| CircularBuffer.Newest | circ_io_buffer/circ_io_buffer.py:44-58 | the newest `n` elements: the length is `min(len, n)` |
| CircularBuffer.NewestAppend | circ_io_buffer/circ_io_buffer.py:44-58 | trimming to capacity before appending changes nothing: writes compose |
| CircularBuffer.WriteChunkView | circ_io_buffer/circ_io_buffer.py:34-42 | storing a chunk at the tail and moving the markers shows the newest `limit` bytes of the old contents plus the chunk |
| CircularBuffer.PeekView | circ_io_buffer/circ_io_buffer.py:92-106 | the two slices `peek` joins (to the end, then from the start) are the first `n` unread bytes |
| CircularBuffer.ReadView | circ_io_buffer/circ_io_buffer.py:81-87 | moving the head by `n` leaves exactly the unread bytes after the first `n` |
| CircularBuffer.SplitChunks | circ_io_buffer/circ_io_buffer.py:44-58 | writing the last `limit` bytes as two chunks around the wrap point leaves the newest `limit` bytes of old contents plus input |
| CircularBuffer.FirstMatchEnd | circ_io_buffer/circ_io_buffer.py:111-117 | the first end position at or after `from` where the marker ends, or the length |
| CircularBuffer.MatchInWindow | circ_io_buffer/circ_io_buffer.py:111-117 | the marker is in the window of the last `len(marker)` bytes read exactly when it ends at the read position |
| CircularBuffer.CircIoBuffer.constructor | circ_io_buffer/circ_io_buffer.py:14-23 | the buffer holds the newest `size` bytes of the initial contents, head 0, tail after them, unlocked |
| CircularBuffer.CircIoBuffer.LockWrite | circ_io_buffer/circ_io_buffer.py:25-26 | sets the lock and changes nothing else |
| CircularBuffer.CircIoBuffer.UnlockWrite | circ_io_buffer/circ_io_buffer.py:28-29 | clears the lock and changes nothing else |
| CircularBuffer.CircIoBuffer.Available | circ_io_buffer/circ_io_buffer.py:31-32 | the number of unread bytes, never above the limit |
| CircularBuffer.CircIoBuffer.SetHead | circ_io_buffer/circ_io_buffer.py:60-62 | the head moves by `amount` modulo the limit when the buffer is full or the move is a read, and stays otherwise |
| CircularBuffer.CircIoBuffer.SetTail | circ_io_buffer/circ_io_buffer.py:64-68 | the tail moves by `amount` modulo the limit; on a full buffer the head follows it |
| CircularBuffer.CircIoBuffer.WriteChunk | circ_io_buffer/circ_io_buffer.py:34-42 | the unread bytes become the newest `limit` bytes of old contents plus chunk; available saturates at the limit; head equals tail when full |
| CircularBuffer.CircIoBuffer.Write | circ_io_buffer/circ_io_buffer.py:44-58 | fails and changes nothing when locked; otherwise the unread bytes become the newest `limit` bytes of old contents plus input |
| CircularBuffer.CircIoBuffer.Peek | circ_io_buffer/circ_io_buffer.py:92-106 | the first `amount` (default all) unread bytes, nothing when empty, without consuming |
| CircularBuffer.CircIoBuffer.Read | circ_io_buffer/circ_io_buffer.py:81-87 | returns what `peek` would and removes exactly those bytes from the front of the unread bytes |
| CircularBuffer.CircIoBuffer.Flush | circ_io_buffer/circ_io_buffer.py:108-109 | an empty buffer of the same limit, markers at 0 |
| CircularBuffer.CircIoBuffer.Contains | circ_io_buffer/circ_io_buffer.py:139-140 | true exactly when the item is a substring of the unread bytes |
| CircularBuffer.CircIoBuffer.FlushUntil | circ_io_buffer/circ_io_buffer.py:111-117 | discards the unread bytes up to and including the first occurrence of the marker, or all of them when it is absent |
| CircularBuffer.CircIoBuffer.FlushStep | circ_io_buffer/circ_io_buffer.py:114-116 | one pass of the loop: one byte moves from the buffer into the marker window, and the first match end is unchanged |
| CircularBuffer.CircIoBuffer.PassByte | circ_io_buffer/circ_io_buffer.py:114-115 | reads one byte and writes it into the window buffer, which keeps its newest bytes |
| CircularBufferExamples.OverwriteOldest | gui/circ_io_buffer/circ_io_buffer_test.py:96-97 | eleven bytes written into five slots read back as the last five |
| CircularBufferExamples.WriteIntoFull | gui/circ_io_buffer/circ_io_buffer_test.py:72-80 | writing into a full `12345` drops `1`: the next byte read is `2` |
| CircularBufferExamples.HeadMarker | gui/circ_io_buffer/circ_io_buffer_test.py:34-46 | the head lands at 2, 1 and 0 after the three writes of the test |
| CircularBufferExamples.TailMarker | gui/circ_io_buffer/circ_io_buffer_test.py:49-62 | the tail lands at 2 and 1 and the buffer stays full |
| CircularBufferExamples.ContainsTest | gui/circ_io_buffer/circ_io_buffer_test.py:121-125 | `test` is in `test string` and no longer once four bytes are read |
| CircularBufferExamples.FlushUntilTest | gui/circ_io_buffer/circ_io_buffer_test.py:145-148 | flushing until the marker leaves ` buffer` |
| CircularBufferExamples.FlushUntilAbsent | gui/circ_io_buffer/circ_io_buffer_test.py:150-153 | flushing until an absent marker empties the buffer |
| MessageHandler.TransmissionStats.constructor | message_handler/message_handler.py:55-57 | both counters start at 0 |
| MessageHandler.TransmissionStats.Ack | message_handler/message_handler.py:59-60 | counts one acknowledgement |
| MessageHandler.TransmissionStats.Nack | message_handler/message_handler.py:62-63 | counts one negative acknowledgement |
| MessageHandler.Lookup | message_handler/message_handler.py:126-131 | no name exactly when no entry has the id; a name always comes from an entry with that id |
| MessageHandler.TranslateId | message_handler/message_handler.py:126-131 | `translate_id` names only the declared ids 0..28 and 254 |
| MessageHandler.IdValues | message_handler/message_handler.py:91-124 | the thirty ids: 0 to 28 in order, then `run_main_app_btl` = 254 |
| MessageHandler.TranslateIdInverse | message_handler/message_handler.py:126-131 | `translate_id` names every declared id |
| MessageHandler.TranslateIdUnknown | message_handler/message_handler.py:126-131 | every other id has no name |
| MessageHandler.SetResult | message_handler/message_handler.py:233-237 | accepts exactly `ack`, `nack` and `dtx` and raises otherwise |
| MessageHandler.NewRxMessage | message_handler/message_handler.py:215-224 | a message is built exactly when its result is valid, and keeps body and result |
| MessageHandler.FrameFields | message_handler/message_handler.py:404 | a host frame reads back field by field: `>`, id, context, 4-byte length, CRC, `<`, body |
| MessageHandler.Frame | message_handler/message_handler.py:404 | the frame is 10 bytes plus the CRC and the body: `>` first, `<` after the CRC, then the body unchanged |
| MessageHandler.CreateMessage | message_handler/message_handler.py:380-404 | fails exactly when the body plus the 10-byte header exceeds the limit or a field does not fit its width; otherwise 12 bytes longer than the body |
| MessageHandler.CreateMessageFields | message_handler/message_handler.py:391-404 | the frame carries the id, context, body length, the body's CRC and the body at their offsets |
| MessageHandler.NextContext | message_handler/message_handler.py:138-151 | the next context is never a reserved one |
| MessageHandler.MessageSender.constructor | message_handler/message_handler.py:84-88 | the counter starts at 2, past the reserved contexts |
| MessageHandler.MessageSender.PeekContext | message_handler/message_handler.py:153-154 | the counter plus one, wrapping to 0 after 0xfffe |
| MessageHandler.MessageSender.SendM | message_handler/message_handler.py:138-151 | returns the current context, moves the counter to the next unreserved one and transmits the frame |
| MessageHandler.MessageSender.Send | message_handler/message_handler.py:156-174 | fails exactly when `create_message` would, changing nothing; otherwise transmits the created frame under the old context and advances it |
| MessageHandler.AdvanceCycle | message_handler/message_handler.py:138-151 | after `n` sends the counter is `2 + (c - 2 + n) mod 0xfffd`: it cycles through 2..0xfffe |
| MessageHandler.TailFields | message_handler/message_handler.py:327-340 | a candidate tail decodes id, context, length and body CRC from the window and spans `TAIL_LEN` bytes |
| MessageHandler.Examine | message_handler/message_handler.py:324-348 | an accepted candidate spans a tail; a rejected one cuts the buffer at the search position |
| MessageHandler.TailAccepted | message_handler/message_handler.py:341-344 | an accepted tail window is exactly the ten tail bytes and their two CRC bytes, and something is buffered |
| MessageHandler.ExamineAccepts | message_handler/message_handler.py:332-346 | an accepted tail has both markers, a matching tail CRC, a known id, a length below the maximum and enough buffered bytes |
| MessageHandler.Scan | message_handler/message_handler.py:320-348 | any tail found spans `TAIL_LEN` bytes |
| MessageHandler.CheckTailSpec | message_handler/message_handler.py:320-348 | the result of `check_tail` |
| MessageHandler.ScanSound | message_handler/message_handler.py:320-348 | a tail found is a valid tail of the buffer after the cuts made before it |
| MessageHandler.CheckTailSound | message_handler/message_handler.py:320-348 | what `check_tail` returns is a valid tail of a suffix of the buffer |
| MessageHandler.DeliverTail | message_handler/message_handler.py:362-376 | a message exactly when the body before the tail matches the tail's body CRC, and then it is an `ack` with that body |
| MessageHandler.Receive | message_handler/message_handler.py:350-376 | nothing from fewer than `TAIL_LEN` bytes or without a tail; a message has its body at the front of the buffer and consumes body, tail and tail CRC |
| MessageHandler.ReceiveAccepted | message_handler/message_handler.py:359-376 | once a tail is found, `get_message` consumes through the tail's CRC |
| MessageHandler.NoStartMark | message_handler/message_handler.py:320-325 | without `<` in the buffer there is no tail |
| MessageHandler.DeviceTail | message_handler/message_handler.py:296-305 | a device tail is `TAIL_LEN` bytes from `<` to `>` |
| MessageHandler.DeviceFrame | message_handler/message_handler.py:296-305 | a device frame is body, tail and tail CRC |
| MessageHandler.DeviceTailAccepted | message_handler/message_handler.py:327-346 | a device tail passes every check and decodes to its own fields |
| MessageHandler.ReceiveFrame | message_handler/message_handler.py:320-376 | round trip: a buffer starting with a device frame yields that frame's id, context and body as an `ack` and consumes it exactly |
| MessageHandler.RejectedCandidateShifts | message_handler/message_handler.py:326-348 | after junk whose rejected candidate is searched from index 1, the next frame's tail is reported one byte early (in general the shift is the sum of the rejected candidates' search positions) and that one byte is left unconsumed |
| MessageHandler.MessageReceiver.constructor | message_handler/message_handler.py:314-318 | the receiver reads the given buffer |
| MessageHandler.MessageReceiver.CheckTail | message_handler/message_handler.py:320-348 | the loop method computes `CheckTailSpec` |
| MessageHandler.MessageReceiver.Step | message_handler/message_handler.py:323-348 | one pass of the loop: either the answer of the scan, or the cut buffer the scan continues from |
| MessageHandler.MessageReceiver.Pass | message_handler/message_handler.py:324-348 | one pass examines the candidate as `Examine` does |
| MessageHandler.MessageReceiver.Unpack | message_handler/message_handler.py:332-346 | decoding and checking a candidate whose markers match agrees with `Examine` |
| MessageHandler.MessageReceiver.GetMessage | message_handler/message_handler.py:350-376 | returns what `Receive` gives on the unread bytes and consumes exactly the bytes it says |
| MessageHandler.MessageReceiver.Consume | message_handler/message_handler.py:359-372 | reads through the tail's CRC and delivers by the body CRC |
| IntelHex.Record | intel_hex_handler.py:50 | `hex_line[1:-3]`: the line without colon, checksum and line end |
| IntelHex.CountField | intel_hex_handler.py:51 | `hex_line[0:2]`: at most two characters, the first two of a long enough record |
| IntelHex.AddressField | intel_hex_handler.py:53 | `hex_line[2:6]`: at most four characters, positions 2..5 of a long enough record |
| IntelHex.TypeField | intel_hex_handler.py:52 | `hex_line[6:8]`: at most two characters, positions 6..7 of a long enough record |
| IntelHex.DataField | intel_hex_handler.py:65 | `hex_line[8:]`: everything after position 8, empty for a record of at most 8 characters |
| IntelHex.NextAddressField | intel_hex_handler.py:57 | the address field of the following line |
| IntelHex.HexBytes | intel_hex_handler.py:72-73 | defined exactly when every character is a hex digit; one byte per pair |
| IntelHex.HexBytesPairs | intel_hex_handler.py:72-73 | bytes spelled as upper-case digit pairs read back as themselves |
| IntelHex.ExtendSegment | intel_hex_handler.py:54-60 | an 02 record opens an empty segment that becomes current; the extension is a multiple of 16; an error names the line |
| IntelHex.AppendData | intel_hex_handler.py:63-76 | a 00 record only extends the current segment; an error names the line (line 75 as intended; see ## Findings) |
| IntelHex.Step | intel_hex_handler.py:47-77 | one line keeps segment 0 and the current segment present; an error names the line (line 75 as intended; see ## Findings) |
| IntelHex.ParseUpTo | intel_hex_handler.py:47-77 | after `n` lines the state is consistent, or an error names an earlier line |
| IntelHex.Parse | intel_hex_handler.py:10-79 | the result always has segment 0, or an error names a line of the file (line 75 as intended; see ## Findings) |
| IntelHex.ErrorStops | intel_hex_handler.py:47-77 | the first failing line decides the result |
| IntelHex.IntelHexParser | intel_hex_handler.py:10-79 | the loop computes `Parse` |
| IntelHex.ParseLine | intel_hex_handler.py:50-77 | the loop body computes `Step` |
| IntelHex.ExtendedSegmentRecord | intel_hex_handler.py:54-60 | the 02 branch computes `ExtendSegment` |
| IntelHex.DataRecord | intel_hex_handler.py:63-76 | the 00 branch computes `AppendData` (line 75 as intended; see ## Findings) |
| IntelHex.DataRecordAppends | intel_hex_handler.py:63-76 | a valid data record appends its decoded bytes to the current segment and changes nothing else |
| IntelHex.AddressUnused | intel_hex_handler.py:64 | two data records that differ only in their address have the same effect |
| IntelHex.LengthChecked | intel_hex_handler.py:66-71 | the line fails with the length error exactly when the declared count differs from half the data length |
| IntelHex.ExtensionOpensSegment | intel_hex_handler.py:54-60 | an 02 record makes current a new empty segment keyed value*16 plus the next line's address |
| IntelHex.OtherRecordsIgnored | intel_hex_handler.py:61-62 | records other than 00 and 02 leave the parser unchanged |
| IntelHex.SameRecordsSameParse | intel_hex_handler.py:47-77 | files that agree in what the parser reads parse the same |
| IntelHex.ChecksumIgnored | intel_hex_handler.py:50 | replacing any line's checksum does not change the parse |
| IntelHex.WellFormedDataRecord | intel_hex_handler.py:14-17 | a well-formed data record, any address or checksum, appends exactly the bytes it spells |
| IntelHex.ExampleRecord | intel_hex_handler.py:15-17 | the documented record appends its sixteen bytes |
| IntelHex.Py2Bytes | intel_hex_handler.py:75 | under Python 2, `bytes(list)` is the bracketed text of the list, longer than the list |
| IntelHex.DocumentedRecordAsText | intel_hex_handler.py:75-76 | as written, the documented record appends the text `[33, ...`, at least 48 characters, instead of 16 bytes |
| Reflasher.ChunksNext | main.py:447-449 | each pass of the loop adds the next chunk under the next key |
| Reflasher.Packetise | main.py:443-450 | `bin_segments_to_packets`: key 0 exists exactly when the segment is non-empty, and every packet holds 1 to 2048 bytes |
| Reflasher.ChunksComplete | main.py:447-450 | once the loop passes the end, it has built all packets |
| Reflasher.PacketKeys | main.py:443-450 | keys are exactly 0 up to ceil(len/2048) - 1; an empty segment gives no packets |
| Reflasher.PacketSizes | main.py:447-449 | each packet is non-empty and at most 2048 bytes, and only the last can be shorter |
| Reflasher.JoinPrefix | main.py:447-449 | the first `n` packets joined are the segment's prefix |
| Reflasher.PacketsJoin | main.py:443-450 | all packets joined in key order give back the segment |
| Reflasher.PacketFrameFits | main.py:526-527 | every packet framed with its index fits a frame |
| Reflasher.StoreNext | main.py:381 | storing one more response overwrites its context |
| Reflasher.Store | main.py:381 | storing responses keeps every stored context, and the last response holds its context |
| Reflasher.StoreKeys | main.py:380-382 | a context is stored exactly when it was before or some response has it |
| Reflasher.StoreLatest | main.py:380-382 | the last response with a context is the one kept |
| Reflasher.StoreUntouched | main.py:380-382 | a context no response names keeps its old entry |
| Reflasher.DrainStep | main.py:379-382 | one `get_message` is one step of draining the buffer |
| Reflasher.Drain | main.py:375-382 | `retrieve_messages` leaves a suffix of the buffer, never longer than it |
| Reflasher.DrainConsumes | main.py:379-382 | draining consumes at least the frames it returns |
| Reflasher.WaitOutcome | main.py:531-535 | a wait that did not time out found its target |
| Reflasher.Waited | main.py:531-535 | a wait never drops a stored response, and returns at once, without a timeout, when the target is already there |
| Reflasher.HandshakeBounds | main.py:486-498 | at most one request per retry; success only with the reply stored; failure only after every retry |
| Reflasher.HandshakeFrom | main.py:477-498 | the handshake never drops a stored response, and with no retries left it fails and stores nothing |
| Reflasher.HandshakeRequests | main.py:477-498 | at most four bootloader requests; true only with a stored `bootloader3` reply; false only after all four |
| Reflasher.NullBodyCrc | message_handler/message_handler.py:156 | the CRC of the default body `NULL` is 0xB811 |
| Reflasher.RequestIsCreated | message_handler/message_handler.py:156-160 | a default request is the frame `create_message` builds |
| Reflasher.Request | message_handler/message_handler.py:156-160 | the default request frame is 16 bytes, starts with `>` and ends with the body `NULL` |
| Reflasher.RequestFields | message_handler/message_handler.py:380-404 | a default request carries its id, context and `NULL` |
| Reflasher.TransmittedFrames | main.py:481-491 | `n` handshake requests go out under consecutive contexts |
| Reflasher.SendDefault | message_handler/message_handler.py:156-160 | sends the default request under the current context and advances it |
| Reflasher.SendRequest | main.py:491 | one more handshake request extends the transmitted frames and the counter by one |
| Reflasher.FirstKey | main.py:524 | `packets.keys()[0]`: the least key |
| Reflasher.PacketRound | main.py:524-542 | a round keeps the counter unreserved |
| Reflasher.Transferred | main.py:523-546 | the loop keeps the counter unreserved |
| Reflasher.RoundFrame | main.py:524-529 | a round sends `write_to_page` with the index and bytes of the least packet under the current context, then advances it |
| Reflasher.PageBody | main.py:526 | the `write_to_page` body is the packet index packed as `H`, which unpacks back to the index, then the packet unchanged |
| Reflasher.RoundRemovesOnAck | main.py:531-541 | the packet is dropped exactly when its response arrived in time as `ack`; others are untouched |
| Reflasher.RoundResponses | main.py:536-541 | an answered round drops its response and context; a timed-out one keeps them |
| Reflasher.RoundSucceeds | main.py:526-527 | packets that fit a frame never make a round raise |
| Reflasher.PacketsFitFrames | main.py:443-450 | the packets of a segment up to 0x10000 packets all fit a frame |
| Reflasher.TransferKeepsPackets | main.py:523-546 | the loop never adds or changes a packet |
| Reflasher.TransferOutcome | main.py:523-549 | finished only with no packets left; aborted only by a raising round; one frame per round |
| Reflasher.FailsAfterLastAck | main.py:544-546 | the deadline passing in the round of the last acknowledgement still fails |
| Reflasher.Reflasher.constructor | main.py:246-249 | a 2580-byte ring buffer, no stored responses, no packets |
| Reflasher.Reflasher.BinSegmentsToPackets | main.py:443-450 | the packets become exactly the segment's packets |
| Reflasher.Reflasher.Await | main.py:531-535 | the polling loop ends as `Waited` says |
| Reflasher.Reflasher.TestConnectionWithReq | main.py:473-498 | the handshake ends as `HandshakeFrom` says, with one plus the resends requests transmitted |
| Reflasher.Reflasher.PacketRoundStep | main.py:524-542 | one round of the loop changes the state as `PacketRound` says |
| Reflasher.Reflasher.TransferPackets | main.py:519-546 | the loop ends as `Transferred` says |
| Reflasher.Reflasher.Reflash | main.py:513-549 | nothing when the handshake said false; otherwise `rxflush`, a cleared store, the transfer, and `run_main_app_btl` once finished |
| Reflasher.Reflasher.NextMessage | main.py:379 | one `get_message` is the next step of the drain |
| Reflasher.Reflasher.RetrieveOne | main.py:380-382 | one pass stores the message and shrinks the buffer |
| Reflasher.Reflasher.Keep | main.py:381 | storing a message extends the store |
| Reflasher.Reflasher.RetrieveMessages | main.py:375-382 | every message drained is stored by context, and the buffer keeps what draining leaves |
| GuiReflasher.FindRunFrom | gui/reflasher.py:173 | `find` from `start`: the first start of the needle there, or -1 when there is none |
| GuiReflasher.FindRun | gui/reflasher.py:172 | `find`: the first start of the needle, or -1 |
| GuiReflasher.FindVersionNone | gui/reflasher.py:171-176 | no version exactly when the marker first occurs at 0 or 1, or not at all |
| GuiReflasher.FindVersion | gui/reflasher.py:171-176 | a found version starts at a marker past index 1, is a run of the binary from there and holds no newline |
| GuiReflasher.FindVersionLine | gui/reflasher.py:171-176 | the version is the marker's line cut one byte before the newline; with `\r\n` it is the whole line |
| GuiReflasher.FindVersionNoNewline | gui/reflasher.py:173-175 | without a newline after the marker, the last two bytes are cut off |
| GuiReflasher.GuiRound | gui/reflasher.py:265-279 | a round keeps the counter unreserved |
| GuiReflasher.GuiTransferred | gui/reflasher.py:264-282 | the loop keeps the counter unreserved |
| GuiReflasher.GuiTransferredUnfold | gui/reflasher.py:264-282 | a pass is a round then a deadline check |
| GuiReflasher.NackLines | gui/reflasher.py:278 | `n` lines reading `nack` |
| GuiReflasher.Closing | gui/reflasher.py:280-284 | lines only for a finished or failed transfer: `REFLASHING FINISHED` then `VERYFYING`, or `REFLASHING FAILED` without `VERYFYING` |
| GuiReflasher.GuiRoundOnResponse | gui/reflasher.py:269-278 | the packet is dropped exactly on a timely `ack` and `nack` is shown exactly on a timely other response; stored responses are never dropped |
| GuiReflasher.Confirms | gui/reflasher.py:188 | the version check holds only for a non-empty expected version no longer than the body |
| GuiReflasher.StaleResponseAnswers | gui/reflasher.py:269-276 | an `ack` already stored under the round's context drops the packet at once, without waiting |
| GuiReflasher.GuiTransferOutcome | gui/reflasher.py:264-283 | packets only disappear; finished only when empty; aborted only by a raising round; at most one `nack` per round |
| GuiReflasher.PacketsOf | gui/reflasher.py:250-253 | the loop builds exactly the segment's packets |
| GuiReflasher.StalePacketsSurvive | gui/reflasher.py:249-254 | keys covered by the new segment hold its chunks; every other key keeps its old packet |
| GuiReflasher.GuiReflasher.constructor | gui/reflasher.py:116-134 | no stored responses, no packets, no expected version |
| GuiReflasher.GuiReflasher.ExpectVersionOf | gui/reflasher.py:241 | the expected version is the version found in the segment |
| GuiReflasher.GuiReflasher.BinSegmentsToPackets | gui/reflasher.py:249-254 | the new packets are written over the old ones, which are not cleared |
| GuiReflasher.GuiReflasher.GetRawRxBufferSlot | gui/reflasher.py:178-190 | handles the message `Receive` gives and consumes its bytes; a text containing the expected version shows the confirmation and offers to close |
| GuiReflasher.GuiReflasher.Handle | gui/reflasher.py:184-190 | stores the message; echoes a text; confirms only when the expected version is set and in the text |
| GuiReflasher.GuiReflasher.Await | gui/reflasher.py:269-272 | the polling loop ends as `Waited` says |
| GuiReflasher.GuiReflasher.GuiRoundStep | gui/reflasher.py:265-279 | one round changes the state as `GuiRound` says and shows `nack` when it reports one |
| GuiReflasher.GuiReflasher.LoopStep | gui/reflasher.py:264-284 | one pass continues the loop or ends it with the outcome `GuiTransferred` gives |
| GuiReflasher.GuiReflasher.TransferPackets | gui/reflasher.py:263-285 | the loop ends as `GuiTransferred` says, showing one `nack` per nack round and then the closing lines |
| GuiReflasher.GuiReflasher.Reflash | gui/reflasher.py:257-286 | the transfer, then `run_main_app_btl` only when finished |

## Left out

- The serial port, the reader thread, the `QMutex` locking around the ring buffer and the Qt widgets are left out. Received bytes are the ring buffer's contents, transmitted frames a log on the sender, and text shown a sequence of notes.
- Clocks and `time.sleep` are left out. A wait is a sequence of polls and the overall deadline a sequence of booleans, one per check.
- Floating point is left out: the progress bar and the elapsed-time line. `Closing` shows the elapsed time as no line.
- `establish_connection`, `SerialTimeoutException` on a write and the handshake thread's `get_result(timeout=2)` are left out. `Reflasher.Reflasher.Reflash` takes the handshake's answer as an `Option<bool>`: `None` stands for no answer, and only `Some(false)` stops the reflash, as `is False` does.
- Logging, timestamps (`tstamp`), `__repr__`, `show`, `writelines`, `WindowGeometry` and `MeanCalculator` are left out because they are output only.
- `fail_crc_factor` (random CRC corruption for testing) is left out; the model sends without it.
- `send_raw_msg` is left out; `MessageHandler.MessageSender.Send` with no id covers its framing.
- Dictionary order is left out. `keys()[0]` is taken as the least key, the order CPython 2 gives small integer keys.
- Auxiliary.Div: requires a non-zero divisor. The zero divisor, for which `Uint16.__div__` raises `ZeroDivisionError`, is not modelled.
- MessageHandler.MessageSender: the context counter is a class attribute in the source, shared by every `MessageSender` and never reset by the constructor. The model keeps it as a field of one sender, so the constructor's start at 2 is the class attribute's initial value, not a reset done by each new sender.
- GuiReflasher.GuiReflasher.constructor: the two banner lines `!WARNING!` and `SELECT HEX FILE` it appends to the text browser are UI output and are not modelled.
- Auxiliary.Uint16ToRaw: requires a value in 0..0xffff. The `struct.error` that `pack('H')` raises outside that range is not modelled; the core's callers pass values that fit, and `MessageHandler.CreateMessage` returns its `Err` for a field that does not fit.
- Auxiliary.Uint8ToRaw: requires a value in 0..0xff. The `struct.error` that `pack('B')` raises outside that range is not modelled, for the same reason.
- Auxiliary.UintToRaw: requires a value in 0..0xffff. The `struct.error` raised for a negative value or one above 0xffff is not modelled, for the same reason.
- Auxiliary.RawToUint: requires one or two bytes. For any other length `raw_to_uint` falls through to `unpack('B')`, which raises `struct.error`; that error is not modelled, and the core's callers pass one or two bytes.
- Auxiliary.HexValue: models `int(s, 16)` on hex digits only. Python also accepts surrounding whitespace, a sign and a `0x` prefix.
- `gui/reflasher.py` never assigns `self.message_sender`. `GuiReflasher.GuiReflasher.Reflash` takes the sender as a parameter.
- The window's message handler and ring buffer are taken to be the ones of `message_handler/message_handler.py` and `circ_io_buffer/circ_io_buffer.py`. `gui/serial_handler` is not part of this model.
- GuiReflasher.GuiReflasher.BinSegmentsToPackets: the loop builds the new packets in a local map that is then merged, so the order of the individual field updates is not captured.
- The `BytesIO` methods `CircIoBuffer` inherits without overriding (`seek`, `tell`, `getvalue`) are left out; the model keeps the bytes in an array and the markers as fields.
- CircularBuffer.CircIoBuffer.Read: requires the amount to be at most the unread bytes, or the buffer to be empty. In the source a larger amount returns stale bytes and drives the count negative; every caller in the core asks for at most what is unread.
- CircularBuffer.CircIoBuffer.Peek: the same requirement as `Read`, for the same reason.
- Uint16 arithmetic beyond `+`, `-`, `*` and `/`, such as comparison, is plain integer arithmetic and needs no model.

## Findings

| source | as written | input that shows it | evidently intended | confidence | as-written member | corrected member |
|---|---|---|---|---|---|---|
| intel_hex_handler.py:75 | `bytes(hexstr_list_as_int)` under Python 2, the interpreter `main.py` and `gui/reflasher.py` are written for, is `str(list)`. Each data record appends the text of the list, e.g. `[33, 70, 1, ...]`, to its segment. | the documented record `:10010000214601360121470136007EFE09D2190140` | the record's sixteen raw bytes appended to the segment, as the commented-out `''.join(int_to_chr_list(...))` line does | medium, not executed | IntelHex.DocumentedRecordAsText | IntelHex.DataRecordAppends |
