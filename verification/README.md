# Modbus RTU spindle control: a Dafny model

This project models the Modbus RTU core of a small spindle-control
repository, written in Python:

- two GUI controllers that drive a VFD/servo spindle over a serial line:
  - `modbus_controller_mige.py` has a general request engine,
    `send_modbus_request`. It builds a frame, exchanges it with the
    drive and validates the reply.
  - `modbus_controller_leo.py` sends fixed hex command strings with a
    CRC appended.
- two offline parsers that rebuild commands from a capture log with one
  byte per row:
  - `modbus_parser.py` splits at gaps of more than 1 s.
  - `modbus_parser_new.py` splits at gaps of more than 0.1 s.

The model is a set of pure functions over immutable values:

- Bytes are integers `0..255`, hex text and strings are `seq<char>`, and
  timestamps are reals.
- Python exceptions become explicit error values. This covers
  `struct.error`, `ValueError`, `IndexError`, `TypeError`, `OverflowError`
  and the repository's own `ModbusException`.
- The serial port is a parameter: a function from the frame sent to the
  bytes read back.
- Float parsing of the log's time column is a parameter too.
- The two grouping loops are Dafny methods. Each one is proved equal to a
  single recursive segmentation function, `Segmenter.Segments`, which
  takes the threshold as a parameter.

Modules:

- `Wrappers`: `Option` and `Result`.
- `Bytes`: `struct.pack`/`unpack` codes `H`, `h`, `<H`, and
  `int.to_bytes(n, 'little')`.
- `Hex`: `int(s, 16)`, `format(v, '04x')` and `bytes.fromhex`.
- `Text`: `join`, `replace`, `upper`, `zfill`, `strip`, slicing and
  `str(n)`.
- `Crc`: both CRC-16 implementations.
- `RtuFrame`: `send_modbus_request`.
- `MigeController` and `LeoController`: the two GUIs' command logic.
- `Segmenter`: gap segmentation.
- `ModbusParser` and `ModbusParserNew`: the two parsers.

Behaviour of the code worth noting:

- A reply shorter than four bytes is not rejected as malformed. No such
  check exists. A three-byte reply with a valid CRC yields an empty
  payload. A two-byte exception reply fails only when `response[2]` is
  read.
- `010660000005`, the leo controller's stop command, is not in the first
  parser's table. It translates as unknown.
- The first parser reads the speed of a `010302…` reply from characters
  6..10. So `010302012C` (the whole reply with its CRC already split off)
  translates to 300 and is not an invalid value.
- Clockwise `set_direction` with an entry that is not an integer sends
  +1000. The `except ValueError` branch ignores the direction.
- Drive enable/disable (`_send_custom_command`) can never succeed: it asks
  for function 0x06 without a value.
- The second parser keeps a byte's text after `strip()` and removing
  `0x`, and this text may be empty. So a message string may be empty,
  although every message holds at least one byte row.

## Model

| member | source | states |
|---|---|---|
| Crc.Rounds | modbus_controller_mige.py:30-35 | the inner eight-step shift/XOR loop keeps a 16-bit register within 16 bits |
| Crc.UpdateByte | modbus_controller_mige.py:28-35 | one outer step (`crc ^= pos`, then eight rounds) keeps the register within 16 bits |
| Crc.Register | modbus_controller_mige.py:27-35 | the register after the whole loop, started at 0xFFFF, always fits 16 bits |
| Crc.RegisterAppend | modbus_controller_mige.py:28-35 | the CRC is a left fold: appending a byte continues the register from the prefix's value |
| Crc.ReadRequestCheckValue | modbus_controller_mige.py:25-36 | the request `01 03 00 00 00 01` leaves the register at 0x0A84 and is sent with CRC bytes `84 0A`, the well-known check value for that frame, which fixes the initial value, polynomial and bit order |
| Crc.CheckValueBits | modbus_controller_leo.py:7-20 | the register 0x0A84 read as an int is 0x0A84 |
| Crc.Crc16 | modbus_controller_leo.py:7-20 | `crc16` returns an unsigned 16-bit int |
| Crc.CalculateCrc | modbus_controller_mige.py:25-36 | `calculate_crc` returns two bytes, low byte first, whose value is the register |
| Crc.CrcImplementationsAgree | modbus_controller_leo.py:188-189 | `crc16(d).to_bytes(2, 'little')` never overflows and equals `calculate_crc(d)`: the two controllers compute the same CRC |
| Bytes.PackBeU16 | modbus_controller_mige.py:45-47 | `'>H'` packing succeeds exactly for 0..65535, and the two bytes read back as the value |
| Bytes.PackBeOfValue | modbus_controller_mige.py:45-47 | packing the value of any byte pair gives back that pair |
| Bytes.PackLeU16 | modbus_controller_mige.py:36 | `'<H'` packing succeeds exactly for 0..65535, low byte first |
| Bytes.UnpackBeI16 | modbus_controller_mige.py:201 | `'>h'` unpacking gives a signed 16-bit value congruent to the unsigned pair, negative exactly when the high bit is set |
| Bytes.PackBeI16 | modbus_controller_mige.py:45-47 | `'>h'` packing succeeds exactly for -32768..32767 and writes the two's-complement pattern |
| Bytes.SignedRoundTrip | modbus_controller_mige.py:201 | unpacking a signed pack gives back the value |
| Bytes.ToBytesLittle | modbus_controller_leo.py:189 | `to_bytes(n, 'little')` succeeds exactly below 256^n, gives n bytes and reads back as the value |
| Bytes.ToBytesLittleIsPackLe | modbus_controller_leo.py:189 | for two bytes, `to_bytes(2, 'little')` and `struct.pack('<H')` agree, including when they fail |
| Hex.ParseHexInt | modbus_parser.py:19 | `int(s, 16)` on plain hex text succeeds exactly for non-empty hex strings, giving the digits' value, below 16^len |
| Hex.ToHexLower | modbus_controller_leo.py:135 | `format(v, 'x')` is hex text whose value is v, with no upper-case digit and a leading `0` only for v = 0 |
| Hex.Format04x | modbus_controller_leo.py:135 | `f"{v:04x}"` is hex text whose value is v, at least four digits, exactly four below 0x10000 |
| Hex.FromHex | modbus_controller_leo.py:185 | `bytes.fromhex` succeeds exactly on even-length hex text; byte i is the value of digits 2i, 2i+1 |
| Hex.FromHexAppend | modbus_controller_leo.py:185 | decoding a concatenation of decodable texts concatenates their bytes |
| Hex.FromHexFourDigits | modbus_controller_leo.py:135-136 | four hex digits decode to a byte pair whose big-endian value is the digits' value |
| Hex.HexValueSplit | modbus_parser.py:19 | the value of a concatenation of hex texts is the first value shifted by the second's length plus the second value |
| Text.ConcatAppend | modbus_parser.py:62 | `"".join` of a concatenation of lists is the concatenation of the joins |
| Text.ConcatLength | modbus_parser.py:62 | joining non-empty lists of parts that are each at least n long gives at least n characters |
| Text.Slice | modbus_parser.py:18 | `s[i:j]` is the substring when it is in range, the tail when j is past the end, and empty when i is past the end or i >= j |
| Text.RemoveAll | modbus_parser.py:58 | `replace(pat, '')` returns text without an occurrence of `pat` unchanged, and removes at least one occurrence (at least len(pat) characters) from text with one; `RemoveLeftmost` fixes the rest |
| Text.RemoveLeftmost | modbus_parser.py:58 | the leftmost occurrence is removed, the text before it kept, and the scan resumes after it without rescanning: `a + pat + b` gives `a` followed by the result for `b` whenever `pat` does not start inside `a`; so `"0x0x"` gives `""` |
| Text.ContainsTail | modbus_parser.py:58 | an occurrence not at the start of the text is an occurrence in its tail, and conversely |
| Text.RemoveLeading | modbus_parser.py:58 | a leading occurrence of `pat` is removed and the scan resumes after it, so `"0x1f"` and `"1f"` give the same token text |
| Text.ToUpper | modbus_parser.py:58 | `upper()` keeps the length and upper-cases each ASCII letter in place |
| Text.ZFill | modbus_parser.py:58 | `zfill(w)` leaves text of w or more characters alone; shorter text is padded to w characters with `0`s, inserted after a leading sign when there is one |
| Text.StripLeft | modbus_parser_new.py:39 | the result is a suffix of the text, every character removed is whitespace, and it does not start with whitespace |
| Text.StripRight | modbus_parser_new.py:39 | the result is a prefix of the text, every character removed is whitespace, and it does not end with whitespace |
| Text.Strip | modbus_parser_new.py:39 | `strip()` returns a contiguous piece of the text, every character outside it is whitespace, and no whitespace is left at either end |
| Text.StripsCompose | modbus_parser_new.py:39 | stripping the front and then the back leaves the middle of the text with only whitespace around it |
| Text.NatToString | modbus_parser.py:20 | `str(n)` is a non-empty string of decimal digits that spells n, starting with `0` only for n = 0 |
| RtuFrame.PackU16Pair | modbus_controller_mige.py:45 | `'>HH'` of address and count/value succeeds exactly when the second field is given and both fit 16 bits; the bytes hold both values; failure is `struct.error` |
| RtuFrame.BuildPdu | modbus_controller_mige.py:44-51 | only 3, 4, 6 and 0x42 with data build a PDU; a rejected field is `struct.error` and anything else is the unsupported-function `ValueError`; the PDU holds address and count/value big-endian, or the custom data unchanged |
| RtuFrame.Frame | modbus_controller_mige.py:54-55 | the ADU is slave id, function code, PDU, then its last two bytes are the CRC of all the rest: 4 bytes longer than the PDU |
| RtuFrame.BuildRequest | modbus_controller_mige.py:44-55 | a frame is built exactly when `RequestAccepted` holds; it is CRC-valid and starts with the slave id and function code; the fields hold the address and count/value, or the custom bytes for 0x42; an unsupported code is reported as such |
| RtuFrame.CrcCheckIsCrcValid | modbus_controller_mige.py:72-75 | the code's CRC check on `response[:-2]` and `response[-2:]` holds exactly for replies that end with their own CRC |
| RtuFrame.ValidateResponse | modbus_controller_mige.py:68-91 | an empty reply is `NoResponse`; a reply is accepted exactly when its CRC is valid, it comes from the slave, and it echoes the non-exception function code; the payload is `response[2:-2]` |
| RtuFrame.SendModbusRequest | modbus_controller_mige.py:38-91 | not connected fails first; a rejected request fails as it was built; otherwise the result is the validation of the device's answer to the built frame |
| RtuFrame.ReplyRoundTrip | modbus_controller_mige.py:54-91 | validating the frame of any payload gives that payload back |
| RtuFrame.AcceptedReplyIsFrame | modbus_controller_mige.py:68-91 | conversely, every accepted reply of four or more bytes is the frame of the returned payload |
| RtuFrame.WriteEchoRoundTrip | modbus_controller_mige.py:46-91 | a drive echoing a 0x06 write has the echo accepted, returning the address and value bytes sent |
| RtuFrame.CorruptCrcRejected | modbus_controller_mige.py:72-75 | any reply with a wrong CRC is rejected as such before any other check |
| RtuFrame.OneByteReplyRejected | modbus_controller_mige.py:72-75 | a one-byte reply always fails the CRC check |
| RtuFrame.OtherSlaveRejected | modbus_controller_mige.py:80-81 | a well-framed reply from another slave id is a slave mismatch |
| RtuFrame.ExceptionReplyReported | modbus_controller_mige.py:84-86 | an exception reply yields the driver's error code `response[2]`, before any function-code comparison |
| RtuFrame.OtherFunctionRejected | modbus_controller_mige.py:88-89 | a normal reply for a different function code is a mismatch |
| RtuFrame.TwoByteExceptionReply | modbus_controller_mige.py:84-85 | a two-byte CRC-valid exception reply from the slave ends in `IndexError` |
| RtuFrame.WriteRequestLayout | modbus_controller_mige.py:46-55 | a 0x06 request is slave id, 6, address high/low, value high/low, then the CRC |
| RtuFrame.ReadRequestLayout | modbus_controller_mige.py:44-55 | a 0x03/0x04 request is slave id, function code, address high/low, count high/low, then the CRC |
| MigeController.DecodeSpeed | modbus_controller_mige.py:200-201 | the monitor reads a speed exactly when the payload has at least 3 bytes and byte count 2; the speed is signed 16-bit, congruent to the big-endian pair |
| MigeController.SpeedRoundTrip | modbus_controller_mige.py:200-201 | a payload carrying any signed 16-bit speed decodes to that speed, whatever follows |
| MigeController.MonitorPoll | modbus_controller_mige.py:186-209 | one poll stops exactly when disconnected; connected, it disconnects exactly when the read request fails, shows the read error exactly when the accepted payload does not decode, and otherwise shows the decoded signed 16-bit speed |
| MigeController.MonitorShowsPayload | modbus_controller_mige.py:188-204 | a drive answering the read with the frame of any payload has the read error shown exactly when the payload is shorter than 3 bytes or its byte count is not 2, and otherwise the speed `'>h'` reads from bytes 1..3 |
| MigeController.MonitorShowsDeviceSpeed | modbus_controller_mige.py:188-202 | a drive answering the input-register read with a speed has that speed shown |
| MigeController.MonitorDisconnectsOnException | modbus_controller_mige.py:206-209 | an exception reply to the read ends monitoring with a disconnect |
| MigeController.CustomCommandAlwaysFails | modbus_controller_mige.py:213-223 | drive enable/disable always fails with `struct.error`, for any data |
| MigeController.SendRpmCommand | modbus_controller_mige.py:246-268 | not connected gives only the warning; an unparsable entry is reported; an entry outside 0..65535 fails with `struct.error`; an entry that fits is reported sent exactly when the drive's answer to its write validates, so a drive that echoes receives every entry that fits |
| MigeController.EchoAcceptsRpmWrite | modbus_controller_mige.py:256-263 | the RPM write of a 16-bit entry is built, and its echo validates |
| MigeController.DirectionRpm | modbus_controller_mige.py:272-285 | the entry's magnitude (1000 for 0) is negated for "cw" and only then; an unparsable entry gives +1000 in either direction; the result is never 0 |
| MigeController.ClockwiseNeverSent | modbus_controller_mige.py:270-282 | as written, clockwise with a parsed entry always fails with `struct.error` |
| MigeController.CounterClockwiseSent | modbus_controller_mige.py:270-282 | counter-clockwise sends the magnitude when it fits 16 bits and the drive echoes |
| MigeController.StopRequestLayout | modbus_controller_mige.py:295-300 | the stop write is slave id, 6, 0x0089, 0 |
| MigeController.BuildSignedWrite | modbus_controller_mige.py:258-263 | corrected write: succeeds exactly for a 16-bit address and a signed 16-bit value; the frame is CRC-valid and the value field unpacks back to the value |
| MigeController.SetDirectionSigned | modbus_controller_mige.py:270-286 | with the corrected write: a warning exactly when disconnected; an RPM outside the signed 16-bit range fails with `struct.error`; one inside it is sent exactly when the drive's answer validates, so an echoing drive receives it in both directions for every magnitude up to 32767 |
| MigeController.CounterClockwiseSignedSent | modbus_controller_mige.py:270-286 | with the corrected write, counter-clockwise sends the magnitude to an echoing drive |
| MigeController.ClockwiseSignedSent | modbus_controller_mige.py:270-282 | with the corrected write, clockwise sends the negated magnitude, and the echoed field decodes back to it |
| LeoController.IncreaseRpm | modbus_controller_leo.py:123-125 | "+" adds 10 up to the cap of 100, keeps a valid counter valid and leaves 100 unchanged |
| LeoController.DecreaseRpm | modbus_controller_leo.py:127-129 | "-" subtracts 10 down to 0, keeps a valid counter valid and leaves 0 unchanged |
| LeoController.ApplyPresses | modbus_controller_leo.py:123-129 | any sequence of "+"/"-" presses from a valid counter (such as the initial 0) leaves a multiple of 10 in 0..100, and a counter in 0..100 never leaves that range |
| LeoController.PlusPressesReach | modbus_controller_leo.py:123-125 | conversely, every valid value is reached from 0 by v/10 presses of "+" |
| LeoController.PlusPressesReachFrom | modbus_controller_leo.py:123-125 | k presses of "+" add 10k while below the cap |
| LeoController.SpeedCommandPrefix | modbus_controller_leo.py:136 | `01065000` decodes to 01 06 50 00 |
| LeoController.RpmCommand | modbus_controller_leo.py:131-136 | for every counter whose scaled value fits 16 bits, every valid one included, `f"01065000{v:04x}"` is 12 hex digits decoding to 01 06 50 00 followed by the scaled value big-endian |
| LeoController.SendModbusCommand | modbus_controller_leo.py:178-192 | a frame is produced exactly when connected and the text decodes; it is the decoded bytes followed by their CRC, low byte first; the error cases are reported |
| LeoController.SentFrameIsRtuFrame | modbus_controller_leo.py:185-192 | the leo frame of a command is exactly the mige engine's frame of the same slave id, function code and payload |
| LeoController.RpmFrameIsRtuWrite | modbus_controller_leo.py:131-137 | the speed command is a write of the scaled counter to register 0x5000, accepted by the mige validator as its own echo |
| LeoController.DirectionCommandPrefix | modbus_controller_leo.py:89 | `01066000` decodes to 01 06 60 00 |
| LeoController.FixedCommandTail | modbus_controller_leo.py:89-95 | `0001`, `0002` and `0005` decode to 00 01, 00 02 and 00 05 |
| LeoController.FixedCommandBytes | modbus_controller_leo.py:89-95 | the CW, CCW and stop commands are writes of 1, 2 and 5 to register 0x6000 |
| LeoController.FixedCommandFrames | modbus_controller_leo.py:89-95 | the three buttons send those six bytes plus a two-byte CRC |
| Segmenter.Segments | modbus_parser.py:61-66 | the segmentation is empty exactly for no records and has at most one segment per record |
| Segmenter.SegmentsIsGapPartition | modbus_parser.py:60-74 | the segments concatenate back to the records; every segment is non-empty, has no internal gap above the threshold, and starts more than the threshold after the previous one |
| Segmenter.GapPartitionUnique | modbus_parser.py:60-74 | conversely, any cut with those properties is the segmentation |
| Segmenter.SegmentsKeepTokens | modbus_parser.py:60-74 | the joined segments concatenate to the tokens of all records, in order |
| Segmenter.JoinFlatten | modbus_parser.py:62 | joining segment by segment then concatenating is joining the flattened records |
| Segmenter.ProgressSplit | modbus_parser.py:61-66 | a gap above the threshold closes the open command and opens one with the new byte |
| Segmenter.ProgressExtend | modbus_parser.py:65-66 | the first byte, or one within the threshold, joins the open command |
| Segmenter.ProgressFinish | modbus_parser.py:72-74 | flushing the open command yields every segment joined |
| Segmenter.SameSegmentsAcrossThresholds | modbus_parser_new.py:41 | two thresholds cut a log the same way when no gap lies between them |
| ModbusParser.Field | modbus_parser.py:51-52 | the plain column is used when present and non-empty, otherwise the quoted column when present |
| ModbusParser.ByteToken | modbus_parser.py:58 | the text without `0x`, upper-cased, is the token when it has two characters or more; one character is padded to `0c`, or to `s0` for a sign `s`; empty text gives `00` |
| ModbusParser.ParseRow | modbus_parser.py:50-58 | a row gives a byte exactly when both columns are present and the time parses; the byte carries that time and the row's token |
| Segmenter.AcceptedAppend | modbus_parser.py:48-70 | the accepted bytes of a concatenation of logs concatenate |
| Segmenter.SkippedRowIsInvisible | modbus_parser.py:54-55 | inserting a skipped row anywhere leaves the accepted bytes, and so every command, unchanged |
| ModbusParser.GroupCommands | modbus_parser.py:44-74 | the loop's commands are the 1 s gap segmentation of the accepted bytes, each joined |
| ModbusParser.CommandsCoverLog | modbus_parser.py:44-74 | the commands concatenate to every accepted token in order; there are none exactly when no row is accepted; each is at least two characters |
| ModbusParser.Classify | modbus_parser.py:5-32 | each exact command maps to its meaning exactly; `01060004…` gives a speed exactly when characters 8..12 are hex, else invalid; `010302…` likewise from 6..10; anything else is unknown |
| ModbusParser.TableIsDisjoint | modbus_parser.py:7-24 | no exact command starts with either prefix, so the rule order does not matter |
| ModbusParser.SetSpeedRoundTrip | modbus_parser.py:15-20 | a set-speed body with any four hex digits translates to their value |
| ModbusParser.SetSpeedOfFormat | modbus_parser.py:15-20 | every speed below 0x10000, formatted `%04x` after the prefix, reads back as itself |
| ModbusParser.SpeedResponseRoundTrip | modbus_parser.py:24-28 | a speed reply with any four hex digits after `010302` translates to their value |
| ModbusParser.BareSetSpeedIsInvalid | modbus_parser.py:15-22 | the bare prefix `01060004` has no value and translates as invalid |
| ModbusParser.Describe | modbus_parser.py:5-32 | a set-speed or speed-response translation prints its label followed by decimal digits that spell the speed |
| ModbusParser.SplitCrc | modbus_parser.py:80-88 | a command longer than four characters splits into a body and a four-character CRC that concatenate back; a shorter one is kept whole |
| ModbusParser.CapturedSetSpeed | modbus_parser.py:78-84 | a captured speed write with its CRC has the CRC split off, translates to its speed, and prints body, CRC and speed |
| ModbusParser.SetSpeedExample | modbus_parser.py:15-20 | `010600040013` translates to speed 19 |
| ModbusParser.SpeedReplyExample | modbus_parser.py:24-28 | `010302012C` translates to a speed of 300 |
| ModbusParser.LeoStopIsUnknown | modbus_parser.py:31-32 | `010660000005` is an unknown command |
| ModbusParserNew.DataRows | modbus_parser_new.py:28-29 | the first row is skipped as header; an empty file has no header to skip |
| ModbusParserNew.GroupAndParseFromFile | modbus_parser_new.py:25-56 | a file without a header row stops before any output; otherwise the report is that of the messages the grouping loop builds from the rows after the header |
| ModbusParserNew.ParseRow | modbus_parser_new.py:37-39 | a row gives a byte exactly when it has two fields and the time parses; its token is the stripped field without `0x` |
| ModbusParserNew.GroupMessages | modbus_parser_new.py:31-53 | the loop's messages are the 0.1 s gap segmentation of the accepted bytes, each joined: the first parser's algorithm with another threshold |
| ModbusParserNew.ParseModbusMessage | modbus_parser_new.py:8-23 | each prefix maps to its meaning exactly, with anything after it allowed; `01060004…` raises exactly when characters 8..12 are not hex and otherwise gives their value |
| ModbusParserNew.Describe | modbus_parser_new.py:8-23 | a speed interpretation prints its label followed by decimal digits that spell the speed |
| ModbusParserNew.PrefixesExclusive | modbus_parser_new.py:10-21 | at most one of the fixed prefixes starts any message |
| ModbusParserNew.Report | modbus_parser_new.py:55-56 | at most one line per message is printed, and fewer exactly when the report raised |
| ModbusParserNew.ReportContents | modbus_parser_new.py:55-56 | each printed line shows its message and interpretation; a report that raised stopped at a message that raises |
| ModbusParserNew.ReportStopsAtFirstFailure | modbus_parser_new.py:55-56 | the report raises exactly when some message fails to parse, and every message before that point parsed |
| ModbusParserNew.BareSetSpeedRaises | modbus_parser_new.py:16-18 | the message `01060004` alone raises `ValueError` |
| ModbusParserNew.FixedCommandWithCrc | modbus_parser_new.py:10-21 | the direction, stop and request commands are recognised with any CRC still attached |
| ModbusParserNew.SetSpeedWithCrc | modbus_parser_new.py:16-19 | a set-speed message reads four hex digits after the prefix and ignores the CRC after them |
| ModbusParserNew.ThresholdsAgree | modbus_parser_new.py:41 | the two parsers cut a log alike when no gap lies between 0.1 s and 1 s |

## Left out

- The GUIs (tkinter widgets, message boxes, labels), the serial port, its settings and buffer resets, the 0.1 s and 1 s sleeps, and the monitoring thread: these are I/O and concurrency. The device is a function parameter and the connection state is a boolean.
- Debug printing of the sent frame (mige line 58, leo lines 197-199) and the parsers' header lines are output only.
- CSV reading is left out: file opening, quoting, `DictReader`'s `None` for missing trailing fields (modelled as an absent column), and `FileNotFoundError`. Rows are given as maps or field lists.
- `float()` on the time column is a parameter. NaN and infinite times are not modelled, because reals have neither.
- `ModbusParser.GroupCommands`: the gap test `current_time - last_time > 1.0` is evaluated on exact reals. Python rounds the subtraction to a double, so a log whose gap lies within rounding of 1.0 can be cut differently.
- `ModbusParserNew.GroupMessages`: the gap test `current_time - last_time > 0.1` is evaluated on exact reals against the exact real 0.1. Python rounds both the subtraction and the literal 0.1 to doubles: times 1.0 then 1.1 give 0.10000000000000009 > 0.1 and start a new message, while the exact difference does not. No choice of the `float` parameter reproduces double rounding on every log.
- `Hex.ParseHexInt`: models `int(s, 16)` on plain hex digits only. Python also accepts surrounding whitespace, a sign, underscores between digits and a `0x`/`0X` prefix, and none of these is modelled.
- `ModbusParser.Classify` and `ModbusParserNew.ParseModbusMessage`: `int(s, 16)` is modelled on plain hex digits only. Python also accepts surrounding whitespace, a sign, underscores and a `0x`/`0X` prefix inside the four-character field, and none of these is modelled.
- `Text.ToUpper`: only ASCII letters are upper-cased. Python's Unicode case mapping is not modelled.
- `Hex.FromHex`: `bytes.fromhex` skips whitespace between byte pairs, and this is not modelled. Every command string in the repository is plain hex.
- `adjust_rpm` (mige lines 237-244) and the connect/disconnect handlers are left out. They only edit GUI state and are not part of the Modbus core.
- `RtuFrame.ValidateResponse`: the `IndexError` that `response[1]` could raise is unreachable. A reply shorter than two bytes always fails the CRC check first. The model keeps the branch, and `OneByteReplyRejected` shows it is never reached.
- `LeoController.RpmCommand`: takes a non-negative counter. The counter never goes negative, as `ApplyPresses` shows, so `format(v, '04x')` of a negative number is not modelled.
- Only one concrete CRC check value is stated (`ReadRequestCheckValue`). The other fixed frames, such as `01 06 00 89 03 E8`, are covered through the CRC's definition and the round trips instead.
- `ModbusParser.ReportLine` (modbus_parser.py lines 80-88) and `ModbusParserNew.Line` (modbus_parser_new.py line 56) carry no contract of their own. They are the two print formats, written out as in the source. `CapturedSetSpeed` states the first for captured speed writes, and `ReportContents` states that every line of the second shows its message and interpretation. The fixed labels of both `Describe` functions are likewise the source's literal strings, and only the speed labels have a contract.
- `MigeController.CustomCommand` and `MigeController.SetDirection` carry no contract of their own. Their behaviour is stated by `CustomCommandAlwaysFails`, `ClockwiseNeverSent` and `CounterClockwiseSent`. `MigeController.MonitorRead` and `MigeController.RpmWrite` only name the request each operation sends.

## Findings

| source | as written | input that shows it | evidently intended | confidence | as-written member | corrected member |
|---|---|---|---|---|---|---|
| modbus_controller_mige.py:258-263 | `set_direction('cw')` puts the negated RPM in the entry (line 278), and `send_rpm_command` packs it with `struct.pack('>HH', address, value)` (line 47), which rejects every negative value | entry `500`, direction `cw`: value `-500` raises `struct.error`, so nothing is sent | write the signed value as its 16-bit two's-complement pattern (`'>Hh'`), so that clockwise reaches the drive | high, not executed | MigeController.ClockwiseNeverSent | MigeController.ClockwiseSignedSent |
