# PicoGPSLogger receiver decoder, in Dafny

This project models the decoding core of `gps_interface.py`, the module of a
Raspberry Pi Pico GPS logger that talks to a u-blox or Allystar receiver. The
receiver sends two protocols interleaved on one byte stream. One is UBX
binary frames: two sync bytes, class, id, a little-endian 16-bit length, the
payload, and an 8-bit Fletcher checksum pair. The other is NMEA 0183 text
sentences: `$`, printable text, `*`, two hexadecimal digits holding the XOR
of the text, then CR or LF.

Modules:

- `Bytes`: octets and Python's slicing conventions (`s[:k]`, `s[k:]`,
  `s[:-k]`, `s[-k:]`).
- `Checksums`: the Fletcher pair of `update_checksum` and `raw_ubx_msg`, and
  the NMEA XOR, with closed forms and single-byte error detection.
- `Hexadecimal`: the `f'{n:02X}'`/`f'{n:04X}'` formatting, and
  `int(s, 16)` on the two characters after `*`.
- `Nmea`: `verify_nmea_checksum` as a value. It returns a boolean or raises
  `ValueError`.
- `Encoder`: `raw_ubx_msg`, as a specification function and as the loop the
  source runs.
- `Stream`: the `parse_bytes` state machine as a pure function.
  - `Dispatch` is the first `if`/`elif` chain of the loop body.
  - `TakeChecksumByte` is the second chain.
  - `Step` is one iteration, and `Run` is a whole call.
  - A `ValueError` escaping from the loop is the `Raised` outcome.
  - `Valid` is the invariant every step keeps.
- `StreamProps`: what whole frames and sentences do when fed to the parser.
  This includes the encoder/decoder round trip, delivery of corrupted frames
  and sentences, resynchronisation, and the raise on an unreadable checksum.
- `ParserClass`: the `UBXParser` class. Its fields are updated in place by
  methods that are each proved against `Stream`.
- `Format`: `hexify`, `format_raw_message` and `format_binary_message`.
- `Calendar`: `dayofweek` (Zeller's congruence), plus a reference calendar
  stating what it computes.

`nmea_parser.update(chr(byte))` is a call into the external MicropyGPS
library. It is modelled as the string `trace` of characters handed over. The
flag `forwards` says whether an `nmea_parser` was given.

Behaviour of the code that is easy to misread (the model follows the code
throughout):

- Neither checksum verdict is stored with the delivered frame or sentence.
  The result of `verify_checksum()` and `verify_nmea_checksum()` is dropped,
  so the model has no validity flag. `RoundTrip` and
  `CorruptedFrameDelivered` state the verdict as `ChecksumOk` of the parser
  right after delivery.
- The printable range accepted inside a sentence is 32..127, so DEL (127)
  is included.
- The two characters after `*` are read with `int(…, 16)`. Under CPython's
  rules, which the model follows, that accepts lower-case digits, one digit
  with surrounding white space, and a sign, and raises `ValueError` on
  anything else. MicroPython also skips `_` among the digits (see "Left
  out"). The error escapes `parse_bytes`, so the decoder can fail.
- A byte that abandons a sentence sets state 0 but does not clear the buffer.
  The stale text is never delivered.

## Model

| member | source | states |
|---|---|---|
| Checksums.AccumulateAppend | gps_interface.py:163-166 | the running Fletcher pair over `s + t` is the pair over `s` continued over `t`, so chunking does not matter |
| Checksums.ChecksumClosedForm | gps_interface.py:56-58 | after a run of `update_checksum`, `ck_a` is the byte sum mod 256 and `ck_b` the sum of the running `ck_a` values mod 256 |
| Checksums.ChecksumDetectsByteChange | gps_interface.py:49-58 | changing any one byte of a frame changes the computed `ck_a` |
| Checksums.XorAppend | gps_interface.py:66-68 | the XOR of `s + t` is the XOR of the XORs |
| Checksums.XorDetectsByteChange | gps_interface.py:66-70 | changing any one character of a sentence body changes its XOR |
| Hexadecimal.HexFormat | gps_interface.py:172 | `f'{n:0wX}'` is upper-case digits, reads back as `n`, and is exactly `w` long when `n` fits |
| Hexadecimal.HexOfByte | gps_interface.py:172 | `f'{c:02X}'` is the high digit then the low digit of the byte |
| Hexadecimal.ParseInt16OfHexByte | gps_interface.py:69 | `int(…, 16)` on the two upper-case digits of a byte gives that byte |
| Hexadecimal.ParseInt16Range | gps_interface.py:69 | a value read from at most two characters lies in -15..255, and an empty tail always raises |
| Nmea.VerdictOfBuffer | gps_interface.py:61-75 | for a buffer starting with `$`: True iff the third-last character is `*` and the last two read as the XOR of everything between; `ValueError` iff they do not read as a number; False otherwise |
| Nmea.SentenceVerifies | gps_interface.py:61-75 | a sentence carrying its own XOR in two upper-case digits passes the check |
| Nmea.CorruptedSentenceFails | gps_interface.py:61-75 | one corrupted body character makes the check return False, not raise |
| Encoder.RawFrame | gps_interface.py:156-168 | the encoding exists iff the payload is at most 0xFFFF bytes, and is header + message + 4 bytes long |
| Encoder.FrameLayout | gps_interface.py:160-168 | header, command, little-endian payload length, payload unchanged, and last the Fletcher pair over everything between header and checksum |
| Encoder.RawUbxMsg | gps_interface.py:156-168 | the byte-by-byte checksum loop produces exactly `RawFrame` |
| Stream.Initial | gps_interface.py:38-47 | a fresh parser is idle with empty queues and satisfies the invariant |
| Stream.TextStepPreservesValid | gps_interface.py:80-112 | a byte in state 0 or 100 keeps the invariant, delivers no frame, and adds at most the buffered sentence and one forwarded character |
| Stream.FrameStepPreservesValid | gps_interface.py:113-153 | a byte in states 1 to 8 never raises, keeps the invariant, leaves the text side alone, and appends at most one frame |
| Stream.StepPreservesValid | gps_interface.py:78-153 | one byte keeps the invariant: state 7 never remains after an iteration, each delivered payload has its declared length, the header never changes, and the queues and the trace only grow |
| Stream.RunPreservesValid | gps_interface.py:77-153 | a whole `parse_bytes` call keeps the invariant, raised or not, and only appends to the queues |
| Stream.RunAppend | gps_interface.py:77-78 | feeding `s + t` is feeding `s` then `t`, except that a raise ends the call |
| Stream.RunSnoc | gps_interface.py:77-78 | feeding one more byte is one more step after the chunk |
| Stream.RunStops | gps_interface.py:77-78 | once a call has raised, the bytes after that point in the chunk change nothing |
| StreamProps.PayloadRun | gps_interface.py:138-144 | in state 6 each payload byte is appended and accumulated until `length` runs out |
| StreamProps.BodyRun | gps_interface.py:119-144 | header and payload leave the payload collected, nothing left to read, and the checksum accumulated over header and payload |
| StreamProps.ChecksumPairRun | gps_interface.py:138-153 | once the payload is exhausted, the next two bytes are stored as the received pair, the frame is appended with them, and the state returns to 0 |
| StreamProps.SyncRun | gps_interface.py:79-117 | the two sync bytes take an idle parser, or one inside a sentence when the first sync byte is not printable, to state 2 and change nothing else |
| StreamProps.HeaderRun | gps_interface.py:119-137 | exactly the class, id and two length bytes set `groupID`, `subID`, `length` and `msglength`, empty the payload, and restart the checksum over these four bytes |
| StreamProps.FrameRun | gps_interface.py:119-153 | any complete frame after the sync pair is delivered with its declared length, payload and RECEIVED checksum pair, and the state returns to 0 |
| StreamProps.RoundTrip | gps_interface.py:77-168 | feeding `raw_ubx_msg(m)` to an idle parser (or one mid-sentence) delivers exactly `(m[0], m[1], len(m)-2, m[2:], ck_a, ck_b)`; `verify_checksum()` holds, the state is 0, and no sentence or trace is added |
| StreamProps.DefaultHeaderRoundTrip | gps_interface.py:37-47 | with the default header `b'\xB5\x62'` of both `UBXParser` and `raw_ubx_msg`, a fresh parser decodes an encoded command into exactly that one frame, with `verify_checksum()` holding and no sentence |
| StreamProps.CorruptedFrameDelivered | gps_interface.py:145-153 | a frame with one payload byte altered is still delivered, with the altered payload and the sent checksum, and `verify_checksum()` is False |
| StreamProps.CorruptedLayout | gps_interface.py:156-168 | altering payload byte `k` of a command alters byte `k + 4` of the encoded frame, and the checksum of the altered region differs from the one sent |
| StreamProps.EmptyPayloadTakesCkA | gps_interface.py:138-147 | with `length` 0 in state 6, the same byte becomes `msg_ck_a` in the same iteration |
| StreamProps.TextRun | gps_interface.py:97-100 | in state 100, printable bytes other than `$` are appended to the buffer and forwarded in order |
| StreamProps.SentenceTextRun | gps_interface.py:79-100 | `$` and printable text, from state 0 or mid-sentence, leave exactly that text in the buffer, state 100, and every character forwarded |
| StreamProps.SentenceRun | gps_interface.py:83-108 | a sentence and its CR/LF, from state 0 or mid-sentence, is delivered whatever its checksum verdict; a partial sentence is dropped, the state returns to 0, and the sentence and terminator are forwarded |
| StreamProps.WellFormedSentenceRun | gps_interface.py:61-108 | a sentence sent with its correct checksum passes the check and is delivered |
| StreamProps.MalformedChecksumRaises | gps_interface.py:101-104 | when the two characters after `*` are not a number, `parse_bytes` raises at the line end, after forwarding the terminator, with nothing delivered |
| StreamProps.AbandonedSentence | gps_interface.py:109-112 | a non-printable byte that is not a line end or sync byte abandons the sentence without delivering it, and later noise is ignored |
| StreamProps.FalseSyncDiscarded | gps_interface.py:113-118 | a first sync byte followed by a wrong second byte consumes both, leaves every other field unchanged, and re-tests neither |
| StreamProps.IdleIgnoresNoise | gps_interface.py:80-90 | in state 0, bytes that are neither the first sync byte nor `$` change nothing |
| StreamProps.FrameThenSentence | gps_interface.py:77-153 | a frame followed directly by a sentence appends exactly `(m[0], m[1], len(m)-2, m[2:], ck_a, ck_b)` to the frames already queued and the sentence to the sentences already queued, and the state returns to 0 |
| StreamProps.SentenceThenFrame | gps_interface.py:77-153 | a sentence followed directly by a frame appends the sentence and exactly that frame to what was already queued, and the state returns to 0 |
| StreamProps.FalseSyncThenSentence | gps_interface.py:80-118 | a false sync byte in front of a sentence does not disturb its decoding |
| ParserClass.UBXParser.constructor | gps_interface.py:38-47 | the fields start as `Initial` for the first two header bytes |
| ParserClass.UBXParser.UpdateChecksum | gps_interface.py:56-58 | one Fletcher step on `ck_a`, `ck_b`; nothing else changes |
| ParserClass.UBXParser.VerifyChecksum | gps_interface.py:49-54 | True iff the computed pair equals the received pair |
| ParserClass.UBXParser.VerifyNmeaChecksum | gps_interface.py:61-75 | the XOR loop and the read-back give exactly `Nmea.Verdict` of the buffer, including the `ValueError` |
| ParserClass.UBXParser.TextByte | gps_interface.py:80-112 | the first chain on states 0 and 100 changes the fields as `Dispatch` says, raising where it raises |
| ParserClass.UBXParser.FrameByte | gps_interface.py:113-144 | the first chain on states 1 to 6 changes the fields as `Dispatch` says |
| ParserClass.UBXParser.ClassByte | gps_interface.py:119-123 | state 2 stores the class, restarts the checksum from this byte and moves to state 3, as `Dispatch` says |
| ParserClass.UBXParser.IdByte | gps_interface.py:124-127 | state 3 stores the id and accumulates it, as `Dispatch` says |
| ParserClass.UBXParser.LenLoByte | gps_interface.py:128-131 | state 4 stores the low length byte and accumulates it, as `Dispatch` says |
| ParserClass.UBXParser.LenHiByte | gps_interface.py:132-137 | state 5 completes `length` and `msglength`, empties the payload, accumulates the byte and moves to state 6, as `Dispatch` says |
| ParserClass.UBXParser.PayloadByte | gps_interface.py:138-144 | state 6 appends and accumulates a payload byte, or moves to state 7 when nothing is left, as `Dispatch` says |
| ParserClass.UBXParser.ChecksumByte | gps_interface.py:145-153 | the second chain stores the received pair and appends the frame, as `TakeChecksumByte` says |
| ParserClass.UBXParser.ParseByte | gps_interface.py:78-153 | one loop iteration changes the fields as `Step` says |
| ParserClass.UBXParser.ParseBytes | gps_interface.py:77-153 | the fields end as `Run` says, raised or not, and the invariant is kept |
| Format.JoinSpaceAppend | gps_interface.py:180 | `' '.join` of two non-empty lists is the two joins with a space between |
| Format.HexifyAppend | gps_interface.py:171-172 | `hexify(a + b)` is `hexify(a) + ' ' + hexify(b)` |
| Format.HexifyRoundTrip | gps_interface.py:171-172 | every non-empty byte string reads back from its `hexify` rendering |
| Format.HexifyLength | gps_interface.py:171-172 | a rendering is three characters per byte less one |
| Format.RawMessageLayout | gps_interface.py:175-180 | for nine bytes or more: first four bytes, the next two as one 4-digit little-endian number, the middle, then `*` and the last two |
| Format.RawMessageLayoutEmpty | gps_interface.py:177-178 | for exactly eight bytes, the empty middle field is left out |
| Format.LittleEndianPair | gps_interface.py:176 | `int.from_bytes` reads back the little-endian length written by `struct.pack('<H')` |
| Format.BinaryLayout | gps_interface.py:380-382 | the received-frame line is class and id, 4-digit length, payload, then `*` and the checksum pair |
| Format.RawAndBinaryAgree | gps_interface.py:175-180 | for a 2-byte header and a non-empty payload, the line logged when sending is the header plus the line logged when the frame is received |
| Format.EmptyPayloadLinesDiffer | gps_interface.py:380-382 | with an empty payload the received-frame line has one more space before `*` than the sent-frame line |
| Calendar.Zeller | gps_interface.py:23-34 | the result is in 0..6 |
| Calendar.DayOfWeek | gps_interface.py:15-34 | `dayofweek` as written; result in 0..6 |
| Calendar.ZellerAsSum | gps_interface.py:25-34 | replacing an `h` of 0 by 7 has no effect: the result is the plain sum plus 5, mod 7 |
| Calendar.MonthStep | gps_interface.py:25 | `int(13*(x+1)/5.0)` grows month to month by the month length minus 28 (March to January) |
| Calendar.YearStep | gps_interface.py:23-30 | the year terms grow by one per year, and one more in a leap year of their calendar, modulo 7 |
| Calendar.ZellerAdvances | gps_interface.py:15-34 | in either calendar, from year 1 on, the weekday advances by one per day across month ends, year ends and leap days |
| Calendar.DayOfWeekAdvances | gps_interface.py:15-34 | as written, from 1 March 1583 on, the weekday advances by one per Gregorian day |
| Calendar.DayOfWeekAdvancesJulian | gps_interface.py:15-34 | as written, up to 28 February 1583, the weekday advances by one per Julian day |
| Calendar.DayOfWeekEarly1583 | gps_interface.py:16-28 | as written, January and February 1583 get the Julian weekday, three days after the Gregorian one |
| Calendar.CutoverSkips | gps_interface.py:16-28 | as written, 28 February 1583 is a Thursday and 1 March 1583 a Tuesday |
| Calendar.DayOfWeekFixed | gps_interface.py:15-34 | the corrected function, with the calendar chosen by the year as given; result in 0..6 |
| Calendar.DayOfWeekFixedAdvances | gps_interface.py:15-34 | corrected: the weekday advances by one per day everywhere from year 1 on, except across 31 December 1582 to 1 January 1583 |
| Calendar.GpsEpochIsSunday | gps_interface.py:15-34 | 6 January 1980 (GPS week 0) gives 6, Sunday |

## Findings

| source | as written | input that shows it | evidently intended | confidence | as-written member | corrected member |
|---|---|---|---|---|---|---|
| gps_interface.py:17-28 | the Gregorian/Julian choice `year > 1582` is made after January and February have become months 13 and 14 of the previous year | `dayofweek(1583, 2, 28)` is 3 (Thursday) and `dayofweek(1583, 3, 1)` is 1 (Tuesday); all of January and February 1583 are three weekdays off | every date of a year after 1582 is taken as Gregorian | medium; not executed | Calendar.CutoverSkips | Calendar.DayOfWeekFixedAdvances |

## Left out

- `UBXI2CProtocol` (I2C reads and writes with retry on `OSError`) is not part of this model. Neither are the receiver set-up functions `init_allystar`, `init_ublox`, `setup_gps` and `send_ubx_msg`, nor `set_date` or `mainloop`. They are bus, UART, real-time clock, display and clock I/O. Of them, only `raw_ubx_msg` and `format_raw_message` are modelled.
- log_to_sd.py (SD card and file system) is not part of this model.
- The `print` diagnostics inside the parser are logging only and are left out.
- MicropyGPS, the sentence interpreter behind `nmea_parser`, is external. Only the characters handed to its `update` are recorded. A given parser object is assumed truthy.
- ParserClass.UBXParser.constructor: requires a header of at least two bytes. A shorter one makes Python raise `IndexError`, which is not modelled.
- Stream.Initial: `groupID` and `subID` do not exist before the first class byte. The model starts them at 0; no path reads them earlier.
- Stream.Dispatch: `length |= byte*256` is modelled as `length + 256*byte`. The invariant (`length < 256` in state 5) makes the two equal.
- Hexadecimal.ParseInt16: `int(…, 16)` is modelled only for the at most two characters it ever receives here, with ASCII white space, and by CPython's rules. MicroPython, which this module runs on, also skips `_` among the digits, so the tails `_5`, `5_`, `__`, `_ ` and `+_` read as numbers on the device (5, 5, 0, 0, 0) where the model raises `ValueError`. On the device such a sentence is delivered and the rest of the chunk is still decoded; the model stops `parse_bytes` there instead.
- Encoder.RawFrame: follows CPython's `struct.pack('<H', n)`, which raises for a payload over 0xFFFF bytes (the `None` result). MicroPython's `struct.pack` does not range-check; it writes the length truncated to 16 bits and returns a frame whose length field disagrees with its payload. That frame is not modelled.
- Calendar.DayOfWeek: `int(a/4.0)` and `int(13*(x+1)/5.0)` are modelled as exact truncation toward zero. Floating-point rounding is not modelled; it cannot change the result for any year a receiver reports.
- Calendar.ZellerAdvances, Calendar.DayOfWeekFixedAdvances: the weekday properties are stated from year 1 on. Below that, truncation of a negative century count differs from floor division.
- Format.RawAndBinaryAgree: the agreement of the two log formats is stated for a two-byte header only. It is the header every caller uses.
