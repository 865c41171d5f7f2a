# Radar serial link of the sensor firmware, in Dafny

This project models the MicroPython driver for the 60 GHz mmWave radar modules
(MR60BHA1 and MR24HPC1) that the firmware talks to over a UART. It also models the
device-identifier derivation the firmware runs at boot.

- **Bytes** (`bytes.dfy`) covers byte strings and the integer conversions the driver uses:
  - `sum`, `int.from_bytes(_, "big")` and `n.to_bytes(2, "big")`;
  - the frame checksum, which is the low byte of a sum.
- **Frames** (`frames.dfy`) is the wire format `53 59 | control | command | length | payload | checksum | 54 43`:
  - `Encode` is what `_write` sends;
  - `Scan` is what `_read` returns on a finite input stream, and where it stops reading;
  - the module proves the round trip and the order in which errors are reported;
  - it proves that the checksum catches a change to one byte of the control word, the command or the payload;
  - a corrupted length field is not caught that way: `_read` never returns the frame that was sent, but it may accept a different one (see "## Left out").
- **RadarResponse** (`radar_response.dfy`) is `format_data` and its nine `_handle_*` tables:
  - it maps a control word, a command and a payload to a one-entry reading;
  - an unknown control word or command gives an error entry;
  - a label index past its table gives the `IndexError` the Python raises.
- **Link** (`link.dfy`) holds the request/response engine as functions of the bytes the sensor sends. It covers:
  - `_reset` and its echo loop;
  - `send_command`, including resends and resets;
  - `update`;
  - the command sequence of `init`.

  Each function returns the result or the exception, the next read position, the new value of the global `failed_attempts`, and the frames written.
- **RadarSensor** (`radar_sensor.dfy`) is the imperative driver:
  - `Uart` is a class holding a finite input, a read cursor and an output log;
  - `Sensor` holds the globals `model` and `failed_attempts`;
  - `Sensor`'s methods (`ReadFrame`, `WriteFrame`, `Reset`, `SendCommand`, `Update`, `Init`) keep the loops and the recursion of the Python;
  - each method is proved to compute exactly what the matching `Link` function says.
- **DeviceId** (`device_id.dfy`) is the UUID-shaped identifier that boot derives from the board's unique id.

Reaching the end of the input stands for the 10-second poll timeout.

`uart.read(n)` follows MicroPython:
- it returns the bytes that arrived, possibly fewer than `n`;
- it returns `None` when nothing arrived;
- it returns `b''` when `n` is 0.

`to_bytes(1, "big")` of the checksum keeps the low byte, as MicroPython's truncating conversion does. Likewise `len(data).to_bytes(2, "big")` keeps the length modulo 65536, so a payload of 65536 bytes or more gets a wrong length field (`Bytes.ToBytesBig2`); the round-trip lemmas therefore require a payload shorter than 65536 bytes.

Three behaviours of the code are modelled as written:

- After a successful `_read` that answers the request straight away, `failed_attempts` keeps the value it had. Only the extra reads inside the retry loop clear it (radar_sensor.py:104-113).
- The recursive `send_command` at radar_sensor.py:118 is inside the `try`. An exception it raises is therefore caught by the `except` of the caller, which counts it as one more failed read. `Link.Recover` models exactly that.
- A frame that fails the end-marker or checksum check raises inside the loop of `send_command` and `_reset`, and counts as a failed read there. The first read of `send_command` is outside the `try`, so a failure there escapes to the caller.

## Model

| member | source | states |
|---|---|---|
| Bytes.Sum | radar_sensor.py:52-53 | definition of `sum` over bytes; properties in Bytes.SumAppend and Bytes.SumUpdate |
| Bytes.Checksum | radar_sensor.py:53 | definition: the low byte of the sum; properties in Frames.ChecksumSensitive and Frames.EncodeLayout |
| Bytes.FromBytesBig | radar_sensor.py:41 | definition of `int.from_bytes(_, "big")`; properties in Bytes.PairValue and Bytes.TwoByteField |
| Bytes.SumAppend | radar_sensor.py:52-53 | the byte sum of a concatenation is the sum of the two sums |
| Bytes.SumUpdate | radar_sensor.py:52-53 | replacing one byte moves the sum by exactly the difference of old and new value |
| Bytes.ToBytesBig2 | radar_sensor.py:63 | the length field is two bytes whose big-endian value is the length modulo 65536 |
| Bytes.PairValue | radar_sensor.py:40-41 | two bytes read big-endian are `hi * 256 + lo` |
| Bytes.TwoByteField | radar_sensor.py:40-41 | any two-byte length field is below 65536 and re-encodes to itself |
| Frames.Header | radar_sensor.py:63-64 | definition of the checksummed bytes; properties in Frames.EncodeLayout |
| Frames.EncodeFrame | radar_sensor.py:66 | definition: the bytes `_write` sends for a frame; properties in Frames.ScanAt |
| Frames.EncodeAll | radar_sensor.py:66 | definition: the bytes of several writes in order; properties in Frames.EncodeAllAppend |
| Frames.Encode | radar_sensor.py:61-66 | an encoded frame is 9 bytes longer than its payload |
| Frames.EncodeLayout | radar_sensor.py:63-66 | start marker, control, command, big-endian length, payload, checksum = low byte of the sum of all earlier bytes, end marker, at their exact offsets |
| Frames.EncodeAllAppend | radar_sensor.py:66 | the bytes of consecutive writes are the concatenation of each write's frame |
| Frames.Scan | radar_sensor.py:29-57 | a read never moves backwards or past the end, and a frame it returns took at least 9 + payload bytes |
| Frames.ParseBody | radar_sensor.py:37-56 | after the start marker, a returned frame occupies exactly 7 + payload bytes |
| Frames.ParseBodySound | radar_sensor.py:37-54 | a frame returned after a start marker is encoded, checksum and end marker included, right before the stop position |
| Frames.ScanSound | radar_sensor.py:29-57 | every frame `_read` returns lies encoded in the stream between the start and the stop position; no frame failing a check is ever returned |
| Frames.ParseEncoded | radar_sensor.py:37-54 | reading the body of an encoded frame gives back its control, command and payload |
| Frames.ParseBodyAccepts | radar_sensor.py:37-54 | proof step (unfolds one call of the function): a body with a consistent length, end marker and checksum is accepted with exactly those fields |
| Frames.ParseBodyShort | radar_sensor.py:40-49 | proof step (unfolds one call of the function): a stream that ends after the length field but before the end marker yields "not closed" |
| Frames.ScanSkipsNoise | radar_sensor.py:33-36 | bytes other than 0x53 before a frame are skipped one at a time |
| Frames.ScanAt | radar_sensor.py:29-54 | `_read` at the start of an encoded frame returns that frame and stops right after it |
| Frames.RoundTrip | radar_sensor.py:33-66 | `_read` after noise free of 0x53 returns the control, command and payload `_write` encoded |
| Frames.DoubledMarkerSkipsFrame | radar_sensor.py:36 | after a 0x53 the next byte is consumed unchecked, so `53 53 59 …` misses the frame's start marker |
| Frames.ScanChecksumFails | radar_sensor.py:51-56 | a well-closed frame whose checksum byte is wrong gives "Checksum failed" and is consumed |
| Frames.EndMarkerCheckedFirst | radar_sensor.py:47-49 | a wrong end marker is reported as "not closed" whatever the checksum byte is |
| Frames.ChecksumMismatchRejected | radar_sensor.py:51-56 | any checksum byte other than the low byte of the sum is rejected |
| Frames.TruncatedFrameRejected | radar_sensor.py:37-49 | a stream cut inside a frame fails: timeout before the marker, unreadable before the length field, otherwise not closed |
| Frames.CorruptedByteDetected | radar_sensor.py:51-56 | changing one byte of control, command or payload always makes the checksum fail (markers and length field: see "## Left out") |
| Frames.CorruptedLengthNotAccepted | radar_sensor.py:40-54 | changing a byte of the length field never makes `_read` return the frame that was sent |
| Frames.CorruptedLengthAcceptsOtherFrame | radar_sensor.py:40-54 | a concrete case where a changed length byte makes `_read` accept a different, shorter frame |
| Frames.ChecksumSensitive | radar_sensor.py:53 | the checksum of a header changes whenever one byte of it changes |
| RadarResponse.ByteValues | radar_response.py:79 | `[b for b in data]` has the payload's length and each element is that byte's value |
| RadarResponse.HandleHeartRateMonitor | radar_response.py:75-81 | definition of the `_handle_*` table; properties in RadarResponse.HeartRateMonitorFollowsTable |
| RadarResponse.HandleRespiratoryMonitor | radar_response.py:84-92 | definition of the `_handle_*` table; properties in RadarResponse.RespiratoryMonitorFollowsTable |
| RadarResponse.HandleSleepMonitor | radar_response.py:95-105 | definition of the `_handle_*` table; properties in RadarResponse.SleepMonitorFollowsTable |
| RadarResponse.HandleHumanPresence | radar_response.py:108-120 | definition of the `_handle_*` table; properties in RadarResponse.HumanPresenceFollowsTable |
| RadarResponse.HandleRadarDetectionRange | radar_response.py:123-127 | definition of the `_handle_*` table; properties in RadarResponse.DetectionRangeFollowsTable |
| RadarResponse.HandleProductInfo | radar_response.py:130-136 | definition of the `_handle_*` table; properties in RadarResponse.ProductInfoFollowsTable |
| RadarResponse.HandleSystemFunctions | radar_response.py:139-144 | definition of the `_handle_*` table; properties in RadarResponse.SystemFunctionsFollowTable |
| RadarResponse.HandleOperationStatus | radar_response.py:147-157 | definition of the `_handle_*` table; properties in RadarResponse.OperationStatusFollowsTable |
| RadarResponse.HandleUnderlyingOpenFunction | radar_response.py:160-164 | definition of the `_handle_*` table; properties in RadarResponse.UnderlyingOpenFunctionFollowsTable |
| RadarResponse.FormatData | radar_response.py:167-178 | a result's key is "error" exactly when its value is an invalid-request entry |
| RadarResponse.FormatDataFollowsTable | radar_response.py:167-178 | `format_data` is the two-level lookup of one table: control word to subsystem, command to reading |
| RadarResponse.SystemFunctionsFollowTable | radar_response.py:139-144 | the system-functions handler is that table's row for control word 0x01 |
| RadarResponse.ProductInfoFollowsTable | radar_response.py:130-136 | the product-info handler is that table's row for control word 0x02 |
| RadarResponse.OperationStatusFollowsTable | radar_response.py:147-157 | the operation-status handler is that table's row for control word 0x05 |
| RadarResponse.DetectionRangeFollowsTable | radar_response.py:123-127 | the detection-range handler is that table's row for control word 0x07 |
| RadarResponse.UnderlyingOpenFunctionFollowsTable | radar_response.py:160-164 | the underlying-open-function handler is that table's row for control word 0x08 |
| RadarResponse.HumanPresenceFollowsTable | radar_response.py:108-120 | the presence handler is that table's row for control word 0x80 |
| RadarResponse.RespiratoryMonitorFollowsTable | radar_response.py:84-92 | the respiratory handler is that table's row for control word 0x81 |
| RadarResponse.SleepMonitorFollowsTable | radar_response.py:95-105 | the sleep handler is that table's row for control word 0x84 |
| RadarResponse.HeartRateMonitorFollowsTable | radar_response.py:75-81 | the heart-rate handler is that table's row for control word 0x85 |
| RadarResponse.ControlWordUnknown | radar_response.py:167-178 | the result is exactly `{"error": "Invalid Control Word"}` if and only if the control word is none of the nine |
| RadarResponse.CommandUnknown | radar_response.py:75-164 | for a known control word, the result is the error entry naming that subsystem, command and payload if and only if the command is not in its table |
| RadarResponse.LabelIndexOutOfRange | radar_response.py:95-157 | `format_data` raises exactly when a label reading's big-endian index is at or past the end of its table |
| RadarResponse.ReadingsReflectPayload | radar_response.py:75-178 | every successful reading reflects the payload: flags are true exactly for the single on byte, numbers are the big-endian value, raw readings are the bytes, samples the byte values, labels the table entry at the index |
| RadarResponse.TabulatedReflectsPayload | radar_response.py:75-164 | the same for the table form of the lookup |
| RadarResponse.FlagsUseOnByte | radar_response.py:139-144 | system flags are true for 0x0F, every other flag for 0x01 |
| RadarResponse.KeyDependsOnRequestOnly | radar_response.py:75-178 | the key of a successful result depends on control word and command, never on the payload |
| RadarResponse.QueryAndReportAgree | radar_response.py:75-157 | the query and report commands of the same reading interpret a payload identically |
| RadarResponse.RespiratoryRateShadowsSpeed | radar_response.py:88-89 | command 0x01 of the respiratory table gives `respiratory_rate`, the later of the two duplicate keys |
| RadarResponse.InterpretationExamples | radar_response.py:75-178 | concrete cases: presence `01` is true, `01 01` is false, heart rate `00 48` is 72, unknown control word, bed status index 3 raises |
| Link.AwaitEcho | radar_sensor.py:80-93 | the echo loop ends echoed with the counter at 0 after reading the reset frame, or gives up with the counter past 5 |
| Link.Send | radar_sensor.py:98-124 | `send_command` writes the request first and only resends or resets afterwards; success within the bound leaves the counter within it; "not responding" only past it |
| Link.AwaitReply | radar_sensor.py:108-118 | the retry loop writes only the request or the reset frame and keeps the counter within the bound on success |
| Link.Recover | radar_sensor.py:119-123 | the except branch: success leaves the counter at most 5, "not responding" only with the counter past 5 |
| Link.ResetAndResend | radar_sensor.py:121-123 | a reset writes the reset frame first, then only the request |
| Link.Query | radar_sensor.py:131-136 | one query reads forward only |
| Link.PollCycle | radar_sensor.py:128-140 | one poll cycle reads forward only |
| Link.Then | radar_sensor.py:155-162 | one configuration command reads forward only |
| Link.ThenAll | radar_sensor.py:154-162 | a configuration sequence keeps the first written frame first |
| Link.Initialize | radar_sensor.py:150-164 | start-up reads forward only |
| Link.Identified | radar_sensor.py:152-164 | the part of start-up after the reset reads forward only |
| Link.AwaitEchoSound | radar_sensor.py:85-93 | when `_reset` returns, the reset frame has just been read from the stream |
| Link.EchoEndsRead | radar_sensor.py:85-93 | when `_reset` returns, its last read returned the reset frame encoded right before the stop position |
| Link.EchoStep | radar_sensor.py:85-92 | proof step (unfolds one call of the function): one turn of the echo loop: echo ends it, a failed read past 5 gives up, anything else counts one and goes on |
| Link.EchoFound | radar_sensor.py:85-93 | an echo at the read position ends the loop right after it, counter 0 |
| Link.EchoSkipsOtherFrame | radar_sensor.py:87-88 | any other frame counts one attempt and is skipped |
| Link.EchoGivesUpOnSilence | radar_sensor.py:89-92 | a silent sensor makes `_reset` raise with the counter at 6 |
| Link.SendSound | radar_sensor.py:98-124 | a returned payload belongs to a frame with the request's control word and command read from the stream during the call; the payload itself is not compared |
| Link.AwaitReplySound | radar_sensor.py:108-118 | the same for the retry loop |
| Link.RecoverSound | radar_sensor.py:119-123 | the same for the except branch |
| Link.ResetAndResendSound | radar_sensor.py:121-123 | the same after a reset and resend |
| Link.FirstReadFailureEscapes | radar_sensor.py:104 | a failure of the first read propagates at once, no retry and no reset, counter unchanged |
| Link.ImmediateReply | radar_sensor.py:101-108 | a matching first reply is returned with the counter unchanged and one frame written |
| Link.FirstReadGood | radar_sensor.py:103-108 | proof step (unfolds one call of the function): a good first read enters the retry loop with no extra reads counted |
| Link.GoodReadContinues | radar_sensor.py:110-117 | an extra good read before the third clears the counter and goes on |
| Link.GoodReadResends | radar_sensor.py:112-118 | the third extra good read resends, even if it matched; a failure of the resend is handled by the caller's except |
| Link.StaleFrameTolerated | radar_sensor.py:104-124 | one stale frame followed by the reply returns the reply's payload with the counter cleared |
| Link.ResendAfterThirdRead | radar_sensor.py:108-118 | three frames that do not answer, followed by any fourth frame, make `send_command` write the request a second time |
| Link.RetryWithinBound | radar_sensor.py:119-121 | failed reads that keep the counter at most 5 only count up |
| Link.ReplyStep | radar_sensor.py:108-121 | proof step (unfolds one call of the function): one turn of the retry loop, for a good read before and at the third, and for a failed read |
| Link.RecoverStep | radar_sensor.py:119-123 | proof step (unfolds one call of the function): the except branch resets and resends past 5 and continues otherwise |
| Link.ResetPastBound | radar_sensor.py:119-123 | the failed read that takes the counter to 6 triggers reset and resend |
| Link.RecoversWithinBound | radar_sensor.py:108-121 | failed reads within the bound followed by the reply still return its payload |
| Link.SendExtends | radar_sensor.py:101 | a call adds exactly its request to the sequence of distinct requests written |
| Link.Queries | radar_sensor.py:130-139 | definition: the frames `update` sends for each model, in order; properties in Link.PollRequests |
| Link.Keys | radar_sensor.py:130-139 | definition: the keys `update` returns for each model; properties in Link.PollKeys |
| Link.QueryStep | radar_sensor.py:131-136 | a query after a failure does nothing; otherwise it writes exactly its request |
| Link.PollRequests | radar_sensor.py:128-140 | `update` writes the model's queries in order (a prefix on failure), and nothing for an unknown model |
| Link.PollKeys | radar_sensor.py:128-140 | a successful `update` returns exactly the model's keys: three for MR60BHA1, one for MR24HPC1, none otherwise |
| Link.QueryAddsKey | radar_sensor.py:131-136 | one query adds exactly its reading's key to the dictionary |
| Link.ThenStep | radar_sensor.py:155 | one configuration command writes exactly its request |
| Link.ThenAllSkips | radar_sensor.py:154-162 | after an exception no further configuration command is sent |
| Link.ThenAllRequests | radar_sensor.py:154-162 | a configuration sequence writes its commands in order (a prefix on failure) |
| Link.TogglesSeparated | radar_sensor.py:154-162 | no configuration command repeats its predecessor or the model query |
| Link.IdentifiedRequests | radar_sensor.py:152-162 | after the reset frame, start-up writes the model query then the model's configuration commands |
| Link.StartupRequests | radar_sensor.py:150-162 | `init` writes the reset frame first, then the model query, then the model's configuration commands |
| Link.StartupModelReceived | radar_sensor.py:150-164 | `init` returns the stored model, and a new model is the payload of a hardware-model reply read from the stream |
| RadarSensor.HuntStep | radar_sensor.py:33-36 | proof step (unfolds one call of the function): one step of the marker hunt as the Python reads it |
| RadarSensor.BodyReads | radar_sensor.py:37-56 | the six reads after the marker, with short reads, give the end-marker check and then the checksum check |
| RadarSensor.ResetAndResendStep | radar_sensor.py:121-123 | proof step (unfolds one call of the function): a reset that fails raises "not responding"; one that succeeds is followed by a resend |
| RadarSensor.Uart.Read | radar_sensor.py:36-43 | `read(n)` returns the next up to `n` bytes, `None` when none arrived, and advances the cursor |
| RadarSensor.Uart.Write | radar_sensor.py:66 | `write` appends its bytes to the output log |
| RadarSensor.Sensor.constructor | radar_sensor.py:11-13 | the globals start as `model = b''` and `failed_attempts = 0` |
| RadarSensor.Sensor.ReadFrame | radar_sensor.py:29-57 | `_read` returns what `Frames.Scan` says and consumes exactly its bytes |
| RadarSensor.Sensor.ReadBody | radar_sensor.py:37-56 | the reads after the start marker agree with `Frames.ParseBody` |
| RadarSensor.Sensor.WriteFrame | radar_sensor.py:61-67 | `_write` appends exactly the encoded frame to the output |
| RadarSensor.Sensor.Reset | radar_sensor.py:72-93 | `_reset` writes one reset frame and ends as `Link.AwaitEcho` says |
| RadarSensor.Sensor.EchoAttempt | radar_sensor.py:86-92 | one read of the echo loop with its counter increment |
| RadarSensor.Sensor.SendCommand | radar_sensor.py:98-124 | `send_command` returns, reads, counts and writes exactly as `Link.Send` says |
| RadarSensor.Sensor.AwaitStep | radar_sensor.py:108-123 | one turn of the retry loop agrees with `Link.AwaitReply` |
| RadarSensor.Sensor.Resend | radar_sensor.py:117-118 | the resend after the third extra read, with its exception caught |
| RadarSensor.Sensor.Fallback | radar_sensor.py:119-123 | the except branch agrees with `Link.Recover` |
| RadarSensor.Sensor.CountFailure | radar_sensor.py:120-123 | counts a failed read; past 5 it resets and resends as `Link.ResetAndResend` says |
| RadarSensor.Sensor.ResetAndResendNow | radar_sensor.py:122-123 | `_reset` followed by the recursive `send_command` |
| RadarSensor.Sensor.Ask | radar_sensor.py:131-136 | one `send_command` of `update` followed by `format_data` and `data.update` |
| RadarSensor.Sensor.Update | radar_sensor.py:128-140 | `update` agrees with `Link.PollCycle` |
| RadarSensor.Sensor.Configure | radar_sensor.py:154-162 | the model's configuration commands agree with `Link.ThenAll` |
| RadarSensor.Sensor.Switch | radar_sensor.py:155-162 | one configuration command agrees with `Link.Then` |
| RadarSensor.Sensor.Init | radar_sensor.py:150-164 | `init` agrees with `Link.Initialize`, including the stored `model` |
| RadarSensor.Sensor.Identify | radar_sensor.py:152-164 | the model query and configuration of `init` agree with `Link.Identified` |
| DeviceId.StripColons | boot.py:38 | `replace(':', '')` leaves no colon and never lengthens the id |
| DeviceId.StripColonsAppend | boot.py:38 | removing colons distributes over concatenation |
| DeviceId.StripColonsIdempotent | boot.py:38 | removing colons twice is removing them once |
| DeviceId.ColonDropped | boot.py:38 | one colon anywhere in the id is removed |
| DeviceId.ColonsIgnored | boot.py:38-48 | where colons stand does not change the identifier |
| DeviceId.DigitValue | boot.py:39 | exactly `0-9`, `a-f` and `A-F` are digits, each worth less than 16 |
| DeviceId.ParseHex | boot.py:39 | `int(_, 16)` succeeds exactly on a non-empty string of hexadecimal digits |
| DeviceId.ParseHexAppend | boot.py:39 | proof step (unfolds one call of the function): a further digit multiplies the value by 16 and adds the digit |
| DeviceId.UuidDefined | boot.py:38-39 | an identifier exists exactly when the id without colons is a non-empty hexadecimal string |
| DeviceId.Digit | boot.py:42 | `hex()` prints lower-case digits |
| DeviceId.HexDigits | boot.py:42 | the printed digits are never empty and are all lower-case hexadecimal |
| DeviceId.Hex | boot.py:42 | `hex()` prints "0x" and at least one digit |
| DeviceId.UpperChar | boot.py:42 | `upper()` shifts exactly the lower-case letters |
| DeviceId.Upper | boot.py:42 | `upper()` keeps the length and maps each character |
| DeviceId.HexRoundTrip | boot.py:39-42 | reading back the printed digits of a number gives the number |
| DeviceId.UpperHexRoundTrip | boot.py:39-42 | the same for the upper-cased digits, so the body really carries the product |
| DeviceId.DigitRoundTrip | boot.py:39-42 | each printed digit, in either case, reads back as its value |
| DeviceId.UpperDigits | boot.py:42 | the upper-cased digits are all in `0-9A-F` |
| DeviceId.NoLeadingZero | boot.py:42 | the digits of a positive product start with a non-zero digit |
| DeviceId.Uuid | boot.py:38-48 | definition of the whole derivation; properties in DeviceId.UuidDefined, DeviceId.UuidLayout, DeviceId.ColonsIgnored and DeviceId.OnlyBodyCounts |
| DeviceId.Body | boot.py:41-46 | definition of the 32-digit body; properties in DeviceId.BodyFromPadded and DeviceId.BodyDigits |
| DeviceId.Dashed | boot.py:48 | definition of the 8-4-4-4-12 grouping; properties in DeviceId.DashedPositions and DeviceId.DashedPrefix |
| DeviceId.PadRight | boot.py:44 | `ljust(32, '0')` keeps the string as a prefix, fills to 32 with '0', and never shortens |
| DeviceId.Stamp | boot.py:45-46 | `u[:i] + c + u[i+1:]` replaces exactly position `i` |
| DeviceId.BodyFromPadded | boot.py:41-46 | the body is the padded upper-case digits of the product with positions 12 and 16 overwritten |
| DeviceId.BodyDigits | boot.py:41-46 | the body has at least 32 characters, '4' at 12, '8' at 16, the padded digits elsewhere, all in `0-9A-F` |
| DeviceId.DashedPositions | boot.py:48 | the dashed form has 36 characters, dashes at 8, 13, 18 and 23, and body character `BodyIndex(p)` at every other position |
| DeviceId.UuidLayout | boot.py:44-48 | the identifier has length 36, a '-' exactly at 8, 13, 18 and 23, '4' at 14, '8' at 19 and `0-9A-F` elsewhere |
| DeviceId.DashedPrefix | boot.py:48 | the dashed form depends only on the first 32 body characters |
| DeviceId.OnlyBodyCounts | boot.py:42-48 | ids whose padded digit strings agree in the first 32 characters get the same identifier; longer products are cut off |

## Left out

- UART construction, `uart.init`, `select.poll` and `uart.flush` (radar_sensor.py:31-33, 67, 147-148) are hardware I/O. The input is a finite byte sequence, and running out of bytes is the timeout.
- Python's recursion limit is not modelled. Every path of the recursive `send_command` either reads input or counts a failed read within the bound, and the model's termination measure rests on that. Where the input is long, a real device could hit the recursion limit first.
- Exception messages are structured values, not the Python text:
  - `Frames.ReadError` and `Link.Error`;
  - `InvalidCommand(subsystem, command, data)` for the "Invalid … Command: …" strings built with `str(bytes)`.
- The dictionary literal of the respiratory handler repeats key `b'\x01'` (radar_response.py:88-89). The first entry, `resporatory_speed`, is therefore unreachable, and only the second is modelled.
- `update`'s dictionary is a `map` rebuilt by each query rather than a dict mutated in place, and `Link.Keys` is a set. The insertion order of the Python dict (existence_status, heart_rate, respiratory_rate) is not kept in the result; only the order of the queries sent is, through `Link.Queries` and `Link.PollRequests`.
- `EchoAttempt`, `AwaitStep`, `Resend`, `Fallback`, `CountFailure`, `ResetAndResendNow`, `Ask`, `Switch` and `Identify` split single Python functions into steps. Each step's contract is stated against the same `Link` functions, and no behaviour is added.
- `DeviceId.ParseHex` does not model sign, surrounding whitespace, a "0x" prefix or underscores, all of which `int(_, 16)` also accepts. An id containing them gives `None`. The code assumes a colon-separated hexadecimal id.
- Frames.CorruptedByteDetected covers positions 2-3 (control, command) and the payload only. The start marker (positions 0-1) is not checksum-protected in effect: a damaged marker makes `_read` resynchronise on later bytes. The length field (positions 4-5) is used to locate the checksum and the end marker before either is checked, so a damaged length can give "not closed" or even accept a different frame (`Frames.CorruptedLengthAcceptsOtherFrame`). For those positions the model proves only that the sent frame is not returned (`Frames.CorruptedLengthNotAccepted`).
- Everything in boot.py outside lines 38-48 is out of scope: WLAN, RTC, `machine.unique_id()` and the sensor start-up. The other modules of the firmware (`main.py`, `connection.py`, `encryption.py`, `update.py`, `board_led.py`) are not part of this model.
