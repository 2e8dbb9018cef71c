# Radon Eye RD200 (P2) query protocol, modelled in Dafny

`radon_eye_measurement.py` queries a Radon Eye RD200 (P2) monitor over Bluetooth
Low Energy. It runs one fixed exchange. It writes the command byte 0x50 to the
control characteristic, reads the readout characteristic, and parses the reply
with an 18-byte little-endian measurement layout. It then writes 0x51, reads
again, and parses the reply with a 14-byte info layout. The info record holds a
packed 16-bit temperature/humidity field. Two small decoders turn that field
into a temperature in half-degree steps and a humidity percentage. When the
results are shown, the record's command byte (80 or 81) decides which fields
are displayed.

The model has these modules:

- `Wire` (`wire.dfy`): bytes, the u8/u16/u32 widths, and little-endian values and
  encodings. These are the `Int8ul`, `Int16ul` and `Int32ul` field types.
- `Codec` (`codec.dfy`): the protocol constants, the two records, and the two
  parsers written with explicit byte offsets. It also gives the matching
  builders and the layout and round-trip lemmas.
- `Environment` (`environment.dfy`): the temperature and humidity decoders.
  Temperature is a whole number of degrees plus an optional half degree, kept
  as integers (see `Celsius.Halves`). `Pack` is the inverse of the two decoders.
- `Dispatch` (`dispatch.dfy`): how a parsed record is routed for display by its
  command byte.
- `Transport` (`transport.dfy`): the connected link as a class. It logs the
  operations issued, and its behaviour is a script given in advance: whether
  each write is accepted, and what each read returns.
- `Session` (`session.dfy`): the query cycle. `QueryCycle` is a function of the
  link's script. `RunQueryCycle` is the step-by-step method, proved equal to
  `QueryCycle`. Lemmas give the order of operations and the all-or-nothing
  outcome.

Points of the code's behaviour worth knowing:

- Neither parser checks the command byte (lines 150 and 158): any buffer
  that is long enough parses with either layout. `QueryCycleAcceptsMismatchedTag` shows that an
  info reply starting with 0x50 is accepted.
- A mismatch shows up only when the record is displayed. `print_result`
  (lines 43-77) routes on the command byte. If the byte names the other
  layout, the code reads a field that record does not have, and the `except`
  at line 165 catches the error. `Present` returns `MissingAttribute` in that
  case, and `ShowNothing` for a byte that is neither 80 nor 81.
- The humidity decoder's `<= 0` branch is kept as written. `HumidityIsLowSevenBits`
  proves that the result is always `value % 128`.

## Model

| member | source | states |
|---|---|---|
| `Wire.LeValue` | radon_eye_measurement.py:88-107 | the value of an n-byte little-endian field is below 256^n |
| `Wire.LeBytes` | radon_eye_measurement.py:88-107 | building a value into n little-endian bytes gives n bytes whose little-endian value is that value |
| `Wire.LeBytesOfValue` | radon_eye_measurement.py:88-107 | rebuilding the value of any byte string at its own width gives the same bytes |
| `Wire.U8At` | radon_eye_measurement.py:88-89 | an Int8ul field is the byte at its offset |
| `Wire.U16At` | radon_eye_measurement.py:90-97 | an Int16ul field is low byte + 256 * high byte, and below 2^16 |
| `Wire.U32At` | radon_eye_measurement.py:105-106 | an Int32ul field is the four bytes weighted 1, 2^8, 2^16, 2^24, and below 2^32 |
| `Codec.ParseMeasurement` | radon_eye_measurement.py:87-98 | parsing at line 150 succeeds exactly when the buffer has at least 18 bytes; otherwise it fails with Truncated(18, length) |
| `Codec.ParseInfo` | radon_eye_measurement.py:100-108 | parsing at line 158 succeeds exactly when the buffer has at least 14 bytes; otherwise it fails with Truncated(14, length) |
| `Codec.EncodeMeasurement` | radon_eye_measurement.py:87-98 | a measurement record builds to exactly 18 bytes |
| `Codec.EncodeInfo` | radon_eye_measurement.py:100-108 | an info record builds to exactly 14 bytes |
| `Codec.MeasurementLayout` | radon_eye_measurement.py:87-98 | command = b[0], total_msg_size = b[1], and the k-th u16 field (measurement, day, 2-day, week and month averages, peak, pulse count, 10-minute pulse count) = b[2+2k] + 256*b[3+2k] |
| `Codec.InfoLayout` | radon_eye_measurement.py:100-108 | command, total_msg_size, device_status and vib_status are b[0..4]; proc_time and dc_value are the little-endian values of b[4..8] and b[8..12]; temp_and_hum is that of b[12..14] |
| `Codec.MeasurementIgnoresTrailing` | radon_eye_measurement.py:150 | bytes after index 17 never change the parsed measurement |
| `Codec.InfoIgnoresTrailing` | radon_eye_measurement.py:158 | bytes after index 13 never change the parsed info record |
| `Codec.MeasurementRoundTrip` | radon_eye_measurement.py:87-98 | parsing a built measurement, followed by any bytes, gives the same record |
| `Codec.MeasurementBytesRoundTrip` | radon_eye_measurement.py:87-98 | building a parsed measurement gives back the buffer's first 18 bytes |
| `Codec.InfoRoundTrip` | radon_eye_measurement.py:100-108 | parsing a built info record, followed by any bytes, gives the same record |
| `Codec.InfoBytesRoundTrip` | radon_eye_measurement.py:100-108 | building a parsed info record gives back the buffer's first 14 bytes |
| `Codec.ExampleMeasurement` | radon_eye_measurement.py:87-98 | the 18-byte reply 50 00 64 00 5A 00 50 00 46 00 3C 00 C8 00 0A 00 05 00 parses to command 0x50, size 0, then 100, 90, 80, 70, 60, 200, 10, 5 |
| `Environment.Temperature` | radon_eye_measurement.py:29-34 | the temperature in half degrees is the field shifted right by 7; `TemperatureHalfSteps`, `TemperatureBounds` and `TemperatureIgnoresLowBits` state the rest of its meaning |
| `Environment.TemperatureHalfSteps` | radon_eye_measurement.py:29-34 | in half degrees the temperature is 2*(v>>8) + ((v>>7)&1), which equals v>>7 |
| `Environment.TemperatureBounds` | radon_eye_measurement.py:29-34 | for a u16 field the whole degrees lie in 0..255 and the temperature in [0, 255.5] |
| `Environment.TemperatureIgnoresLowBits` | radon_eye_measurement.py:29-34 | two fields give the same temperature if and only if they agree in bits 7 and up, so bits 0-6 never matter |
| `Environment.Humidity` | radon_eye_measurement.py:36-40 | the humidity is always in 0..127 |
| `Environment.HumidityIsLowSevenBits` | radon_eye_measurement.py:36-40 | for every integer field the humidity equals the field mod 128 |
| `Environment.HumidityLowByte` | radon_eye_measurement.py:36-40 | the humidity depends only on the low byte |
| `Environment.HumidityZeroByteBranch` | radon_eye_measurement.py:37-40 | the +256 branch is taken exactly when the low byte is 0, and then gives 256 mod 128 = 0 |
| `Environment.UnpackPack` | radon_eye_measurement.py:29-40 | packing t half-degrees (below 512) and humidity h (below 128) as 128*t + h, then decoding, gives t and h back |
| `Environment.PackUnpack` | radon_eye_measurement.py:29-40 | every u16 field is the packing of its own decoded temperature and humidity |
| `Environment.Example4B32` | radon_eye_measurement.py:29-40 | the field 0x4B32 decodes to 75 degrees (bit 7 clear) and 50 percent |
| `Dispatch.Present` | radon_eye_measurement.py:42-77 | a record shows nothing exactly when its command byte is neither 80 nor 81; it hits a missing attribute exactly when that byte names the other layout; a shown info carries decoded temperature and humidity that pack back to temp_and_hum |
| `Dispatch.Classify` | radon_eye_measurement.py:43-61 | a command byte selects a kind only when it is the request byte of that kind (80 for measurements, 81 for info) |
| `Dispatch.ClassifyInvertsRequestCode` | radon_eye_measurement.py:43-61 | the dispatch selects a kind exactly for the bytes 0x50 and 0x51, and each request byte selects its own kind |
| `Dispatch.PresentParsedMeasurement` | radon_eye_measurement.py:43-60 | a parsed measurement is shown as itself when b[0] is 0x50, hits a missing attribute when it is 0x51, and is skipped otherwise |
| `Dispatch.PresentParsedInfo` | radon_eye_measurement.py:61-77 | a parsed info record is shown with its derived temperature and humidity when b[0] is 0x51, hits a missing attribute when it is 0x50, and is skipped otherwise |
| `Transport.Link.constructor` | radon_eye_measurement.py:138-141 | a fresh link has an empty log and the given script |
| `Transport.Link.Write` | radon_eye_measurement.py:147 | a write is appended to the log and uses up one write outcome; it succeeds exactly when that outcome is true |
| `Transport.Link.Read` | radon_eye_measurement.py:148 | a read is appended to the log and returns the next scripted reply, or fails when none is left |
| `Session.RunQueryCycle` | radon_eye_measurement.py:144-162 | the operations issued, the final phase and the outcome are those of QueryCycle on the link's script; one script entry is used per write and per read |
| `Session.QueryCycle` | radon_eye_measurement.py:144-162 | a cycle ends Complete or Failed and yields readings exactly when it ends Complete; `QueryCycleOrder`, `QueryCycleSecondWrite` and `QueryCycleAllOrNothing` state the rest of its meaning |
| `Session.QueryCycleOrder` | radon_eye_measurement.py:144-158 | a cycle issues a non-empty prefix of write 0x50, read, write 0x51, read: writes and reads alternate, and the writes are 0x50 then 0x51 |
| `Session.QueryCycleSecondWrite` | radon_eye_measurement.py:147-155 | 0x51 is written if and only if the 0x50 write was accepted and its reply arrived and parsed |
| `Session.QueryCycleAllOrNothing` | radon_eye_measurement.py:145-162 | a cycle completes with readings if and only if both writes were accepted and both replies arrived and parsed; it then yields exactly those two parses; otherwise it ends Failed with no readings |
| `Session.QueryCycleAcceptsMismatchedTag` | radon_eye_measurement.py:155-158 | a second reply of 14 or more bytes that starts with 0x50 is still accepted as the info record |

## Left out

- Bluetooth transport: the `BleakClient` connection, the `is_connected`/`connect` step and the `disconnect` in the `finally` (lines 138-141 and 163-164) are external I/O. The link is modelled only as a log of writes and reads plus a scripted device.
- The asyncio event loop (lines 120-121 and 167-168) is async plumbing. The model runs sequentially.
- Device discovery (lines 112-127) and the empty-address check with `exit` (lines 129-131) are I/O and process control.
- Printing in `print_result` is not modelled. Only its routing on the command byte is, in `Dispatch.Present`. The pipe-separated branch at line 77 reads `temperature` and `humidity` attributes, which the info struct does not have. That branch is disabled in the script (`command_line = True`), and it is left out with the rest of the formatting.
- Display after a completed cycle (lines 161-162) is not part of `QueryCycle`. A missing-attribute error raised there is caught by the same `except`. `Dispatch.Present` decides the display of one record at a time. The model does not capture the order of the two display calls: an error in the first (line 161) jumps to the `except` at line 165, so line 162 never shows the info record.
- The clock: `datetime.now()` and the timestamp string (lines 110 and 160).
- The debug hex printing (lines 146, 149, 154 and 157) and the unused `Int2AP` import (line 23).
- The schema interpreter of the `construct` library. The two layouts are written as fixed-offset decoders with the declared widths and little-endian order.
- Floating point: the temperature `i2 + 0.5` is a whole number of degrees plus a half-degree flag (`Celsius`). `Celsius.Halves` gives the value in half-degree units.
- Error details: a failed parse is `Truncated(expected, actual)`, not the library's exception text. Transport failures are a single failed outcome per operation.
