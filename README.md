# SHT20 driver: frame validation and unit values

This project models the value pipeline of a Node.js driver for the Sensirion
SHT20 humidity and temperature sensor, from `src/utilities.ts`:

- **Checksum validator** (`validateCRC`). It runs a CRC-8 (polynomial 0x31,
  initial value 0, MSB first, no reflection, no final XOR, as in the SHT2x
  datasheet) over the two data bytes of a sensor reply and compares the
  result with the third byte. The driver shifts an unmasked register in a
  nested loop and masks it with `0xff` only for the final comparison.
  `Checksum.ValidateCrc` keeps that loop, with the register as a `bv32`,
  because JavaScript's `^`, `&` and `<<` act on 32-bit two's-complement bit
  patterns. It is proved equal to `Checksum.CrcMatches`, which is the
  textbook CRC with a true 8-bit register (`Checksum.Crc8`). So masking only
  at the end gives the same verdict as masking after every step.
- **Raw value extractor** (`extractRawValue`). It rejects a reply that is
  not exactly 3 bytes, then a reply whose checksum fails. Otherwise it
  returns `((b0 << 8) | b1) & 0xfffc`, the big-endian word with the two
  status bits cleared. The two exceptions it throws are the two
  `RawValue.ProtocolError` variants of a `Result`. `RawValue.ExtractRawValue`
  is a function and cannot call the `ValidateCrc` method, so it uses
  `CrcMatches`, the predicate that `ValidateCrc` is proved to compute.
- **Unit values** (`Temperature`, `Humidity`). These are immutable readings
  tagged with their unit. Each unit is a datatype variant, and every
  conversion is an exhaustive `match`. `Temperature(v)` defaults to Celsius
  and `Humidity(v)` defaults to percent, as the TypeScript constructors do.
  A conversion to the unit already held returns the receiver.

Bytes are `bv8` and buffers are `seq<bv8>`. Temperatures are `real`. Because
the driver computes in IEEE-754 doubles, the claims about them are unit tags,
identities, conversions that perform the same operations, and one bound with
ample room for rounding (0 K through Celsius lands below -459 °F).

The Kelvin to Fahrenheit branch of `toFahrenheit` (src/utilities.ts:47)
reads `((this.value - 273, 15) * 9) / 5 + 32`. In JavaScript,
`(this.value - 273, 15)` is a comma expression whose value is `15`. So every
Kelvin reading becomes 59 °F: the comma discards the whole left operand
`this.value - 273`, not just the `.15`. The model follows the code:
`ToFahrenheit` returns 59 for every Kelvin input. The corrected conversion
is modelled beside it (see Findings).

## Model

| member | source | states |
|---|---|---|
| `Checksum.ValidateCrc` | src/utilities.ts:156-170 | Accepts a buffer exactly when it has a byte 2 and that byte equals the 8-bit-register CRC-8 of bytes 0 and 1. The unmasked register masked only at the end agrees with masking at every step. |
| `Checksum.XorByteLowByte` | src/utilities.ts:161 | `crc ^= byte` changes the register's low byte by exactly that byte. |
| `Checksum.UnmaskedShiftLowByte` | src/utilities.ts:163-165 | One unmasked step `crc & 0x80 ? (crc << 1) ^ 0x31 : crc << 1` leaves in the low byte one more shift of the 8-bit register. Bit 7 and the XORed bits depend only on the low byte. |
| `Checksum.ShiftsSplit` | src/utilities.ts:163-165 | `n + 1` register shifts are `n` shifts followed by one. |
| `Checksum.Crc8Prefix` | src/utilities.ts:160-166 | Eight shifts after XORing in byte `k` give the CRC of the first `k + 1` bytes. |
| `Checksum.UniqueCheckByte` | src/utilities.ts:160-169 | For every pair of data bytes, exactly one check byte is accepted: their CRC. |
| `Checksum.CrcMatchesBytes` | src/utilities.ts:160-169 | The verdict reads only bytes 0 and 1 (the CRC input) and byte 2 (the comparison). |
| `Checksum.TrailingBytesIgnored` | src/utilities.ts:160-169 | Bytes after index 2 never change the verdict. |
| `Checksum.DatasheetSample` | src/utilities.ts:156-170 | The CRC of 0x4E 0x85 is 0x6B, and the buffer 0x4E 0x85 0x6B is accepted. |
| `Checksum.Shift8Injective` | src/utilities.ts:164 | Distinct registers stay distinct after a shift, because the polynomial's constant term is 1. |
| `Checksum.Shifts8Injective` | src/utilities.ts:163-165 | Any number of shifts is injective. |
| `Checksum.FeedByteInjective` | src/utilities.ts:160-166 | If two feeds share the register or the byte, they give the same result only when they are the same feed. |
| `Checksum.Crc8PairSingleByteChange` | src/utilities.ts:160-166 | Changing exactly one of the two data bytes changes their CRC. |
| `Checksum.SingleByteCorruptionDetected` | src/utilities.ts:160-169 | Corrupting exactly one data byte of an accepted buffer makes it rejected. |
| `Checksum.SingleBitFlipDetected` | src/utilities.ts:160-169 | Flipping any single bit of byte 0 or byte 1 of an accepted buffer makes it rejected. |
| `RawValue.RawWord` | src/utilities.ts:148 | `((b0 << 8) \| b1) & 0xfffc` is a multiple of 4, at most 65532, and equals `b0 * 256 + b1` with its two lowest bits cleared. |
| `RawValue.MaskedWordValue` | src/utilities.ts:148 | Read as a number, the masked word is byte 0 times 256 plus byte 1 without its status bits. |
| `RawValue.MaskedWordBytes` | src/utilities.ts:148 | The masked word's high byte is byte 0 and its low byte is byte 1 with bits 0 and 1 cleared. |
| `RawValue.ExtractRawValue` | src/utilities.ts:136-149 | A length other than 3 fails with `InvalidLength`, whatever the bytes. A 3-byte reply with a bad checksum fails with `ChecksumMismatch`. A value is returned exactly when both checks pass, and it is the masked word. |
| `RawValue.Reply` | src/utilities.ts:151-155 | The reply the sensor sends for a word has 3 bytes, carries the word big-endian and passes the checksum. |
| `RawValue.ExtractReply` | src/utilities.ts:136-149 | Round trip: the reply for any word is accepted and yields `word & 0xfffc`. |
| `RawValue.BadCheckByteRejected` | src/utilities.ts:143-145 | A reply whose check byte is not the CRC of its data bytes yields no value. |
| `RawValue.SingleBitFlipRejected` | src/utilities.ts:143-148 | Flipping one data bit of an accepted reply gives a checksum error, never a different raw value. |
| `RawValue.DatasheetSampleValue` | src/utilities.ts:136-149 | The datasheet reply 0x4E 0x85 0x6B yields 0x4E84. |
| `Units.Temperature.ToCelsius` | src/utilities.ts:28-39 | The result is in Celsius. A Celsius reading is returned unchanged. |
| `Units.Temperature.ToFahrenheit` | src/utilities.ts:41-52 | The result is in Fahrenheit. A Fahrenheit reading is returned unchanged. A Kelvin reading always becomes 59. |
| `Units.Temperature.ToKelvin` | src/utilities.ts:54-65 | The result is in Kelvin. A Kelvin reading is returned unchanged. |
| `Units.Temperature.ToFahrenheitIntended` | src/utilities.ts:46-48 | The corrected conversion: in Fahrenheit, identity on Fahrenheit, and equal to the code as written except for Kelvin readings. |
| `Units.DefaultTemperatureUnit` | src/utilities.ts:19-22 | `new Temperature(v)` keeps `v` and is in Celsius. |
| `Units.DefaultHumidityUnit` | src/utilities.ts:82-85 | `new Humidity(v)` keeps `v` and is in percent. |
| `Units.SymbolsDistinct` | src/utilities.ts:6-10 | The three unit strings are pairwise distinct. |
| `Units.ConversionsIdempotent` | src/utilities.ts:28-65 | Converting twice to the same unit is converting once. |
| `Units.KelvinFromFahrenheitViaCelsius` | src/utilities.ts:59-61 | Fahrenheit to Kelvin performs exactly toCelsius followed by toKelvin. |
| `Units.KelvinToFahrenheitIgnoresReading` | src/utilities.ts:47 | As written, any two Kelvin readings convert to the same Fahrenheit value: the reading is ignored. |
| `Units.KelvinToFahrenheitDefect` | src/utilities.ts:47 | As written, 0 K converts to 59 °F, while the route through Celsius gives a value below -459 °F. |
| `Units.FahrenheitIntendedViaCelsius` | src/utilities.ts:46-48 | The corrected Kelvin to Fahrenheit conversion performs exactly toCelsius followed by toFahrenheit. |

## Left out

- `round` and `Temperature.rounded` / `Humidity.rounded` (src/utilities.ts:24-26, 87-89, 122-129): they depend on IEEE-754 behaviour (`Number.EPSILON` bias, `Math.round`, `Math.pow`, `isFinite`) that `real` cannot reproduce.
- `scanBus` and `sleep` (src/utilities.ts:99-114): thin wrappers over the `i2c-bus` library and `setTimeout`.
- src/index.ts as a whole. The `SHT20` class is promise and callback plumbing around an external I2C handle, with timed sleeps and floating-point calibration formulas.
- The command bytes and the default address: `./constants` is not part of this model.
- Temperature conversions compute over `real`, not IEEE-754 doubles. The only numeric property of the non-degenerate formulas claimed is that 0 K through Celsius is below -459 °F, which rounding cannot break (doubles give -459.66999999999996).
- A conversion that returns `this` is modelled as returning an equal value, because a datatype has no object identity.
- Checksum.ValidateCrc: the 2^24 bound on the unmasked register is not stated. The `bv32` model computes exactly what JavaScript's 32-bit operators compute, so the bound is not needed for faithfulness.
- Checksum.ValidateCrc: a Node `Buffer` is modelled as `seq<bv8>`. Out-of-range numbers cannot be stored in one, so none are modelled.

## Findings

| source | as written | input that shows it | evidently intended | confidence | as-written member | corrected member |
|---|---|---|---|---|---|---|
| src/utilities.ts:47 | `((this.value - 273, 15) * 9) / 5 + 32`; the comma expression is worth 15, so every Kelvin reading converts to 59 °F | `new Temperature(0, KELVIN).toFahrenheit()` gives 59 °F; the route through Celsius gives a value below -459 °F | `((this.value - 273.15) * 9) / 5 + 32`, the same operations as toCelsius followed by toFahrenheit | high; not executed | `Units.KelvinToFahrenheitDefect` | `Units.Temperature.ToFahrenheitIntended` |
