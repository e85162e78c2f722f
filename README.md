# Ovobot extension modules: byte encoders and decoders

This project models the byte-level core of the `xtronModules` namespace of a
micro:bit extension library (`extsensor.ts`). The library drives six kinds of
I2C peripheral:
- an ultrasonic and sound sensor;
- a servo controller;
- an RGB touch-key strip with eight pixels;
- a 7-segment display with an on-board temperature and humidity sensor;
- a potentiometer;
- a soil-moisture sensor.

The platform's I2C transport is not part of the model.
- An operation that writes returns the writes it would issue, in order, as a `seq<Write>` (`Bus.Write`).
- A decoder takes the bytes it would have read as parameters.

Modules:
- `Bus` (bus.dfy):
  - bytes, and the `ModuleIndex` enum (0..3);
  - the six base addresses and the rule address = base + module index;
  - the `Write` datatype.
- `SegmentDisplay` (segment.dfy):
  - `validate`;
  - the decimal branch of `displaySegNumber`: a loop that fills the 6-byte buffer right to left, modelled as a method over an array;
  - the hexadecimal branch: clamp above 65535, split into four nibbles.
- `Neopixel` (neopixel.dfy):
  - `controlAllNeopixels`, a stride-3 loop over a 26-byte array;
  - `controlNeopixels`;
  - `controlNeopixelsWithBuffer`.
- `Sensors` (sensors.dfy):
  - `readDistance`, `readPmData` and `readTempOrHumidity`, built on an exact integer model of `Math.round(p / q)`;
  - the register choice of `isTouchDown`;
  - the servo value of `controlServoOutput`.

Semantics fixed by the model:
- Storing a number into a buffer element keeps its low eight bits (`Bus.ToByte`).
- `(x >> k) & m` on the 32-bit value is written `(x / 2^k) % (m + 1)`. This holds for every integer because Dafny's `/` is floor division and its `%` is never negative.
- `Math.round(p / q)` with q > 0 is `(2p + q) / (2q)`. For the constants used here (58, 255, 65535) the floating-point quotient never crosses a half, so this is exact.
- The decimal encoder is modelled on any character sequence, not only on what `num.toString()` yields. Each character counts as one code unit.
  - A point in first position reads `charCodeAt(-1)`, which is NaN, and `NaN | 0x80` is 0x80. The model keeps this case: the text `".1234"` is accepted and overwrites header byte 1 (`LeadingPointOverwritesHeader`).
  - Number formatting never produces a leading point, so the header lemma assumes the text does not start with one.

Behaviour of the code a reader may not expect:
- `validate` rejects any text over five characters before it looks for a point. So `"1.2345"` is rejected; a point only admits a fifth character.
- A 5-character text without a point, such as `"12345"`, is rejected (extsensor.ts:90-92).
- The point flag 0x80 goes on the character *before* the point (extsensor.ts:198), that is, the digit to its left.
- The hexadecimal branch clamps only above (extsensor.ts:211-213). A negative value shows the low sixteen bits of its two's complement (`HexShown`).
- An accepted text never makes one cell overwrite another. A fifth cell, which only a leading point can produce, lands on header byte 1.

## Model

| member | source | states |
|---|---|---|
| Bus.ToByte | extsensor.ts:203 | a value stored into a buffer byte is congruent to it modulo 256, and a value that already fits is kept |
| Bus.Address | extsensor.ts:69-75 | the device address is the base constant plus the module index, within base..base+3 and below 0x80 |
| Bus.AddressesDistinct | extsensor.ts:69-75 | the six blocks of four addresses do not overlap: equal addresses mean the same device and the same module |
| SegmentDisplay.Validate | extsensor.ts:78-94 | validate accepts exactly the texts of at most four characters and the 5-character texts containing a point |
| SegmentDisplay.SetPoint | extsensor.ts:198 | OR-ing 0x80 into a byte sets bit 7 and leaves the low seven bits alone |
| SegmentDisplay.DecimalCells | extsensor.ts:196-206 | the right-to-left walk writes at most one cell per character |
| SegmentDisplay.DecimalFrame | extsensor.ts:184-190 | the decimal frame is always six bytes |
| SegmentDisplay.DisplayDecimal | extsensor.ts:184-208 | the array loop fills exactly the specified frame, and a write is issued to the display's address only when validate accepts the text |
| SegmentDisplay.PointSavesCell | extsensor.ts:196-206 | a text holding a point, not in first position, needs fewer cells than characters |
| SegmentDisplay.DecimalFrameLayout | extsensor.ts:184-208 | for an accepted text not starting with a point: at most four cells, header 0, 1 untouched, cells right-aligned in bytes 2..5, the rest zero |
| SegmentDisplay.LeadingPointOverwritesHeader | extsensor.ts:196-199 | ".1234" is accepted and its fifth cell, 0x80, replaces header byte 1 |
| SegmentDisplay.DecimalExampleSigned | extsensor.ts:196-206 | "-12.5" is accepted and gives the frame [0,1,0x40,1,0x82,5] |
| SegmentDisplay.DecimalExampleFraction | extsensor.ts:196-206 | "12.34" is accepted and gives the frame [0,1,1,0x82,3,4] |
| SegmentDisplay.AcceptsExamples | extsensor.ts:78-94 | "1234" and "1.234" are accepted; "12345", "123456" and "1.2345" are rejected |
| SegmentDisplay.GlyphOfDigit | extsensor.ts:198-203 | a digit is stored as its value, and with the point flag as its value plus 0x80; either reads back as the digit (and its point) |
| SegmentDisplay.RenderDecimalCells | extsensor.ts:196-206 | round trip: reading back the cells of any numeral (digits, minus signs, points after digits) gives the text itself |
| SegmentDisplay.HexShown | extsensor.ts:210-217 | the shown value lies in 0..65535: n itself inside that range, 65535 above it, and for every n up to 65535 (negative ones included) the value congruent to n modulo 65536, that is, its low sixteen bits |
| SegmentDisplay.NibbleSplit | extsensor.ts:214-217 | the four shifted-and-masked nibbles recombine to the low sixteen bits of the value |
| SegmentDisplay.DisplayHex | extsensor.ts:210-218 | one write to the display: header 0, 1, four cells each below 16 that together spell the clamped value |
| SegmentDisplay.HexClampsHigh | extsensor.ts:211-217 | above 65535 all four cells are 0xF |
| SegmentDisplay.HexRoundTrip | extsensor.ts:214-217 | for 0 <= n <= 65535 the cells spell n back, the first cell being n / 4096 |
| Neopixel.ColorBytes | extsensor.ts:145-147 | three colour bytes, each at most 31 after the division by the brightness divisor 8 |
| Neopixel.ColorBytesOfChannels | extsensor.ts:145-147 | for a colour packed as 0xRRGGBB the bytes are green/8, red/8, blue/8, in that order |
| Neopixel.RepeatAt | extsensor.ts:144-148 | byte p of the repeated triple is byte p mod 3 of the triple |
| Neopixel.RepeatLength | extsensor.ts:144-148 | eight repetitions of a triple are 24 bytes |
| Neopixel.AllPixelsLayout | extsensor.ts:141-148 | the bulk frame has 26 bytes, header 0, 1, byte 2+3k+t equal to colour byte t for all eight pixels, all at most 31 |
| Neopixel.ControlAllNeopixels | extsensor.ts:140-150 | the stride-3 array loop builds exactly the bulk frame and sends it to the module's address |
| Neopixel.PixelFrame | extsensor.ts:160-164 | the single-pixel frame has four bytes, its register byte 3*index+1 lies in 1..22 |
| Neopixel.ControlNeopixels | extsensor.ts:158-167 | the trigger write sets register 0 to 1; the buffer write, four bytes to the same module address, puts colour byte t into register 3*index+1+t for t in 0..2 and reaches no other register |
| Neopixel.SinglePixelMatchesBulk | extsensor.ts:141-166 | controlNeopixels and a bulk frame of the same colour put identical bytes into that pixel's three registers; controlNeopixels sets register 0 to 1 by its trigger, the bulk frame by its header |
| Neopixel.ControlNeopixelsWithBuffer | extsensor.ts:170-176 | one write of 2 + n bytes, header 0, 1, then the caller's bytes in registers 1..n, always to the first module's address |
| Neopixel.RawBufferOfBulk | extsensor.ts:140-176 | a raw buffer of eight copies of a colour sends exactly the bulk frame of module 0 |
| Sensors.RoundDiv | extsensor.ts:107 | Math.round of a quotient: r - 1/2 <= p/q < r + 1/2 |
| Sensors.RoundDivUnique | extsensor.ts:107 | that rounding relation determines the rounded value |
| Sensors.RoundDivMonotone | extsensor.ts:269 | rounding a quotient keeps the order of the dividends |
| Sensors.Int16LE | extsensor.ts:105 | the signed little-endian value lies in -32768..32767 and its low two bytes are the bytes read |
| Sensors.ReadDistance | extsensor.ts:101-110 | the distance is the raw value divided by 58, rounded to nearest, within -565..565 |
| Sensors.DistanceIsFloor | extsensor.ts:107 | the distance equals floor((raw + 29) / 58) |
| Sensors.ReadPmData | extsensor.ts:266-275 | the potentiometer reading always lies in 0..100 |
| Sensors.PmEnds | extsensor.ts:269-274 | raw 0 reads 100 and raw 255 reads 0 |
| Sensors.PmMonotone | extsensor.ts:269-274 | the reading never increases as the raw byte increases |
| Sensors.Word | extsensor.ts:251-252 | hi shifted left by eight and OR-ed with lo is a 16-bit word that splits back into hi and lo |
| Sensors.TemperatureTenths | extsensor.ts:251-254 | the temperature in tenths is -450 + 1750*raw/65535 rounded to nearest, within -450..1300 |
| Sensors.HumidityPercent | extsensor.ts:252-256 | the humidity is 100*raw/65535 rounded to nearest, within 0..100 |
| Sensors.ReadTempOrHumidity | extsensor.ts:243-259 | measure 0 gives the temperature of registers 5, 6; measure 1 the humidity of registers 7, 8; any other measure 9999 |
| Sensors.TempHumidityExamples | extsensor.ts:251-256 | raw 0 and 65535 give -45.0 and 130.0 degrees; humidity raw 0, 32767 and 65535 give 0, 50 and 100 |
| Sensors.TempHumidityMonotone | extsensor.ts:251-256 | a larger raw value never gives a lower temperature or humidity |
| Sensors.TouchRegister | extsensor.ts:230-234 | touch point 0 reads register 0x1A; any other index reads 0x19 |
| Sensors.IsTouchDown | extsensor.ts:227-236 | touched exactly when the chosen register reads 1 |
| Sensors.TouchReadsOneRegister | extsensor.ts:230-235 | the answer depends only on the chosen register |
| Sensors.ServoOutput | extsensor.ts:131 | for angles in -90..90 the servo value lies in 6..31, and angle 0 gives 18.5 |
| Sensors.Trunc | extsensor.ts:132 | storing a number into a register byte drops its fraction toward zero |
| Sensors.ControlServoOutput | extsensor.ts:130-133 | one register write, to the port's register at the servo module's address; for angles in -90..90 the byte is the truncated pulse value 18.5 + 25*angle/180, within 6..31 |
| Sensors.ServoMonotone | extsensor.ts:130-133 | over -90..90 degrees a larger angle never writes a smaller pulse byte |

## Left out

- The I2C transport (`pins.i2cWriteRegister`, `pins.i2cReadRegister`, `pins.i2cWriteBuffer`, `pins.createBuffer`) is the platform's. Writes are returned as values and reads are parameters.
- The trigger write (register 0x00 set to 0x01) before every read, and the reads themselves, are not returned by the decoders. The decoders take the bytes read as parameters. The register numbers appear only in comments, except for `isTouchDown`'s register choice.
- `readLoudnessData` and `readSoilHSensorData` return the byte read unchanged. Only their addresses (`Bus.Address`) are modelled.
- `num.toString()` (float-to-string formatting) is not modelled. The decimal encoder takes the text directly, as any character sequence.
- The `scale` dispatch of `displaySegNumber` (extsensor.ts:191, 209): `Scale.Decimal` takes the decimal branch and any other scale the hexadecimal one. The two branches are modelled separately (`DisplayDecimal` takes the text, `DisplayHex` the rounded integer), because `num.toString()` is not modelled.
- Colours are taken as integers. For a fractional colour number, `>>` and `&` first truncate it toward zero to a 32-bit integer; `Neopixel.ColorBytes` does not model that conversion.
- `Math.round(num)` of a fractional number in the hexadecimal branch is not modelled. `DisplayHex` takes the already rounded integer.
- Floating-point arithmetic in general: reals stand for the servo computation, and integers stand for the other quotients. The rounding in those quotients is exact (see above).
- Sensors.ReadTempOrHumidity: returns the temperature in tenths of a degree. The final `* 0.1`, a floating-point product, is left out.
- Sensors.ControlServoOutput: the conversion of the fractional servo value to a register byte belongs to the platform. It is modelled as truncation toward zero followed by the low eight bits.
- Characters outside the Basic Multilingual Plane: JavaScript counts them as two code units, and the model counts them as one character.
- The `//% block` annotations and the enum declarations. The enums appear only as ranges: `ModuleIndex` 0..3, `LedIndex` 0..7, `SubIndex` 1..4.
