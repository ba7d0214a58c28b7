# MAX31855 thermocouple driver: register acquisition and decoding

A Dafny model of the `MAX31855_DEG_C` Arduino driver for the MAX31855 cold-junction
compensated thermocouple-to-digital converter. The model covers the driver's core:

- `dataAvailable` shifts the four bytes the converter sends into the signed 32-bit
  `long` `_data` with `_data = (_data << 8) + byte`. It reports whether the word is
  non-zero.
- `dataRead(selector)` decodes one field of `_data`:
  - 4: the fault bits.
  - 3: the quarter-degree bits of the hot junction.
  - 2: the cold junction in sixteenth degrees.
  - 1: the hot junction in whole degrees, rounded down.
  - any other selector: the hot junction rounded to the nearest degree.

  Along the way it writes the scratch fields `_extractedDataH` and `_extractedDataC`.

The files:

- `c_long.dfy` (module `CLong`) gives the target's integer semantics:
  - `long` is a 32-bit two's-complement subset type.
  - `<<` wraps modulo 2^32.
  - `>>` is an arithmetic shift, which is floor division by a power of two.
  - `&` and Arduino's `bitRead` act on two's-complement bit patterns.
  - `|` is modelled on non-negative patterns only. The driver never uses it, but it shows what the add at line 182 amounts to.

  It also holds the bit-field lemmas the rest of the model uses.
- `acquisition.dfy` (module `Acquisition`) models how the register word is assembled from the bytes.
- `register.dfy` (module `Register`) has one function per `dataRead` selector, written with the
  driver's own shifts and masks. Next to each function is a lemma saying which bit field of the
  word the result is and what it means. It also has an encoder for converter words and the
  decode-after-encode round trip.
- `max31855.dfy` (module `Thermocouple`) has the driver class `Max31855`. Its fields are `_data`,
  `_extractedDataH` and `_extractedDataC`, and its methods update them as the driver does.

Facts about the source that shape the model:

- `_data` is a signed `long`, so `>> 18` is an arithmetic shift and the hot field is sign-extended (`HotFieldIsSignedField`).
- Adding one when the two fraction bits are at least `0b10` rounds half toward plus infinity, i.e. `floor((h + 2) / 4)`. This holds for negative readings too (`HotRoundedIsNearest`).
- The frame is held in a signed `long`. A word with bit 31 set is negative.

## Model

| member | source | states |
|---|---|---|
| CLong.ToLong | MAX31855_DEG_C.h:32 | the stored value differs from `x` by a multiple of 2^32 and lies in the `long` range; characterised fully by `ToLongMultiple` and `ToLongUnique` |
| CLong.Shl | MAX31855_DEG_C.cpp:76 | no contract of its own beyond the `long` range; characterised by `ShiftInByte` |
| CLong.Shr | MAX31855_DEG_C.cpp:169 | no contract; characterised by `ShrShr`, `HotFieldIsSignedField` and `HotIntegerIsFloor` |
| CLong.And | MAX31855_DEG_C.cpp:164 | the result never exceeds the mask; characterised by `AndLowBits` and `AndShifted` |
| CLong.Or | MAX31855_DEG_C.cpp:182 | no contract; characterised by `AddIsOr` |
| CLong.BitRead | MAX31855_DEG_C.cpp:180 | `bitRead` gives 0 or 1; characterised by `BitReadIsBit` |
| CLong.Bits | MAX31855_DEG_C.cpp:11-25 | no contract; characterised by `BitsOfLayout` |
| CLong.SignExtend | MAX31855_DEG_C.cpp:11-25 | no contract; characterised by `SignExtendOfMod` |
| CLong.ToLongMultiple | MAX31855_DEG_C.h:32 | storing a value in a `long` drops a whole number of 2^32 wraps |
| CLong.ToLongUnique | MAX31855_DEG_C.h:32 | the stored `long` is the only 32-bit value that differs from the true value by a multiple of 2^32 |
| CLong.ShrShr | MAX31855_DEG_C.cpp:169 | shifting right by `a` and then by `b` is shifting by `a + b` |
| CLong.AndLowBits | MAX31855_DEG_C.cpp:164 | masking with `2^k - 1` keeps the low `k` bits, i.e. the Euclidean remainder by 2^k, for negative words too |
| CLong.AndShifted | MAX31855_DEG_C.cpp:178 | a mask `m << k` selects `(x >> k) & m` in place |
| CLong.AddIsOr | MAX31855_DEG_C.cpp:182 | adding a value whose low `k` bits are clear to one below 2^k equals OR-ing them |
| CLong.BitReadIsBit | MAX31855_DEG_C.cpp:180 | `bitRead(x, n)` is bit `n` of the two's-complement pattern of `x` |
| CLong.SignExtendOfMod | MAX31855_DEG_C.cpp:180-183 | reading the low `width` bits of a value that fits back as two's complement gives the value |
| CLong.BitsOfLayout | MAX31855_DEG_C.cpp:160-217 | a word laid out as high part, field and low part yields the field from the bit-field extractor |
| Acquisition.BigEndian | MAX31855_DEG_C.cpp:74-77 | the bytes read most significant first form a number below 2^(8·count) |
| Acquisition.Frame | MAX31855_DEG_C.cpp:66-77 | the assembled word is `b0·2^24 + b1·2^16 + b2·2^8 + b3`, wrapped into a `long` |
| Acquisition.ShiftInByte | MAX31855_DEG_C.cpp:76 | `(_data << 8) + byte` never leaves the `long` range, and it takes the wrapped value of a prefix to the wrapped value of the longer prefix |
| Acquisition.ShiftInPrefix | MAX31855_DEG_C.cpp:74-77 | one loop pass takes the word for the first `i` bytes to the word for the first `i + 1` bytes |
| Acquisition.FrameBytes | MAX31855_DEG_C.cpp:74-77 | the converter sends four bytes per word; characterised by `FrameOfFrameBytes` and `FrameBytesOfFrame` |
| Acquisition.FrameOfFrameBytes | MAX31855_DEG_C.cpp:74-77 | every register word is assembled from the four bytes the converter sends for it |
| Acquisition.FrameBytesOfFrame | MAX31855_DEG_C.cpp:74-77 | assembly is lossless: the four bytes can be recovered from the word |
| Acquisition.FrameNonZero | MAX31855_DEG_C.cpp:82-89 | the word is non-zero exactly when some byte is non-zero |
| Register.HotField | MAX31855_DEG_C.cpp:169 | no contract; characterised by `HotFieldIsSignedField` |
| Register.Fault | MAX31855_DEG_C.cpp:164 | selector 4's result is at most 7; characterised by `FaultIsLowBits` |
| Register.HotFraction | MAX31855_DEG_C.cpp:173 | selector 3's result is at most 3; characterised by `HotFractionIsBits` |
| Register.ColdBits | MAX31855_DEG_C.cpp:178 | no contract; characterised by `ColdBitsIsField` |
| Register.ColdFixed | MAX31855_DEG_C.cpp:178-188 | no contract; characterised by `ColdFixedIsSignedField` and `ColdSignExtendIsOr` |
| Register.HotInteger | MAX31855_DEG_C.cpp:198 | no contract; characterised by `HotIntegerIsFloor` |
| Register.HotRounded | MAX31855_DEG_C.cpp:203-212 | no contract; characterised by `HotRoundedIsNearest` |
| Register.Encode | MAX31855_DEG_C.cpp:11-25 | no contract; characterised by `EncodeFields` and `DecodeEncode` |
| Register.FaultIsLowBits | MAX31855_DEG_C.cpp:162-165 | selector 4 returns bits 2..0, a value in 0..7 |
| Register.HotFieldIsSignedField | MAX31855_DEG_C.cpp:169 | `_data >> 18` is the 14-bit two's-complement value of bits 31..18, in -8192..8191 |
| Register.HotFractionIsBits | MAX31855_DEG_C.cpp:171-174 | selector 3 returns bits 19..18, in 0..3, whatever the sign |
| Register.ColdBitsIsField | MAX31855_DEG_C.cpp:178 | `(_data & 0xFFF0) >> 4` is bits 15..4, in 0..4095, and its top bit is set exactly when bit 15 is |
| Register.ColdMask | MAX31855_DEG_C.cpp:178 | the mask `0xFFF0` keeps bits 15..4 in place |
| Register.ColdFixedIsSignedField | MAX31855_DEG_C.cpp:178-189 | selector 2 returns the 12-bit two's-complement value of bits 15..4, in -2048..2047; its low 12 bits are bits 15..4; it is negative exactly when bit 15 is set |
| Register.ColdSignExtendIsOr | MAX31855_DEG_C.cpp:180-183 | adding `0xFFFFF000` to the cold bits is the same as OR-ing it in, and once stored in a `long` it subtracts 2^12 |
| Register.HotIntegerIsFloor | MAX31855_DEG_C.cpp:195-199 | selector 1 returns `floor(_data / 2^20)`, the 12-bit two's-complement value of bits 31..20, the floor of a quarter of the hot field |
| Register.HotRoundedIsNearest | MAX31855_DEG_C.cpp:203-212 | the default selector returns `floor((h + 2) / 4)` for hot field `h`: the nearest degree, with halves rounded up |
| Register.RoundedIsIntegerPlusCarry | MAX31855_DEG_C.cpp:203-212 | the rounded reading is the truncated reading plus one when the fraction bits are at least 2; this holds by definition, and the rounding itself is stated by `HotRoundedIsNearest` |
| Register.OnlyDataBitsMatter | MAX31855_DEG_C.cpp:160-217 | no result depends on reserved bits 17 and 3 or on the fault flag in bit 16 |
| Register.EncodeFields | MAX31855_DEG_C.cpp:160-217 | a word built from hot, cold and fault readings holds their bit patterns in bits 31..18, 15..4 and 2..0 |
| Register.HotFromBits | MAX31855_DEG_C.cpp:169-174 | a word carrying the 14-bit pattern of `hot` decodes to `hot`, `hot mod 4`, `floor(hot / 4)` and `floor((hot + 2) / 4)` |
| Register.ColdFromBits | MAX31855_DEG_C.cpp:178-188 | a word carrying the 12-bit pattern of `cold` decodes to `cold` under selector 2 |
| Register.DecodeEncode | MAX31855_DEG_C.cpp:160-217 | decoding an encoded word gives back every reading it encodes |
| Register.ReferenceHot25 | MAX31855_DEG_C.cpp:171-174 | word `0x01900000` reads 25 degrees, fraction 0, no fault |
| Register.ReferenceHotRounding | MAX31855_DEG_C.cpp:195-212 | 25.25 degrees rounds to 25 and 25.50 rounds to 26; both truncate to 25 |
| Register.ReferenceCold | MAX31855_DEG_C.cpp:178-188 | cold field `0x030` reads +48 sixteenths and `0xF60` reads -160 sixteenths |
| Thermocouple.Max31855.DataAvailable | MAX31855_DEG_C.cpp:66-90 | the loop leaves `_data` equal to the wrapped big-endian value of the four bytes; the result is true exactly when `_data` is non-zero, i.e. when some byte is |
| Thermocouple.Max31855.ExtractHot | MAX31855_DEG_C.cpp:169 | `_extractedDataH` becomes the sign-extended hot field |
| Thermocouple.Max31855.ExtractCold | MAX31855_DEG_C.cpp:178-183 | `_extractedDataC` becomes the signed cold field; the conditional wrap-around add equals the sign extension |
| Thermocouple.Max31855.DataRead | MAX31855_DEG_C.cpp:160-217 | for each selector, the result is the decoded field above, always within a 16-bit `int`. It gives the final state of both scratch fields and leaves `_data` unchanged. No result reads `_extractedDataC` after the `>> 2` at line 192, so that shift affects no result |
| Thermocouple.ReadTwice | MAX31855_DEG_C.cpp:160-217 | two reads with the same selector and no acquisition between them agree, and `_data` is unchanged |

## Left out

- The constructor's work (`SPI.begin`, `pinMode`, chip-select setup, MAX31855_DEG_C.cpp:43-50): hardware configuration. `Thermocouple.Max31855.constructor` does nothing else, so the fields start unconstrained.
- The chip-select toggling and microsecond delays in `dataAvailable`: pin I/O and timing. The bytes `SPI.transfer` returns are the argument `spi`.
- The required 50 ms between acquisitions: a timing precondition on callers that the driver does not check.
- The `DEBUG_DATA` build of `dataAvailable` and `dataRead`: it returns fabricated data and does not touch the register.
- `ReadSPI` is declared in `MAX31855_DEG_C.h` but never defined or called.
- The unused `#include <Streaming.h>` (MAX31855_DEG_C.cpp:32): output helpers that nothing in the driver calls.
- Thermocouple.Max31855.DataRead: the conversion of the `long` result to the 16-bit `int` return type is not modelled as a truncation. Instead, every result is proved to lie in -32768..32767, so the conversion changes nothing.
