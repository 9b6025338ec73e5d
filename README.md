# NIBE coil register codec

A NIBE heat pump exposes its settings and readings as *coils*: numbered
registers of a fixed width and sign (`s8`, `u8`, `s16`, `u16`, `s32`,
`u32`). Each has a scale factor, optional raw bounds, an optional mapping
from raw integers to labels, and a writable flag. Some registers are
transmitted with their two 16-bit words swapped. A `Coil` holds one
register definition and one current logical value, and converts in two
directions:

- **Decode** (assigning `raw_value`) reads the leading width bytes of a
  buffer as a little-endian two's-complement integer, in word order.
  A mapped register turns the integer into its label; an integer with no
  label is a decode error. Otherwise the integer is checked against the
  raw bounds (a decode error outside them) and divided by the factor.
- **Encode** (assigning `value`, then reading `raw_value`) checks the value
  at once: a label of the mapping, compared without regard to case and
  stored upper-cased, or a number within `min`..`max`. Anything else is
  an assertion error. Reading `raw_value` then multiplies by the factor
  and rounds, or looks up the label's key. It packs the integer into the
  register width; a value that does not fit is an encode error. The
  result is a zero-filled four-byte buffer in word order.

A numeric register bounded to 0..1 behaves as if it had the mapping
{0: OFF, 1: ON}. `is_boolean` holds for a two-entry mapping and for
bounds 0..1.

The Dafny project has four modules:

- `Words` (`words.dfy`): bytes, little-endian integers, zero fill and
  `swapwords`.
- `Codec` (`codec.dfy`): the pure register codec on a `Definition` value.
  It covers width classes, packing and parsing, scaling, bounds, label
  tables, `Decode`, `Assign`, `Encode` and the round-trip properties.
- `Coils` (`coil.dfy`): the stateful `Coil` class. Its single mutable
  field is the current value. `SetRaw`, `SetValue` and `GetRaw` model
  the `raw_value` and `value` assignments and the `raw_value` read.
- `Vectors` (`vectors.dfy`): every register of the coil test suite as a
  constant, with the behaviour the suite expects proved about it.

`nibe/coil.py` is not part of this model. The behaviour modelled is the
one its test suite, `tests/test_coil.py`, asserts.

Word order follows the test suite, not the flag's name. With the default
`word_swap=True`, a 32-bit register is plain little-endian (`32 54 00 00`
is 21554). `word_swap=False` is the setting that exchanges the two words
(`00 00 28 06` is 1576).

## Model

| member | source | states |
|---|---|---|
| Words.SwapWords | tests/test_coil.py:9-12 | a 4-byte buffer comes back with byte i taken from position (i+2) mod 4; any other length comes back unchanged |
| Words.SwapWordsInvolution | tests/test_coil.py:10-12 | swapping the words twice restores every buffer |
| Vectors.SwapWordsExamples | tests/test_coil.py:11-12 | `abcd` becomes `cdab`; `ab` is unchanged |
| Words.ToLittleEndian | tests/test_coil.py:38-40 | the `width` bytes produced read back, least significant first, as the number encoded |
| Words.LittleEndianRoundTrip | tests/test_coil.py:30-40 | every buffer is the little-endian encoding of its own value |
| Words.ZeroFill | tests/test_coil.py:59-63 | padding keeps the original bytes in front and puts only zero bytes after them |
| Words.ZeroFillKeepsValue | tests/test_coil.py:38-40 | zero fill does not change a buffer's unsigned value, so padding is zero fill, never sign fill |
| Codec.ParseSize | tests/test_coil.py:17-22 | exactly the six size names select a width class, and the class selected carries that name |
| Codec.ParseSizeName | tests/test_coil.py:17-22 | every width class is selected again by its own name |
| Codec.ParseInt | tests/test_coil.py:30-36 | the integer read from the leading width bytes lies within the register's signed or unsigned range and is congruent, modulo 256 to the width, to their little-endian unsigned value: the two's-complement reading |
| Codec.BuildInt | tests/test_coil.py:38-44 | packing succeeds exactly for integers in the register's range; the bytes produced parse back to the integer; otherwise an encode error |
| Codec.ParseBuildRoundTrip | tests/test_coil.py:30-40 | packing the integer parsed from a full-width buffer gives back that buffer |
| Codec.ScaleBack | tests/test_coil.py:126-136 | a raw integer divided by the factor, then multiplied and rounded, is the integer again |
| Codec.EngMin | tests/test_coil.py:74-79 | `min` is present exactly when `raw_min` is, and `min` times the factor is `raw_min` |
| Codec.EngMax | tests/test_coil.py:74-79 | `max` is present exactly when `raw_max` is, and `max` times the factor is `raw_max` |
| Codec.EngBoundsAreRawBounds | tests/test_coil.py:74-92 | a number is within `min`..`max` exactly when it times the factor is within `raw_min`..`raw_max` |
| Codec.UpperIdempotent | tests/test_coil.py:195-198 | upper-casing twice is upper-casing once |
| Codec.OffOn | tests/test_coil.py:243-261 | the implicit table has two upper-case entries; 0 reads as "OFF" and 1 as "ON", and "OFF" and "ON" lead back to 0 and 1 |
| Codec.Configure | tests/test_coil.py:16-23 | every attribute reads back as given; the defaults are factor 1, no bounds, no mapping, not writable, default word order, no other attributes |
| Codec.Table | tests/test_coil.py:176-261 | a label table is in force exactly when mappings are configured or the bounds are 0..1; its labels are upper case; distinct configured keys stay distinct |
| Codec.TableLookup | tests/test_coil.py:184-206 | with distinct configured keys, each configured key finds its own label, upper-cased |
| Codec.TableKeys | tests/test_coil.py:204-214 | with configured mappings, a raw integer has a label exactly when a configured entry carries it as key |
| Codec.TableLabels | tests/test_coil.py:195-202 | with configured mappings, a label has a key exactly when it is the upper case of a configured label |
| Codec.TableImplicit | tests/test_coil.py:243-261 | a 0..1 register without mappings reads 0 as "OFF" and 1 as "ON", and "OFF" and "ON" lead back to 0 and 1 |
| Codec.IsBoolean | tests/test_coil.py:232-233 | a boolean register takes labels; a boolean register without mappings uses the implicit OFF/ON table |
| Codec.LabelOf | tests/test_coil.py:204-214 | no label exactly when no entry has the key; a label found is that of an entry with the key |
| Codec.RawOf | tests/test_coil.py:208-218 | no key exactly when no entry has the label; a key found is that of an entry with the label |
| Codec.RawOfThenLabelOf | tests/test_coil.py:204-210 | with distinct keys, the key of a label leads back to the label |
| Codec.LabelOfThenRawOf | tests/test_coil.py:204-210 | with distinct labels, the label of a key leads back to the key |
| Codec.RoundHalfUp | tests/test_coil.py:104-106 | the integer is within one half of the real, halves going up |
| Codec.RoundKeepsBounds | tests/test_coil.py:84-92 | rounding never moves a real across an integer bound |
| Codec.RoundedWithinRawBounds | tests/test_coil.py:84-106 | a number within `min`..`max`, scaled and rounded, is within `raw_min`..`raw_max` |
| Codec.WordOrder | tests/test_coil.py:148-173 | the buffer keeps its length; a 32-bit register with `word_swap` off has its two words exchanged; every other register is left unchanged |
| Codec.WordOrderInvolution | tests/test_coil.py:167-173 | word order applied twice restores the buffer |
| Codec.RawInt | tests/test_coil.py:30-36 | the raw integer of a buffer lies within the register's range |
| Codec.FromRaw | tests/test_coil.py:94-102 | a mapped register fails exactly for an integer without a key; an unmapped one fails exactly outside the raw bounds; every failure is a decode error naming the integer; a success is the integer's label, or the integer divided by the factor, and is a value the register can hold |
| Codec.Decode | tests/test_coil.py:94-102 | the raw integer of the buffer's leading bytes decodes: a mapped register succeeds exactly when the integer has a label, an unmapped one exactly within the raw bounds; a success is the integer's label, or the integer divided by the factor; a failure is a decode error naming the integer; with `EncodeThenDecode*` and `DecodeThenEncode*` it is the inverse of `Encode` |
| Codec.Assign | tests/test_coil.py:84-92 | a failure is an assertion error; an accepted value is one the register can hold |
| Codec.ToRawInt | tests/test_coil.py:208-210 | every value the register can hold has a raw integer; a failure is an encode error |
| Codec.Encode | tests/test_coil.py:38-44 | output is four bytes whose raw integer is the value's raw integer, zero beyond the width; it fails, with an encode error, exactly when that integer is outside the register's range |
| Codec.ConformingValueIsAccepted | tests/test_coil.py:84-86 | a value the register can hold is accepted unchanged |
| Codec.AssignIdempotent | tests/test_coil.py:235-240 | assigning the stored value again changes nothing |
| Codec.AssignLabelIgnoresCase | tests/test_coil.py:235-240 | with configured mappings, a label is accepted exactly when it equals a configured label up to case, and is stored upper-cased |
| Codec.AssignNumberWithinBounds | tests/test_coil.py:84-92 | on an unmapped register a number is accepted exactly when it times the factor lies within the raw bounds, inclusive, and is stored as given |
| Codec.EncodeOverflow | tests/test_coil.py:42-44 | an unmapped register fails to encode a number exactly when its scaled, rounded value is outside the register's range |
| Codec.EncodeThenDecodeLabel | tests/test_coil.py:204-210 | a label the register holds decodes from its own encoding as itself |
| Codec.EncodeThenDecodeNumber | tests/test_coil.py:104-106 | a number within bounds decodes from its own encoding as its scaled, rounded value divided by the factor |
| Codec.Canonical | tests/test_coil.py:30-36 | the canonical form is four bytes with the same raw integer as the buffer |
| Codec.EncodeRawInt | tests/test_coil.py:38-40 | a value standing for a buffer's raw integer encodes to the buffer's canonical form |
| Codec.LeadingBytesBuild | tests/test_coil.py:30-40 | a buffer's raw integer packs into exactly its leading bytes in word order |
| Codec.DecodeThenEncodeLabel | tests/test_coil.py:204-210 | with distinct labels, a decoded label is accepted unchanged and encodes to the buffer's canonical form |
| Codec.DecodeThenEncodeNumber | tests/test_coil.py:126-136 | a decoded number is accepted unchanged and encodes to the buffer's canonical form |
| Codec.DecodeReadsLeadingBytes | tests/test_coil.py:30-36 | bytes past the width do not change the decoded result, unless the words are swapped |
| Coils.Coil.constructor | tests/test_coil.py:16-23 | the coil keeps the definition given, defaults included, and holds no value yet |
| Coils.Coil.SetRaw | tests/test_coil.py:30-36 | succeeds exactly when the buffer decodes, and then stores the decoded value; a failure is a decode error naming the raw integer; the invariant is kept |
| Coils.Coil.SetValue | tests/test_coil.py:84-92 | succeeds exactly when the value is accepted, and then stores the accepted form; a failure is an assertion error; the invariant is kept |
| Coils.Coil.GetRaw | tests/test_coil.py:38-44 | the stored value's four-byte encoding, or an encode error |
| Vectors.CreateKeepsAttributes | tests/test_coil.py:16-23 | address, name, title, the `u8` width class and the unknown attribute are kept |
| Vectors.Signed8Decode | tests/test_coil.py:30-36 | s8 `fc` reads as -4 from 4-, 2- and 1-byte buffers |
| Vectors.Signed8Encode | tests/test_coil.py:38-44 | s8 -4 encodes as `fc 00 00 00`; 256 is accepted and does not encode |
| Vectors.Unsigned8Decode | tests/test_coil.py:51-57 | u8 `01` reads as 1 from 4-, 2- and 1-byte buffers |
| Vectors.Unsigned8Encode | tests/test_coil.py:59-67 | u8 1 and 255 encode in the low byte; 256 is accepted and does not encode |
| Vectors.Signed16Attributes | tests/test_coil.py:74-82 | `min` 5.0, `max` 30.0, `raw_min` 50, `raw_max` 300, not boolean, not writable |
| Vectors.Signed16Bounds | tests/test_coil.py:84-92 | 5.0 and 30 are accepted; 4, 4.9 and 30.1 are assertion errors |
| Vectors.Signed16Decode | tests/test_coil.py:94-102 | `97 00` reads as 15.1; raw 49 and raw 4141 are decode errors |
| Vectors.Signed16Encode | tests/test_coil.py:104-106 | 15.1 encodes as `97 00 00 00` |
| Vectors.Unsigned16Decode | tests/test_coil.py:126-130 | u16 factor 10: `01 00` reads as 0.1, padded or not |
| Vectors.Unsigned16Encode | tests/test_coil.py:132-136 | 0.1 encodes as `01 00 00 00` and 25.5 as `ff 00 00 00` |
| Vectors.Signed32Codec | tests/test_coil.py:148-154 | default word order: `32 54 00 00` and 21554 correspond both ways |
| Vectors.Signed32SwappedCodec | tests/test_coil.py:167-173 | `word_swap` off: `00 00 28 06` and 1576 correspond both ways |
| Vectors.PrioAssignOff | tests/test_coil.py:195-198 | "off" is stored as "OFF" |
| Vectors.PrioRejectsUnknown | tests/test_coil.py:200-202 | "Beer" and "Unknown" are assertion errors |
| Vectors.PrioDecode | tests/test_coil.py:204-214 | `0a` reads as "OFF"; `00` is a decode error |
| Vectors.PrioEncode | tests/test_coil.py:208-210 | "OFF" encodes as `0a 00 00 00` |
| Vectors.StatusCoolingMapping | tests/test_coil.py:232-240 | a two-entry mapping is boolean; "On" is stored as "ON" and "ofF" as "OFF" |
| Vectors.PeriodicHotWaterBounds | tests/test_coil.py:256-261 | bounds 0..1 make the register boolean and writable; it accepts "ON" and "OFF" |
| Vectors.Signed8Scenario | tests/test_coil.py:26-44 | one s8 coil: three buffers each read as -4; -4 reads back as `fc 00 00 00`; 256 is accepted and then fails to encode |
| Vectors.BooleanMappingScenario | tests/test_coil.py:235-240 | one coil: "On" reads back as "ON", then "ofF" as "OFF" |

## Left out

- Binary floating point. Values are exact reals and rounding is half
  up. Python's `round` rounds halves to even, and products such as
  15.1 × 10 carry float error; neither is modelled.
- Codec.RoundHalfUp: rounds halves up rather than to even. No test
  value lands on a half.
- Mapping keys are integers. The configured mappings key labels by
  decimal strings; parsing those strings is not modelled.
- Codec.Upper: upper-cases ASCII letters only. Unicode case mapping is
  not modelled.
- Codec.Decode: requires a buffer at least as long as the register
  width. Shorter buffers for 32-bit registers are never exercised, so
  no extension rule is invented for them.
- Codec.WordOrder: swaps words only for 32-bit registers. A narrower
  register reads its leading bytes directly whatever `word_swap` says.
- The parser objects of the `construct` library (`coil.parser == Int8ul`)
  are replaced by the `WidthClass` enumeration with its width and range.
- Exception classes, the unit-test harness, loading register tables from
  files, and the connection layer (I/O) are not modelled. Errors are
  the three kinds of `Codec.Error`.
- Coils.Coil.SetValue: a value of the wrong kind (a label for a numeric
  register, a number for a mapped one) is an assertion error. The
  Python type errors it may raise instead are not distinguished.
- Coils.Coil.SetRaw and Coils.Coil.SetValue: a failed assignment leaves
  the stored value unchanged. This is a design choice of the model; the
  test suite does not assert it.
- Coils.Coil.GetRaw: reading `raw_value` before any value is stored is an
  encode error in the model. The test suite does not show this case.
- Resetting the value to `None` is not modelled.
- Words.Pow256, Codec.Unscale, Codec.ScaleRound, Codec.UpperLabels,
  Codec.DistinctKeyLookup and the predicates without rows (`Mapped`,
  `Conforms`, the bounds predicates) are specification helpers. Their
  properties are stated by the members in the table.
