# GeoHex v3.2 integer codec, in Dafny

GeoHex names hexagonal cells on a map. A cell at a given level has a grid
index (x, y). Its code is two letters of `h_key` followed by `level` base-9
digits. This project models the integer core of the Python implementation
(`src/geohex/geohex.py`):

- `int2str` writes an integer in a base between 2 and 36 (module `Radix`).
- `adjust_xy` folds a grid index back into the band |x - y| <= 3^(level+2)
  (module `Grid`).
- The integer half of `get_zone_by_xy` encodes an index (module `Encoder`).
  It swaps on the band's edge, writes the greedy balanced-ternary digit
  loop, applies the seam correction of the first trit pair, packs trit
  pairs into base-9 digits and turns the first three digits into two
  letters.
- `get_xy_by_code` decodes a code back to an index (module `Decoder`).
- `Zone` and `Zone.get_level` (module `Codes`), together with the shape of
  codes.

Balanced ternary gets its own module (`Ternary`):
- `Value` is the number a trit sequence stands for.
- `Trits` is an independent least-significant-first reference for it.
- `Clamp` gives the range n trits can express.

`Builtins` holds `abs`, `str.find` and `reversed`. `RoundTrip` proves how
encoder and decoder fit together.

Each loop of the source is its own method. Each method's `ensures` ties the
result to a specification function:
- `Int2Str` to `Show`.
- `TritLoop` to the corrected reference trits.
- `PackLoop` to `Pack`.
- `PadLoop` to `ZeroPad`.
- `SumLoop` to `Value`.
- `GetZoneByXY` to `Encoding`.
- `GetXYByCode` to `Decoded`.

The lemmas then show what those functions mean. Main results:
- Every code has level + 2 characters, two letters of index at most 29,
  then digits '0'..'8'.
- The greedy digits are the unique balanced-ternary digits of the clamped
  component.
- Decoding the code of an index whose components fit level + 3 trits gives
  back `adjust_xy` of that index. This holds whether or not the seam
  correction fired. For any other index, the result is `adjust_xy` of the
  edge-swapped pair, with each component clamped to that range.
- The test case (912000, -325774) at level 11 encodes to "XM48854457273",
  and that code decodes back to (912000, -325774).

The source's longitude test `z_loc_x == -180 or z_loc_x >= 0` (line 391) is
floating-point geometry. It becomes the boolean parameter `eastOrSeam`. On
the band's edge the source forces the longitude to -180 (line 360), so the
model forces the flag there too.

## Model

| member | source | states |
|---|---|---|
| Radix.Int2Str | src/geohex/geohex.py:23-50 | fails exactly when the base is outside 2..36; otherwise returns '-' for a negative input followed by the base-b digits of abs(digit) |
| Radix.ShowCanonical | src/geohex/geohex.py:39-50 | the digits written for a magnitude read back as that magnitude, each is a digit of the base, and the string never starts with '0' unless it is "0" for zero |
| Radix.ParseDigits | src/geohex/geohex.py:43-45 | the digits the conversion loop collects read back in base b as the number |
| Radix.Base3OfNonary | src/geohex/geohex.py:290-296 | int2str(d, 3) of a base-9 digit is one or two characters whose base-3 value is d; padded to two they are d's two trits |
| Radix.DecimalBelow1000 | src/geohex/geohex.py:275 | str(h) of a number below 1000 has at most three characters; zero-padded it is h's three decimal digits |
| Builtins.Abs | src/geohex/geohex.py:39 | `abs` returns a nonnegative number equal to v or to -v |
| Builtins.Reversed | src/geohex/geohex.py:50 | `''.join(reversed(result))` has the same length, with element i taken from position n - 1 - i |
| Builtins.Find | src/geohex/geohex.py:275 | `str.find` returns -1 exactly when the character is absent, and otherwise the first index holding it |
| Codes.FindLetter | src/geohex/geohex.py:275 | `h_key.find(c)` is the letter's index 0..51, or -1 for a character that is no letter |
| Grid.AdjustXY | src/geohex/geohex.py:96-136 | the source's edge-offset computation equals the direct fold: swap on the exact edge with x > y, move both coordinates by 3^(level+2) past it, otherwise no change |
| Grid.AdjustKeepsSum | src/geohex/geohex.py:108-136 | adjust_xy keeps x + y, and rev is set exactly when \|x - y\| = 3^(level+2) and x > y |
| Grid.AdjustFixes | src/geohex/geohex.py:110-136 | the index is left unchanged exactly when it is strictly inside the band or on its edge with x <= y |
| Grid.AdjustLandsInBand | src/geohex/geohex.py:116-135 | one fold lands in the band exactly when \|x - y\| <= 3 * 3^(level+2) |
| Grid.AdjustIdempotent | src/geohex/geohex.py:108-136 | a second fold leaves the first fold's coordinates unchanged exactly when -3M <= x - y < 3M |
| Encoder.GetZoneByXY | src/geohex/geohex.py:352-412 | the zone keeps the x, y it was given (also after the edge swap) and carries `Encoding(x, y, level, eastOrSeam)` |
| Encoder.TritLoop | src/geohex/geohex.py:367-397 | the digit loop yields level + 3 trits per component: the reference balanced trits of each clamped component, with the seam correction applied when the flag holds |
| Encoder.ChooseTrit | src/geohex/geohex.py:371-380 | at weight 3^k the round writes a trit d in 0..2 and leaves mod - (d - 1) * 3^k; d is 2 exactly when the residual exceeds (3^k - 1) / 2, the most k trits express, and 0 exactly when it is below minus that; a residual that k + 1 trits express leaves one that k trits express |
| Encoder.CorrectSeam | src/geohex/geohex.py:392-397 | a first pair (2, 1) becomes (1, 2) and (1, 0) becomes (0, 1), when the second and third pairs each agree; nothing else changes |
| Encoder.SeamCorrectionShape | src/geohex/geohex.py:391-397 | the correction keeps lengths and trits and touches only the first pair |
| Encoder.SeamCorrectionShift | src/geohex/geohex.py:392-397 | a firing correction lowers x's value by 3^(n-1) and raises y's by the same amount |
| Codes.NonaryCharBase3 | src/geohex/geohex.py:400-401 | `int(str(tx) + str(ty), 3)` is 3 * tx + ty, and its `str` is the one character `NonaryChar(tx, ty)` that the packing writes |
| Encoder.PackLoop | src/geohex/geohex.py:399-404 | each trit pair (tx, ty) becomes the base-9 digit character of 3 * tx + ty |
| Ternary.TritsUnique | src/geohex/geohex.py:370-389 | any trit sequence with value v is the reference trit sequence of v, and v is within +-(3^n - 1) / 2 |
| Ternary.TritsSaturate | src/geohex/geohex.py:370-389 | out of range, the trits of the clamped component are all 2s above and all 0s below |
| Ternary.ValueBound | src/geohex/geohex.py:370-389 | n balanced trits stand for a number of magnitude at most (3^n - 1) / 2 |
| Ternary.ValueUnique | src/geohex/geohex.py:370-389 | two equally long trit sequences with equal values are equal |
| RoundTrip.EncodingSaturates | src/geohex/geohex.py:370-389 | a component above the range encodes as all 2s, one below it as all 0s |
| RoundTrip.EncodingShape | src/geohex/geohex.py:406-410 | every code has level + 2 characters, so `Zone.get_level` gives back the level; it starts with two `h_key` letters of index at most 29, then digits '0'..'8' |
| Codes.Zone.Level | src/geohex/geohex.py:147-151 | the level of a valid code is nonnegative, and the code's base-9 digits hold level + 3 trits per component |
| RoundTrip.EncodingDigits | src/geohex/geohex.py:399-410 | the code of an index is a valid code whose high and low trits are the corrected greedy trits |
| RoundTrip.CodedShape | src/geohex/geohex.py:399-410 | lettering any corrected trits gives two letters of index at most 29, then base-9 digits |
| RoundTrip.SeamGap | src/geohex/geohex.py:392-397 | when the correction fires, x's value exceeds y's by more than 0 and less than 2 * 3^(n-1) |
| RoundTrip.CorrectedValues | src/geohex/geohex.py:391-397 | for in-range components the decoder reads back sx, sy, or, after a firing correction, sx - M and sy + M with 0 < sx - sy < 2M |
| RoundTrip.AdjustUndoesSeam | src/geohex/geohex.py:318-320 | the decoder's adjust_xy maps both the swapped index and the corrected index to adjust_xy of the original |
| RoundTrip.DecodeEncode | src/geohex/geohex.py:261-322 | decoding the code of an in-range index gives adjust_xy of that index, for both values of the longitude test |
| RoundTrip.AdjustUndoesCorrection | src/geohex/geohex.py:318-320 | when 0 < cx - cy < 2M, the decoder's adjust_xy folds (cx - M, cy + M) to the same coordinates as (cx, cy) |
| RoundTrip.DecodeEncodeClamped | src/geohex/geohex.py:261-322 | for every index and both values of the longitude test, decoding its code gives adjust_xy of the edge-swapped pair with each component clamped to +-(3^(level+3) - 1) / 2 |
| RoundTrip.EncodeExample | test/geohex_test.py:75-77 | (912000, -325774) at level 11 east of the meridian has the code "XM48854457273" |
| RoundTrip.DecodeExample | test/geohex_test.py:83-87 | decoding the code of (912000, -325774) at level 11 gives (912000, -325774) |
| RoundTrip.DecodeExampleCode | test/geohex_test.py:86-87 | "XM48854457273" is a valid code and decodes to (912000, -325774) |
| Decoder.GetXYByCode | src/geohex/geohex.py:261-322 | for a valid code, the source's decoding steps compute `Decoded(code)`: the fold of the values of the high and of the low trits of its base-9 digits |
| Decoder.LetterDecimal | src/geohex/geohex.py:275 | `h_dec9` starts as str(30 * find(c0) + find(c1)) followed by the code's digits |
| Decoder.PadLoop | src/geohex/geohex.py:283-286 | the string is zero-padded on the left to the width, or left alone if it is longer |
| Decoder.PadLoopResult | src/geohex/geohex.py:275-286 | for a valid code, the padded `h_dec9` is the code's base-9 digits as characters |
| Decoder.TernaryPair | src/geohex/geohex.py:290-296 | one base-9 digit becomes its two trits as characters |
| Decoder.TernaryLoop | src/geohex/geohex.py:288-296 | `h_dec3` holds, for every base-9 digit, its high trit at an even index and its low trit at the odd index after it |
| Decoder.SplitLoop | src/geohex/geohex.py:298-303 | `h_decx` and `h_decy` are the characters of `h_dec3` at even and at odd positions |
| Decoder.SplitTrits | src/geohex/geohex.py:288-303 | the digits of `h_decx` and `h_decy` are the high and low trits of the code's base-9 digits |
| Decoder.Weigh | src/geohex/geohex.py:308-316 | digit 0 subtracts the power, 2 adds it, 1 leaves the sum alone |
| Decoder.SumLoop | src/geohex/geohex.py:305-316 | the power sums are the balanced-ternary values of `h_decx` and `h_decy` |

## Left out

- Floating-point geometry is not modelled. That covers `calc_hex_size`,
  `loc2xy`, `xy2loc`, the hexagon size and units in `get_zone_by_xy` and
  `get_xy_by_code`, and the `Zone` fields `lat` and `lon`. Grid indices are
  integers, and `math.pow(3, n)` is modelled as the exact integer 3^n.
- Encoder.GetZoneByXY: the longitude test at line 391 depends on floating
  point. It is the parameter `eastOrSeam`, and the zone leaves out its
  latitude and longitude.
- `get_xy_by_location`, `Zone.get_hex_size` and `Zone.get_hex_coors` are
  floating-point geometry and are not part of this model.
  `get_zone_by_location` and `get_zone_by_code` combine that geometry with
  the codec, and are not part of this model either. `_zone_cache` (line 10)
  is module state that nothing uses.
- The first-digit rewrite at lines 277-281 of `get_xy_by_code` is not
  modelled. It compares characters with integers, so its condition never
  holds in Python and the rewrite never runs.
- Decoder.GetXYByCode: requires `ValidCode`. The code must be two `h_key`
  letters whose value 30 * i0 + i1 is below 1000 with no decimal digit 9,
  followed by digits '0'..'8'. Every code the encoder writes is valid
  (`RoundTrip.EncodingDigits`). Other strings are not modelled. In Python
  they end in one of three ways: an `IndexError` at `code[0]` or `code[1]`
  for a code shorter than two characters; a `ValueError` from `int()` on a
  character that is no digit; or a silent decode of a misaligned numeral.
  "za..." gives 51 * 30 + 26 = 1556, a four-digit prefix the padding loop
  does not pad. A character outside `h_key` counts as -1, so "0o..." gives
  -30 + 40 = 10.
- RoundTrip.DecodeEncode: requires both components within
  +-(3^(level+3) - 1) / 2. Beyond that range the greedy digits saturate
  (`RoundTrip.EncodingSaturates`). For every index,
  `RoundTrip.DecodeEncodeClamped` gives the decoded index: `adjust_xy` of
  the edge-swapped pair, with each component clamped to that range.
- `DigitValue` models Python's `int()` of a single digit character. The
  decoder only applies it to the characters '0'..'8' and '0'..'2'.
- Python 2 integer division `temp /= base` in `int2str` is floor division,
  and its operands are never negative. It is modelled with Dafny's `/`.
- Levels are taken as nonnegative (`level: nat`). The source does not check
  the level: `adjust_xy` with level -2 uses M = 3^0 = 1, and
  `get_zone_by_xy` with level -1 writes a code whose `get_level` is 0.
  Negative levels are not modelled.
