# Color: a verified model of the color-grid `Color` class

This project models the `Color` class of color-grid (`src/color.js`), a small
JavaScript value type that parses a colour written as `#RRGGBB` or as
`rgba(R, G, B, A)`, holds it as a record `{ r, g, b, a }`, converts it to
hexadecimal and to HSL, lets the caller overwrite its alpha in place, and
formats it back as `rgb(...)`, `rgba(...)` or `#RRGGBB` text.

Modules (one concept each; all files are verified together):

- `Wrappers` (`wrappers.dfy`): the `Option` type every parse that can fail returns.
- `Numerals` (`numerals.dfy`): decimal and hexadecimal digits, and numbers as
  exact decimals (`Decimal`, canonical subtype `Number`). It holds the text
  JavaScript writes for a number (`Number::toString`, section 6.1.6.1.20 of
  ECMA-262, computed on the exact value) and the value `parseFloat` reads from
  a decimal literal. The lemma `LiteralOfNumberToString` proves that the
  second undoes the first.
- `HexCodec` (`hex_codec.dfy`): the record `Rgba`, `hexToRgb` and
  `rgbToHex`. `rgbToHex` is written as the source computes it: the bitwise OR
  of shifted channels, base-16 rendering, dropping the leading `1`, and
  upper-casing. It is proved equal to the per-channel `#RRGGBB` form.
- `RgbaParser` (`rgba_parser.dfy`): `rgbaToRgb` as a hand-written matcher
  for the unanchored expression `rgba?\((\d+), (\d+), (\d+), (\d*\.?\d+)\)`.
  `String.prototype.match` returns the leftmost match. At a fixed start the
  match is unique, because every group is followed by a character it cannot
  contain.
- `HslConversion` (`hsl.dfy`): `hexToHsl` and `rgbToHsl` over `real`.
- `Colors` (`color.dfy`): `parseColor`, the class `Color` (constructor,
  `alpha`, `toRgba`, `toRgb`, `toHex`), and the behaviours the class shows to
  its callers.

Text without an alpha, `rgba(R, G, B)`, is not accepted: the expression in
`src/color.js:33` demands four groups, so such text has no match
(`RgbaParser.ThreeComponentsRejected`). In the source the lookup of the
groups then throws; here it is `None`.

Strings are sequences of Unicode characters, while JavaScript indexes UTF-16
code units. The two agree on text whose characters each take one code unit
(`Numerals.OneCodeUnit`, every character of the Basic Multilingual Plane),
and that includes every well-formed colour text. A character outside that
plane takes two offsets in the source, which shifts the fields `hexToRgb`
reads; see "## Left out".

## Model

| member | source | states |
|---|---|---|
| `HexCodec.HexField` | src/color.js:20-22 | A two-character field is read exactly when both characters are hex digits, in either case; the value is below 256 |
| `HexCodec.HexToRgb` | src/color.js:19-24 | Succeeds exactly when the characters at offsets 1 to 6 are hex digits; the channels are then bytes and alpha is always 1 (offsets count characters) |
| `HexCodec.HexToRgbReadsOnlyFields` | src/color.js:19-24 | Two texts that agree on offsets 1 to 6 give the same result: the first character and everything after offset 6 are never read |
| `HexCodec.OrDisjoint` | src/color.js:28 | OR with a value below 2^k, applied to a multiple of 2^k, is addition |
| `HexCodec.Or` | src/color.js:28 | Bitwise OR of non-negative integers: at least each operand; `OrDisjoint` shows it adds operands whose bits do not overlap |
| `HexCodec.Shl` | src/color.js:28 | `x << k` as multiplication by 2^k, only where the result stays below 2^31 (no 32-bit overflow); `Packed` fixes the value of the shifted channels |
| `HexCodec.Packed` | src/color.js:28 | The OR of `1 << 24`, `r << 16`, `g << 8` and `b` equals ((256 + r) * 256 + g) * 256 + b for byte channels |
| `HexCodec.HexDigitsOfPacked` | src/color.js:28 | The base-16 text of the packed integer, without its first digit, is the six lower-case digits of r, g, b |
| `HexCodec.RgbToHex` | src/color.js:27-29 | For byte channels the bit-packing result is `#` followed by two upper-case, zero-padded hex digits per channel, in r, g, b order |
| `HexCodec.HexRoundTrip` | src/color.js:19-29 | `hexToRgb(rgbToHex(r, g, b))` is `{ r, g, b, a: 1 }` for all byte channels |
| `HexCodec.HexOfParsedFields` | src/color.js:19-29 | `rgbToHex` of what `hexToRgb` read is `#` plus the six digits read, upper-cased |
| `HexCodec.UpperByteOfField` | src/color.js:20-28 | One field, read and then rendered, is the field upper-cased |
| `RgbaParser.SplitWhile` | src/color.js:33 | Splits off the longest prefix whose characters satisfy the test: the two parts concatenate to the input, and the rest does not start with such a character |
| `RgbaParser.DigitGroup` | src/color.js:33 | A `(\d+)` group and its separator: a non-empty run of decimal digits, the separator, then the rest |
| `RgbaParser.AlphaGroup` | src/color.js:33 | A `(\d*\.?\d+)` group and `)`: a decimal literal, the parenthesis, then the rest |
| `RgbaParser.Tokenize` | src/color.js:33 | A match at the start of the text is `rgb(` or `rgba(`, three digit groups, and an alpha literal in the fixed shape; the input is the match text followed by the rest |
| `RgbaParser.TokenizeOf` | src/color.js:33 | Every text of the expression's shape is matched at its start, with exactly its own groups |
| `RgbaParser.MatchAt` | src/color.js:33 | The record built from a match starting at one offset, by `GroupsValue` (`parseInt` of the three digit groups, `parseFloat` of the alpha group, lines 34-38); `Tokenize` and `TokenizeOf` state exactly which texts match there |
| `RgbaParser.FindFrom` | src/color.js:33 | The search of `String.prototype.match` from an offset on; `FindFromNone` and `FindFromLeftmost` state when it fails and that it returns the leftmost match |
| `RgbaParser.FindFromNone` | src/color.js:33 | The search fails exactly when no offset matches |
| `RgbaParser.LeftmostOffset` | src/color.js:33 | Names the offset a successful search returns: it matches there and at no earlier offset |
| `RgbaParser.FindFromLeftmost` | src/color.js:33 | A successful search returns the match at the leftmost offset that has one |
| `RgbaParser.RgbaToRgb` | src/color.js:32-39 | `None` exactly when no offset starts a match; otherwise the record built from the leftmost match (channels by `parseInt`, alpha by `parseFloat`) |
| `RgbaParser.RgbaToRgbOfText` | src/color.js:32-39 | `rgba(R, G, B, A)` yields exactly the numbers R, G, B and A spell |
| `RgbaParser.ThreeComponentsRejected` | src/color.js:33 | `rgba(R, G, B)` without alpha has no match |
| `RgbaParser.NoMatchWithoutR` | src/color.js:33 | Text with no `r` from some offset on has no match from there |
| `HslConversion.Unit` | src/color.js:44-46 | `r /= 255`: a byte channel is normalised into [0, 1] |
| `HslConversion.SectorHue` | src/color.js:57-61 | The three cases of `switch (max)`, in sixths of a turn; `SectorHueBounds` bounds the chosen one in [0, 6) and `SectorsAgree` shows tied cases agree |
| `HslConversion.Max3` | src/color.js:48 | `Math.max` of three channels: one of them, and no smaller than any |
| `HslConversion.Min3` | src/color.js:49 | `Math.min` of three channels: one of them, and no larger than any |
| `HslConversion.HslOfChannels` | src/color.js:43-65 | For byte channels, h lies in [0, 360), s and l in [0, 100], and alpha is 1 |
| `HslConversion.HexToHsl` | src/color.js:42-66 | Succeeds exactly when `hexToRgb` does; h lies in [0, 360), s and l in [0, 100], and alpha is 1 |
| `HslConversion.RgbToHsl` | src/color.js:69-72 | Routing through `rgbToHex` and `hexToHsl` gives the HSL of the channels themselves |
| `HslConversion.Achromatic` | src/color.js:52-53 | A grey has hue 0 and saturation 0 and lightness 100 r / 255; only a grey has saturation 0 |
| `HslConversion.Lightness` | src/color.js:48-50 | l is 100 times the mean of the largest and the smallest normalised channel |
| `HslConversion.SaturationBounds` | src/color.js:56 | Both saturation formulas divide by a positive number and give a value in (0, 1] |
| `HslConversion.SectorHueBounds` | src/color.js:57-62 | The hue of the chosen case, in sixths of a turn, lies in [0, 6) |
| `HslConversion.HueOfEveryMaximalChannel` | src/color.js:57-61 | The switch tests r, then g, then b; the hue equals the formula of every channel at the maximum, so the first one in that order gives the same value |
| `HslConversion.SectorsAgree` | src/color.js:57-61 | Two channels tied at the maximum give the same sector hue |
| `Numerals.DigitsValue` | src/color.js:34-36 | `parseInt` of a decimal digit string: k digits give a value below 10^k; `DigitsValueOfDecDigits` shows it inverts the decimal rendering |
| `Numerals.LiteralValue` | src/color.js:37 | `parseFloat` of a `\d*\.?\d+` literal, exactly: never negative; `LiteralOfNumberToString` shows it inverts `NumberToString` |
| `Numerals.NumberToString` | src/color.js:122 | The text a template hole writes for a number; `NatToStringIsDecDigits` and `LiteralOfNumberToString` state what it writes for channels and alpha |
| `Numerals.ToBase16` | src/color.js:28 | `toString(16)` of a non-negative integer: at least one digit, all lower-case hex; `HexDigitsOfPacked` gives its digits for the packed colour |
| `Numerals.ToUpperString` | src/color.js:28 | `toUpperCase` on the characters `toString(16)` writes: the same length, each letter a to z raised by 32 and every other character kept |
| `Numerals.DigitsValueOfDecDigits` | src/color.js:34-36 | `parseInt` of the decimal digits of n is n |
| `Numerals.NatToStringIsDecDigits` | src/color.js:122 | A channel below 10^21 is interpolated as its plain decimal digits |
| `Numerals.LiteralOfNumberToString` | src/color.js:37 | `parseFloat` reads back the text JavaScript writes for a non-negative number outside the exponent range |
| `Numerals.Normalize` | src/color.js:37 | The canonical decimal has the same value as the digits and scale it was given |
| `Colors.FormatRgba` | src/color.js:121-123 | The template of `toRgba`; `RgbaTextRoundTrip` shows `parseColor` reads it back |
| `Colors.FormatRgb` | src/color.js:126-128 | The template of `toRgb`; `RgbAndRgbaAgree` relates it to `toRgba` and `RgbTextNotAccepted` shows `parseColor` rejects it |
| `Colors.ParseColor` | src/color.js:8-16 | Text starting with `rgba` (the `startsWith` test of line 10, `StartsWith`) goes to `rgbaToRgb` and fails exactly when no offset matches; any other text goes to `hexToRgb` and succeeds exactly when offsets 1 to 6 are hex digits, giving byte channels and alpha 1 |
| `Colors.ParseRgbaText` | src/color.js:10-11 | `parseColor` of `rgba(R, G, B, A)...` is the record R, G, B, A spell |
| `Colors.ParseHexText` | src/color.js:12-15 | With or without `#`, six hex digits after a first character of one UTF-16 code unit parse the same way |
| `Colors.Color.constructor` | src/color.js:4-6 | The stored record is what `parseColor` makes of the input |
| `Colors.Color.Alpha` | src/color.js:108-111 | `a` becomes the value, r, g, b are unchanged, and the receiver itself is returned |
| `Colors.Color.ToRgba` | src/color.js:121-123 | The text starts with `rgba(`; for channels below 10^21 and a non-negative alpha written without an exponent (`Reparsable`), `parseColor` reads it back as the same record |
| `Colors.Color.ToRgb` | src/color.js:126-128 | The text is `rgb(r, g, b)`; `toRgba` is the same text with `, a` before the `)`; `parseColor` rejects it |
| `Colors.Color.ToHex` | src/color.js:131-133 | `#` and six upper-case hex digits, which `hexToRgb` reads back as r, g, b with alpha 1 |
| `Colors.RgbaTextRoundTrip` | src/color.js:121-123 | `parseColor(toRgba())` is the record, for channels below 10^21 and a non-negative alpha written without an exponent |
| `Colors.RgbAndRgbaAgree` | src/color.js:121-128 | `toRgba` is `toRgb` with `, a` inserted before the closing parenthesis |
| `Colors.RgbTextNotAccepted` | src/color.js:126-128 | `rgb(...)` text does not start with `rgba`, so it goes to `hexToRgb`, which rejects its `g` |
| `Colors.HexTextRoundTrip` | src/color.js:19-28 | Hex text read and written back is its six digits upper-cased |
| `Colors.UpperHexColorOfBytes` | src/color.js:27-29 | `rgbToHex` writes `#` and six hex digits with no lower-case letter |
| `Colors.HexColorRoundTrip` | src/color.js:131-133 | `new Color(s).toHex() == s` for every upper-case `#RRGGBB` |
| `Colors.AlphaSharedByAliases` | src/color.js:108-111 | After `alias = original.alpha(v)` both names denote one object, whose alpha is v and whose channels are unchanged |
| `Colors.AlphaExample` | src/color.js:108-123 | `new Color('#000000').alpha(0.3).toRgba()`, read through the original reference, is `rgba(0, 0, 0, 0.3)` |
| `Colors.RgbaExample` | src/color.js:32-39 | `new Color('rgba(10, 20, 30, 0.5)').toRgba()` is its own input |

## Left out

- `hslToRgb`, `hslToHex` and `lighten` (src/color.js:75-118): they depend on IEEE-754 `%`, `Math.abs` and `Math.round` on doubles. Their exact output is a floating-point artefact that an exact model cannot state. `lighten`'s loss of alpha is therefore not modelled either.
- `toHsl` (src/color.js:136-139): it writes unrounded doubles, so its text depends on double rounding that an exact model does not reproduce.
- The `export default` statement on line 142: it is module plumbing.
- Floating point: `hexToHsl` is computed over exact rationals (`real`), and alpha over exact decimals. A double's rounding (for example of a literal with more than 15 significant digits, such as `0.30000000000000001`, which the source reads as 0.3) is not modelled.
- `Colors.Color.constructor`: requires that `parseColor` succeeds. For hex text the source reads each field leniently. `parseInt(field, 16)` first skips leading whitespace, then takes a `+` or `-` sign, then drops a `0x` or `0X` prefix, and then reads the longest run of hex digits. It gives `NaN` when that run is empty. So `"1g"` gives 1 and a one-character field `"F"` from `"#FFFFF"` gives 15. `" f"` and `"+f"` give 15, while `"-f"` gives -15, so `"#-f-f-f"` stores three negative channels. `"0x"` gives `NaN`. It throws when `rgba...` text has no match. All of these are parse failures (`None`) here.
- `HexCodec.HexField`: a field that is not two hex digits is a failure. `parseInt`'s leading whitespace, sign and `0x` prefix, its reading of a hex prefix (`"1g"` is 1, `"F"` is 15, `"-f"` is -15) and its `NaN` are not modelled.
- `HexCodec.HexToRgb`: offsets count Unicode characters, where `slice` counts UTF-16 code units. Text whose first seven characters each take one code unit is read as in the source. Before offset 7, a character outside the Basic Multilingual Plane shifts the fields: for `"\u{1F600}ff0000"` the source reads r = `NaN`, g = 240 and b = 0, while the model reads 255, 0, 0.
- `HexCodec.HexToRgbReadsOnlyFields`: for a first character outside the Basic Multilingual Plane, the source does read part of that character, at offset 1; the lemma is about character offsets.
- `Colors.ParseColor`: for text not starting with `rgba`, it inherits `HexToRgb`'s character offsets. The `rgba` branch is unaffected, because the expression matches only characters of one code unit each.
- `Colors.HexTextRoundTrip`: holds in the source only when the first seven characters each take one code unit.
- `Colors.ParseHexText`: stated only for a first character of one UTF-16 code unit, where the source agrees.
- `HexCodec.RgbToHex`: requires channels below 256. Wider channels overlap the neighbouring channel's bits: r = 256 gives `#000000` and b = 256 gives `#000100`. From r >= 4096 they also lengthen the text, and from r >= 32768 the 32-bit result is negative. That case is not modelled.
- `Colors.Color.ToHex`: requires byte channels, as `rgbToHex` does. `rgba` text can carry larger channels; `toHex` on those is not modelled.
- `Colors.RgbaTextRoundTrip`: holds only for channels below 10^21 and a non-negative alpha written without an exponent. Beyond that, JavaScript writes a large channel or a tiny alpha in exponent form, and a negative alpha with a leading `-` (`rgba(0, 0, 0, -0.5)`). The expression reads back neither form, so `match` finds nothing.
- `RgbaParser.RgbaToRgb`: channels are exact naturals. `parseInt`'s loss of precision beyond 2^53 is not modelled.
- `Colors.Color.Alpha`: takes an exact decimal. The source accepts any JavaScript value, including non-numbers and `NaN`.
