# pexler core in Dafny

A model of the data layer of the pexler pixel editor:

- **Colours** (`color.dfy`, module `Colors`). An RGBA colour whose constructor clamps every channel.
  The module covers parsing from `#rgb` / `#rrggbb` / `#rrggbbaa` hex text, printing back to hex,
  RGB to HSV conversion and back, replacing the alpha, and equality with an alpha tolerance.
- **The palette store** (`palette.dfy`, module `Palettes`). This is the module-level palette array
  plus the "auto add colour" flag. They are modelled as class `Palette`, with fields `colors` and
  `autoAddColor`. It covers:
  - the 32 default colours;
  - get/toggle of the flag;
  - `hasColor` and insert-if-absent `addColor`;
  - clearing;
  - sorting by hue, value, saturation or luminance;
  - building a palette from the distinct visible pixels of an RGBA byte buffer;
  - loading a GIMP palette (`.gpl`) text.
- **The image** (`image.dfy`, module `Images`). Class `Image` holds a `height` × `width` grid of
  colours (`array2<Color>`). A new image starts transparent black. It is read and written one
  pixel at a time, and coordinates outside the image are ignored.
- **The JavaScript string built-ins** the loader relies on (`text.dfy`, module `Text`):
  - `split`, `trim` and `startsWith`;
  - splitting on `/\s+/` with empty parts dropped;
  - `parseInt` and decimal number printing.
- **`Option` / `Result`** (`wrappers.dfy`).

Numbers are exact. Channels are `int`. Alpha and the HSV components are `real`. `Math.round` is
`floor(x + 0.5)`. JavaScript's `%` on numbers is the truncated remainder `FMod`.

A colour is the subset type `Color = c: Rgba | InRange(c)`. Every value the constructor builds
lies in range, and `Make` is that constructor.

Where a source operation loops, the model loops too, in a method proved against a specification
function:
- `CollectPixelKeys` builds the `Set` of pixel keys;
- `ColorsFromKeys` turns the keys back into colours;
- `ScanChannelLines` is the `Channels:` scan, with its `break`;
- `ParseColorLines` is the colour-line loop.

The palette's methods call these loops. `Array.prototype.sort` is a library call, so it is
modelled by a pure stable insertion sort, `StableSort`, over the same comparator.

## Model

| member | source | states |
|---|---|---|
| Colors.ClampInt | src/lib/Color.ts:14-16 | the result lies in `[lo, hi]`; it is `v` when `v` is in range, `lo` below and `hi` above |
| Colors.ClampReal | src/lib/Color.ts:14-16 | the same three cases for real values (alpha) |
| Colors.Make | src/lib/Color.ts:7-12 | every channel is clamped to 0..255 and alpha to 0..1; a colour already in range is kept unchanged |
| Colors.Round | src/lib/Color.ts:109-111 | `Math.round` lands within half a unit of its argument |
| Colors.FMod | src/lib/Color.ts:71 | the remainder takes the sign of the dividend, stays below the divisor in size, is the dividend itself when that is smaller than the divisor, and differs from the dividend by a whole multiple of the divisor |
| Colors.ParseHexPair | src/lib/Color.ts:24-37 | two hex digits of either case read as the byte `16 hi + lo`; a number is read exactly when the first character is a hex digit, unless it is `0` followed by `x`/`X`, or when it is a sign or white space followed by a hex digit; a read value lies in -15..255 |
| Colors.HexByte | src/lib/Color.ts:29-37 | the byte two hex digits stand for lies in 0..255 |
| Colors.HexPairIsParseHex | src/lib/Color.ts:24-37 | the pair reader agrees with `parseInt(hi + lo, 16)` on every two-character text |
| Colors.ByteToHex | src/lib/Color.ts:50-53 | a byte prints as two lower-case hex digits that read back as the byte |
| Colors.FromHex | src/lib/Color.ts:18-43 | the text is rejected as `InvalidFormat` exactly when its length, after removing the first `#`, is not 3, 6 or 8; without an alpha pair, alpha is 1 |
| Colors.AlphaByte | src/lib/Color.ts:53 | `Math.round(a * 255)` is a byte within half a unit of `a * 255` |
| Colors.ToHex | src/lib/Color.ts:49-55 | `#` followed by 8 lower-case hex digits with alpha, or by 6 without |
| Colors.HexRoundTrip | src/lib/Color.ts:18-55 | `fromHex(toHex(c))` gives back the channels, with alpha rounded to a multiple of 1/255; without alpha, the channels and alpha 1 |
| Colors.HexRoundTripWithinTolerance | src/lib/Color.ts:18-55 | the round trip through hex is `equals` to the original within tolerance 1/510 |
| Colors.ShortHexDoubles | src/lib/Color.ts:19-31 | any three characters read as those characters each written twice: three digits `rgb` as `rrggbb`, and a text holding `#` is an invalid format either way |
| Colors.FromHexRed | src/lib/Color.ts:22-31 | `f00` and `ff0000` are opaque red |
| Colors.FromHexHalfRed | src/lib/Color.ts:32-37 | `#ff000080` is red with alpha 128/255 |
| Colors.FromHexFormat | src/lib/Color.ts:19-39 | a two-digit text and a text with two leading `#` are rejected; only the first `#` is removed, wherever it stands |
| Colors.FromHexSix | src/lib/Color.ts:19-31 | six hex digits of either case, with or without `#`, give the opaque colour of their three byte pairs |
| Colors.FromHexEight | src/lib/Color.ts:19-37 | eight hex digits give the three byte pairs and alpha of the last pair over 255, with or without `#` |
| Colors.FromHexThree | src/lib/Color.ts:22-26 | three hex digits give each digit doubled as a byte |
| Colors.FromHexUpper | src/lib/Color.ts:27-31 | upper-case `#FF0000` is opaque red |
| Colors.FromHexPartialPairs | src/lib/Color.ts:27-42 | `fgfgfg` reads each pair as 15, `-f0000` clamps -15 to 0, and `gg0000` is no colour |
| Colors.Hue | src/lib/Color.ts:68-78 | the hue lies in `[0, 360)` |
| Colors.ToHsv | src/lib/Color.ts:58-84 | hue in `[0, 360)`, saturation and value in 0..1, alpha kept; value is the largest channel over 255; grey colours have hue 0; saturation is 0 exactly for greys |
| Colors.RawHue | src/lib/Color.ts:64-76 | for the largest channel `max` and a positive spread `delta`, the sector formula lies in `[-60, 300]`, and a negative value lifted by 360 lands in `[0, 360)` |
| Colors.SaturationRange | src/lib/Color.ts:80 | `delta / max` lies in 0..1 and is 0 exactly when `delta` is 0 |
| Colors.SectorPermutes | src/lib/Color.ts:92-106 | every sector hands out `c`, `x` and 0, one to each channel |
| Colors.MidWeightBounds | src/lib/Color.ts:89 | the weight of the middle component is at most 1 and takes the sign of the hue |
| Colors.ShiftBytes | src/lib/Color.ts:108-113 | components that stay within 0..1 after the offset are rounded to bytes with no clamping |
| Colors.FromHsv | src/lib/Color.ts:87-114 | the result's alpha is the clamped `a` |
| Colors.FromHsvGrey | src/lib/Color.ts:87-114 | with saturation 0, all three channels equal `round(v * 255)` clamped to 0..255 |
| Colors.FromHsvExtremes | src/lib/Color.ts:87-114 | the largest channel is `round(v * 255)` and the smallest `round((v - v s) * 255)` |
| Colors.HsvRoundTrip | src/lib/Color.ts:58-114 | `fromHsv(toHsv(c))` is `c`, for every colour |
| Colors.SectorRestores | src/lib/Color.ts:69-76 | for a non-grey colour, the hue sector and the mixing weight of `fromHsv` rebuild each channel of `toHsv` |
| Colors.MidWeightPiecewise | src/lib/Color.ts:89 | `1 - abs((h/60) % 2 - 1)` is, on each 60-degree sector, the linear ramp between 0 and 1 |
| Colors.FromHsvRed | src/lib/Color.ts:94-95 | hue 0 at full saturation and value is pure red |
| Colors.FromHsvGreen | src/lib/Color.ts:98-99 | hue 120 is pure green |
| Colors.FromHsvBlue | src/lib/Color.ts:100-101 | hue 240 is pure blue |
| Colors.ToHsvRed | src/lib/Color.ts:70-71 | pure red has hue 0, saturation 1, value 1 |
| Colors.ToHsvGreen | src/lib/Color.ts:72-73 | pure green has hue 120 |
| Colors.ToHsvBlue | src/lib/Color.ts:74-75 | pure blue has hue 240 |
| Colors.SetAlpha | src/lib/Color.ts:116-118 | the channels are kept; alpha becomes `a` clamped to 0..1 |
| Colors.Equals | src/lib/Color.ts:120-127 | equal colours agree on red, green and blue and have a non-negative tolerance; with tolerance 0, `equals` is equality |
| Colors.EqualsReflexive | src/lib/Color.ts:120-127 | every colour equals itself under any non-negative tolerance |
| Colors.EqualsSymmetric | src/lib/Color.ts:120-127 | `equals` is symmetric |
| Colors.EqualsExact | src/lib/Color.ts:120-127 | with the default tolerance 0, `equals` is equality of the four channels |
| Text.RemoveFirst | src/lib/Color.ts:19 | `replace('#', '')` removes one character when there is a `#` and none otherwise, and drops a leading `#` |
| Text.RemoveFirstAt | src/lib/Color.ts:19 | the removed character is the first `#`: before it the text is kept, after it the rest is kept |
| Text.Trim | src/lib/Palette.svelte.ts:133 | the trimmed text neither starts nor ends with white space; text without white space is unchanged |
| Text.TrimUnpadded | src/lib/Palette.svelte.ts:133 | a text that neither starts nor ends with white space trims to itself |
| Text.TrimDropsOnlyPadding | src/lib/Palette.svelte.ts:133 | the trimmed text is a slice `s[i..j]` of the text, and every character before `i` and from `j` on is white space |
| Text.StartsWith | src/lib/Palette.svelte.ts:135-150 | every text starts with the empty string, and a match agrees with the prefix on the first character |
| Text.Split | src/lib/Palette.svelte.ts:133 | at least one part, none containing the separator |
| Text.SplitJoin | src/lib/Palette.svelte.ts:121 | joining the parts with the separator gives the text back |
| Text.SplitCons | src/lib/Palette.svelte.ts:121 | a separator after a separator-free prefix splits that prefix off |
| Text.TokensCons | src/lib/Palette.svelte.ts:162 | the `/\s+/` split of `w rest` is `w`, then the tokens of `rest` |
| Text.TokensBlank | src/lib/Palette.svelte.ts:162 | any white-space character, a tab as well as a space, contributes no token |
| Text.TokensConsBlank | src/lib/Palette.svelte.ts:162 | a word followed by any white-space character, such as the tab before a colour's name, is the first token, followed by the tokens of the rest |
| Text.TokensSingle | src/lib/Palette.svelte.ts:162 | a word without white space is its own single token |
| Text.Tokens | src/lib/Palette.svelte.ts:162 | there are at most as many tokens as characters |
| Text.TokensAreWords | src/lib/Palette.svelte.ts:162 | every token is non-empty and holds no white space |
| Text.DigitRun | src/lib/Palette.svelte.ts:166 | `parseInt` reads the longest run of digits from where the number starts; the character after it is not a digit |
| Text.DigitRunValues | src/lib/Palette.svelte.ts:166 | each digit read is the value of the character at its place |
| Text.SkipSpace | src/lib/Palette.svelte.ts:166 | `parseInt` skips leading white space: the index returned is no earlier than the start and stands on no white space |
| Text.NumeralStart | src/lib/Palette.svelte.ts:166 | the numeral starts inside the text or at its end; its radix is 16, or 10 when the radix is left to `parseInt`; a requested radix 16 is always kept |
| Text.ParseIntRadix | src/lib/Palette.svelte.ts:166-172 | a number is read exactly when a digit of the radix stands where the numeral starts, and then it is the signed value of the longest digit run there |
| Text.ParseIntPrefix | src/lib/Palette.svelte.ts:166 | `parseInt("42abc")` is 42: the digits in front are read and the rest ignored |
| Text.ParseIntSigned | src/lib/Palette.svelte.ts:166 | `parseInt(" -7")` is -7 |
| Text.ParseIntHexPrefix | src/lib/Palette.svelte.ts:166 | `parseInt("0x1F")` is 31 |
| Text.ParseIntNaN | src/lib/Palette.svelte.ts:166-175 | `x7`, `Red5` and the empty text are NaN |
| Text.ParseHexExamples | src/lib/Color.ts:24-37 | `parseInt("fg", 16)` is 15, `parseInt("-f", 16)` is -15 and `parseInt("0x", 16)` is NaN |
| Text.Decimal | src/lib/Palette.svelte.ts:115 | a number prints as decimal digits with no leading zero |
| Text.ParseIntDecimal | src/lib/Palette.svelte.ts:115-121 | `parseInt` reads a printed number back as that number |
| Palettes.DefaultColorsDistinct | src/lib/Palette.svelte.ts:3-36 | the initial palette has 32 opaque colours, no two of them equal |
| Palettes.AnyEqualsIsMembership | src/lib/Palette.svelte.ts:48-50 | `some(existing => existing.equals(c))` holds exactly when `c` is in the palette |
| Palettes.AnyEquals | src/lib/Palette.svelte.ts:49 | the scan succeeds exactly when some entry `equals` the colour with tolerance 0 |
| Palettes.WithColor | src/lib/Palette.svelte.ts:52-56 | after insert-if-absent `c` is present; the palette is unchanged if it already held `c`, otherwise `c` is appended |
| Palettes.WithColorIdempotent | src/lib/Palette.svelte.ts:52-56 | adding the same colour twice is adding it once |
| Palettes.WithColorKeepsDistinct | src/lib/Palette.svelte.ts:52-56 | adding keeps a palette free of duplicates and keeps its existing colours in place |
| Palettes.Luminance | src/lib/Palette.svelte.ts:86-87 | the weighted brightness of a colour lies in 0..255 |
| Palettes.Tiered | src/lib/Palette.svelte.ts:70-83 | the tie-break is 0 exactly when the first two keys are within 0.001 and the third keys are equal |
| Palettes.CompareKeys | src/lib/Palette.svelte.ts:69-92 | an unnamed order gives 0; the luminance order is negative exactly when `a` is brighter; equal keys give 0 |
| Palettes.Compare | src/lib/Palette.svelte.ts:65-93 | a colour compared with itself, or under an unnamed order, gives 0 |
| Palettes.TieredAntisymmetric | src/lib/Palette.svelte.ts:71-83 | swapping the arguments of the tie-break negates it |
| Palettes.CompareAntisymmetric | src/lib/Palette.svelte.ts:65-93 | for every order, `compare(b, a) == -compare(a, b)` |
| Palettes.CompareSame | src/lib/Palette.svelte.ts:65-93 | every colour compares equal to itself |
| Palettes.CompareLuminance | src/lib/Palette.svelte.ts:85-88 | under the luminance order `a` may precede `b` exactly when `a` has the higher luminance |
| Palettes.Insert | src/lib/Palette.svelte.ts:65 | one insertion step adds exactly its element |
| Palettes.StableSort | src/lib/Palette.svelte.ts:65 | sorting is a permutation |
| Palettes.LuminanceComparator | src/lib/Palette.svelte.ts:85-88 | the luminance comparator orders exactly by decreasing luminance |
| Palettes.InsertKeepsLuminanceOrder | src/lib/Palette.svelte.ts:85-88 | inserting into a palette sorted by decreasing luminance keeps it sorted |
| Palettes.SortKeepsLuminanceOrder | src/lib/Palette.svelte.ts:85-88 | sorting with a luminance comparator gives decreasing luminance |
| Palettes.LuminanceSorted | src/lib/Palette.svelte.ts:85-88 | sorting by luminance gives decreasing luminance |
| Palettes.SortOfLuminance | src/lib/Palette.svelte.ts:85-88 | colours of equal luminance keep their relative order under sorting |
| Palettes.LuminanceStable | src/lib/Palette.svelte.ts:85-88 | the luminance sort is stable |
| Palettes.SortKeepsUnmoved | src/lib/Palette.svelte.ts:90-91 | a comparator that never puts the second argument first leaves the palette as it is |
| Palettes.OtherOrderKeepsPalette | src/lib/Palette.svelte.ts:90-91 | an order the `switch` does not name leaves the palette unchanged |
| Palettes.Pixels | src/lib/Palette.svelte.ts:107-111 | a buffer of `4n` bytes holds `n` pixels |
| Palettes.PixelsAt | src/lib/Palette.svelte.ts:107-111 | pixel `k` is bytes `4k` to `4k+3` |
| Palettes.Visible | src/lib/Palette.svelte.ts:113 | the visible pixels are exactly those with alpha 10 or more |
| Palettes.Distinct | src/lib/Palette.svelte.ts:105-116 | the `Set` holds exactly the pixels it was given |
| Palettes.DistinctNoDuplicates | src/lib/Palette.svelte.ts:105-116 | no pixel occurs twice in the `Set` |
| Palettes.DistinctFirstOccurrenceOrder | src/lib/Palette.svelte.ts:105-120 | the `Set` iterates in order of first insertion |
| Palettes.PixelColor | src/lib/Palette.svelte.ts:122 | a pixel's colour keeps its channels and has alpha `a / 255` |
| Palettes.KeyColor | src/lib/Palette.svelte.ts:121-122 | a key decodes to a colour exactly when it has four fields and each of the first four reads as a number |
| Palettes.ImageColors | src/lib/Palette.svelte.ts:107-129 | the generated palette has at most one colour per pixel of the buffer |
| Palettes.SplitKey | src/lib/Palette.svelte.ts:115-121 | the key `${r},${g},${b},${a}` of a pixel splits on `,` into the four numerals it was built from |
| Palettes.DecimalNoComma | src/lib/Palette.svelte.ts:115 | a printed number holds no comma |
| Palettes.SplitFour | src/lib/Palette.svelte.ts:115-121 | four comma-free parts joined by commas split back into those parts |
| Palettes.KeyOfNumerals | src/lib/Palette.svelte.ts:119-122 | four comma-free numerals joined by commas decode to the colour of their numbers |
| Palettes.KeyColorOfPixel | src/lib/Palette.svelte.ts:119-122 | a key whose four fields read as the bytes of a pixel decodes to that pixel's colour |
| Palettes.KeyColorOfParts | src/lib/Palette.svelte.ts:119-122 | a key whose four parts read as numbers decodes to the colour of those numbers |
| Palettes.KeyRoundTrip | src/lib/Palette.svelte.ts:115-122 | reading a pixel key back gives that pixel's colour |
| Palettes.PixelKeyInjective | src/lib/Palette.svelte.ts:115 | different pixels have different keys, so the string `Set` deduplicates pixels |
| Palettes.KeysMembership | src/lib/Palette.svelte.ts:115-116 | a pixel's key is among the keys exactly when the pixel is among the pixels |
| Palettes.ImageColorsDistinct | src/lib/Palette.svelte.ts:96-130 | the generated palette has no duplicates |
| Palettes.ImageColorsExactly | src/lib/Palette.svelte.ts:96-130 | a colour is in the generated palette exactly when some pixel with alpha 10 or more has it |
| Palettes.FaintPixelIgnored | src/lib/Palette.svelte.ts:113 | a pixel with alpha below 10 adds nothing |
| Palettes.CollectPixelKeys | src/lib/Palette.svelte.ts:105-117 | the loop builds the keys of the distinct visible pixels, in first-occurrence order |
| Palettes.AddPixelKey | src/lib/Palette.svelte.ts:108-116 | when the set holds the keys of the distinct visible pixels so far, one step leaves it holding those of the pixels including this one |
| Palettes.VisibleKeysSnoc | src/lib/Palette.svelte.ts:113-116 | one more pixel adds its key when it is visible and its key is new, and nothing otherwise |
| Palettes.ColorsFromKeys | src/lib/Palette.svelte.ts:119-123 | the second loop turns each key into its pixel's colour, in `Set` order |
| Palettes.Lines | src/lib/Palette.svelte.ts:133 | the surviving lines are non-empty |
| Palettes.NonEmptyTrimmed | src/lib/Palette.svelte.ts:133 | trimming and filtering never adds lines, and keeps only non-empty ones |
| Palettes.ScanChannels | src/lib/Palette.svelte.ts:140-152 | the line colours start at is at least 1 and at most the number of lines (or 1 for an empty list), and a start other than 1 lies past the first line scanned |
| Palettes.ScanChannelsFirst | src/lib/Palette.svelte.ts:143-152 | the first `Channels:` line decides the scan: alpha is on exactly when it declares `RGBA`, and colours start on the next line |
| Palettes.ScanChannelsNone | src/lib/Palette.svelte.ts:140-152 | without a `Channels:` line among lines 1 to 4, alpha is off and colours start at line 1 |
| Palettes.ScanChannelLines | src/lib/Palette.svelte.ts:140-152 | the loop with its `break` computes the scan |
| Palettes.AlphaToken | src/lib/Palette.svelte.ts:170-173 | the alpha is the number read from the token, clamped to 0..255, over 255; it lies in 0..1 |
| Palettes.ParseLine | src/lib/Palette.svelte.ts:158-178 | comments and lines of fewer than three tokens give no colour; without an alpha token to read, alpha is 1 |
| Palettes.GplOpaqueLine | src/lib/Palette.svelte.ts:160-176 | a line `r g b name` of bytes parses to exactly that opaque colour |
| Palettes.GplAlphaLine | src/lib/Palette.svelte.ts:160-176 | in an RGBA file, a line `r g b a name` of bytes parses to that colour with alpha `a / 255` |
| Palettes.OpaqueFields | src/lib/Palette.svelte.ts:160-176 | three byte-valued fields followed by any rest give the opaque colour of those three bytes |
| Palettes.AlphaFields | src/lib/Palette.svelte.ts:160-176 | with alpha on, four fields with byte values, the fourth read as that byte over 255, give the colour of the first three with that alpha |
| Palettes.AlphaTokenDecimal | src/lib/Palette.svelte.ts:172 | the alpha token of a byte reads as that byte over 255 |
| Palettes.ParseLineAlpha | src/lib/Palette.svelte.ts:162-176 | in an RGBA file, a line whose first three tokens read as bytes and whose fourth token reads as byte `a` gives alpha `a / 255` |
| Palettes.ParseLineOpaque | src/lib/Palette.svelte.ts:162-176 | a line whose first three tokens read as bytes, with no alpha token to read, gives that opaque colour |
| Palettes.ReadParts | src/lib/Palette.svelte.ts:164-176 | fewer than three tokens give no colour; without an alpha token to read, alpha is 1 |
| Palettes.ReadColor | src/lib/Palette.svelte.ts:166-176 | a colour exactly when all three channels hold a number, and then the three numbers each clamped to 0..255, with the given alpha |
| Palettes.ReadBytes | src/lib/Palette.svelte.ts:166-176 | three bytes are kept as they are by the clamping |
| Palettes.ReadPartsAlpha | src/lib/Palette.svelte.ts:166-173 | four tokens, the first three bytes, give those bytes with the fourth as alpha |
| Palettes.ByteField | src/lib/Palette.svelte.ts:166-172 | a byte's numeral is a single token that reads back as the byte, and as alpha as the byte over 255 |
| Palettes.ClampedFields | src/lib/Palette.svelte.ts:162-176 | three numeric fields of any size give the colour of the three numbers clamped to 0..255 |
| Palettes.ClampedLine | src/lib/Palette.svelte.ts:166-168 | the line `300 -5 128 name` gives the colour (255, 0, 128) |
| Palettes.ParseInt300 | src/lib/Palette.svelte.ts:166 | `parseInt("300")` is 300 |
| Palettes.ParseIntMinus5 | src/lib/Palette.svelte.ts:167 | `parseInt("-5")` is -5 |
| Palettes.ParseInt128 | src/lib/Palette.svelte.ts:168 | `parseInt("128")` is 128 |
| Palettes.Found | src/lib/Palette.svelte.ts:175-178 | a parsed line adds exactly its colour, and an unparsed line adds nothing |
| Palettes.ParsedColors | src/lib/Palette.svelte.ts:157-182 | the parsed lines give at most one colour per line |
| Palettes.ParsedColorsSplit | src/lib/Palette.svelte.ts:157-182 | parsing a run of lines is parsing its first part, then the rest |
| Palettes.ParsedColorsKeepDuplicates | src/lib/Palette.svelte.ts:176 | a colour listed twice is loaded twice: the loader does not deduplicate |
| Palettes.ParseColorLines | src/lib/Palette.svelte.ts:154-182 | the colour-line loop collects the colours of the lines from the start index on, and counts them |
| Palettes.ParseGpl | src/lib/Palette.svelte.ts:132-194 | an accepted file has a `GIMP Palette` first line and at least one colour |
| Palettes.GplEmptyRejected | src/lib/Palette.svelte.ts:135-138 | an empty text is rejected |
| Palettes.SingleLineRejected | src/lib/Palette.svelte.ts:135-187 | a text with a single non-empty line holds no colour and is rejected |
| Palettes.GplHeaderOnlyRejected | src/lib/Palette.svelte.ts:133-187 | a text without a line break, such as a bare header, is rejected |
| Palettes.OneColorFile | src/lib/Palette.svelte.ts:132-194 | a header line and one line `r g b name` of bytes load as the palette holding that one opaque colour |
| Palettes.OneLineFile | src/lib/Palette.svelte.ts:132-194 | a header and one unpadded colour line that is no `Channels:` line load as that line's colour |
| Palettes.TwoLines | src/lib/Palette.svelte.ts:133 | two lines without breaks or surrounding white space are exactly the lines of the text that joins them with a break |
| Palettes.HeaderAndLine | src/lib/Palette.svelte.ts:135-190 | a file whose lines are the header and one colour line that is no `Channels:` line is accepted with that colour |
| Palettes.Palette.constructor | src/lib/Palette.svelte.ts:3-38 | the store starts with the 32 default colours and auto-add on |
| Palettes.Palette.GetAutoAddColor | src/lib/Palette.svelte.ts:40-42 | returns the flag |
| Palettes.Palette.ToggleAutoAddColor | src/lib/Palette.svelte.ts:44-46 | flips the flag and leaves the colours alone |
| Palettes.ToggleTwice | src/lib/Palette.svelte.ts:44-46 | toggling twice restores the whole state |
| Palettes.Palette.HasColor | src/lib/Palette.svelte.ts:48-50 | true exactly when an equal colour is in the palette |
| Palettes.Palette.AddColor | src/lib/Palette.svelte.ts:52-56 | the new palette is insert-if-absent of `c`; the flag is unchanged |
| Palettes.AddTwice | src/lib/Palette.svelte.ts:52-56 | two `addColor` calls with one colour act as one |
| Palettes.Palette.ClearPalette | src/lib/Palette.svelte.ts:58-60 | the palette becomes empty |
| Palettes.Palette.SortPalette | src/lib/Palette.svelte.ts:64-94 | the palette becomes the stable sort of itself under the order's comparator, a permutation of the old one |
| Palettes.Palette.GeneratePaletteFromImage | src/lib/Palette.svelte.ts:96-130 | the palette becomes the distinct visible colours of the buffer, and their number is returned |
| Palettes.Palette.LoadFromGpl | src/lib/Palette.svelte.ts:132-194 | returns true exactly when the text is a valid palette, and then the palette becomes its colours; otherwise nothing changes |
| Images.Transparent | src/lib/Image.ts:15 | new pixels are black with alpha 0 |
| Images.Image.constructor | src/lib/Image.ts:9-16 | a grid of `max(0, h)` rows by `max(0, w)` columns, all transparent black |
| Images.Image.GetPixel | src/lib/Image.ts:18-23 | a colour exactly for coordinates inside the image, and then the one stored there |
| Images.Image.SetPixel | src/lib/Image.ts:25-29 | the target pixel becomes `c` and no other pixel changes; outside the image nothing changes |
| Images.NewImageIsClear | src/lib/Image.ts:9-23 | a new image reads transparent black inside and nothing outside |
| Images.SetThenGet | src/lib/Image.ts:18-29 | after `setPixel`, `getPixel` at that place gives the new colour, and at every other place what it gave before |

## Left out

- `toCssRgba` (`src/lib/Color.ts:45-47`) is a display string with exactly the fields of the colour; it is not modelled.
- `Colors.FromHex`: a pair that holds no hex number at its front, after optional white space and a sign (such as `gg` or `0x`), makes `parseInt(…, 16)` return NaN, so the source builds a colour with a NaN channel, or NaN alpha when it is the fourth pair. The model returns `Err(BadDigit)` for it instead, because there is no NaN in exact arithmetic. A pair with a number at its front is read as the source reads it: `fg` gives 15 and `-f` gives -15, which the colour then clamps to 0.
- `Colors.FromHex`: the length test counts characters, where JavaScript counts UTF-16 code units. A text with a character outside the Basic Multilingual Plane, such as `a😀`, has length 3 in the source and 2 here.
- `Palettes.AlphaToken`: a fourth token in an RGBA file that does not start with a number (such as `x7` or `Red5`) makes the source's alpha NaN. The model reads it as alpha 1.
- The IEEE-754 double effects (rounding of `/ 255`, of `0.299 r + …`, of the HSV arithmetic) are not modelled. All arithmetic is exact, so `Colors.HsvRoundTrip` holds exactly here, where floating point could be off by rounding.
- `Colors.Shift` and `Colors.MidWeight` carry no contract of their own: their ranges and the exact bytes they give are stated by the lemmas `Colors.MidWeightBounds`, `Colors.MidWeightPiecewise` and `Colors.ShiftBytes`, which keep those facts out of the proofs that only need the definitions.
- `parseInt` is modelled with leading white space, an optional sign, an optional `0x`/`0X` prefix in the automatic and hex radices, and the longest digit prefix. Values too large for a double and the other radices are not modelled. In the pixel keys, `Number` is modelled by the same reader: it agrees with `parseInt` on the decimal numerals a key holds.
- `Palettes.StableSort`: `Array.prototype.sort` (TimSort in current engines) is replaced by a stable insertion sort with the same comparator. Both are stable, so they agree whenever the comparator is consistent, as the luminance order is. Sortedness is proved for the luminance order. For hue, value and saturation, only the permutation property and the comparator's antisymmetry are proved, because their 0.001 tolerance makes the comparator intransitive.
- `generatePaletteFromImage` takes the canvas's RGBA bytes as a parameter. The canvas, `getContext`, `getImageData`, the missing-context path returning 0 and the `console` output are left out.
- `loadFromGpl`: the `try`/`catch` is left out, since nothing in the loop body throws in the model. The `console` messages are left out too.
- Svelte's `$state` reactivity is not modelled: the palette and the flag are plain fields of one `Palette` object.
- The `.gpl` writer, the drawing tools, the editor state, internationalisation and the non-reactive `Palette.ts` are not part of this model.
- `Images.Image`: the coordinates are integers. A fractional coordinate in the source indexes a missing array element. The `pixels` field is never `undefined` here, because it is always set by the constructor.
