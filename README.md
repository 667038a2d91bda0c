# PolyLineEncoder in Dafny

A model of the `PolyLineEncoder` class of the PolyLine library, a C#
implementation of Google's Encoded Polyline Algorithm Format, with proofs of
what its encoder and decoder do.

The model covers:

- **Precision.** The setter accepts 0..9 and derives the scale factor
  10^precision. Any other value fails with `ArgumentOutOfRange`, and neither
  field changes.
- **Encoder.** `Compress` writes the code of one delta, and
  `EncodeLineString`, `Encode(IPosition)` and `Encode(LineString)` build a
  line's code from those.
  - Each axis is coded against the same axis of the previous position. The
    first position is coded against 0.
  - The delta is zig-zag mapped, then written as 5-bit groups, least
    significant first. Each group is offset by 63, and every group but the
    last carries the continuation bit 0x20.
- **Decoder.** `Decompress` reads one value through a cursor, and
  `DecodeString`/`Decode` turn a string into positions as running sums.

Everything is stated in the quantized domain. A position is a pair of
integers, the degrees already multiplied by the factor and rounded. Decoded
values are integers too, or `NaN`.

The project has five modules:

- `Bits` (`bits.dfy`): the 32-bit `int` operations of the decoder's
  accumulator. A 32-bit value is kept as its bit pattern, a number in
  [0, 2^32). `|` and `<<` are defined on that pattern, and the shift count is
  taken modulo 32 as in C#.
- `PolyLineFormat` (`format.dfy`): the functions the class is proved against,
  with their properties:
  - `ZigZag` and `Emit`: the code of one delta.
  - `ReadGroups`, `Finish` and `ValueAt`: what `Decompress` reads.
  - `ReadPoint`, `DecodeFrom` and `PointsOf`: what `DecodeString` returns.
  - `Codes` and `LineCode`: what the encoder returns.
- `PolyLine` (`polyline_encoder.dfy`): the class itself.
  - It has the fields `precision` and `factor`.
  - The setter is a `modifies this` method.
  - `Compress` fills a character array in a loop.
  - `EncodeLineString` appends in a loop.
  - `Decompress` and `DecodeString` are loops with a cursor.
  - Each method is proved equal to its function above.
- `PolyLineCorrected` (`polyline_corrected.dfy`): the decoder with the two
  defects below removed, and the proof that it undoes the encoder.
- `PolyLineVectors` (`polyline_vectors.dfy`): the published codes at
  precision 5, and the concrete inputs behind the findings.

The model follows the code where the format's own description differs from
it:

- The decoder does not invert the zig-zag map.
- The decoder skips a character after every position.
- Deltas are 32-bit, with no 64-bit arithmetic.

Both decoder defects are listed under Findings.

## Model

| member | source | states |
|---|---|---|
| PolyLine.PolyLineEncoder.constructor | PolyLineEncoder/PolyLineEncoder.cs:17-19 | the parameterless constructor sets precision 5 and factor 100000, and the encoder is valid |
| PolyLine.PolyLineEncoder.Create | PolyLineEncoder/PolyLineEncoder.cs:25-28 | succeeds exactly when the precision is in 0..9, with a fresh valid encoder of that precision; otherwise fails with ArgumentOutOfRange |
| PolyLine.PolyLineEncoder.SetPrecision | PolyLineEncoder/PolyLineEncoder.cs:37-46 | succeeds exactly for 0..9 and then sets precision to the value and factor to 10^value; otherwise both fields keep their old values |
| PolyLine.PolyLineEncoder.CalculateFactor | PolyLineEncoder/PolyLineEncoder.cs:203 | the factor is 10^precision, between 1 and 10^9, so it fits a 32-bit int |
| PolyLine.PolyLineEncoder.Compress | PolyLineEncoder/PolyLineEncoder.cs:127-147 | the characters written are exactly the code of the zig-zag image of current - previous; a 7-character buffer is never overrun |
| PolyLine.PolyLineEncoder.EncodeLineString | PolyLineEncoder/PolyLineEncoder.cs:96-125 | returns LineCode: "" for no positions, ArgumentOutOfRange if any position is outside [-180, 180], else the concatenated codes |
| PolyLine.PolyLineEncoder.Encode | PolyLineEncoder/PolyLineEncoder.cs:56-65 | equals the line code of the one-position line, which LineCodeOnePoint shows is the latitude code against 0 followed by the longitude code against 0 |
| PolyLine.PolyLineEncoder.EncodeLine | PolyLineEncoder/PolyLineEncoder.cs:74-80 | encodes the line at the encoder's own factor |
| PolyLine.PolyLineEncoder.LowPrecisionNoOverflow | PolyLineEncoder/PolyLineEncoder.cs:129-133 | at a precision of at most 6, the default 5 included, no line of valid positions overflows the 32-bit doubling, so Encode and EncodeLine accept every line |
| PolyLine.PolyLineEncoder.Decompress | PolyLineEncoder/PolyLineEncoder.cs:174-201 | the value and the cursor the 32-bit loop leaves are those of ValueAt |
| PolyLine.PolyLineEncoder.DecodeString | PolyLineEncoder/PolyLineEncoder.cs:149-172 | the list of points the loop builds is PointsOf of the input |
| PolyLine.PolyLineEncoder.Decode | PolyLineEncoder/PolyLineEncoder.cs:88-94 | returns the points DecodeString returns |
| Bits.Or32 | PolyLineEncoder/PolyLineEncoder.cs:185 | the bitwise or of the accumulator and a shifted group, on 32-bit patterns, is again a 32-bit pattern |
| Bits.Shl32 | PolyLineEncoder/PolyLineEncoder.cs:185 | `x << shift` with the count taken modulo 32 is a 32-bit pattern |
| Bits.OrShiftAdd | PolyLineEncoder/PolyLineEncoder.cs:185 | or-ing a group shifted above the bits gathered so far adds it, as long as nothing passes bit 30 |
| PolyLineFormat.IsValidCoordinate | PolyLineEncoder/PolyLineEncoder.cs:204 | a value in [-180, 180] degrees at a factor of at most 10^6 has its double strictly inside (-2^30, 2^30) |
| PolyLineFormat.ZigZag | PolyLineEncoder/PolyLineEncoder.cs:132-135 | the mapped value is odd exactly when the delta is negative, and stays below 2^31 for a delta whose doubling fits an int |
| PolyLineFormat.Emit | PolyLineEncoder/PolyLineEncoder.cs:139-146 | every code has at least one character |
| PolyLineFormat.EmitShape | PolyLineEncoder/PolyLineEncoder.cs:139-145 | every character is in [63, 126]; all but the last have code-63 >= 32, the last has code-63 < 32 |
| PolyLineFormat.EmitGroupsValue | PolyLineEncoder/PolyLineEncoder.cs:139-145 | the 5-bit groups of a code, read least significant first, give back the value coded |
| PolyLineFormat.EmitAtMostSeven | PolyLineEncoder/PolyLineEncoder.cs:137-145 | a zig-zag value below 2^31 takes at most seven characters |
| PolyLineFormat.Raw | PolyLineEncoder/PolyLineEncoder.cs:183-184 | subtracting 63 from a 16-bit character wraps modulo 2^16: a character from '?' on gives its code minus 63, one below '?' gives a value with the continuation bit 0x20 set |
| PolyLineFormat.ReadGroups | PolyLineEncoder/PolyLineEncoder.cs:179-192 | the accumulator stays a 32-bit pattern; the cursor moves forward and never past the end, and is at the end when the input runs out |
| PolyLineFormat.Finish | PolyLineEncoder/PolyLineEncoder.cs:194-199 | complement-if-negative then shift right always yields a value in [0, 2^30) |
| PolyLineFormat.ValueAt | PolyLineEncoder/PolyLineEncoder.cs:174-200 | a value read is never negative; the cursor moves forward within the input; at the end of input the result is NaN with the cursor unmoved |
| PolyLineFormat.ReadEmitted | PolyLineEncoder/PolyLineEncoder.cs:179-192 | reading a code in place adds the coded value at the current shift and moves the cursor past the code |
| PolyLineFormat.ReadCode | PolyLineEncoder/PolyLineEncoder.cs:179-192 | started on a code, the reader gathers exactly the value coded and stops right after it |
| PolyLineFormat.ZigZagHalf | PolyLineEncoder/PolyLineEncoder.cs:199 | shifting a zig-zag value right by one gives d for d >= 0 and -d-1 for d < 0 |
| PolyLineFormat.DecompressOnCompress | PolyLineEncoder/PolyLineEncoder.cs:174-200 | on the code Compress writes for d, Decompress moves the cursor by exactly the code's length and returns d if d >= 0 and -d-1 if d < 0 |
| PolyLineFormat.ReadGroupsOutOfInput | PolyLineEncoder/PolyLineEncoder.cs:179-192 | the reader runs out of input if and only if every remaining character has the continuation bit set |
| PolyLineFormat.DecompressNaN | PolyLineEncoder/PolyLineEncoder.cs:179-192 | Decompress returns NaN if and only if the input ends before a character with code-63 < 32, and the cursor is then at the end |
| PolyLineFormat.ReadGroupsAgree | PolyLineEncoder/PolyLineEncoder.cs:179-192 | the reader looks at no character at or after the cursor it returns |
| PolyLineFormat.NextPoint | PolyLineEncoder/PolyLineEncoder.cs:161-168 | the first point is the deltas themselves; a later point is NaN on an axis exactly when that delta or the previous point's value is NaN, and otherwise is their sum |
| PolyLineFormat.ReadPoint | PolyLineEncoder/PolyLineEncoder.cs:154-158 | one pass of the loop body moves the cursor forward and not past the end |
| PolyLineFormat.DecodeFrom | PolyLineEncoder/PolyLineEncoder.cs:152-169 | points already in the list are kept and only appended to |
| PolyLineFormat.DecodeFromSums | PolyLineEncoder/PolyLineEncoder.cs:152-169 | one point per pass, in order; each point is the previous point plus the deltas read in its pass, or the deltas themselves for the first |
| PolyLineFormat.PassesCount | PolyLineEncoder/PolyLineEncoder.cs:152-158 | each pass consumes at least two characters, the skipped one included, so there are at most half as many points as characters, rounded up |
| PolyLineFormat.DecodeFromStep | PolyLineEncoder/PolyLineEncoder.cs:152-169 | after one pass the loop continues one character past where the pass stopped |
| PolyLineFormat.ReadPointAgree | PolyLineEncoder/PolyLineEncoder.cs:154-158 | one pass reads no character at or after the cursor it returns |
| PolyLineFormat.DecodeFromLocal | PolyLineEncoder/PolyLineEncoder.cs:152-169 | what the loop returns from cursor i depends only on the characters from i on |
| PolyLineFormat.SkippedCharacterIgnored | PolyLineEncoder/PolyLineEncoder.cs:152-158 | the character right after a position's longitude code is never read: replacing it changes nothing decoded |
| PolyLineFormat.ReadPointBoth | PolyLineEncoder/PolyLineEncoder.cs:154-156 | a pass with input left after the latitude reads a longitude from where the latitude ended |
| PolyLineFormat.ReadPointLast | PolyLineEncoder/PolyLineEncoder.cs:155-158 | a pass whose latitude reaches the end of the input gets a NaN longitude |
| PolyLineFormat.DecodeOnePass | PolyLineEncoder/PolyLineEncoder.cs:152-169 | a string whose first pass reads it to its end decodes to that one point |
| PolyLineFormat.DecodeOnePoint | PolyLineEncoder/PolyLineEncoder.cs:149-172 | the code of one position decodes to one point, each negative delta d turned into -d-1 |
| PolyLineFormat.DecodeMissingLongitude | PolyLineEncoder/PolyLineEncoder.cs:155-158 | a string ending after a latitude code decodes to one point with a NaN longitude |
| PolyLineFormat.SmallFactorNoOverflow | PolyLineEncoder/PolyLineEncoder.cs:132-133 | up to precision 6 no valid line has a delta whose doubling overflows an int |
| PolyLineFormat.CodesPrefix | PolyLineEncoder/PolyLineEncoder.cs:105-121 | the code of a longer line starts with the code of any of its prefixes |
| PolyLineFormat.CodesPrintable | PolyLineEncoder/PolyLineEncoder.cs:105-121 | every character of a line's code is in [63, 126] |
| PolyLineFormat.LineCodeOnePoint | PolyLineEncoder/PolyLineEncoder.cs:64 | a valid single position is coded as Compress(lat, 0) followed by Compress(lon, 0) |
| PolyLineFormat.LineCodeAppend | PolyLineEncoder/PolyLineEncoder.cs:109-122 | appending a valid position appends its codes against the last position and leaves the earlier code unchanged |
| PolyLineFormat.CodesSamePrefix | PolyLineEncoder/PolyLineEncoder.cs:109-122 | the code of the first n positions depends on those positions only |
| PolyLineFormat.CodesNext | PolyLineEncoder/PolyLineEncoder.cs:117-121 | one more position adds its latitude code, then its longitude code, each against the previous position |
| PolyLineFormat.LineCodeRejects | PolyLineEncoder/PolyLineEncoder.cs:102-103 | a position outside [-180, 180] anywhere in the line makes the whole call fail with ArgumentOutOfRange |
| PolyLineFormat.DeltasTelescope | PolyLineEncoder/PolyLineEncoder.cs:117-121 | on each axis the first n deltas add up to the n-th position |
| PolyLineCorrected.UnZigZag | PolyLineEncoder/PolyLineEncoder.cs:194-199 | the intended decode step: its result maps back to the value read under ZigZag, and it is negative exactly for odd values |
| PolyLineCorrected.UnZigZagOfZigZag | PolyLineEncoder/PolyLineEncoder.cs:132-135 | undoing the zig-zag map gives back every delta |
| PolyLineCorrected.ValueAtCorrected | PolyLineEncoder/PolyLineEncoder.cs:174-200 | the corrected read moves the cursor exactly as Decompress does and is NaN exactly when Decompress is |
| PolyLineCorrected.ValueAtCorrectedOnCode | PolyLineEncoder/PolyLineEncoder.cs:174-200 | on the code of d the corrected read returns d and moves past the code |
| PolyLineCorrected.ReadPointCorrected | PolyLineEncoder/PolyLineEncoder.cs:154-158 | one corrected pass moves the cursor forward and not past the end |
| PolyLineCorrected.DecodeCorrectedFrom | PolyLineEncoder/PolyLineEncoder.cs:152-169 | the corrected loop only appends to the points it has |
| PolyLineCorrected.ReadPointOnCodes | PolyLineEncoder/PolyLineEncoder.cs:154-158 | a corrected pass on the codes of a and b reads a and b and stops right after them |
| PolyLineCorrected.ReadPointOnCode | PolyLineEncoder/PolyLineEncoder.cs:117-121 | a corrected pass at a position's code in a line's code reads that position's deltas and stops where the next code starts |
| PolyLineCorrected.DecodeCorrectedRest | PolyLineEncoder/PolyLineEncoder.cs:149-172 | decoding the rest of a line's code after n positions yields the whole line |
| PolyLineCorrected.DecodeCorrectedRoundTrip | PolyLineEncoder/PolyLineEncoder.cs:96-125 | the corrected decoder returns exactly the positions of any line the encoder accepts, in order |
| PolyLineVectors.EncodeStartVector | PolyLineEncoderTest/EncoderTest.cs:13-14 | (38.5, -120.2) at precision 5 encodes to the published ten-character code StartCode |
| PolyLineVectors.EncodeLineVector | PolyLineEncoderTest/EncoderTest.cs:27-35 | the three-position line at precision 5 encodes to the published 27-character code LineCodeText |
| PolyLineVectors.DecodeStartVector | PolyLineEncoder/PolyLineEncoder.cs:149-172 | StartCode decodes to the single point (3850000, 12019999): the longitude loses its sign |
| PolyLineVectors.DecodeLineVector | PolyLineEncoderTest/EncoderTest.cs:48-50 | the line's code decodes to (3850000, 12019999), (3856875, 12094998), (3864850, 12645297), which differs from the line encoded |
| PolyLineVectors.DecodeLineVectorCorrected | PolyLineEncoderTest/EncoderTest.cs:41-49 | the corrected decoder returns the three positions of the line exactly |
| PolyLineVectors.NegativeDeltaCounterexample | PolyLineEncoder/PolyLineEncoder.cs:194-199 | the code of delta -1 is "@", and Decompress reads it as 0 |
| PolyLineVectors.SkipCounterexample | PolyLineEncoder/PolyLineEncoder.cs:152 | (0,0),(1,1) at factor 1 encodes to "??AA", which decodes to (0,0),(1,NaN); the corrected decoder returns (0,0),(1,1) |

## Left out

- Floating point is not modelled: the `Math.Round` quantization (lines 129-130), `Math.Pow` (line 203, replaced by an integer power), the division by the factor (line 200) and the double sums of the decoder (lines 164-165). Positions are given, and returned, as integers in the quantized domain. The decoder's `double.NaN` is the `NaN` of `Number`, and NaN plus anything is NaN.
- PolyLineFormat.IsValidCoordinate: the bound is checked on the quantized value, -180·factor <= q <= 180·factor. The source checks the double before rounding. The two differ only for values within half a unit of ±180.
- PolyLine.PolyLineEncoder.Compress: requires that 2·(current - previous) fits a 32-bit int. The source's `(int)` cast and `<<= 1` (lines 132-133) overflow otherwise, and that overflow is not modelled. SmallFactorNoOverflow shows the requirement always holds up to precision 6.
- PolyLine.PolyLineEncoder.EncodeLineString: requires that every delta of the positions up to the first invalid one fits, for the same reason.
- PolyLine.PolyLineEncoder.Encode: requires that a position inside [-180, 180] has values whose doubling fits a 32-bit int, for the same reason; a position outside the range is rejected before any arithmetic, as in the source.
- PolyLine.PolyLineEncoder.EncodeLine: the same requirement, through EncodeLineString.
- PolyLine.PolyLineEncoder.Compress: the buffer is `stackalloc char[5 + factor]` in the source (line 137) and a 7-character array here. EmitAtMostSeven shows seven characters always suffice.
- PolyLine.PolyLineEncoder.Decode: the encoder's factor is not used, because decoded values stay in the quantized domain. The source divides each value by the factor.
- The decoder's 32-bit shift wrap-around (line 185) is modelled exactly. The round-trip proofs cover codes of at most seven characters whose value stays below 2^31, which are the codes the encoder can write.
- GeoJSON.Net's `IPosition`, `Position` and `LineString` are replaced by `Point` (a latitude and a longitude) and sequences of points.
- The null-argument checks and `ArgumentNullException` (lines 58-59, 76-77, 90-91) are not modelled: Dafny values are never null.
- Exception message texts are not modelled. The texts disagree with the checks they report (lines 41 and 62 against lines 39 and 204). Exceptions are the `Failure(ArgumentOutOfRange)` of a `Result`.
- PolyLineFormat.Raw: strings are sequences of Unicode scalar values, while a C# `string` is a sequence of UTF-16 code units. A character above U+FFFF is read here as one character, where the source reads its two surrogate units; a lone surrogate cannot be represented at all. The codes the encoder writes are all in [63, 126], so the encode and decode results proved here are not affected.
- The `Precision` getter (line 36) is the field `precision`.

## Findings

| source | as written | input that shows it | evidently intended | confidence | as-written member | corrected member |
|---|---|---|---|---|---|---|
| PolyLineEncoder/PolyLineEncoder.cs:194-199 | the accumulator is complemented only if it is negative as an int, then shifted right, so the low bit that marks a negative delta is dropped and the code of d < 0 reads back as -d-1 | "@", the code of delta -1, decodes to 0 | an odd value u decodes to -(u >> 1) - 1 and an even one to u >> 1, so "@" decodes to -1 | not executed | PolyLineVectors.NegativeDeltaCounterexample | PolyLineCorrected.ValueAtCorrectedOnCode |
| PolyLineEncoder/PolyLineEncoder.cs:152 | the `for` loop's `i++` moves one character further after `Decompress` has already left `i` on the next unread character | positions (0,0),(1,1) at factor 1 encode to "??AA", which decodes to (0,0),(1,NaN) | the next pass starts where the previous longitude ended, so "??AA" decodes to (0,0),(1,1) | not executed | PolyLineVectors.SkipCounterexample | PolyLineCorrected.DecodeCorrectedRoundTrip |
