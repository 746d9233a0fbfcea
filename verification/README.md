# wambo: a verified model of the input decoder and the output formatting

wambo is a command-line tool. It takes one token, such as `-0xFMib`, `0b1000_0000` or `12gb`. It reads the token as a number and prints that number in several interpretations: numeral systems, the 64-bit pattern, integer casts, IEEE-754 readings and byte sizes. This project models three parts of wambo in Dafny and proves properties of them:

- The current input decoder (`src/parse/mod.rs`, `unit.rs`, `ns.rs`, `sign.rs`), modules `Parse`, `ParseUnit`, `ParseNs`, `ParseSign` and `ParseErrors`.
  - A token is normalised: trimmed, every `_` deleted, lowercased.
  - It is then cut by the grammar `^(-)?(0[box])?([0-9a-f]+)([a-z]{1,4})?$` into four groups.
  - Each group is resolved: the sign, the numeral system, the unit from a suffix table, and the digits into a `u64` in the numeral system's radix.
  - The unit is kept beside the value and is not applied to it.
  - The regular expression is modelled by a scanner. `Parse.SplitIsLeftmostFirst` and `Parse.SplitSucceedsIffGrammar` prove that the scanner takes the groups a leftmost-first engine takes, and succeeds exactly on the grammar's language.
  - The `unwrap` of `from_str_radix` in `Parsed::new` panics on digits invalid in the radix and on values of 2^64 or more. The model makes this an explicit `Panicked` outcome.
- The first generation of the decoder (`src/parse.rs`), module `LegacyParse`.
  - It has no sign and no octal, and a fixed list of unit suffixes. It folds the unit factor into the value.
  - Its `usize` is taken as 64 bits wide.
  - It has two quirks:
    - The token `0b` passes the validity check but finds no digits after its marker, so it panics.
    - In `0bkb` the letter `b` is searched out as a binary digit, so it panics too (`LegacyParse.BareBinMarkerExamples`).
  - On every valid input without that quirk, the current decoder reads the same groups: its outcome is `Parsed::new` of the same digits, system and unit with a positive sign (`LegacyParse.CurrentParseOfValidInput`). That outcome may itself be a panic, as for `12b`.
- The output side (`src/print/mod.rs`, `src/print/fraction_fmt.rs`), modules `Print`, `FractionFmt` and `Radix`.
  - Six output groups of key/value lines. The numeral-system, bit-pattern and integer-cast texts are computed and proved to read back as the value.
  - The layout loop of `pretty_print`, as a method that returns the rows it would print. It is proved to align every value column.
  - The decimal-point alignment of two formatted fractions.
    - `fractional_part_count_zeroes` counts every `0` of a fraction, not only the trailing ones. `fractional_part_remove_zeroes` then cuts that many characters off the end, so `"1020"` becomes `"10"`. The model keeps this behaviour (`FractionFmt.RemoveZeroesCutsInnerZero`).
    - The unit test at `src/print/fraction_fmt.rs:199-200` expects `(" 2.5")` and `("2.13")`. The code produces `("2  ", "2.5")` and `("2.123", "2.12 ")`. The model follows the code (`FractionFmt.AlignExamples`, `FractionFmt.AlignExamples2`).

`Common` holds the shared vocabulary: `Option`, `Result`, the `u64` range, and the ASCII string operations (`trim`, `replace`, `to_lowercase`). `Radix` holds `from_str_radix`, the `format!` radix conversions, zero padding and decimal integer texts.

## Model

| member | source | states |
|---|---|---|
| Radix.Accumulate | src/parse/mod.rs:112-117 | Folding the digits succeeds exactly when every digit is valid in the radix and the value stays below 2^64. The result is then the positional value. |
| Radix.FromStrRadix | src/parse/mod.rs:112-117 | `from_str_radix` / `parse::<u64>` is `Ok` exactly for a non-empty text of valid digits whose value is below 2^64. `Ok` holds that value, and the empty text is the `Empty` error. |
| Radix.ToRadix | src/print/mod.rs:28-43 | The `{}`/`{:b}`/`{:o}`/`{:x}` text has at least one digit. It has a leading `0` exactly for zero, a single digit exactly below the radix, and only lowercase hex digits. |
| Radix.ToRadixRoundTrip | src/print/mod.rs:28-43 | The printed digits are valid in the radix and their value is the number. |
| Radix.ToRadixFromStrRadix | src/print/mod.rs:28-43 | `from_str_radix` reads the printed digits back as the number. |
| Radix.ToRadixLength | src/print/mod.rs:58-63 | A number below radix^k prints in at most k digits, so the fixed widths never cut digits off. |
| Radix.ZeroPad | src/print/mod.rs:58-63 | `{:064b}`/`{:016x}` padding gives length max(digits, width): zeros, then the digits unchanged. |
| Radix.ValueOfLeadingZeros | src/print/mod.rs:58-63 | Leading zeros change neither the validity nor the value of a digit string. |
| Radix.FormatInt | src/print/mod.rs:74-105 | The `{}` text of an integer has at least one character and starts with `-` exactly when the integer is negative (read back by `FormatIntRoundTrip`). |
| Radix.FormatIntRoundTrip | src/print/mod.rs:69-108 | The decimal text of any integer, negative ones included, reads back as that integer. |
| ParseSign.FromInput | src/parse/sign.rs:41-47 | The sign is `Negative` exactly when the group is the text `-` (inverse of the glyph, `FromInputInvertsGlyph`). |
| ParseSign.IsPos | src/parse/sign.rs:50-54 | `is_pos` holds exactly of `Positive`. |
| ParseSign.IsNeg | src/parse/sign.rs:57-61 | `is_neg` holds exactly of `Negative`. |
| ParseSign.FromInputInvertsGlyph | src/parse/sign.rs:41-47 | `from_input` reads the display text of each sign back as that sign. Every text other than `-`, the absent group among them, is positive. |
| ParseSign.PolarityMatchesSign | src/parse/sign.rs:50-61 | `is_pos` holds exactly of `Positive` and `is_neg` exactly of `Negative`. The two always differ, and negative means a `-` is shown. |
| ParseNs.FromInput | src/parse/ns.rs:50-60 | A non-decimal result means the group starts with that system's marker. A decimal result means it starts with none of `0b`, `0o`, `0x` (both directions in `FromInputReadsMarker`). |
| ParseNs.FromInputReadsMarker | src/parse/ns.rs:50-60 | The result is non-decimal exactly when the group starts with `0b`, `0o` or `0x`, and that prefix is the system's marker. The absent group is decimal. |
| ParseNs.FromInputExamples | src/parse/ns.rs:69-91 | `0b1`, `0o1`, `12345` and `0x1` read as binary, octal, decimal and hex. |
| ParseNs.FromInputLooksAtTwoChars | src/parse/ns.rs:50-60 | Only the first two characters decide; a shorter group is decimal. |
| ParseNs.MarkerRoundTrip | src/parse/ns.rs:50-60 | A system's marker, followed by anything, reads back as that system. |
| ParseUnit.FromInput | src/parse/unit.rs:56-71 | An `Ok` unit has the suffix among its aliases. An error is `InvalidUnit` carrying the suffix, and then no unit has that alias. |
| ParseUnit.FromInputIsAliasTable | src/parse/unit.rs:56-71 | The lookup returns a unit exactly for that unit's aliases (short and long suffix, `""` for the base unit). Any other suffix is `InvalidUnit` carrying the suffix. |
| ParseUnit.FromInputExamples | src/parse/unit.rs:123-161 | `""`, `k`, `ki`, `kib`, `m`, `gb` and `tb` name base, kilo, kibi, kibi, mega, giga and tera. `afaf` is an error. |
| ParseUnit.AcceptedSuffixFitsGrammar | src/parse/unit.rs:58-68 | Every accepted suffix has at most three lowercase letters and does not start with a hex digit, so the grammar's unit group can produce it. |
| ParseUnit.FactorValues | src/parse/unit.rs:102-114 | The factors are 1, 10^3, 10^6, 10^9, 10^12, 1024, 1024^2, 1024^3 and 1024^4. |
| ParseUnit.ValueToBaseU64 | src/parse/unit.rs:102-114 | The value in base units is the value times the unit's power of 1000 or 1024. The base unit leaves it unchanged. |
| ParseUnit.ValueToBaseExamples | src/parse/unit.rs:102-114 | One kibibyte is 1024, one megabyte is 10^6, three tebibytes are 3·2^40. |
| Parse.NormalizeInput | src/parse/mod.rs:163-165 | The normal form has no `_` and no uppercase letter. |
| Parse.NormalizeKeepsNormal | src/parse/mod.rs:163-165 | A token already in normal form is left unchanged (idempotence on normal tokens). |
| Parse.NormalizeIgnoresSurroundingWhitespace | src/parse/mod.rs:163-165 | White space around the token does not change its normal form. |
| Parse.NormalizeExamples | src/parse/mod.rs:203-206 | `0x_dead_beefMB` normalises to `0xdeadbeefmb`, and `123456789` stays as it is. |
| Parse.HexRunFrom | src/parse/mod.rs:38-39 | The value group is the longest run of `[0-9a-f]` from a position. |
| Parse.TailCut | src/parse/mod.rs:38-39 | A found cut ends a digit run that the unit group `[a-z]{1,4}` or the end of the text follows. |
| Parse.Cut | src/parse/mod.rs:38-39 | A found cut splits the text into the sign, marker, value and unit groups of the grammar. |
| Parse.GetInputSplit | src/parse/mod.rs:74-88 | An `Ok` split decomposes the input by the grammar, and its groups are those slices. No match gives `InvalidFormat` with the fixed message. |
| Parse.SplitIsLeftmostFirst | src/parse/mod.rs:38-39 | For any grammar decomposition, the split succeeds. It takes the sign and marker whenever possible and the longest digit run, as a leftmost-first engine does. |
| Parse.SplitSucceedsIffGrammar | src/parse/mod.rs:74-88 | The split succeeds exactly on the grammar's language; otherwise the error is `InvalidFormat`. |
| Parse.SplitExamples | src/parse/mod.rs:173-185 | `-0x123ki` splits into `-`, `0x`, `123`, `ki`. `123` has only the value group. |
| Parse.NewParsed | src/parse/mod.rs:101-123 | `Parsed::new` succeeds exactly when the digits are non-empty, valid in the system's radix and below 2^64, and never returns an error. On success the value is the digits' value and the other fields are kept. |
| Parse.ParseInput | src/parse/mod.rs:43-62 | A success records the normalised token, which has no `_` and no uppercase letter. When it fails is stated by `FormatErrorIffNoMatch`, `UnitErrorIffUnknownSuffix` and `PanicIffDigitsDoNotFit`. |
| Parse.ParseNormalized | src/parse/mod.rs:43-62 | After normalisation, a success records the token it was given, and a failure is either `InvalidFormat` with the fixed message or `InvalidUnit` carrying the token's unit group. |
| Parse.FormatErrorIffNoMatch | src/parse/mod.rs:43-62 | `parse_input` returns `InvalidFormat` exactly when the normalised token is outside the grammar. |
| Parse.UnitErrorIffUnknownSuffix | src/parse/mod.rs:43-62 | It returns `InvalidUnit` exactly when the token is in the grammar but its unit group is not in the table, and the error carries that group. |
| Parse.PanicIffDigitsDoNotFit | src/parse/mod.rs:101-123 | For a token in the grammar with a known unit, the `unwrap` panics exactly when the digits are invalid in the radix or reach 2^64. |
| Parse.SuccessReassemblesInput | src/parse/mod.rs:43-62 | A success keeps the normalised input: sign glyph, marker, digit string, then a suffix naming the unit. The value is the digit string read in the radix, with the unit not applied. |
| Parse.SignGroupIsGlyph | src/parse/sign.rs:41-47 | The sign group is the display text of the sign read from it. |
| Parse.NsGroupIsMarker | src/parse/ns.rs:50-60 | The numeral-system group is the marker of the system read from it. |
| Parse.SignDoesNotChangeMagnitude | src/parse/mod.rs:43-62 | A leading `-` changes neither success nor failure. On success it changes only the sign and the normalised input. |
| Parse.SplitAfterMinus | src/parse/mod.rs:74-88 | A leading `-` becomes the sign group and leaves the other groups unchanged. |
| Parse.MarkedDigitsAreNormal | src/parse/mod.rs:163-165 | A marker followed by lowercase hex digits is already in normal form. |
| Parse.ParsePrintedDigits | src/parse/mod.rs:101-123 | A number printed in a system's radix after that system's marker parses back to that number, that system, the base unit and a positive sign. |
| Parse.ParsePrintedNumber | src/parse/mod.rs:43-62 | The same round trip through the whole of `parse_input`, normalisation included. |
| Parse.ParseInputOfNormalized | src/parse/mod.rs:43-62 | On a token already normal, `parse_input` is the parse of the token itself. |
| Parse.ParseExample | src/parse/mod.rs:188-194 | `-0xFMib` parses to a negative hex value 15 in mebibytes. |
| Parse.NormalizeTokenExample | src/parse/mod.rs:188-194 | `-0xFMib` normalises to `-0xfmib`. |
| LegacyParse.NsFromInput | src/parse.rs:84-92 | The result is non-decimal exactly when the input starts with `0b` or `0x`, and hex exactly with `0x`. |
| LegacyParse.NsFromInputExamples | src/parse.rs:222-227 | `11314` and `11314kb` are decimal, `0x2000` is hex, `0b00101` is binary. |
| LegacyParse.UnitFromStr | src/parse.rs:178-189 | A unit other than the base unit comes only from one of the twelve suffixes; the converse is `UnitSuffixesAreTheList`. |
| LegacyParse.UnitSuffixesAreTheList | src/parse.rs:178-189 | A suffix maps to a unit other than the base unit exactly when it is one of the twelve suffixes of the pattern. |
| LegacyParse.UnitTableAgreesWithCurrent | src/parse.rs:178-189 | On the empty suffix and every pattern suffix, the legacy table names the same unit as the current table. |
| LegacyParse.ValueToBase | src/parse.rs:191-201 | The scaled value equals the current decoder's `value_to_base_u64` of the same unit. The base unit leaves it unchanged. |
| LegacyParse.ValueToBaseExample | src/parse.rs:240-242 | One kibibyte is 1024. |
| LegacyParse.InputValid | src/parse.rs:159-162 | A valid input decomposes by the full expression, with or without a marker; the converse is `InputValidIffGrammar`. |
| LegacyParse.InputValidIffGrammar | src/parse.rs:159-162 | `input_valid` holds exactly on the language of the full anchored expression. |
| LegacyParse.DigitsAreLongestRun | src/parse.rs:27-32 | In a match, the digit group is the longest `[0-9a-f]` run. |
| LegacyParse.InputValidExamples | src/parse.rs:210-219 | `12234`, `12234mb` and `12234gib` are valid. |
| LegacyParse.InputValidMarkedExamples | src/parse.rs:210-219 | `0x2000`, `0x6020kb` and `0b1000000011110000` are valid. |
| LegacyParse.InputInvalidExample | src/parse.rs:210-219 | `12234gib124` is not valid. |
| LegacyParse.FirstHexFrom | src/parse.rs:125-129 | The search skips exactly the non-digits before the first `[0-9a-f]`. |
| LegacyParse.NumMatch | src/parse.rs:125-129 | The search finds nothing exactly when the text has no hex digit. Otherwise it finds the leftmost longest run. |
| LegacyParse.Decode | src/parse.rs:132-148 | Acceptance happens exactly when the digits are valid in the radix and value × unit factor is below 2^64. The result then records the strings, the unit, the system and that product. |
| LegacyParse.StripMarker | src/parse.rs:118-123 | The text left after cutting off the marker, put after the marker of the system read from the input, gives the input back. |
| LegacyParse.ParseWith | src/parse.rs:110-149 | The input is rejected, with the one message, exactly when it is not valid. An accepted result records the original and the normalised input. |
| LegacyParse.ParseInput | src/parse.rs:110-149 | Rejection happens exactly when the normalised token is not valid. An accepted result records the token and its normal form. |
| LegacyParse.RejectedIffNoMatch | src/parse.rs:110-115 | The input is rejected, with the one message, exactly when it is outside the expression's language. |
| LegacyParse.BareBinMarkerPanics | src/parse.rs:119-129 | A valid input whose `0b` is its digit group, not a marker, makes a later `unwrap` panic. |
| LegacyParse.BareBinMarkerExamples | src/parse.rs:119-137 | `0b` panics in the digit search. `0bkb` panics because `b` is not a binary digit. |
| LegacyParse.MarkerIsRegexGroup | src/parse.rs:84-92 | Apart from the bare-`0b` case, the two characters cut off are exactly the expression's marker group. |
| LegacyParse.SearchFindsDigitGroup | src/parse.rs:125-129 | Apart from the bare-`0b` case, the search finds exactly the expression's digit group. |
| LegacyParse.ValidInputDecodesGroups | src/parse.rs:110-148 | A valid input outside the bare-`0b` case is decoded from the expression's digit and unit groups. |
| LegacyParse.UnitGroupIsSuffix | src/parse.rs:27-32 | The unit group is empty or one of the twelve suffixes. |
| LegacyParse.AcceptedReassembles | src/parse.rs:110-148 | An accepted input is the marker, the number string and the unit string, in order. The number string is valid in the radix. |
| LegacyParse.GroupsReassemble | src/parse.rs:110-148 | The marker, digit and unit groups put back together give the normalised input. |
| LegacyParse.LegacyFoldsUnitFactor | src/parse.rs:132-138 | The accepted value is the digits' value times the unit factor. |
| LegacyParse.CurrentDecodeAgrees | src/parse.rs:132-138 | An accepted legacy decode holds the current `value_to_base_u64` of the current decoder's value and unit. |
| LegacyParse.CurrentParseOfValidInput | src/parse.rs:110-148 | On every valid input outside the bare-`0b` case, the current decoder's outcome is `Parsed::new` of the same digit group, with the same system and unit and a positive sign. That outcome can still be a panic, as for `12b`, where both decoders panic on `b`. |
| LegacyParse.CurrentSplitOfLegacyGroups | src/parse.rs:27-32 | The legacy expression's groups are the current grammar's split with no sign. |
| LegacyParse.ParsePrintedNumber | src/parse.rs:110-148 | A number printed in decimal, binary or hex after its marker is accepted as that number in the base unit. |
| LegacyParse.ParseExample | src/parse.rs:230-237 | `0x2000_4000_mib` is accepted as hex `20004000` in mebibytes, with value 0x2000_4000 × 2^20. |
| LegacyParse.NormalizeExampleToken | src/parse.rs:152-156 | `0x2000_4000_mib` normalises to `0x20004000mib`. |
| FractionFmt.GetFractionalNumberParts | src/print/fraction_fmt.rs:16-24 | There is no match, so the `unwrap` panics, exactly when the text has no digit. The whole part and any fraction are digit strings. |
| FractionFmt.PartsOfRendered | src/print/fraction_fmt.rs:16-24 | Splitting the text of well-formed parts gives those parts back. |
| FractionFmt.PartsExamples | src/print/fraction_fmt.rs:157-172 | `-13.37` has a sign, `13` and `37`. `1411010` has no sign and no fraction. |
| FractionFmt.ZeroCount | src/print/fraction_fmt.rs:137-149 | The count is the number of `0` characters in the fraction. |
| FractionFmt.FractionalPartCountZeroes | src/print/fraction_fmt.rs:137-149 | The backwards loop returns the number of `0` characters in the fraction. |
| FractionFmt.CountZeroesExamples | src/print/fraction_fmt.rs:175-179 | `123000` has 3 zeros, `123` none, `0` one. |
| FractionFmt.FractionalPartRemoveZeroes | src/print/fraction_fmt.rs:130-134 | The result is the prefix that is shorter by the zero count. |
| FractionFmt.RemoveZeroesStripsTrailing | src/print/fraction_fmt.rs:130-134 | Digits without a `0`, followed by zeros, lose exactly the zeros. |
| FractionFmt.RemoveZeroesCutsInnerZero | src/print/fraction_fmt.rs:137-149 | Inner zeros are counted as well, so `05` becomes `0` and `1020` becomes `10`. |
| FractionFmt.RemoveZeroesExamples | src/print/fraction_fmt.rs:182-186 | `123000` becomes `123`. |
| FractionFmt.RemoveZeroesExamples2 | src/print/fraction_fmt.rs:182-186 | `123` stays `123`. |
| FractionFmt.RemoveZeroesExamples3 | src/print/fraction_fmt.rs:182-186 | `0` becomes empty. |
| FractionFmt.NormalizedFractionalPartOrNone | src/print/fraction_fmt.rs:122-127 | An absent fraction stays absent, and an all-zero fraction becomes absent. Any other fraction becomes a non-empty prefix of itself. |
| FractionFmt.NormalizedExamples | src/print/fraction_fmt.rs:189-195 | `123000` becomes `123`, and `None` stays `None`. |
| FractionFmt.NormalizedExamples2 | src/print/fraction_fmt.rs:189-195 | `123` stays `123`. |
| FractionFmt.NormalizedZerosExamples | src/print/fraction_fmt.rs:189-195 | `0` and `00000` become `None`. |
| FractionFmt.AlignedPairShape | src/print/fraction_fmt.rs:30-117 | Each output is a sign column followed by the rendered number with its fraction normalised, then trailing spaces up to the common fraction width. Deleting the spaces gives back the rendered number. |
| FractionFmt.FmtAlignFractionStrings | src/print/fraction_fmt.rs:30-117 | The result is `None`, where the source's `unwrap` panics, exactly when one of the texts has no digit. Otherwise the pushes build exactly the aligned pair. |
| FractionFmt.AlignParts | src/print/fraction_fmt.rs:35-116 | Once both texts are split, the pushes build exactly the aligned pair. |
| FractionFmt.PushSignColumns | src/print/fraction_fmt.rs:53-57 | Only the number without a sign gets one space, and only when the other number has a sign. |
| FractionFmt.PushFractions | src/print/fraction_fmt.rs:79-86 | A point and the fraction are appended exactly when a fraction is present. |
| FractionFmt.PushPadding | src/print/fraction_fmt.rs:95-114 | Both texts are padded to the width of the longer point-and-fraction. |
| FractionFmt.AlignExamples | src/print/fraction_fmt.rs:199 | `2` and `2.5` align as `2  ` and `2.5`. |
| FractionFmt.AlignExamples2 | src/print/fraction_fmt.rs:200 | `2.123` and `2.12` align as `2.123` and `2.12 `. |
| Print.BuildOutputGroups | src/print/mod.rs:12-21 | There are six groups in the fixed order, each with at least one line. |
| Print.BuildNumeralSystemsOg | src/print/mod.rs:23-46 | Four left-aligned lines. |
| Print.NumeralSystemsReadBack | src/print/mod.rs:23-46 | The keys are Decimal, Binary, Octal and Hexadecimal, and each value reads back as the number in radix 10, 2, 8 and 16. |
| Print.BuildBitsOg | src/print/mod.rs:48-67 | Three left-aligned lines. |
| Print.BitsReadBack | src/print/mod.rs:48-67 | The C-style value is `0b` and 64 bits, and the hex value is `0x` and 16 digits; both read back as the number. The Rust-style value is `0b` and the 64 bits with `_` between bytes. |
| Print.AsUnsigned | src/print/mod.rs:69-108 | An `as uN` cast is the unique value below 2^N congruent to the input modulo 2^N (with `UnsignedCastIsUnique`). |
| Print.AsSigned | src/print/mod.rs:69-108 | An `as iN` cast is the unique value in [−2^(N−1), 2^(N−1)) congruent to the input modulo 2^N (with `SignedCastIsUnique`). |
| Print.UnsignedCastIsUnique | src/print/mod.rs:69-108 | Any value below 2^N that is congruent to the input is the unsigned cast. |
| Print.SignedCastIsUnique | src/print/mod.rs:69-108 | Any value in the signed range that is congruent to the input is the signed cast. |
| Print.CastOfSmallValue | src/print/mod.rs:69-108 | Values that fit are unchanged by the casts. |
| Print.SignedCastOfLargeValue | src/print/mod.rs:69-108 | A value with the top bit set becomes the value minus 2^N. |
| Print.U64CastIsIdentity | src/print/mod.rs:102-105 | `as u64` leaves every value unchanged. |
| Print.BuildUnAndSignedIntegersOg | src/print/mod.rs:69-108 | Eight right-aligned lines. |
| Print.IntegersReadBack | src/print/mod.rs:69-108 | The keys are ` i8` to `u64`, and each value reads back as the cast to that type. |
| Print.BuildIeee754Og | src/print/mod.rs:110-137 | Two left-aligned lines holding the given f32 and f64 texts. |
| Print.BuildBytes | src/print/mod.rs:139-175 | Four left-aligned lines whose values are the given texts, in order. |
| Print.BuildIbiBytes | src/print/mod.rs:177-211 | Four left-aligned lines whose values are the given texts, in order. |
| Print.Chunks | src/print/mod.rs:401-408 | `chunks(n)` pieces have 1 to n characters and concatenate to the input. |
| Print.ChunksOfMultiple | src/print/mod.rs:401-408 | A length that is k·n gives k pieces of n characters. |
| Print.FormatNumAddDelimiters | src/print/mod.rs:401-417 | The result is the pieces joined by `_`. The fold's leading `_` is skipped (`FoldIsDelimitedJoin`). |
| Print.FoldIsDelimitedJoin | src/print/mod.rs:408-416 | The fold gives `_` followed by the joined pieces, or the empty text for no pieces. |
| Print.DelimitersRoundTrip | src/print/mod.rs:401-417 | Deleting the `_` gives back the digits. The length grows by one less than the number of pieces. |
| Print.Format64BitBinRustStyle | src/print/mod.rs:394-397 | The text is 71 characters long, and with the `_` deleted it reads back in radix 2 as the number. |
| Print.RustStyleBinary | src/print/mod.rs:394-397 | The Rust-style binary text is eight groups of eight bits in 71 characters, and it reads back as the number. |
| Print.FindLongestKeyString | src/print/mod.rs:267-273 | No key is longer than the result, and some key has that length. |
| Print.FindLongestValueString | src/print/mod.rs:259-265 | No value is longer than the result, and some value has that length. |
| Print.AdditionalLeftSpaces | src/print/mod.rs:293-297 | With left alignment, key plus padding reaches the longest key. With right alignment, key plus padding plus value reaches the longest key plus the longest value. |
| Print.PrettyPrint | src/print/mod.rs:285-309 | One row per line, each the key, `:  `, the padding spaces and the value. Every row is aligned: values start in one column (left) or end in one column (right). |
| Print.PrintRow | src/print/mod.rs:335-354 | A row is the key with a colon and two spaces, the pushed spaces, then the value. |
| Print.PaddedRowsAligned | src/print/mod.rs:292-307 | Every row that the padding rule produces is aligned. |

## Left out

- The floating-point interpretations are left out: the f32/f64 reinterpretation of the bits and the formatted byte sizes. They are computed by the external `fraction_list_fmt_align` crate on `f64` values, which Dafny does not model. `BuildIeee754Og`, `BuildBytes` and `BuildIbiBytes` take those texts as parameters.
- `Unit::base_to_target` works on `f64` and is not modelled. `value_to_base_f64` is commented out in the source.
- Terminal output is left out: `print_heading`, `print_value`, the colours and the TTY check. `pretty_print` returns the rows it would print instead of writing them.
- `src/main.rs` and the `src/layout/` modules are not part of this model. Neither is `src/parse/error.rs`; only the two error variants it defines are modelled.
- Text operations cover ASCII only: `trim`, `to_lowercase` and `len` are modelled on ASCII characters. Unicode white space, non-ASCII case mappings and byte-versus-character lengths are not.
- `from_str_radix` also accepts a leading `+`. The grammar never lets one through, so the model does not have it.
- The getters of `Parsed` are fields of the model's record. `value_str()` (src/parse/mod.rs:152-154) returns the number, not the string.
- The regular-expression engine is replaced by scanners. These are proved to produce the groups the patterns describe.
- `ParseUnit.ValueToBaseU64` requires that value × factor fits in 64 bits. Overflow panics in debug builds and wraps in release builds; neither is modelled.
- `LegacyParse.ValueToBase` requires that the product fits. The legacy decoder's overflow is modelled as a `ProductOverflow` outcome before it is called, and release-mode wrap-around is not modelled.
- `FractionFmt.FmtAlignFractionStrings` delegates its steps to `AlignParts`, `PushSignColumns`, `PushFractions` and `PushPadding`. The source does them inline in one function.
- `FractionFmt.GetFractionalNumberParts` returns `None` where the source's `unwrap` panics on a text with no digit.
- `FractionFmt.AlignedPair` requires that both texts have a digit. It is the specification of a successful alignment; the panic on a text without a digit is the `None` result of `FmtAlignFractionStrings`.
- `Print.FormatNumAddDelimiters` requires that the chunk size divides the length and is not zero. The source's `assert_eq!` panics otherwise.
- `Print.FindLongestKeyString` and `Print.FindLongestValueString` require a non-empty group. The source's `unwrap` panics otherwise, and `BuildOutputGroups` never produces an empty group.
