/** The first generation of the decoder (src/parse.rs). It accepts no sign and
    no octal, checks the whole input against one anchored regular expression
    with a fixed list of unit suffixes, looks the unit up in a table that
    never fails, and folds the unit factor into the value it returns.

    The expression is `^(0(b|x))?[0-9a-f]+(k|kb|m|mb|g|gb|ki|kib|mi|mib|gi|gib)?$`.
    After the check, the numeral system is read from the first two characters,
    they are cut off, and the digits are found again by searching the rest for
    the leftmost run of `[0-9a-f]`. The `unwrap`s on that search, on
    `from_str_radix` and the overflow check of the `usize` product become a
    `Panicked` outcome (`usize` is 64 bits wide here). */
module LegacyParse {
  import opened Common
  import opened Radix
  import Parse
  import ParseNs
  import ParseSign
  import ParseUnit

  datatype NumeralSystem = Decimal | Bin | Hex

  datatype Unit = Base | Kilo | Mega | Giga | Kibi | Mibi | Gibi

  datatype Parsed = Parsed(
    originalInput: string,
    normalizedInput: string,
    unitString: string,
    numberString: string,
    unit: Unit,
    numeralSystem: NumeralSystem,
    actualValue: u64)      // the digits' value times the unit factor

  /** Which `unwrap` (or which debug-mode overflow check) panics. */
  datatype Panic =
    | NoNumberMatch                     // the digit search finds nothing
    | DigitsRejected(kind: IntErrorKind) // `from_str_radix` returns `Err`
    | ProductOverflow                   // value times unit factor exceeds `usize`

  /** The result of `parse_input`, or the panic it runs into. */
  datatype Outcome =
    | Accepted(parsed: Parsed)
    | Rejected(message: string)
    | Panicked(cause: Panic)

  const NOT_VALID: string := "The input is not valid."

  // ---------------------------------------------------------------------
  // Numeral system and unit

  /** `NumeralSystem::from_input`: `0x` is tested before `0b`, on the whole
      normalised input. */
  function NsFromInput(normalizedInput: string): (r: NumeralSystem)
    ensures r != Decimal <==>
      |normalizedInput| >= 2 && normalizedInput[0] == '0' && (normalizedInput[1] == 'b' || normalizedInput[1] == 'x')
    ensures r == Hex <==> |normalizedInput| >= 2 && normalizedInput[..2] == "0x"
  {
    if StartsWith(normalizedInput, "0x") then Hex
    else if StartsWith(normalizedInput, "0b") then Bin
    else Decimal
  }

  /** The two characters a numeral system is written with; none for decimal. */
  function Marker(ns: NumeralSystem): string
  {
    match ns
    case Decimal => ""
    case Bin => "0b"
    case Hex => "0x"
  }

  function RadixOf(ns: NumeralSystem): nat
  {
    match ns
    case Decimal => 10
    case Bin => 2
    case Hex => 16
  }

  /** `Unit::from_str`: the suffixes of the expression map to their unit and
      every other text, the empty one included, to `Base`. */
  function UnitFromStr(unitString: string): (r: Unit)
    ensures r != Base ==> IsUnitSuffix(unitString)
  {
    if unitString == "k" || unitString == "kb" then Kilo
    else if unitString == "m" || unitString == "mb" then Mega
    else if unitString == "g" || unitString == "gb" then Giga
    else if unitString == "ki" || unitString == "kib" then Kibi
    else if unitString == "mi" || unitString == "mib" then Mibi
    else if unitString == "gi" || unitString == "gib" then Gibi
    else Base
  }

  /** The same unit in the current decoder, which adds tera and tebi. */
  function AsUnit(u: Unit): ParseUnit.Unit
  {
    match u
    case Base => ParseUnit.Base
    case Kilo => ParseUnit.Kilo
    case Mega => ParseUnit.Mega
    case Giga => ParseUnit.Giga
    case Kibi => ParseUnit.Kibi
    case Mibi => ParseUnit.Mibi
    case Gibi => ParseUnit.Gibi
  }

  /** The same numeral system in the current decoder, which adds octal. */
  function AsNs(ns: NumeralSystem): ParseNs.NumeralSystem
  {
    match ns
    case Decimal => ParseNs.Decimal
    case Bin => ParseNs.Bin
    case Hex => ParseNs.Hex
  }

  /** How many bytes one unit holds: at least one. */
  function Factor(u: Unit): (f: nat)
    ensures f >= 1
  {
    ParseUnit.FactorValues();
    ParseUnit.Factor(AsUnit(u))
  }

  /** `Unit::value_to_base`: the value times 10^3, 10^6, 10^9, 1024, 1024^2 or
      1024^3. The product must fit in 64 bits (the source panics in a debug
      build and wraps in a release build). It agrees with the current
      decoder's conversion of the same unit. */
  function ValueToBase(value: u64, fromUnit: Unit): (r: u64)
    requires value * Factor(fromUnit) < U64_LIMIT
    ensures r == ParseUnit.ValueToBaseU64(AsUnit(fromUnit), value)
    ensures fromUnit == Base ==> r == value
  {
    ParseUnit.FactorValues();
    match fromUnit
    case Base => value
    case Kilo => value * 1_000
    case Mega => value * 1_000_000
    case Giga => value * 1_000_000_000
    case Kibi => value * 1024
    case Mibi => value * Pow(1024, 2)
    case Gibi => value * Pow(1024, 3)
  }

  // ---------------------------------------------------------------------
  // The anchored expression, as offsets into the normalised text

  /** The unit group from `k` to the end: empty, or `k`, `m` or `g` followed
      by nothing, `b`, `i` or `ib`. */
  predicate UnitSpans(s: string, k: nat)
  {
    && k <= |s| && |s| - k <= 3
    && (k < |s| ==>
          && (s[k] == 'k' || s[k] == 'm' || s[k] == 'g')
          && (|s| - k >= 2 ==> s[k + 1] == 'b' || s[k + 1] == 'i')
          && (|s| - k == 3 ==> s[k + 1] == 'i' && s[k + 2] == 'b'))
  }

  /** One of the twelve unit suffixes of the expression. */
  predicate IsUnitSuffix(t: string)
  {
    |t| >= 1 && UnitSpans(t, 0)
  }

  /** The marker group `s[..j]`: absent, `0b` or `0x`. */
  predicate MarkerSpans(s: string, j: nat)
  {
    j == 0 || (j == 2 && |s| >= 2 && s[0] == '0' && (s[1] == 'b' || s[1] == 'x'))
  }

  /** Cutting `s` at `j <= k` gives a marker group, a digit group and a unit
      group covering all of `s`. */
  predicate Decomposes(s: string, j: nat, k: nat)
  {
    MarkerSpans(s, j) && Parse.ValueSpans(s, j, k) && UnitSpans(s, k)
  }

  /** The language of the expression. */
  ghost predicate MatchesFullRegex(s: string)
  {
    exists j: nat, k: nat :: Decomposes(s, j, k)
  }

  /** The digits from `j` are the longest run there and a unit group follows. */
  predicate TailFits(s: string, j: nat)
    requires j <= |s|
  {
    var k := Parse.HexRunFrom(s, j);
    j < k && UnitSpans(s, k)
  }

  /** `input_valid`: the expression matches the whole normalised input, with
      or without the marker group. */
  function InputValid(normalized: string): (r: bool)
    ensures r ==>
      || (MarkerSpans(normalized, 2) && Decomposes(normalized, 2, Parse.HexRunFrom(normalized, 2)))
      || Decomposes(normalized, 0, Parse.HexRunFrom(normalized, 0))
  {
    (MarkerSpans(normalized, 2) && TailFits(normalized, 2)) || TailFits(normalized, 0)
  }

  /** A unit group never starts with a hex digit, so the digit group of any
      decomposition is the longest digit run after the marker. */
  lemma DigitsAreLongestRun(s: string, j: nat, k: nat)
    requires Parse.ValueSpans(s, j, k) && UnitSpans(s, k)
    ensures Parse.HexRunFrom(s, j) == k
  {
  }

  /** `input_valid` decides exactly the language of the expression. */
  lemma InputValidIffGrammar(s: string)
    ensures InputValid(s) <==> MatchesFullRegex(s)
  {
    if InputValid(s) {
      if MarkerSpans(s, 2) && TailFits(s, 2) {
        assert Decomposes(s, 2, Parse.HexRunFrom(s, 2));
      } else {
        assert Decomposes(s, 0, Parse.HexRunFrom(s, 0));
      }
    }
    if MatchesFullRegex(s) {
      var j: nat, k: nat :| Decomposes(s, j, k);
      DigitsAreLongestRun(s, j, k);
    }
  }

  /** The suffixes as the expression lists them, and `Unit::from_str` on them:
      each maps to its own unit, and only the empty text and the texts outside
      the list map to `Base`. */
  lemma UnitSuffixesAreTheList(t: string)
    ensures IsUnitSuffix(t) <==> t in {"k", "kb", "m", "mb", "g", "gb", "ki", "kib", "mi", "mib", "gi", "gib"}
    ensures UnitFromStr(t) != Base <==> IsUnitSuffix(t)
  {
    if IsUnitSuffix(t) {
      if |t| == 1 {
        assert t == [t[0]];
      } else if |t| == 2 {
        assert t == [t[0], t[1]];
      } else {
        assert t == [t[0], t[1], t[2]];
      }
    }
  }

  /** On the suffixes both share, and on the empty text, the legacy table and
      the current one give the same unit. */
  lemma UnitTableAgreesWithCurrent(t: string)
    requires t == "" || IsUnitSuffix(t)
    ensures ParseUnit.FromInput(t) == Ok(AsUnit(UnitFromStr(t)))
  {
  }

  // ---------------------------------------------------------------------
  // Parsing

  /** The leftmost position from `p` on that holds a hex digit, or `|t|`. */
  function FirstHexFrom(t: string, p: nat): (q: nat)
    requires p <= |t|
    ensures p <= q <= |t|
    ensures forall m :: p <= m < q ==> !IsHexDigit(t[m])
    ensures q < |t| ==> IsHexDigit(t[q])
    decreases |t| - p
  {
    if p < |t| && !IsHexDigit(t[p]) then FirstHexFrom(t, p + 1) else p
  }

  /** The unanchored search for `[0-9a-f]+`: the leftmost digit and the end
      of the longest run from it, or nothing when `t` holds no hex digit. */
  function NumMatch(t: string): (r: Option<(nat, nat)>)
    ensures r.None? <==> forall m :: 0 <= m < |t| ==> !IsHexDigit(t[m])
    ensures r.Some? ==>
      && Parse.ValueSpans(t, r.value.0, r.value.1)
      && (forall m :: 0 <= m < r.value.0 ==> !IsHexDigit(t[m]))
      && (r.value.1 < |t| ==> !IsHexDigit(t[r.value.1]))
  {
    var b := FirstHexFrom(t, 0);
    if b == |t| then None else Some((b, Parse.HexRunFrom(t, b)))
  }

  /** The normalised input with the marker cut off. */
  function StripMarker(normalized: string, ns: NumeralSystem): (r: string)
    requires ns == NsFromInput(normalized)
    ensures normalized == Marker(ns) + r
  {
    if ns == Decimal then normalized else normalized[2..]
  }

  /** `parse_input` after normalisation; `original` is the text as given. */
  function ParseWith(original: string, normalized: string): (r: Outcome)
    ensures r.Rejected? <==> !InputValid(normalized)
    ensures r.Rejected? ==> r.message == NOT_VALID
    ensures r.Accepted? ==> r.parsed.originalInput == original && r.parsed.normalizedInput == normalized
  {
    if !InputValid(normalized) then Rejected(NOT_VALID)
    else
      var ns := NsFromInput(normalized);
      var withoutNs := StripMarker(normalized, ns);
      match NumMatch(withoutNs)
      case None => Panicked(NoNumberMatch)
      case Some(span) => Decode(original, normalized, ns, withoutNs[span.0..span.1], withoutNs[span.1..])
  }

  /** The rest of `parse_input` once the number and unit strings are cut
      out: look the unit up, decode the digits in the radix of the numeral
      system, and scale by the unit. It is accepted exactly when the digits
      are valid in that radix and their value times the unit factor fits in
      64 bits, and then holds that product; otherwise it panics. */
  function Decode(original: string, normalized: string, ns: NumeralSystem, numStr: string, unitStr: string): (r: Outcome)
    ensures !r.Rejected? && r != Panicked(NoNumberMatch)
    ensures r.Accepted? <==>
      |numStr| > 0 && AllDigits(numStr, RadixOf(ns)) && ValueOf(numStr, RadixOf(ns)) * Factor(UnitFromStr(unitStr)) < U64_LIMIT
    ensures r.Accepted? ==>
      r.parsed == Parsed(original, normalized, unitStr, numStr, UnitFromStr(unitStr), ns,
                         ValueOf(numStr, RadixOf(ns)) * Factor(UnitFromStr(unitStr)))
  {
    var unit := UnitFromStr(unitStr);
    match FromStrRadix(numStr, RadixOf(ns))
    case Err(kind) =>
      assert AllDigits(numStr, RadixOf(ns)) ==>
        ValueOf(numStr, RadixOf(ns)) <= ValueOf(numStr, RadixOf(ns)) * Factor(unit) by {
        if AllDigits(numStr, RadixOf(ns)) {
          MulGrows(ValueOf(numStr, RadixOf(ns)), Factor(unit), 0);
        }
      }
      Panicked(DigitsRejected(kind))
    case Ok(value) =>
      if value * Factor(unit) >= U64_LIMIT then Panicked(ProductOverflow)
      else Accepted(Parsed(original, normalized, unitStr, numStr, unit, ns, ValueToBase(value, unit)))
  }

  /** `parse_input`: `input_normalizer` is the same trim, `_` removal and
      lowercasing as in the current decoder. */
  function ParseInput(input: string): (r: Outcome)
    ensures r.Rejected? <==> !InputValid(Parse.NormalizeInput(input))
    ensures r.Accepted? ==> r.parsed.originalInput == input && r.parsed.normalizedInput == Parse.NormalizeInput(input)
  {
    ParseWith(input, Parse.NormalizeInput(input))
  }

  /** The input is rejected, with the one message there is, exactly when it
      is outside the expression's language. */
  lemma RejectedIffNoMatch(original: string, normalized: string)
    ensures ParseWith(original, normalized).Rejected? <==> !MatchesFullRegex(normalized)
    ensures ParseWith(original, normalized).Rejected? ==> ParseWith(original, normalized).message == NOT_VALID
  {
    InputValidIffGrammar(normalized);
  }

  // ---------------------------------------------------------------------
  // The bare `0b` marker

  /** `0b` followed by no digit: the expression still matches, reading the
      `0b` as hex digits, but the marker test says binary. */
  predicate BareBinMarker(s: string)
  {
    |s| >= 2 && s[0] == '0' && s[1] == 'b' && (|s| == 2 || !IsHexDigit(s[2]))
  }

  /** A valid input that opens with a bare `0b` always panics: what is left
      after the marker is a unit suffix or nothing, whose only hex digit can
      be a `b`, which is not a binary digit. */
  lemma BareBinMarkerPanics(original: string, s: string)
    requires InputValid(s) && BareBinMarker(s)
    ensures ParseWith(original, s).Panicked?
  {
    assert Parse.HexRunFrom(s, 2) == 2;
    assert Parse.HexRunFrom(s, 0) == 2;
    assert UnitSpans(s, 2);
    var u := s[2..];
    match NumMatch(u)
    case None =>
    case Some(span) =>
      assert u[span.0] == s[span.0 + 2];
      assert u[span.0] == 'b';
      var numStr := u[span.0..span.1];
      assert numStr[0] == 'b';
      assert !AllDigits(numStr, 2);
  }

  /** "0b" leaves no digit at all after the marker; "0bkb" leaves the `b`
      of `kb`. */
  lemma BareBinMarkerExamples()
    ensures ParseWith("0b", "0b") == Panicked(NoNumberMatch)
    ensures ParseWith("0bkb", "0bkb") == Panicked(DigitsRejected(InvalidDigit))
  {
    assert InputValid("0b") by {
      assert Parse.HexRunFrom("0b", 0) == 2;
    }
    var s := "0bkb";
    assert InputValid(s) by {
      assert Parse.HexRunFrom(s, 1) == 2;
      assert Parse.HexRunFrom(s, 0) == 2;
    }
    assert StripMarker(s, Bin) == "kb";
    assert FirstHexFrom("kb", 0) == 1;
    assert NumMatch("kb") == Some((1, 2));
    assert "kb"[1..2] == "b";
    assert FromStrRadix("b", 2) == Err(InvalidDigit) by {
      assert "b"[..0] == "";
    }
  }

  // ---------------------------------------------------------------------
  // Valid inputs without a bare marker

  /** Where the digit group starts: after the marker the numeral system was
      read from. */
  function DigitsStart(s: string): nat
  {
    |Marker(NsFromInput(s))|
  }

  /** The marker `from_input` sees is the expression's marker group, and the
      longest digit run after it is the digit group. */
  lemma MarkerIsRegexGroup(s: string)
    requires InputValid(s) && !BareBinMarker(s)
    ensures DigitsStart(s) <= |s|
    ensures Decomposes(s, DigitsStart(s), Parse.HexRunFrom(s, DigitsStart(s)))
    ensures s[..DigitsStart(s)] == Marker(NsFromInput(s))
  {
    var ns := NsFromInput(s);
    if ns == Hex {
      assert Parse.HexRunFrom(s, 1) == 1;
      assert !TailFits(s, 0);
    } else if ns == Bin {
      assert IsHexDigit(s[2]);
      assert Parse.HexRunFrom(s, 0) == Parse.HexRunFrom(s, 2);
      assert s[..2] == "0b";
    }
  }

  /** The unanchored search on the text behind the marker starts at its first
      character and ends where the digit group ends. */
  lemma SearchFindsDigitGroup(s: string)
    requires InputValid(s) && !BareBinMarker(s)
    ensures DigitsStart(s) <= |s|
    ensures var j := DigitsStart(s);
      var k := Parse.HexRunFrom(s, j);
      var t := StripMarker(s, NsFromInput(s));
      && NumMatch(t).Some? && NumMatch(t).value.0 == 0 && NumMatch(t).value.1 == k - j
      && t[0..k - j] == s[j..k] && t[k - j..] == s[k..]
  {
    MarkerIsRegexGroup(s);
    var j := DigitsStart(s);
    assert StripMarker(s, NsFromInput(s)) == s[j..];
    SearchFromDigit(s, j);
  }

  /** Searching a text that starts with a hex digit finds the run at its
      start. */
  lemma SearchFromDigit(s: string, j: nat)
    requires j < |s| && IsHexDigit(s[j])
    ensures var k := Parse.HexRunFrom(s, j);
      var t := s[j..];
      && NumMatch(t).Some? && NumMatch(t).value.0 == 0 && NumMatch(t).value.1 == k - j
      && t[0..k - j] == s[j..k] && t[k - j..] == s[k..]
  {
    var t := s[j..];
    var k := Parse.HexRunFrom(s, j);
    assert s[..j] + t == s;
    Parse.HexRunAfterPrefix(s[..j], t, 0);
    assert t[0] == s[j];
    SliceOfSuffix(s, j, k - j);
  }

  /** A valid input that does not open with a bare `0b` reaches `Decode`
      with the expression's digit group as number string and its unit group
      as unit string: the search never misses the digits, so such an input is
      accepted exactly when its digit group is valid in the radix and the
      product fits. */
  lemma ValidInputDecodesGroups(original: string, s: string)
    requires InputValid(s) && !BareBinMarker(s)
    ensures DigitsStart(s) <= |s|
    ensures var j := DigitsStart(s); var k := Parse.HexRunFrom(s, j);
      ParseWith(original, s) == Decode(original, s, NsFromInput(s), s[j..k], s[k..])
  {
    SearchFindsDigitGroup(s);
    var j := DigitsStart(s);
    var k := Parse.HexRunFrom(s, j);
    ParseWithOfMatch(original, s, k - j, s[j..k], s[k..]);
  }

  /** When the search behind the marker matches from the first character,
      `parse_input` decodes the matched digits and what follows them. */
  lemma ParseWithOfMatch(original: string, s: string, m: nat, numStr: string, unitStr: string)
    requires InputValid(s)
    requires var t := StripMarker(s, NsFromInput(s));
      NumMatch(t) == Some((0, m)) && m <= |t| && t[0..m] == numStr && t[m..] == unitStr
    ensures ParseWith(original, s) == Decode(original, s, NsFromInput(s), numStr, unitStr)
  {
  }

  /** The unit group of a decomposition, read on its own, is a suffix of the
      list. */
  lemma UnitGroupIsSuffix(s: string, k: nat)
    requires UnitSpans(s, k)
    ensures s[k..] == "" || IsUnitSuffix(s[k..])
  {
    var u := s[k..];
    assert forall m :: 0 <= m < |u| ==> u[m] == s[k + m];
  }

  /** An accepted input is its marker, its number string and its unit string
      put back together; the number string is a run of hex digits, the unit
      string is empty or a listed suffix, and the value is the digits' value
      times the unit factor. */
  lemma AcceptedReassembles(original: string, s: string)
    requires ParseWith(original, s).Accepted?
    ensures var p := ParseWith(original, s).parsed;
      && p.originalInput == original && p.normalizedInput == s
      && s == Marker(p.numeralSystem) + p.numberString + p.unitString
      && Parse.IsValueGroup(p.numberString)
      && (p.unitString == "" || IsUnitSuffix(p.unitString))
      && p.unit == UnitFromStr(p.unitString)
      && AllDigits(p.numberString, RadixOf(p.numeralSystem))
      && p.actualValue == ValueOf(p.numberString, RadixOf(p.numeralSystem)) * Factor(p.unit)
  {
    assert InputValid(s);
    if BareBinMarker(s) {
      BareBinMarkerPanics(original, s);
    }
    ValidInputDecodesGroups(original, s);
    GroupsReassemble(s);
  }

  /** The marker, the digit group and the unit group of a valid input
      without a bare `0b` make up the input. */
  lemma GroupsReassemble(s: string)
    requires InputValid(s) && !BareBinMarker(s)
    ensures DigitsStart(s) <= |s|
    ensures var j := DigitsStart(s); var k := Parse.HexRunFrom(s, j);
      && s == Marker(NsFromInput(s)) + s[j..k] + s[k..]
      && Parse.IsValueGroup(s[j..k])
      && (s[k..] == "" || IsUnitSuffix(s[k..]))
  {
    MarkerIsRegexGroup(s);
    var j := DigitsStart(s);
    var k := Parse.HexRunFrom(s, j);
    var d := s[j..k];
    assert forall m :: 0 <= m < |d| ==> d[m] == s[j + m];
    UnitGroupIsSuffix(s, k);
    ReassembleSlices(s, j, k);
  }

  // ---------------------------------------------------------------------
  // The legacy decoder against the current one

  /** Every text the legacy decoder accepts, the current decoder parses too,
      into the same digit string, numeral system and unit, with no sign. The
      legacy value is the current value converted to base units. */
  lemma LegacyFoldsUnitFactor(original: string, s: string)
    requires ParseWith(original, s).Accepted?
    ensures var p := ParseWith(original, s).parsed;
      var q := Parse.ParseNormalized(s);
      && q.Success?
      && q.parsed.valueStr == p.numberString
      && q.parsed.numeralSystem == AsNs(p.numeralSystem)
      && q.parsed.unit == AsUnit(p.unit)
      && q.parsed.sign == ParseSign.Positive
      && q.parsed.value * ParseUnit.Factor(q.parsed.unit) < U64_LIMIT
      && p.actualValue == ParseUnit.ValueToBaseU64(q.parsed.unit, q.parsed.value)
  {
    assert InputValid(s);
    if BareBinMarker(s) {
      BareBinMarkerPanics(original, s);
    }
    ValidInputDecodesGroups(original, s);
    CurrentParseOfValidInput(s);
    var j := DigitsStart(s);
    var k := Parse.HexRunFrom(s, j);
    CurrentDecodeAgrees(original, s, NsFromInput(s), s[j..k], s[k..]);
  }

  /** Where `Decode` accepts, `Parsed::new` of the current decoder succeeds on
      the same digits, with the value before scaling. */
  lemma CurrentDecodeAgrees(original: string, s: string, ns: NumeralSystem, d: string, unitStr: string)
    requires Decode(original, s, ns, d, unitStr).Accepted?
    ensures var p := Decode(original, s, ns, d, unitStr).parsed;
      var q := Parse.NewParsed(s, AsNs(ns), d, AsUnit(UnitFromStr(unitStr)), ParseSign.Positive);
      && q.Success?
      && q.parsed.value * ParseUnit.Factor(AsUnit(p.unit)) < U64_LIMIT
      && p.actualValue == ParseUnit.ValueToBaseU64(AsUnit(p.unit), q.parsed.value)
  {
    var u := UnitFromStr(unitStr);
    assert Parse.RadixOf(AsNs(ns)) == RadixOf(ns);
    MulGrows(ValueOf(d, RadixOf(ns)), Factor(u), 0);
  }

  /** The current decoder reads a valid legacy text without a bare `0b` as
      the same groups, with no sign. */
  lemma CurrentParseOfValidInput(s: string)
    requires InputValid(s) && !BareBinMarker(s)
    ensures DigitsStart(s) <= |s|
    ensures var ns := NsFromInput(s);
      var j := DigitsStart(s); var k := Parse.HexRunFrom(s, j);
      Parse.ParseNormalized(s) ==
        Parse.NewParsed(s, AsNs(ns), s[j..k], AsUnit(UnitFromStr(s[k..])), ParseSign.Positive)
  {
    MarkerIsRegexGroup(s);
    var ns := NsFromInput(s);
    var j := DigitsStart(s);
    var k := Parse.HexRunFrom(s, j);
    CurrentSplitOfLegacyGroups(s, j, k);
    UnitGroupIsSuffix(s, k);
    assert s[..0] == "";
    ParseOfLegacyGroups(s, ns, s[j..k], s[k..]);
  }

  /** A split with no sign, a legacy marker, and a unit group the legacy
      table lists parses to those groups. */
  lemma ParseOfLegacyGroups(s: string, ns: NumeralSystem, digits: string, unitStr: string)
    requires Parse.GetInputSplit(s).Ok?
    requires var split := Parse.GetInputSplit(s).value;
      && Parse.OrEmpty(split.sign) == "" && Parse.OrEmpty(split.ns) == Marker(ns)
      && split.value == digits && Parse.OrEmpty(split.unit) == unitStr
    requires unitStr == "" || IsUnitSuffix(unitStr)
    ensures Parse.ParseNormalized(s) ==
      Parse.NewParsed(s, AsNs(ns), digits, AsUnit(UnitFromStr(unitStr)), ParseSign.Positive)
  {
    UnitTableAgreesWithCurrent(unitStr);
    ParseNs.MarkerRoundTrip(AsNs(ns), []);
    assert ParseNs.Marker(AsNs(ns)) == Marker(ns);
  }

  /** The current split of a legacy decomposition whose marker group is there
      whenever the text opens with a marker has the same groups and no sign. */
  lemma CurrentSplitOfLegacyGroups(s: string, j: nat, k: nat)
    requires Decomposes(s, j, k) && (MarkerSpans(s, 2) ==> j == 2)
    ensures Parse.GetInputSplit(s).Ok?
    ensures var split := Parse.GetInputSplit(s).value;
      Parse.SignEnd(split) == 0 && Parse.NsEnd(split) == j && Parse.ValueEnd(split) == k
  {
    assert Parse.Decomposes(s, 0, j, k);
    Parse.SplitIsLeftmostFirst(s, 0, j, k);
    var split := Parse.GetInputSplit(s).value;
    assert Parse.ValueSpans(s, j, Parse.ValueEnd(split));
    DigitsAreLongestRun(s, j, k);
  }

  /** Printing a `u64` in decimal, `0b` binary or `0x` hex and parsing the
      text back gives the number, the numeral system and the base unit. */
  lemma ParsePrintedNumber(n: u64, ns: NumeralSystem)
    ensures var t := Marker(ns) + ToRadix(n, RadixOf(ns));
      ParseInput(t) == Accepted(Parsed(t, t, "", ToRadix(n, RadixOf(ns)), Base, ns, n))
  {
    var t := Marker(ns) + ToRadix(n, RadixOf(ns));
    Parse.MarkedDigitsAreNormal(Marker(ns), ToRadix(n, RadixOf(ns)));
    Parse.NormalizeKeepsNormal(t);
    ParsePrintedDigits(n, ns);
  }

  /** The same on the normalised text, which the printed text already is. */
  lemma ParsePrintedDigits(n: u64, ns: NumeralSystem)
    ensures var t := Marker(ns) + ToRadix(n, RadixOf(ns));
      ParseWith(t, t) == Accepted(Parsed(t, t, "", ToRadix(n, RadixOf(ns)), Base, ns, n))
  {
    var d := ToRadix(n, RadixOf(ns));
    var t := Marker(ns) + d;
    PrintedDigitsAreValid(n, ns);
    ValidInputDecodesGroups(t, t);
    PrintedGroups(n, ns);
    DecodePrinted(t, n, ns);
  }

  lemma PrintedGroups(n: u64, ns: NumeralSystem)
    ensures var d := ToRadix(n, RadixOf(ns));
      var t := Marker(ns) + d;
      var j := |Marker(ns)|;
      j <= |t| && Parse.HexRunFrom(t, j) == |t| && t[j..|t|] == d && t[|t|..] == ""
  {
    var d := ToRadix(n, RadixOf(ns));
    var t := Marker(ns) + d;
    var j := |Marker(ns)|;
    assert forall m :: j <= m < |t| ==> t[m] == d[m - j];
    Parse.HexRunReachesEnd(t, j);
  }

  lemma DecodePrinted(t: string, n: u64, ns: NumeralSystem)
    ensures Decode(t, t, ns, ToRadix(n, RadixOf(ns)), "") == Accepted(Parsed(t, t, "", ToRadix(n, RadixOf(ns)), Base, ns, n))
  {
    var d := ToRadix(n, RadixOf(ns));
    ToRadixRoundTrip(n, RadixOf(ns));
    assert UnitFromStr("") == Base;
    assert Factor(Base) == 1 by {
      ParseUnit.FactorValues();
    }
    assert ValueOf(d, RadixOf(ns)) * Factor(UnitFromStr("")) == n;
    var r := Decode(t, t, ns, d, "");
    assert r.Accepted?;
  }

  /** The printed text is in the expression's language, read in the numeral
      system it was printed in, and does not open with a bare `0b`. */
  lemma PrintedDigitsAreValid(n: u64, ns: NumeralSystem)
    ensures var t := Marker(ns) + ToRadix(n, RadixOf(ns));
      InputValid(t) && !BareBinMarker(t) && NsFromInput(t) == ns
  {
    var d := ToRadix(n, RadixOf(ns));
    var t := Marker(ns) + d;
    var j := |Marker(ns)|;
    assert forall m :: j <= m < |t| ==> t[m] == d[m - j];
    Parse.HexRunReachesEnd(t, j);
    assert Decomposes(t, j, |t|);
    InputValidIffGrammar(t);
  }

  // ---------------------------------------------------------------------
  // The unit tests

  /** The decimal texts the tests accept. */
  lemma InputValidExamples()
    ensures InputValid("12234") && InputValid("12234mb") && InputValid("12234gib")
  {
  }

  /** The marked texts the tests accept. */
  lemma InputValidMarkedExamples()
    ensures InputValid("0x2000") && InputValid("0x6020kb")
    ensures InputValid("0b1000000011110000")
  {
  }

  /** The text the tests reject: a unit group may not be followed by more
      digits. */
  lemma InputInvalidExample()
    ensures !InputValid("12234gib124")
  {
    assert Parse.HexRunFrom("12234gib124", 0) == 5;
  }

  /** The tests of `NumeralSystem::from_input`. */
  lemma NsFromInputExamples()
    ensures NsFromInput("11314") == Decimal && NsFromInput("11314kb") == Decimal
    ensures NsFromInput("0x2000") == Hex && NsFromInput("0b00101") == Bin
  {
  }

  /** The test of `Unit::value_to_base`. */
  lemma ValueToBaseExample()
    ensures ValueToBase(1, Kibi) == 1024
  {
    ParseUnit.FactorValues();
  }

  /** The token the tests decode, "0x2000_4000_mib", written as its three
      parts between the underscores: hex, mebibytes, the value scaled by
      2^20. */
  lemma ParseExample(a: string, b: string, c: string)
    requires a == "0x2000" && b == "4000" && c == "mib"
    ensures ParseInput(a + "_" + b + "_" + c) ==
      Accepted(Parsed(a + "_" + b + "_" + c, "0x20004000mib", "mib", "20004000", Mibi, Hex, 0x2000_4000 * 0x10_0000))
  {
    NormalizeExampleToken(a, b, c);
    ParseExampleNormalized(a + "_" + b + "_" + c);
  }

  /** Its normal form drops the two underscores. */
  lemma NormalizeExampleToken(a: string, b: string, c: string)
    requires a == "0x2000" && b == "4000" && c == "mib"
    ensures Parse.NormalizeInput(a + "_" + b + "_" + c) == "0x20004000mib"
  {
    TrimExample(a + "_" + b + "_" + c);
    DropUnderscoresExample(a, b, c);
    LowerExample("0x20004000mib");
  }

  lemma TrimExample(token: string)
    requires |token| >= 1 && token[0] == '0' && token[|token| - 1] == 'b'
    ensures Trim(token) == token
  {
    assert TrimStart(token) == token && TrimEnd(token) == token;
  }

  lemma DropUnderscoresExample(a: string, b: string, c: string)
    requires a == "0x2000" && b == "4000" && c == "mib"
    ensures RemoveChar(a + "_" + b + "_" + c, '_') == "0x20004000mib"
  {
    assert a + "_" + b + "_" + c == a + ['_'] + (b + ['_'] + c);
    RemoveCharSkip(a, b + ['_'] + c, '_');
    RemoveCharSkip(b, c, '_');
    RemoveCharAbsent(c, '_');
  }

  lemma LowerExample(t: string)
    requires t == "0x20004000mib"
    ensures ToLower(t) == t
  {
    assert forall k :: 0 <= k < |t| ==> !IsUpper(t[k]);
    LowerKeepsLowerCase(t);
  }

  /** A text without upper-case letters is its own lower-case form. */
  lemma LowerKeepsLowerCase(t: string)
    requires forall k :: 0 <= k < |t| ==> !IsUpper(t[k])
    ensures ToLower(t) == t
  {
  }

  lemma ParseExampleNormalized(original: string)
    ensures ParseWith(original, "0x20004000mib") ==
      Accepted(Parsed(original, "0x20004000mib", "mib", "20004000", Mibi, Hex, 0x2000_4000 * 0x10_0000))
  {
    var s := "0x20004000mib";
    ExampleGroups();
    ValidInputDecodesGroups(original, s);
    DecodeExample(original);
  }

  lemma ExampleGroups()
    ensures var s := "0x20004000mib";
      && InputValid(s) && !BareBinMarker(s) && NsFromInput(s) == Hex && DigitsStart(s) == 2
      && Parse.HexRunFrom(s, 2) == 10 && s[2..10] == "20004000" && s[10..] == "mib"
  {
    assert Parse.HexRunFrom("0x20004000mib", 2) == 10;
  }

  lemma DecodeExample(original: string)
    ensures Decode(original, "0x20004000mib", Hex, "20004000", "mib") ==
      Accepted(Parsed(original, "0x20004000mib", "mib", "20004000", Mibi, Hex, 0x2000_4000 * 0x10_0000))
  {
    assert UnitFromStr("mib") == Mibi;
    assert Factor(Mibi) == 0x10_0000 by {
      ParseUnit.FactorValues();
    }
    HexValueExample();
  }

  lemma HexValueExample()
    ensures AllDigits("20004000", 16) && ValueOf("20004000", 16) == 0x2000_4000
  {
    assert "20004000"[..7] == "2000400" && "2000400"[..6] == "200040" && "200040"[..5] == "20004";
    assert "20004"[..4] == "2000";
    HexPrefixValue();
    assert ValueOf("20004", 16) == 0x2_0004;
    assert ValueOf("200040", 16) == 0x20_0040;
    assert ValueOf("2000400", 16) == 0x200_0400;
  }

  lemma HexPrefixValue()
    ensures AllDigits("2000", 16) && ValueOf("2000", 16) == 0x2000
  {
    assert "2000"[..3] == "200" && "200"[..2] == "20" && "20"[..1] == "2";
    assert ValueOf("2", 16) == 0x2 by {
      assert "2"[..0] == "";
    }
    assert ValueOf("20", 16) == 0x20;
    assert ValueOf("200", 16) == 0x200;
  }
}
