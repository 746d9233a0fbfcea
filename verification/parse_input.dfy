/** The input decoder (src/parse/mod.rs). A raw token is normalised, cut by
    the grammar

        ^(-)?(0[box])?([0-9a-f]+)([a-z]{1,4})?$

    into a sign, a numeral-system marker, a digit string and a unit suffix,
    and each group is resolved: the marker to a radix, the suffix to a unit,
    the digits to a `u64` in that radix. The unit is kept beside the value and
    is not applied to it.

    The regular expression is modelled by a scanner; `SplitIsLeftmostFirst`
    proves that the scanner picks the same groups as a leftmost-first engine
    (the sign and the marker when they can be taken, then the longest digit
    run). The `unwrap` on `from_str_radix` in `Parsed::new` is modelled as an
    explicit `Panicked` outcome, never as a value. */
module Parse {
  import opened Common
  import opened Radix
  import opened ParseErrors
  import ParseSign
  import ParseNs
  import ParseUnit

  // ---------------------------------------------------------------------
  // Normalisation

  /** `normalize_input`: trim, delete every '_', lowercase. */
  function NormalizeInput(input: string): (r: string)
    ensures '_' !in r
    ensures forall k :: 0 <= k < |r| ==> !IsUpper(r[k])
  {
    var noUnderscore := RemoveChar(Trim(input), '_');
    var r := ToLower(noUnderscore);
    assert forall k :: 0 <= k < |r| ==> r[k] != '_' by {
      forall k | 0 <= k < |r| ensures r[k] != '_' {
        assert noUnderscore[k] in noUnderscore;
      }
    }
    r
  }

  /** A token already in normal form: no surrounding white space, no '_' and
      no upper-case letter. */
  predicate IsNormal(t: string)
  {
    && (t == [] || (!IsWhitespace(t[0]) && !IsWhitespace(t[|t| - 1])))
    && '_' !in t
    && forall k :: 0 <= k < |t| ==> !IsUpper(t[k])
  }

  /** Normalisation leaves a normal token as it is. */
  lemma NormalizeKeepsNormal(t: string)
    requires IsNormal(t)
    ensures NormalizeInput(t) == t
  {
    assert TrimStart(t) == t;
    assert TrimEnd(t) == t;
    RemoveCharAbsent(t, '_');
    assert ToLower(t) == t;
  }

  /** White space around the token does not matter. */
  lemma NormalizeIgnoresSurroundingWhitespace(a: string, t: string, b: string)
    requires AllWhitespace(a) && AllWhitespace(b)
    ensures NormalizeInput(a + t + b) == NormalizeInput(t)
  {
    TrimIgnoresSurroundingWhitespace(a, t, b);
  }

  lemma TrimIgnoresSurroundingWhitespace(a: string, t: string, b: string)
    requires AllWhitespace(a) && AllWhitespace(b)
    ensures Trim(a + t + b) == Trim(t)
  {
    if TrimStart(t) == [] {
      TrimOfBlankMiddle(a, t, b);
    } else {
      TrimOfTokenMiddle(a, t, b);
    }
  }

  /** Around a blank token everything is trimmed away. */
  lemma TrimOfBlankMiddle(a: string, t: string, b: string)
    requires AllWhitespace(a) && AllWhitespace(b) && TrimStart(t) == []
    ensures Trim(a + t + b) == [] && Trim(t) == []
  {
    assert AllWhitespace(t) by {
      assert t[..|t|] == t;
    }
    assert AllWhitespace(a + t + b);
    TrimStartOfBlank(a + t + b);
  }

  lemma {:induction false} TrimStartOfBlank(s: string)
    requires AllWhitespace(s)
    ensures TrimStart(s) == []
  {
    if s != [] {
      TrimStartOfBlank(s[1..]);
    }
  }

  /** Around a token with a non-blank character only the outer white space
      goes. */
  lemma TrimOfTokenMiddle(a: string, t: string, b: string)
    requires AllWhitespace(a) && AllWhitespace(b) && TrimStart(t) != []
    ensures Trim(a + t + b) == Trim(t)
  {
    TrimStartAroundToken(a, t, b);
    TrimEndSkipsWhitespace(TrimStart(t), b);
  }

  lemma TrimStartAroundToken(a: string, t: string, b: string)
    requires AllWhitespace(a) && TrimStart(t) != []
    ensures TrimStart(a + t + b) == TrimStart(t) + b
  {
    TrimStartSkipsWhitespace(a, t + b);
    assert a + t + b == a + (t + b);
    TrimStartOfAppend(t, b);
  }

  lemma {:induction false} TrimStartSkipsWhitespace(a: string, t: string)
    requires AllWhitespace(a)
    ensures TrimStart(a + t) == TrimStart(t)
  {
    if a != [] {
      assert (a + t)[1..] == a[1..] + t;
      TrimStartSkipsWhitespace(a[1..], t);
    } else {
      assert a + t == t;
    }
  }

  lemma {:induction false} TrimStartOfAppend(t: string, b: string)
    requires TrimStart(t) != []
    ensures TrimStart(t + b) == TrimStart(t) + b
  {
    if t != [] && IsWhitespace(t[0]) {
      assert (t + b)[1..] == t[1..] + b;
      TrimStartOfAppend(t[1..], b);
    }
  }

  lemma {:induction false} TrimEndSkipsWhitespace(t: string, b: string)
    requires AllWhitespace(b)
    ensures TrimEnd(t + b) == TrimEnd(t)
    decreases |b|
  {
    if b != [] {
      assert (t + b)[..|t + b| - 1] == t + b[..|b| - 1];
      TrimEndSkipsWhitespace(t, b[..|b| - 1]);
    } else {
      assert t + b == t;
    }
  }

  // ---------------------------------------------------------------------
  // The grammar

  predicate IsLowerLetter(c: char)
  {
    'a' <= c <= 'z'
  }

  /** The digit group as a text: at least one hex digit. */
  predicate IsValueGroup(t: string)
  {
    |t| >= 1 && forall m :: 0 <= m < |t| ==> IsHexDigit(t[m])
  }

  /** The groups as offsets into `s`: the sign group is `s[..i]`, the marker
      group `s[i..j]`, the digit group `s[j..k]` and the unit group `s[k..]`.
      An absent optional group is an empty span. */
  predicate SignEndsAt(s: string, i: nat)
  {
    i == 0 || (i == 1 && |s| >= 1 && s[0] == '-')
  }

  predicate NsSpans(s: string, i: nat, j: nat)
  {
    j == i || (j == i + 2 && j <= |s| && s[i] == '0' && (s[i + 1] == 'b' || s[i + 1] == 'o' || s[i + 1] == 'x'))
  }

  predicate ValueSpans(s: string, j: nat, k: nat)
  {
    j < k <= |s| && forall m :: j <= m < k ==> IsHexDigit(s[m])
  }

  predicate UnitSpans(s: string, k: nat)
  {
    k <= |s| && |s| - k <= 4 && forall m :: k <= m < |s| ==> IsLowerLetter(s[m])
  }

  /** Cutting `s` at `i <= j <= k` gives a sign group, a marker group, a digit
      group and a unit group, in that order and covering all of `s`. */
  predicate Decomposes(s: string, i: nat, j: nat, k: nat)
  {
    i <= j && SignEndsAt(s, i) && NsSpans(s, i, j) && ValueSpans(s, j, k) && UnitSpans(s, k)
  }

  /** The language of the anchored regular expression. */
  ghost predicate MatchesGrammar(s: string)
  {
    exists i: nat, j: nat, k: nat :: Decomposes(s, i, j, k)
  }

  // ---------------------------------------------------------------------
  // The scanner standing in for the regular expression

  /** The end of the maximal run of hex digits that starts at `j`. */
  function HexRunFrom(s: string, j: nat): (k: nat)
    requires j <= |s|
    ensures j <= k <= |s|
    ensures forall m :: j <= m < k ==> IsHexDigit(s[m])
    ensures k < |s| ==> !IsHexDigit(s[k])
    decreases |s| - j
  {
    if j < |s| && IsHexDigit(s[j]) then HexRunFrom(s, j + 1) else j
  }

  /** Digits from `j`, then the unit: the end of the longest digit run, if
      what follows it is a unit group. */
  function TailCut(s: string, j: nat): (r: Option<nat>)
    requires j <= |s|
    ensures r.Some? ==> ValueSpans(s, j, r.value) && UnitSpans(s, r.value)
  {
    var k := HexRunFrom(s, j);
    if j < k && UnitSpans(s, k) then Some(k) else None
  }

  /** The offsets `(i, j, k)` the match takes: the sign if present, the marker
      if the rest still matches after it, then the longest digit run. */
  function Cut(s: string): (r: Option<(nat, nat, nat)>)
    ensures r.Some? ==> Decomposes(s, r.value.0, r.value.1, r.value.2)
  {
    var i := if |s| > 0 && s[0] == '-' then 1 else 0;
    var withNs := if NsSpans(s, i, i + 2) then TailCut(s, i + 2) else None;
    if withNs.Some? then Some((i, i + 2, withNs.value))
    else
      match TailCut(s, i)
      case Some(k) => Some((i, i, k))
      case None => None
  }

  /** The named capture groups; `None` is a group that did not take part. */
  datatype InputSplit = InputSplit(sign: Option<string>, ns: Option<string>, value: string, unit: Option<string>)

  /** `Option::unwrap_or("")`. */
  function OrEmpty(group: Option<string>): string
  {
    if group.Some? then group.value else ""
  }

  /** A group of the grammar that matched `t`; none of them can match "". */
  function Group(t: string): Option<string>
  {
    if t == "" then None else Some(t)
  }

  function SignEnd(split: InputSplit): nat
  {
    |OrEmpty(split.sign)|
  }

  function NsEnd(split: InputSplit): nat
  {
    SignEnd(split) + |OrEmpty(split.ns)|
  }

  function ValueEnd(split: InputSplit): nat
  {
    NsEnd(split) + |split.value|
  }

  const NO_MATCH: string := "Input doesn't match Regex"

  /** `get_input_split`: the capture groups of the grammar, or `InvalidFormat`.
      The groups are consecutive slices of the input that decompose it. */
  function GetInputSplit(normalizedInput: string): (r: Result<InputSplit, ParseError>)
    ensures r.Ok? ==> Decomposes(normalizedInput, SignEnd(r.value), NsEnd(r.value), ValueEnd(r.value))
    ensures r.Ok? ==>
      var s, split := normalizedInput, r.value;
      && OrEmpty(split.sign) == s[..SignEnd(split)]
      && OrEmpty(split.ns) == s[SignEnd(split)..NsEnd(split)]
      && split.value == s[NsEnd(split)..ValueEnd(split)]
      && OrEmpty(split.unit) == s[ValueEnd(split)..]
    ensures r.Err? ==> r.error == InvalidFormat(NO_MATCH)
  {
    var s := normalizedInput;
    match Cut(s)
    case None => Err(InvalidFormat(NO_MATCH))
    case Some((i, j, k)) => Ok(InputSplit(Group(s[..i]), Group(s[i..j]), s[j..k], Group(s[k..])))
  }

  /** Any digits-then-unit cut from `j` is found, with a digit group at least
      as long. */
  lemma TailCutIsFound(s: string, j: nat, k: nat)
    requires ValueSpans(s, j, k) && UnitSpans(s, k)
    ensures TailCut(s, j).Some? && TailCut(s, j).value >= k
  {
  }

  /** The scanner takes the same groups as a leftmost-first match of the
      grammar: for every way `(i, j, k)` of cutting `s` into the four groups,
      the scanner succeeds, takes the same sign, takes a marker whenever that
      cut does, and, with the same marker, takes at least as many digits.
      Together with the first postcondition of `GetInputSplit`, this makes
      the split the first in the regular expression's order of preference. */
  lemma SplitIsLeftmostFirst(s: string, i: nat, j: nat, k: nat)
    requires Decomposes(s, i, j, k)
    ensures GetInputSplit(s).Ok?
    ensures var split := GetInputSplit(s).value;
      SignEnd(split) == i && NsEnd(split) >= j && (NsEnd(split) == j ==> ValueEnd(split) >= k)
  {
    if j > i {
      TailCutIsFound(s, j, k);
    } else {
      TailCutIsFound(s, i, k);
    }
  }

  /** The split succeeds exactly on the language of the grammar; otherwise it
      is an `InvalidFormat` error. */
  lemma SplitSucceedsIffGrammar(s: string)
    ensures GetInputSplit(s).Ok? <==> MatchesGrammar(s)
    ensures GetInputSplit(s).Err? ==> GetInputSplit(s).error.InvalidFormat?
  {
    if MatchesGrammar(s) {
      var i: nat, j: nat, k: nat :| Decomposes(s, i, j, k);
      SplitIsLeftmostFirst(s, i, j, k);
    }
    if GetInputSplit(s).Ok? {
      var split := GetInputSplit(s).value;
      assert Decomposes(s, SignEnd(split), NsEnd(split), ValueEnd(split));
    }
  }

  /** The two splits of the unit tests, "-0x123ki" and "123". */
  lemma SplitExamples()
    ensures GetInputSplit("-0x123ki") == Ok(InputSplit(Some("-"), Some("0x"), "123", Some("ki")))
    ensures GetInputSplit("123") == Ok(InputSplit(None, None, "123", None))
  {
    var s := "-0x123ki";
    assert HexRunFrom(s, 6) == 6;
    assert HexRunFrom(s, 3) == 6;
    assert Cut(s) == Some((1, 3, 6));
    assert s[..1] == "-" && s[1..3] == "0x" && s[3..6] == "123" && s[6..] == "ki";
    var t := "123";
    assert HexRunFrom(t, 0) == 3;
    assert Cut(t) == Some((0, 0, 3));
    assert t[..0] == "" && t[0..3] == t && t[3..] == "";
  }

  // ---------------------------------------------------------------------
  // Resolving the groups

  datatype Parsed = Parsed(
    normalizedInput: string,
    numeralSystem: ParseNs.NumeralSystem,
    unit: ParseUnit.Unit,
    sign: ParseSign.Sign,
    value: u64,        // the digits in the numeral system's radix; the unit is not applied
    valueStr: string)

  /** The outcome of `parse_input`: the parsed record, a returned error, or a
      panic in an `unwrap` of `from_str_radix`. */
  datatype ParseOutcome =
    | Success(parsed: Parsed)
    | Failure(error: ParseError)
    | Panicked(cause: IntErrorKind)

  /** The radix `Parsed::new` decodes each numeral system in. */
  function RadixOf(ns: ParseNs.NumeralSystem): nat
  {
    match ns
    case Bin => 2
    case Octal => 8
    case Decimal => 10
    case Hex => 16
  }

  /** `Parsed::new`: decodes the digit string in the radix of the numeral
      system; a digit invalid in that radix or a value of 2^64 or more makes
      the `unwrap` panic. */
  function NewParsed(normalizedInput: string, ns: ParseNs.NumeralSystem, valueStr: string,
                     unit: ParseUnit.Unit, sign: ParseSign.Sign): (r: ParseOutcome)
    ensures !r.Failure?
    ensures r.Success? <==>
      |valueStr| > 0 && AllDigits(valueStr, RadixOf(ns)) && ValueOf(valueStr, RadixOf(ns)) < U64_LIMIT
    ensures r.Success? ==>
      && r.parsed.value == ValueOf(valueStr, RadixOf(ns))
      && r.parsed.numeralSystem == ns && r.parsed.unit == unit && r.parsed.sign == sign
      && r.parsed.valueStr == valueStr && r.parsed.normalizedInput == normalizedInput
  {
    match FromStrRadix(valueStr, RadixOf(ns))
    case Ok(v) => Success(Parsed(normalizedInput, ns, unit, sign, v, valueStr))
    case Err(e) => Panicked(e)
  }

  /** `parse_input`: normalise, then split and resolve. */
  function ParseInput(input: string): (r: ParseOutcome)
    ensures r.Success? ==> r.parsed.normalizedInput == NormalizeInput(input)
    ensures r.Success? ==> '_' !in r.parsed.normalizedInput && forall k :: 0 <= k < |r.parsed.normalizedInput| ==> !IsUpper(r.parsed.normalizedInput[k])
  {
    ParseNormalized(NormalizeInput(input))
  }

  /** The steps of `parse_input` after normalisation: split by the grammar,
      resolve numeral system, unit and sign, then decode. The `?` on the split
      and on the unit lookup return their errors. */
  function ParseNormalized(normalized: string): (r: ParseOutcome)
    ensures r.Success? ==> r.parsed.normalizedInput == normalized
    ensures r.Failure? ==> r.error == InvalidFormat(NO_MATCH) || r.error == InvalidUnit(UnitText(normalized))
  {
    match GetInputSplit(normalized)
    case Err(e) => Failure(e)
    case Ok(split) =>
      var ns := ParseNs.FromInput(OrEmpty(split.ns));
      match ParseUnit.FromInput(OrEmpty(split.unit))
      case Err(e) => Failure(e)
      case Ok(unit) =>
        var sign := ParseSign.FromInput(OrEmpty(split.sign));
        NewParsed(normalized, ns, split.value, unit, sign)
  }

  /** The unit group of a normalised input, when the grammar matches. */
  function UnitText(normalized: string): string
  {
    var split := GetInputSplit(normalized);
    if split.Ok? then OrEmpty(split.value.unit) else ""
  }

  /** `InvalidFormat` is returned exactly when the normalised input is outside
      the grammar. */
  lemma FormatErrorIffNoMatch(normalized: string)
    ensures (ParseNormalized(normalized).Failure? && ParseNormalized(normalized).error.InvalidFormat?)
            <==> !MatchesGrammar(normalized)
  {
    SplitSucceedsIffGrammar(normalized);
  }

  /** `InvalidUnit` is returned exactly when the input is in the grammar but
      its unit group is not in the suffix table, and it carries that group. */
  lemma UnitErrorIffUnknownSuffix(normalized: string)
    ensures (ParseNormalized(normalized).Failure? && ParseNormalized(normalized).error.InvalidUnit?)
            <==> MatchesGrammar(normalized) && ParseUnit.FromInput(UnitText(normalized)).Err?
    ensures ParseNormalized(normalized).Failure? && ParseNormalized(normalized).error.InvalidUnit? ==>
            ParseNormalized(normalized).error == InvalidUnit(UnitText(normalized))
  {
    SplitSucceedsIffGrammar(normalized);
    ParseUnit.FromInputIsAliasTable(UnitText(normalized), ParseUnit.Base);
  }

  /** A successful parse keeps the normalised input, which is the sign, the
      marker of the numeral system, the digit string and a suffix naming the
      unit, in that order; the value is the digit string read in the radix of
      the numeral system, and the unit is not applied to it. */
  lemma SuccessReassemblesInput(normalized: string)
    requires ParseNormalized(normalized).Success?
    ensures var p := ParseNormalized(normalized).parsed;
      var prefix := ParseSign.Glyph(p.sign) + ParseNs.Marker(p.numeralSystem) + p.valueStr;
      && p.normalizedInput == normalized
      && StartsWith(normalized, prefix)
      && ParseUnit.FromInput(normalized[|prefix|..]) == Common.Ok(p.unit)
      && IsValueGroup(p.valueStr)
      && AllDigits(p.valueStr, RadixOf(p.numeralSystem))
      && p.value == ValueOf(p.valueStr, RadixOf(p.numeralSystem))
  {
    var s := normalized;
    var split := GetInputSplit(s).value;
    var p := ParseNormalized(s).parsed;
    var i, j, k := SignEnd(split), NsEnd(split), ValueEnd(split);
    SignGroupIsGlyph(s, i);
    NsGroupIsMarker(s, i, j);
    assert ParseSign.Glyph(p.sign) == s[..i];
    assert ParseNs.Marker(p.numeralSystem) == s[i..j];
    assert p.valueStr == s[j..k];
    ThreeSlices(s, i, j, k);
    assert ParseSign.Glyph(p.sign) + ParseNs.Marker(p.numeralSystem) + p.valueStr == s[..k];
    assert ParseUnit.FromInput(s[k..]) == Common.Ok(p.unit);
  }

  lemma ThreeSlices(s: string, i: nat, j: nat, k: nat)
    requires i <= j <= k <= |s|
    ensures s[..i] + s[i..j] + s[j..k] == s[..k]
  {
  }

  /** The sign group reads back to a sign that displays as the group. */
  lemma SignGroupIsGlyph(s: string, i: nat)
    requires SignEndsAt(s, i)
    ensures ParseSign.Glyph(ParseSign.FromInput(s[..i])) == s[..i]
  {
    if i == 1 {
      assert s[..i] == "-";
    }
  }

  /** The marker group reads back to a numeral system whose marker is the
      group. */
  lemma NsGroupIsMarker(s: string, i: nat, j: nat)
    requires NsSpans(s, i, j) && j <= |s|
    ensures ParseNs.Marker(ParseNs.FromInput(s[i..j])) == s[i..j]
  {
    if j > i {
      var g := s[i..j];
      assert g == ['0', s[i + 1]];
      ParseNs.FromInputReadsMarker(g);
    }
  }

  /** In the grammar and with a known unit, the parse panics exactly when the
      digits are not all valid in the radix or their value does not fit in
      64 bits. */
  lemma PanicIffDigitsDoNotFit(normalized: string)
    requires MatchesGrammar(normalized) && ParseUnit.FromInput(UnitText(normalized)).Ok?
    ensures var split := GetInputSplit(normalized).value;
      var radix := RadixOf(ParseNs.FromInput(OrEmpty(split.ns)));
      ParseNormalized(normalized).Panicked? <==>
        !(AllDigits(split.value, radix) && ValueOf(split.value, radix) < U64_LIMIT)
  {
    SplitSucceedsIffGrammar(normalized);
  }

  /** Shifting the text by a prefix shifts the digit run by its length. */
  lemma {:induction false} HexRunAfterPrefix(p: string, t: string, j: nat)
    requires j <= |t|
    ensures HexRunFrom(p + t, |p| + j) == |p| + HexRunFrom(t, j)
    decreases |t| - j
  {
    if j < |t| {
      assert (p + t)[|p| + j] == t[j];
      HexRunAfterPrefix(p, t, j + 1);
    }
  }

  /** A minus sign in front of a normalised text changes only the sign: the
      parse has the same outcome, with the same value, numeral system and
      unit, and a negative sign where the text alone had a positive one. */
  lemma SignDoesNotChangeMagnitude(t: string)
    requires t == [] || t[0] != '-'
    ensures ParseNormalized("-" + t).Success? == ParseNormalized(t).Success?
    ensures ParseNormalized("-" + t).Failure? == ParseNormalized(t).Failure?
    ensures ParseNormalized(t).Success? ==>
      var neg, pos := ParseNormalized("-" + t).parsed, ParseNormalized(t).parsed;
      && neg.value == pos.value && neg.numeralSystem == pos.numeralSystem && neg.unit == pos.unit
      && neg.sign == ParseSign.Negative && pos.sign == ParseSign.Positive
  {
    SplitAfterMinus(t);
    var m := "-" + t;
    if GetInputSplit(t).Ok? {
      var sm, st := GetInputSplit(m).value, GetInputSplit(t).value;
      assert ParseSign.FromInput(OrEmpty(sm.sign)) == ParseSign.Negative;
      assert ParseSign.FromInput(OrEmpty(st.sign)) == ParseSign.Positive;
    }
  }

  /** Behind a minus sign the split has the same marker, digits and unit,
      and the minus sign as its sign group. */
  lemma SplitAfterMinus(t: string)
    requires t == [] || t[0] != '-'
    ensures GetInputSplit("-" + t).Ok? == GetInputSplit(t).Ok?
    ensures GetInputSplit(t).Ok? ==>
      var sm, st := GetInputSplit("-" + t).value, GetInputSplit(t).value;
      && sm.ns == st.ns && sm.value == st.value && sm.unit == st.unit
      && OrEmpty(sm.sign) == "-" && OrEmpty(st.sign) == ""
  {
    CutAfterMinus(t);
    if Cut(t).Some? {
      var (i, j, k) := Cut(t).value;
      SplitOfShiftedCut(t, j, k);
    }
  }

  /** The groups of a text and of the text behind a minus sign, when their
      cuts differ by the sign. */
  lemma SplitOfShiftedCut(t: string, j: nat, k: nat)
    requires Cut(t) == Some((0, j, k)) && Cut("-" + t) == Some((1 as nat, (j + 1) as nat, (k + 1) as nat))
    ensures GetInputSplit("-" + t) == Ok(InputSplit(Some("-"), Group(t[..j]), t[j..k], Group(t[k..])))
    ensures GetInputSplit(t) == Ok(InputSplit(None, Group(t[..j]), t[j..k], Group(t[k..])))
  {
    var m := "-" + t;
    assert m[..1] == "-" && t[..0] == "";
    assert m[1..j + 1] == t[..j] && m[j + 1..k + 1] == t[j..k] && m[k + 1..] == t[k..];
  }

  /** Behind a minus sign the cut is the same, one position later. */
  lemma CutAfterMinus(t: string)
    requires t == [] || t[0] != '-'
    ensures Cut("-" + t).Some? == Cut(t).Some?
    ensures Cut(t).Some? ==>
      var (i, j, k) := Cut(t).value;
      i == 0 && Cut("-" + t).value == (1, j + 1, k + 1)
  {
    var m := "-" + t;
    assert m[0] == '-';
    assert NsSpans(m, 1, 3) == NsSpans(t, 0, 2);
    if |t| >= 2 {
      TailCutAfterMinus(t, 2);
    }
    TailCutAfterMinus(t, 0);
  }

  lemma TailCutAfterMinus(t: string, j: nat)
    requires j <= |t|
    ensures TailCut("-" + t, j + 1).Some? == TailCut(t, j).Some?
    ensures TailCut(t, j).Some? ==> TailCut("-" + t, j + 1).value == TailCut(t, j).value + 1
  {
    var m := "-" + t;
    HexRunAfterPrefix("-", t, j);
    var k := HexRunFrom(t, j);
    assert UnitSpans(m, k + 1) == UnitSpans(t, k) by {
      assert forall x :: k <= x < |t| ==> m[x + 1] == t[x];
    }
  }

  /** A marker followed by hex digits is already normalised. */
  lemma MarkedDigitsAreNormal(marker: string, d: string)
    requires marker == "" || marker == "0b" || marker == "0o" || marker == "0x"
    requires d != [] && forall m :: 0 <= m < |d| ==> IsHexDigit(d[m])
    ensures IsNormal(marker + d)
  {
    var t := marker + d;
    forall m | 0 <= m < |t| ensures t[m] != '_' && !IsUpper(t[m]) {
      if m >= |marker| { assert t[m] == d[m - |marker|]; }
    }
    assert t[|t| - 1] == d[|d| - 1];
  }

  /** Printing a `u64` in any of the four numeral systems behind its marker
      and parsing the normalised text back gives the number and the numeral
      system. */
  lemma ParsePrintedDigits(n: u64, ns: ParseNs.NumeralSystem)
    ensures var r := ParseNormalized(ParseNs.Marker(ns) + ToRadix(n, RadixOf(ns)));
      && r.Success?
      && r.parsed.value == n && r.parsed.numeralSystem == ns
      && r.parsed.unit == ParseUnit.Base && r.parsed.sign == ParseSign.Positive
  {
    var t := ParseNs.Marker(ns) + ToRadix(n, RadixOf(ns));
    SplitOfPrintedDigits(n, ns);
    ToRadixFromStrRadix(n, RadixOf(ns));
    ParseNs.MarkerRoundTrip(ns, []);
    var split := GetInputSplit(t).value;
    assert ParseNs.FromInput(OrEmpty(split.ns)) == ns;
    assert ParseUnit.FromInput(OrEmpty(split.unit)) == Ok(ParseUnit.Base);
    assert ParseSign.FromInput(OrEmpty(split.sign)) == ParseSign.Positive;
  }

  /** Such a text splits into no sign, the marker, the digits and no unit. */
  lemma SplitOfPrintedDigits(n: u64, ns: ParseNs.NumeralSystem)
    ensures var t := ParseNs.Marker(ns) + ToRadix(n, RadixOf(ns));
      && GetInputSplit(t).Ok?
      && OrEmpty(GetInputSplit(t).value.sign) == ""
      && OrEmpty(GetInputSplit(t).value.ns) == ParseNs.Marker(ns)
      && GetInputSplit(t).value.value == ToRadix(n, RadixOf(ns))
      && OrEmpty(GetInputSplit(t).value.unit) == ""
  {
    var d := ToRadix(n, RadixOf(ns));
    var marker := ParseNs.Marker(ns);
    var t := marker + d;
    CutOfPrintedDigits(n, ns);
    assert t[..0] == "" && t[0..|marker|] == marker && t[|marker|..|t|] == d && t[|t|..] == "";
  }

  /** Such a text is cut into no sign, the marker and the digits to the end. */
  lemma CutOfPrintedDigits(n: u64, ns: ParseNs.NumeralSystem)
    ensures var t := ParseNs.Marker(ns) + ToRadix(n, RadixOf(ns));
      Cut(t).Some? && Cut(t).value.0 == 0 && Cut(t).value.1 == |ParseNs.Marker(ns)| && Cut(t).value.2 == |t|
  {
    var d := ToRadix(n, RadixOf(ns));
    var marker := ParseNs.Marker(ns);
    var t := marker + d;
    var i := |marker|;
    assert forall m :: i <= m < |t| ==> t[m] == d[m - i];
    HexRunReachesEnd(t, i);
    if ns == ParseNs.Decimal {
      assert !NsSpans(t, 0, 2);
    }
  }

  /** The same for the raw input: such a text passes normalisation unchanged. */
  lemma ParsePrintedNumber(n: u64, ns: ParseNs.NumeralSystem)
    ensures var r := ParseInput(ParseNs.Marker(ns) + ToRadix(n, RadixOf(ns)));
      && r.Success?
      && r.parsed.value == n && r.parsed.numeralSystem == ns
      && r.parsed.unit == ParseUnit.Base && r.parsed.sign == ParseSign.Positive
  {
    var t := ParseNs.Marker(ns) + ToRadix(n, RadixOf(ns));
    PrintedNumberIsNormal(n, ns);
    assert NormalizeInput(t) == t;
    ParseInputOfNormalized(t);
    ParsePrintedDigits(n, ns);
    assert ParseNormalized(t).Success?;
    assert ParseInput(t).Success?;
  }

  /** A text that normalisation leaves alone is parsed as it is. */
  lemma ParseInputOfNormalized(t: string)
    requires NormalizeInput(t) == t
    ensures ParseInput(t) == ParseNormalized(t)
  {
  }

  lemma PrintedNumberIsNormal(n: u64, ns: ParseNs.NumeralSystem)
    ensures var t := ParseNs.Marker(ns) + ToRadix(n, RadixOf(ns)); NormalizeInput(t) == t
  {
    MarkedDigitsAreNormal(ParseNs.Marker(ns), ToRadix(n, RadixOf(ns)));
    NormalizeKeepsNormal(ParseNs.Marker(ns) + ToRadix(n, RadixOf(ns)));
  }

  /** A text of hex digits from `j` on is one digit run to its end. */
  lemma {:induction false} HexRunReachesEnd(s: string, j: nat)
    requires j <= |s| && forall m :: j <= m < |s| ==> IsHexDigit(s[m])
    ensures HexRunFrom(s, j) == |s|
    decreases |s| - j
  {
    if j < |s| {
      HexRunReachesEnd(s, j + 1);
    }
  }

  /** The unit tests' token "-0xFMib": negative, hex, fifteen, mebibyte. */
  lemma ParseExample(token: string)
    requires token == "-0xFMib"
    ensures ParseInput(token) ==
      Success(Parsed("-0xfmib", ParseNs.Hex, ParseUnit.Mibi, ParseSign.Negative, 15, "f"))
  {
    NormalizeTokenExample(token);
    ParseExampleNormalized();
  }

  /** The token's normalisation lowercases its digits and its unit. */
  lemma NormalizeTokenExample(token: string)
    requires token == "-0xFMib"
    ensures NormalizeInput(token) == "-0xfmib"
  {
    assert token[0] == '-' && token[6] == 'b';
    assert '_' !in token by {
      forall k | 0 <= k < |token| ensures token[k] != '_' { }
    }
    NormalizeOnlyLowers(token);
    LowerTokenExample(token);
  }

  /** The normalisations of `test_normalized_input`: the underscores go and
      the unit is lowercased; a plain decimal token is already normal. */
  lemma NormalizeExamples(a: string, b: string, c: string)
    requires a == "0x" && b == "dead" && c == "beefMB"
    ensures NormalizeInput(a + "_" + b + "_" + c) == "0xdeadbeefmb"
    ensures NormalizeInput("123456789") == "123456789"
  {
    TrimDeadBeef(a + "_" + b + "_" + c);
    DropUnderscoresDeadBeef(a, b, c);
    LowerDeadBeef(a + b + c);
    DecimalTokenIsNormal("123456789");
  }

  lemma TrimDeadBeef(t: string)
    requires t == "0x_dead_beefMB"
    ensures Trim(t) == t
  {
    assert TrimStart(t) == t && TrimEnd(t) == t;
  }

  lemma DropUnderscoresDeadBeef(a: string, b: string, c: string)
    requires a == "0x" && b == "dead" && c == "beefMB"
    ensures RemoveChar(a + "_" + b + "_" + c, '_') == a + b + c
  {
    assert a + "_" + b + "_" + c == a + ['_'] + (b + ['_'] + c);
    RemoveCharSkip(a, b + ['_'] + c, '_');
    RemoveCharSkip(b, c, '_');
    RemoveCharAbsent(c, '_');
  }

  lemma DecimalTokenIsNormal(t: string)
    requires t == "123456789"
    ensures NormalizeInput(t) == t
  {
    assert forall k :: 0 <= k < |t| ==> '0' <= t[k] <= '9';
    NormalizeKeepsNormal(t);
  }

  lemma LowerDeadBeef(t: string)
    requires t == "0xdeadbeefMB"
    ensures ToLower(t) == "0xdeadbeefmb"
  {
    var lower := ToLower(t);
    assert lower[10] == 'm' && lower[11] == 'b';
  }

  /** A token with no white space around it and no '_' is only lowercased. */
  lemma NormalizeOnlyLowers(t: string)
    requires t != [] && !IsWhitespace(t[0]) && !IsWhitespace(t[|t| - 1]) && '_' !in t
    ensures NormalizeInput(t) == ToLower(t)
  {
    assert TrimStart(t) == t;
    assert TrimEnd(t) == t;
    RemoveCharAbsent(t, '_');
  }

  lemma LowerTokenExample(token: string)
    requires token == "-0xFMib"
    ensures ToLower(token) == "-0xfmib"
  {
    var lower := ToLower(token);
    assert lower[3] == 'f' && lower[4] == 'm';
  }

  lemma ParseExampleNormalized()
    ensures ParseNormalized("-0xfmib") ==
      Success(Parsed("-0xfmib", ParseNs.Hex, ParseUnit.Mibi, ParseSign.Negative, 15, "f"))
  {
    var s := "-0xfmib";
    SplitOfToken();
    var split := GetInputSplit(s).value;
    assert ParseNs.FromInput(OrEmpty(split.ns)) == ParseNs.Hex;
    assert ParseUnit.FromInput(OrEmpty(split.unit)) == Ok(ParseUnit.Mibi);
    assert ParseSign.FromInput(OrEmpty(split.sign)) == ParseSign.Negative;
    assert FromStrRadix("f", 16) == Ok(15) by {
      assert "f"[..0] == "";
    }
  }

  lemma SplitOfToken()
    ensures GetInputSplit("-0xfmib") == Ok(InputSplit(Some("-"), Some("0x"), "f", Some("mib")))
  {
    var f := "-0xfmib";
    assert !IsHexDigit(f[4]);
    assert HexRunFrom(f, 3) == 4;
    assert Cut(f) == Some((1, 3, 4));
    assert f[..1] == "-" && f[1..3] == "0x" && f[3..4] == "f" && f[4..] == "mib";
  }
}
