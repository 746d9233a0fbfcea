/** Decimal-point alignment of two formatted numbers (src/print/fraction_fmt.rs):
    each text is split into a sign, a whole part and a fraction, zeros are
    dropped from the fraction, and both texts are padded with spaces so that
    their signs and their decimal points line up once they are right-aligned.

    `fractional_part_count_zeroes` counts every '0' of the fraction, not only
    the trailing ones, and `fractional_part_remove_zeroes` cuts that many
    characters off the end; the model keeps this (see `RemoveZeroesCutsInnerZero`). */
module FractionFmt {
  import opened Common

  /** The parts of a formatted number such as "1", "3.14" or "-14.141". */
  datatype FractionalNumberParts = FractionalNumberParts(
    hasSign: bool,
    wholePart: string,
    fractionalPart: Option<string>)

  predicate IsDigit(c: char)
  {
    '0' <= c <= '9'
  }

  predicate IsDigits(t: string)
  {
    |t| >= 1 && forall m :: 0 <= m < |t| ==> IsDigit(t[m])
  }

  predicate HasDigit(s: string)
  {
    exists m :: 0 <= m < |s| && IsDigit(s[m])
  }

  // ---------------------------------------------------------------------
  // Splitting: the search for `(-)?([0-9]+)(.([0-9]+))?`

  /** The end of the longest run of decimal digits from `j`. */
  function DigitRunFrom(s: string, j: nat): (k: nat)
    requires j <= |s|
    ensures j <= k <= |s|
    ensures forall m :: j <= m < k ==> IsDigit(s[m])
    ensures k < |s| ==> !IsDigit(s[k])
    decreases |s| - j
  {
    if j < |s| && IsDigit(s[j]) then DigitRunFrom(s, j + 1) else j
  }

  /** A match can start at `p`: a digit, or a minus followed by a digit. */
  predicate StartsMatch(s: string, p: nat)
    requires p < |s|
  {
    IsDigit(s[p]) || (s[p] == '-' && p + 1 < |s| && IsDigit(s[p + 1]))
  }

  /** The leftmost position from `p` on where a match starts, or `|s|`. */
  function MatchStart(s: string, p: nat): (q: nat)
    requires p <= |s|
    ensures p <= q <= |s|
    ensures forall m :: p <= m < q ==> !StartsMatch(s, m)
    ensures q < |s| ==> StartsMatch(s, q)
    decreases |s| - p
  {
    if p < |s| && !StartsMatch(s, p) then MatchStart(s, p + 1) else p
  }

  /** `get_fractional_number_parts`: the leftmost match; the sign when a minus
      precedes the digits, the longest digit run, and a fraction when any
      character but a line feed (the unescaped `.` of the pattern) and more
      digits follow. A text without a digit has no match and the `unwrap`
      panics; that is `None` here. */
  function GetFractionalNumberParts(formatted: string): (r: Option<FractionalNumberParts>)
    ensures r.None? <==> !HasDigit(formatted)
    ensures r.Some? ==> IsDigits(r.value.wholePart)
    ensures r.Some? && r.value.fractionalPart.Some? ==> IsDigits(r.value.fractionalPart.value)
  {
    var s := formatted;
    var q := MatchStart(s, 0);
    if q == |s| then
      assert !HasDigit(s) by {
        forall m | 0 <= m < |s| ensures !IsDigit(s[m]) {
          assert !StartsMatch(s, m);
        }
      }
      None
    else
      Some(PartsAt(s, q))
  }

  /** The groups of the match that starts at `q`. */
  function PartsAt(s: string, q: nat): (r: FractionalNumberParts)
    requires q < |s| && StartsMatch(s, q)
    ensures IsDigits(r.wholePart)
    ensures r.fractionalPart.Some? ==> IsDigits(r.fractionalPart.value)
  {
    var hasSign := s[q] == '-';
    var w := if hasSign then q + 1 else q;
    var e := DigitRunFrom(s, w);
    assert IsDigit(s[w]);
    FractionalNumberParts(hasSign, s[w..e], FractionAt(s, e))
  }

  /** The optional group after the whole part that ends at `e`. */
  function FractionAt(s: string, e: nat): (r: Option<string>)
    requires e <= |s|
    ensures r.Some? ==> IsDigits(r.value)
  {
    if e + 1 < |s| && s[e] != '\n' && IsDigit(s[e + 1]) then Some(s[e + 1..DigitRunFrom(s, e + 1)])
    else None
  }

  /** The parts of a number as the formatter writes them: digits, and a
      non-empty fraction if any. */
  predicate WellFormed(parts: FractionalNumberParts)
  {
    IsDigits(parts.wholePart) && (parts.fractionalPart.Some? ==> IsDigits(parts.fractionalPart.value))
  }

  /** The text of the parts: an optional minus, the whole part, and a point
      and the fraction when there is one. */
  function Render(parts: FractionalNumberParts): string
  {
    (if parts.hasSign then "-" else "") + parts.wholePart + FractionText(parts.fractionalPart)
  }

  /** A point and the fraction, or nothing. */
  function FractionText(fraction: Option<string>): string
  {
    match fraction
    case None => ""
    case Some(f) => "." + f
  }

  /** Splitting the text of well-formed parts gives the parts back. */
  lemma PartsOfRendered(parts: FractionalNumberParts)
    requires WellFormed(parts)
    ensures GetFractionalNumberParts(Render(parts)) == Some(parts)
  {
    var sign := if parts.hasSign then "-" else "";
    var s := Render(parts);
    var e := |sign| + |parts.wholePart|;
    assert s == sign + parts.wholePart + FractionText(parts.fractionalPart);
    WholeOfRendered(sign, parts.wholePart, FractionText(parts.fractionalPart));
    FractionOfRendered(sign + parts.wholePart, parts.fractionalPart);
    assert MatchStart(s, 0) == 0;
  }

  /** In `sign + whole + rest`, the match starts at 0 and its whole part is `whole`. */
  lemma WholeOfRendered(sign: string, whole: string, rest: string)
    requires sign == "" || sign == "-"
    requires IsDigits(whole)
    requires rest == [] || rest[0] == '.'
    ensures var s := sign + whole + rest;
      StartsMatch(s, 0) && (s[0] == '-' <==> sign == "-")
      && DigitRunFrom(s, |sign|) == |sign| + |whole|
      && s[|sign|..|sign| + |whole|] == whole
  {
    var s := sign + whole + rest;
    assert s[|sign|] == whole[0];
    if sign == "-" {
      assert s[0] == '-';
    }
    DigitRunOver(sign, whole, rest);
    assert s[|sign|..|sign| + |whole|] == whole;
  }

  /** After `head`, the optional group is the fraction that was rendered. */
  lemma FractionOfRendered(head: string, fraction: Option<string>)
    requires fraction.Some? ==> IsDigits(fraction.value)
    ensures FractionAt(head + FractionText(fraction), |head|) == fraction
  {
    var s := head + FractionText(fraction);
    var e := |head|;
    if fraction.Some? {
      var f := fraction.value;
      assert s == (head + ".") + f + [];
      assert s[e] == '.';
      assert s[e + 1] == f[0];
      DigitRunOver(head + ".", f, []);
      assert s[e + 1..|s|] == f;
    } else {
      assert s == head;
    }
  }

  /** The digit run from the end of `pre` covers `digits` and stops before `rest`. */
  lemma {:induction false} DigitRunOver(pre: string, digits: string, rest: string)
    requires forall m :: 0 <= m < |digits| ==> IsDigit(digits[m])
    requires rest == [] || !IsDigit(rest[0])
    ensures DigitRunFrom(pre + digits + rest, |pre|) == |pre| + |digits|
    decreases |digits|
  {
    var s := pre + digits + rest;
    if digits == [] {
      assert s == pre + rest;
      if rest != [] {
        assert s[|pre|] == rest[0];
      }
    } else {
      assert s == (pre + [digits[0]]) + digits[1..] + rest;
      assert s[|pre|] == digits[0];
      DigitRunOver(pre + [digits[0]], digits[1..], rest);
    }
  }

  /** The numbers of the unit tests: "-13.37", as `{:.2}` prints -13.37, and
      "1411010", as `{}` prints 1411010. */
  lemma PartsExamples(negative: string, whole: string)
    requires negative == "-13.37" && whole == "1411010"
    ensures GetFractionalNumberParts(negative) == Some(FractionalNumberParts(true, "13", Some("37")))
    ensures GetFractionalNumberParts(whole) == Some(FractionalNumberParts(false, "1411010", None))
  {
    PartsOfText(negative, FractionalNumberParts(true, "13", Some("37")));
    PartsOfText(whole, FractionalNumberParts(false, "1411010", None));
  }

  lemma PartsOfText(s: string, parts: FractionalNumberParts)
    requires WellFormed(parts) && s == Render(parts)
    ensures GetFractionalNumberParts(s) == Some(parts)
  {
    PartsOfRendered(parts);
  }

  // ---------------------------------------------------------------------
  // Dropping zeros from the fraction

  /** How many '0' characters `s` holds, anywhere in it. */
  function ZeroCount(s: string): (n: nat)
    ensures n <= |s|
    ensures n == multiset(s)['0']
  {
    if s == [] then 0
    else
      assert s == [s[0]] + s[1..];
      (if s[0] == '0' then 1 else 0) + ZeroCount(s[1..])
  }

  /** `fractional_part_count_zeroes`: walks the fraction from its last
      character to its first and counts the '0's. */
  method FractionalPartCountZeroes(fractionalPart: string) returns (zeroes: nat)
    ensures zeroes == multiset(fractionalPart)['0']
  {
    zeroes := 0;
    var n := |fractionalPart|;
    for i := 0 to n
      invariant zeroes == ZeroCount(fractionalPart[n - i..])
    {
      var j := n - 1 - i;
      if fractionalPart[j] == '0' {
        zeroes := zeroes + 1;
      }
      assert fractionalPart[j..][1..] == fractionalPart[j + 1..];
    }
    assert fractionalPart[0..] == fractionalPart;
  }

  /** `fractional_part_remove_zeroes`: the fraction without as many trailing
      characters as it has zeros. */
  function FractionalPartRemoveZeroes(fractionalPart: string): (r: string)
    ensures |r| == |fractionalPart| - multiset(fractionalPart)['0']
    ensures StartsWith(fractionalPart, r)
  {
    fractionalPart[..|fractionalPart| - ZeroCount(fractionalPart)]
  }

  /** When every zero of the fraction trails its other digits, they are
      exactly what is removed. */
  lemma {:induction false} RemoveZeroesStripsTrailing(digits: string, zeros: nat)
    requires '0' !in digits
    ensures FractionalPartRemoveZeroes(digits + Repeat('0', zeros)) == digits
  {
    var s := digits + Repeat('0', zeros);
    assert multiset(s) == multiset(digits) + multiset(Repeat('0', zeros));
    assert multiset(digits)['0'] == 0;
    RepeatCount('0', zeros);
    assert s[..|digits|] == digits;
  }

  lemma {:induction false} RepeatCount(c: char, n: nat)
    ensures multiset(Repeat(c, n))[c] == n
  {
    if n > 0 {
      assert Repeat(c, n) == [c] + Repeat(c, n - 1);
      RepeatCount(c, n - 1);
    }
  }

  /** A zero inside the fraction also counts, and costs the last digit: "05"
      loses its 5. */
  lemma RemoveZeroesCutsInnerZero()
    ensures FractionalPartRemoveZeroes("05") == "0"
    ensures FractionalPartRemoveZeroes("1020") == "10"
  {
    assert multiset("05")['0'] == 1;
    assert multiset("1020")['0'] == 2;
  }

  /** The cases of the unit tests. */
  lemma RemoveZeroesExamples()
    ensures FractionalPartRemoveZeroes("123000") == "123"
  {
    RemoveZeroesOf("123000", "123", 3);
  }

  lemma RemoveZeroesExamples2()
    ensures FractionalPartRemoveZeroes("123") == "123"
  {
    RemoveZeroesOf("123", "123", 0);
  }

  lemma RemoveZeroesExamples3()
    ensures FractionalPartRemoveZeroes("0") == ""
  {
    RemoveZeroesOf("0", "", 1);
  }

  lemma RemoveZeroesOf(s: string, digits: string, zeros: nat)
    requires '0' !in digits && s == digits + Repeat('0', zeros)
    ensures FractionalPartRemoveZeroes(s) == digits
  {
    RemoveZeroesStripsTrailing(digits, zeros);
  }

  /** The counts of the unit tests. */
  lemma CountZeroesExamples()
    ensures multiset("123000")['0'] == 3
    ensures multiset("123")['0'] == 0
    ensures multiset("0")['0'] == 1
  {
    assert ZeroCount("123000") == 3;
  }

  /** `normalized_fractional_part_or_none`: the fraction with its zeros
      removed, or `None` when it is absent or nothing is left. A result is
      never an empty fraction. */
  function NormalizedFractionalPartOrNone(fp: Option<string>): (r: Option<string>)
    ensures r.Some? ==> r.value != "" && fp.Some? && StartsWith(fp.value, r.value)
    ensures fp.None? ==> r.None?
    ensures fp.Some? && multiset(fp.value)['0'] == |fp.value| ==> r.None?
    ensures fp.Some? && multiset(fp.value)['0'] < |fp.value| ==> r.Some?
  {
    match fp
    case None => None
    case Some(f) =>
      var removed := FractionalPartRemoveZeroes(f);
      if removed == "" then None else Some(removed)
  }

  /** The cases of the unit tests. */
  lemma NormalizedExamples()
    ensures NormalizedFractionalPartOrNone(Some("123000")) == Some("123")
    ensures NormalizedFractionalPartOrNone(None) == None
  {
    RemoveZeroesOf("123000", "123", 3);
  }

  lemma NormalizedExamples2()
    ensures NormalizedFractionalPartOrNone(Some("123")) == Some("123")
  {
    RemoveZeroesOf("123", "123", 0);
  }

  /** Fractions made only of zeros vanish. */
  lemma NormalizedZerosExamples()
    ensures NormalizedFractionalPartOrNone(Some("0")) == None
    ensures NormalizedFractionalPartOrNone(Some("00000")) == None
  {
    RemoveZeroesOf("0", "", 1);
    RemoveZeroesOf("00000", "", 5);
  }

  // ---------------------------------------------------------------------
  // Alignment

  /** The sign column: a minus, a space standing in for the other number's
      minus, or nothing when neither has one. */
  function SignColumn(hasSign: bool, otherHasSign: bool): (r: string)
    ensures |r| == (if hasSign || otherHasSign then 1 else 0)
  {
    if hasSign then "-" else if otherHasSign then " " else ""
  }

  function FractionLen(fraction: Option<string>): nat
  {
    if fraction.Some? then |fraction.value| else 0
  }

  /** The width both outputs give to what follows the whole part: nothing
      when neither has a fraction, else a point and the longer fraction. */
  function TailWidth(n1: Option<string>, n2: Option<string>): nat
  {
    if FractionLen(n1) == 0 && FractionLen(n2) == 0 then 0 else 1 + Max(FractionLen(n1), FractionLen(n2))
  }

  /** The parts of a formatted number that has a digit. */
  function Parts(formatted: string): FractionalNumberParts
    requires HasDigit(formatted)
  {
    GetFractionalNumberParts(formatted).value
  }

  /** The fraction of a formatted number once its zeros are dropped. */
  function Kept(formatted: string): Option<string>
    requires HasDigit(formatted)
  {
    NormalizedFractionalPartOrNone(Parts(formatted).fractionalPart)
  }

  /** The pair `fmt_align_fraction_strings` returns: each number laid out by
      `Padded` with its sign column and the common tail width. */
  function AlignedPair(fraction1: string, fraction2: string): (string, string)
    requires HasDigit(fraction1) && HasDigit(fraction2)
  {
    var p1 := Parts(fraction1);
    var p2 := Parts(fraction2);
    var w := TailWidth(Kept(fraction1), Kept(fraction2));
    (Padded(SignColumn(p1.hasSign, p2.hasSign), p1.wholePart, Kept(fraction1), w),
     Padded(SignColumn(p2.hasSign, p1.hasSign), p2.wholePart, Kept(fraction2), w))
  }

  /** One output: the sign column, the whole part, the fraction text and
      spaces up to `width`. */
  function Padded(column: string, whole: string, n: Option<string>, width: nat): string
    requires |FractionText(n)| <= width
  {
    column + whole + PaddedFraction(n, width)
  }

  /** The fraction text followed by spaces up to `width`. */
  function PaddedFraction(n: Option<string>, width: nat): string
    requires |FractionText(n)| <= width
  {
    FractionText(n) + Repeat(' ', width - |FractionText(n)|)
  }

  /** What the two outputs look like. Both have a one-character sign column
      or neither has; after the sign column and the whole part, each holds
      its point and zero-free fraction and then only spaces, and both tails
      have the same width: none when neither number keeps a fraction, else
      the point and the longer fraction. Deleting the spaces from an output
      gives back its sign, its whole part and its fraction. */
  lemma AlignedPairShape(fraction1: string, fraction2: string)
    requires HasDigit(fraction1) && HasDigit(fraction2)
    ensures var r := AlignedPair(fraction1, fraction2);
      && OutputShape(r.0, fraction1, fraction2, TailWidth(Kept(fraction1), Kept(fraction2)))
      && OutputShape(r.1, fraction2, fraction1, TailWidth(Kept(fraction1), Kept(fraction2)))
  {
    FirstOutputShape(fraction1, fraction2);
    FirstOutputShape(fraction2, fraction1);
    assert TailWidth(Kept(fraction2), Kept(fraction1)) == TailWidth(Kept(fraction1), Kept(fraction2));
  }

  /** `out` is the output for `formatted`, aligned against `other` with tail
      width `width`. */
  ghost predicate OutputShape(out: string, formatted: string, other: string, width: nat)
    requires HasDigit(formatted) && HasDigit(other)
  {
    var p := Parts(formatted);
    var column := SignColumn(p.hasSign, Parts(other).hasSign);
    var text := column + p.wholePart + FractionText(Kept(formatted));
    && |column| == |SignColumn(Parts(other).hasSign, p.hasSign)|
    && StartsWith(out, text)
    && |out| == |column| + |p.wholePart| + width
    && (forall m :: |text| <= m < |out| ==> out[m] == ' ')
    && RemoveChar(out, ' ') == Render(FractionalNumberParts(p.hasSign, p.wholePart, Kept(formatted)))
  }

  lemma FirstOutputShape(fraction1: string, fraction2: string)
    requires HasDigit(fraction1) && HasDigit(fraction2)
    ensures OutputShape(AlignedPair(fraction1, fraction2).0, fraction1, fraction2, TailWidth(Kept(fraction1), Kept(fraction2)))
  {
    var p1 := Parts(fraction1);
    var column := SignColumn(p1.hasSign, Parts(fraction2).hasSign);
    PaddedShape(column, p1, Kept(fraction1), TailWidth(Kept(fraction1), Kept(fraction2)));
  }

  /** The layout of one output, and the text left once its spaces are deleted. */
  lemma PaddedShape(column: string, parts: FractionalNumberParts, n: Option<string>, width: nat)
    requires column == "" || column == "-" || column == " "
    requires parts.hasSign <==> column == "-"
    requires IsDigits(parts.wholePart) && (n.Some? ==> IsDigits(n.value))
    requires |FractionText(n)| <= width
    ensures var r := Padded(column, parts.wholePart, n, width);
      var text := column + parts.wholePart + FractionText(n);
      && StartsWith(r, text)
      && |r| == |column| + |parts.wholePart| + width
      && (forall m :: |text| <= m < |r| ==> r[m] == ' ')
      && RemoveChar(r, ' ') == Render(FractionalNumberParts(parts.hasSign, parts.wholePart, n))
  {
    var text := column + parts.wholePart + FractionText(n);
    var r := Padded(column, parts.wholePart, n, width);
    PaddingRemoved(column, parts, n, width - |FractionText(n)|);
    assert r == text + Repeat(' ', width - |FractionText(n)|);
    assert r[..|text|] == text;
  }

  lemma PaddingRemoved(column: string, parts: FractionalNumberParts, n: Option<string>, pad: nat)
    requires column == "" || column == "-" || column == " "
    requires parts.hasSign <==> column == "-"
    requires IsDigits(parts.wholePart) && (n.Some? ==> IsDigits(n.value))
    ensures RemoveChar(column + parts.wholePart + FractionText(n) + Repeat(' ', pad), ' ')
            == Render(FractionalNumberParts(parts.hasSign, parts.wholePart, n))
  {
    var whole := parts.wholePart;
    var f := FractionText(n);
    RemoveCharAppend(column + whole + f, Repeat(' ', pad), ' ');
    RemoveCharAppend(column + whole, f, ' ');
    RemoveCharAppend(column, whole, ' ');
    RemoveCharAbsent(whole, ' ');
    RemoveCharAbsent(f, ' ');
    RepeatRemoved(pad);
    if column == " " {
      assert RemoveChar(" ", ' ') == "";
    } else if column == "-" {
      RemoveCharAbsent(column, ' ');
    }
  }

  lemma {:induction false} RepeatRemoved(n: nat)
    ensures RemoveChar(Repeat(' ', n), ' ') == ""
  {
    if n > 0 {
      assert Repeat(' ', n)[1..] == Repeat(' ', n - 1);
      RepeatRemoved(n - 1);
    }
  }

  /** `fmt_align_fraction_strings`: builds both outputs by pushing, in
      order, the sign columns, the whole parts, each present fraction with
      its point, and then the spaces that align the points. A text without a
      digit makes the `unwrap` in `get_fractional_number_parts` panic; that
      is `None` here. */
  method FmtAlignFractionStrings(fraction1: string, fraction2: string) returns (r: Option<(string, string)>)
    ensures r.None? <==> !HasDigit(fraction1) || !HasDigit(fraction2)
    ensures r.Some? ==> HasDigit(fraction1) && HasDigit(fraction2) && r.value == AlignedPair(fraction1, fraction2)
  {
    var parts1 := GetFractionalNumberParts(fraction1);
    var parts2 := GetFractionalNumberParts(fraction2);
    if parts1.None? || parts2.None? {
      return None;
    }
    var first, second := AlignParts(fraction1, fraction2, parts1.value, parts2.value);
    r := Some((first, second));
  }

  /** The pushes of `fmt_align_fraction_strings` once both texts are split
      into `p1` and `p2`. */
  method AlignParts(fraction1: string, fraction2: string, p1: FractionalNumberParts, p2: FractionalNumberParts)
    returns (first: string, second: string)
    requires GetFractionalNumberParts(fraction1) == Some(p1) && GetFractionalNumberParts(fraction2) == Some(p2)
    ensures HasDigit(fraction1) && HasDigit(fraction2)
    ensures (first, second) == AlignedPair(fraction1, fraction2)
  {
    var f1FractionalPart := NormalizedFractionalPartOrNone(p1.fractionalPart);
    var f2FractionalPart := NormalizedFractionalPartOrNone(p2.fractionalPart);

    first, second := PushSignColumns(p1.hasSign, p2.hasSign);
    first := first + p1.wholePart;
    second := second + p2.wholePart;
    ghost var head1, head2 := first, second;
    first, second := PushFractions(first, second, f1FractionalPart, f2FractionalPart);
    var f1FractionalLen := FractionLen(f1FractionalPart);
    var f2FractionalLen := FractionLen(f2FractionalPart);
    ghost var full1, full2 := first, second;
    first, second := PushPadding(first, second, f1FractionalLen, f2FractionalLen);

    ghost var w := TailWidth(f1FractionalPart, f2FractionalPart);
    WidthsAgree(f1FractionalPart, f2FractionalPart);
    PaddedOf(first, SignColumn(p1.hasSign, p2.hasSign), p1.wholePart, f1FractionalPart, w);
    PaddedOf(second, SignColumn(p2.hasSign, p1.hasSign), p2.wholePart, f2FractionalPart, w);
    AlignedPairOf(fraction1, fraction2, first, second);
  }

  /** The first pushes of `fmt_align_fraction_strings`: a space standing in
      for the other number's minus when only that number has one, then each
      number's own minus. */
  method PushSignColumns(hasSign1: bool, hasSign2: bool) returns (first: string, second: string)
    ensures first == SignColumn(hasSign1, hasSign2) && second == SignColumn(hasSign2, hasSign1)
  {
    first, second := "", "";
    if hasSign1 && !hasSign2 {
      second := second + " ";
    } else if !hasSign1 && hasSign2 {
      first := first + " ";
    }
    if hasSign1 {
      first := first + "-";
    }
    if hasSign2 {
      second := second + "-";
    }
  }

  /** The middle pushes of `fmt_align_fraction_strings`: a point and the
      fraction for each number that keeps one. */
  method PushFractions(text1: string, text2: string, f1FractionalPart: Option<string>, f2FractionalPart: Option<string>)
    returns (first: string, second: string)
    ensures first == text1 + FractionText(f1FractionalPart)
    ensures second == text2 + FractionText(f2FractionalPart)
  {
    first, second := text1, text2;
    if f1FractionalPart.Some? {
      first := first + "." + f1FractionalPart.value;
    }
    if f2FractionalPart.Some? {
      second := second + "." + f2FractionalPart.value;
    }
  }

  /** The width a fraction of `len` digits takes with its point. */
  function PointAndDigits(len: nat): nat
  {
    if len == 0 then 0 else 1 + len
  }

  /** The last pushes of `fmt_align_fraction_strings`, for fractions of
      `len1` and `len2` digits: a space standing in for the other number's
      point when only that number has a fraction, then spaces making up for
      the other number's longer fraction. Both numbers end up with the same
      room after their whole parts. */
  method PushPadding(text1: string, text2: string, len1: nat, len2: nat) returns (first: string, second: string)
    ensures var width := PointAndDigits(Max(len1, len2));
      && first == text1 + Repeat(' ', width - PointAndDigits(len1))
      && second == text2 + Repeat(' ', width - PointAndDigits(len2))
  {
    first, second := text1, text2;
    ghost var pad1, pad2 := 0, 0;
    if len1 == 0 && len2 > 0 {
      first := first + " ";
      pad1 := 1;
    } else if len1 > 0 && len2 == 0 {
      second := second + " ";
      pad2 := 1;
    }
    assert first == text1 + Repeat(' ', pad1);
    assert second == text2 + Repeat(' ', pad2);
    if len1 > len2 {
      second := second + Repeat(' ', len1 - len2);
      RepeatAdd(' ', pad2, len1 - len2);
      pad2 := pad2 + (len1 - len2);
    } else if len2 > len1 {
      first := first + Repeat(' ', len2 - len1);
      RepeatAdd(' ', pad1, len2 - len1);
      pad1 := pad1 + (len2 - len1);
    }
  }

  /** The widths `PushPadding` works with are those of the fraction texts. */
  lemma WidthsAgree(n1: Option<string>, n2: Option<string>)
    requires n1.Some? ==> n1.value != ""
    requires n2.Some? ==> n2.value != ""
    ensures PointAndDigits(FractionLen(n1)) == |FractionText(n1)|
    ensures PointAndDigits(FractionLen(n2)) == |FractionText(n2)|
    ensures PointAndDigits(Max(FractionLen(n1), FractionLen(n2))) == TailWidth(n1, n2)
  {
  }

  lemma PaddedOf(out: string, column: string, whole: string, n: Option<string>, width: nat)
    requires |FractionText(n)| <= width
    requires out == column + whole + FractionText(n) + Repeat(' ', width - |FractionText(n)|)
    ensures out == Padded(column, whole, n, width)
  {
  }

  lemma AlignedPairOf(fraction1: string, fraction2: string, first: string, second: string)
    requires HasDigit(fraction1) && HasDigit(fraction2)
    requires var p1 := Parts(fraction1);
      var p2 := Parts(fraction2);
      var w := TailWidth(Kept(fraction1), Kept(fraction2));
      && first == Padded(SignColumn(p1.hasSign, p2.hasSign), p1.wholePart, Kept(fraction1), w)
      && second == Padded(SignColumn(p2.hasSign, p1.hasSign), p2.wholePart, Kept(fraction2), w)
    ensures (first, second) == AlignedPair(fraction1, fraction2)
  {
  }

  /** What the code gives for the pairs of the unit test: the number without a
      fraction gets a space for the point and one for the digit, and the
      shorter fraction one space. (The test itself expects other strings.) */
  lemma AlignExamples(fraction1: string, fraction2: string, first: string, second: string)
    requires fraction1 == "2" && fraction2 == "2.5"
    requires first == "2  " && second == "2.5"
    ensures HasDigit(fraction1) && HasDigit(fraction2)
    ensures AlignedPair(fraction1, fraction2) == (first, second)
  {
    AlignExampleParts(fraction1, fraction2);
    AlignedPairOfParts(fraction1, fraction2, FractionalNumberParts(false, "2", None),
      FractionalNumberParts(false, "2", Some("5")), None, Some("5"));
    PaddedExamples(first, second);
  }

  lemma PaddedExamples(first: string, second: string)
    requires first == "2  " && second == "2.5"
    ensures first == Padded(SignColumn(false, false), "2", None, TailWidth(None, Some("5")))
    ensures second == Padded(SignColumn(false, false), "2", Some("5"), TailWidth(None, Some("5")))
  {
    assert TailWidth(None, Some("5")) == 2;
    PaddedText(first, "2", None, 2);
    PaddedText(second, "2", Some("5"), 2);
  }

  lemma AlignExampleParts(fraction1: string, fraction2: string)
    requires fraction1 == "2" && fraction2 == "2.5"
    ensures GetFractionalNumberParts(fraction1) == Some(FractionalNumberParts(false, "2", None))
    ensures GetFractionalNumberParts(fraction2) == Some(FractionalNumberParts(false, "2", Some("5")))
    ensures NormalizedFractionalPartOrNone(Some("5")) == Some("5")
  {
    PartsOf2(fraction1);
    PartsOf25(fraction2);
    RemoveZeroesOf("5", "5", 0);
  }

  lemma PartsOf2(fraction: string)
    requires fraction == "2"
    ensures GetFractionalNumberParts(fraction) == Some(FractionalNumberParts(false, "2", None))
  {
    PartsOfText(fraction, FractionalNumberParts(false, "2", None));
  }

  lemma PartsOf25(fraction: string)
    requires fraction == "2.5"
    ensures GetFractionalNumberParts(fraction) == Some(FractionalNumberParts(false, "2", Some("5")))
  {
    PartsOfText(fraction, FractionalNumberParts(false, "2", Some("5")));
  }

  lemma AlignExamples2(fraction1: string, fraction2: string, first: string, second: string)
    requires fraction1 == "2.123" && fraction2 == "2.12"
    requires first == "2.123" && second == "2.12 "
    ensures HasDigit(fraction1) && HasDigit(fraction2)
    ensures AlignedPair(fraction1, fraction2) == (first, second)
  {
    AlignExampleParts2(fraction1, fraction2);
    NormalizedExamples2();
    KeptExamples();
    AlignedPairOfParts(fraction1, fraction2, FractionalNumberParts(false, "2", Some("123")),
      FractionalNumberParts(false, "2", Some("12")), Some("123"), Some("12"));
    PaddedExamples2(first, second);
  }

  lemma PaddedExamples2(first: string, second: string)
    requires first == "2.123" && second == "2.12 "
    ensures first == Padded(SignColumn(false, false), "2", Some("123"), TailWidth(Some("123"), Some("12")))
    ensures second == Padded(SignColumn(false, false), "2", Some("12"), TailWidth(Some("123"), Some("12")))
  {
    assert TailWidth(Some("123"), Some("12")) == 4;
    PaddedText(first, "2", Some("123"), 4);
    PaddedText(second, "2", Some("12"), 4);
  }

  lemma AlignExampleParts2(fraction1: string, fraction2: string)
    requires fraction1 == "2.123" && fraction2 == "2.12"
    ensures GetFractionalNumberParts(fraction1) == Some(FractionalNumberParts(false, "2", Some("123")))
    ensures GetFractionalNumberParts(fraction2) == Some(FractionalNumberParts(false, "2", Some("12")))
  {
    PartsOf2123(fraction1);
    PartsOf212(fraction2);
  }

  lemma PartsOf2123(s: string)
    requires s == "2.123"
    ensures GetFractionalNumberParts(s) == Some(FractionalNumberParts(false, "2", Some("123")))
  {
    PartsOfText(s, FractionalNumberParts(false, "2", Some("123")));
  }

  lemma PartsOf212(s: string)
    requires s == "2.12"
    ensures GetFractionalNumberParts(s) == Some(FractionalNumberParts(false, "2", Some("12")))
  {
    PartsOfText(s, FractionalNumberParts(false, "2", Some("12")));
  }

  lemma KeptExamples()
    ensures NormalizedFractionalPartOrNone(Some("12")) == Some("12")
  {
    RemoveZeroesOf("12", "12", 0);
  }

  /** The aligned pair of two numbers whose parts and kept fractions are known. */
  lemma AlignedPairOfParts(fraction1: string, fraction2: string, p1: FractionalNumberParts, p2: FractionalNumberParts,
                           n1: Option<string>, n2: Option<string>)
    requires GetFractionalNumberParts(fraction1) == Some(p1) && GetFractionalNumberParts(fraction2) == Some(p2)
    requires NormalizedFractionalPartOrNone(p1.fractionalPart) == n1
    requires NormalizedFractionalPartOrNone(p2.fractionalPart) == n2
    ensures HasDigit(fraction1) && HasDigit(fraction2)
    ensures AlignedPair(fraction1, fraction2)
            == (Padded(SignColumn(p1.hasSign, p2.hasSign), p1.wholePart, n1, TailWidth(n1, n2)),
                Padded(SignColumn(p2.hasSign, p1.hasSign), p2.wholePart, n2, TailWidth(n1, n2)))
  {
  }

  /** An unsigned whole part, then its fraction padded to `width`. */
  lemma PaddedText(out: string, whole: string, n: Option<string>, width: nat)
    requires |FractionText(n)| <= width
    requires out == whole + FractionText(n) + Repeat(' ', width - |FractionText(n)|)
    ensures out == Padded(SignColumn(false, false), whole, n, width)
  {
  }
}
