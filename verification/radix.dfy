/** The parts of Rust's standard library that the decoder and the printer lean
    on for numbers: `char::to_digit`, `u64::from_str_radix` (and `str::parse`,
    which is `from_str_radix(_, 10)`), and the `{}`, `{:b}`, `{:o}`, `{:x}` and
    zero-padded `{:0N?}` formats. Each is paired with the positional value of
    a digit string, so that parsing and printing can be proved inverse. */
module Radix {
  import opened Common

  /** `char::to_digit(radix)` on ASCII: '0'..'9' are 0..9 and letters of either
      case count from 10; a digit is valid when it is below the radix. */
  function ToDigit(c: char, radix: nat): (r: Option<nat>)
    ensures r.Some? ==> r.value < radix
  {
    var d: int :=
      if '0' <= c <= '9' then c as int - '0' as int
      else if 'a' <= c <= 'z' then c as int - 'a' as int + 10
      else if 'A' <= c <= 'Z' then c as int - 'A' as int + 10
      else -1;
    if 0 <= d < radix then Some(d) else None
  }

  predicate AllDigits(s: string, radix: nat)
  {
    forall k :: 0 <= k < |s| ==> ToDigit(s[k], radix).Some?
  }

  /** The number a digit string denotes in positional notation (most
      significant digit first). */
  function ValueOf(s: string, radix: nat): nat
    requires AllDigits(s, radix)
  {
    if s == [] then 0
    else ValueOf(s[..|s| - 1], radix) * radix + ToDigit(s[|s| - 1], radix).value
  }

  /** Why `from_str_radix` returns `Err`. */
  datatype IntErrorKind = Empty | InvalidDigit | PosOverflow

  /** The digit loop of `from_str_radix`, read left to right: each step
      multiplies the accumulator by the radix and adds the next digit, and the
      first invalid digit or the first step past 2^64 - 1 ends the loop. */
  function Accumulate(s: string, radix: nat): (r: Result<nat, IntErrorKind>)
    requires radix >= 2
    ensures r.Ok? <==> AllDigits(s, radix) && ValueOf(s, radix) < U64_LIMIT
    ensures r.Ok? ==> r.value == ValueOf(s, radix)
  {
    if s == [] then Ok(0)
    else
      var init := s[..|s| - 1];
      PrefixDigits(s, radix);
      match Accumulate(init, radix)
      case Err(e) => Err(e)
      case Ok(acc) =>
        match ToDigit(s[|s| - 1], radix)
        case None => Err(InvalidDigit)
        case Some(d) =>
          var next := acc * radix + d;
          if next >= U64_LIMIT then Err(PosOverflow) else Ok(next)
  }

  /** Dropping the last digit keeps a digit string a digit string and does not
      increase its value. */
  lemma PrefixDigits(s: string, radix: nat)
    requires s != [] && radix >= 2
    ensures AllDigits(s, radix) ==> AllDigits(s[..|s| - 1], radix)
    ensures AllDigits(s, radix) ==> ValueOf(s[..|s| - 1], radix) <= ValueOf(s, radix)
  {
    var init := s[..|s| - 1];
    if AllDigits(s, radix) {
      assert forall k :: 0 <= k < |init| ==> init[k] == s[k];
      MulGrows(ValueOf(init, radix), radix, ToDigit(s[|s| - 1], radix).value);
    }
  }

  lemma MulGrows(v: nat, radix: nat, d: nat)
    requires radix >= 1
    ensures v <= v * radix + d
  {
  }

  lemma DivStep(n: nat, radix: nat)
    requires radix >= 2 && n >= radix
    ensures 1 <= n / radix < n
    ensures n % radix < radix
    ensures n == (n / radix) * radix + n % radix
  {
  }

  lemma DivBound(n: nat, radix: nat, p: nat)
    requires radix >= 2 && n < radix * p
    ensures n / radix < p
  {
  }

  /** `u64::from_str_radix(s, radix)`: succeeds exactly when `s` is a non-empty
      string of digits valid in `radix` whose value fits in 64 bits, and then
      returns that value. */
  function FromStrRadix(s: string, radix: nat): (r: Result<u64, IntErrorKind>)
    requires 2 <= radix <= 36
    ensures r.Ok? <==> |s| > 0 && AllDigits(s, radix) && ValueOf(s, radix) < U64_LIMIT
    ensures r.Ok? ==> r.value == ValueOf(s, radix)
    ensures s == [] ==> r == Err(Empty)
  {
    if s == [] then Err(Empty)
    else
      match Accumulate(s, radix)
      case Ok(v) => Ok(v)
      case Err(e) => Err(e)
  }

  /** The characters `DigitChar` prints: the decimal digits and `a` to `f`. */
  predicate IsHexDigit(c: char)
  {
    '0' <= c <= '9' || 'a' <= c <= 'f'
  }

  /** The lower-case digit Rust prints for `d`. */
  function DigitChar(d: nat): (c: char)
    requires d < 16
    ensures IsHexDigit(c)
  {
    if d < 10 then ('0' as int + d) as char else ('a' as int + d - 10) as char
  }

  lemma DigitCharIsDigit(d: nat, radix: nat)
    requires d < radix <= 16
    ensures ToDigit(DigitChar(d), radix) == Some(d)
  {
  }

  /** `format!("{}")`, `{:b}`, `{:o}`, `{:x}` of a natural number: its digits
      in `radix`, with no leading zero except for zero itself. */
  function ToRadix(n: nat, radix: nat): (r: string)
    requires 2 <= radix <= 16
    ensures |r| >= 1
    ensures r[0] == '0' <==> n == 0
    ensures |r| == 1 <==> n < radix
    ensures forall m :: 0 <= m < |r| ==> IsHexDigit(r[m])
    decreases n
  {
    if n < radix then [DigitChar(n)]
    else
      DivStep(n, radix);
      ToRadix(n / radix, radix) + [DigitChar(n % radix)]
  }

  /** Printing a number and reading it back in the same radix gives the number. */
  lemma {:induction false} ToRadixRoundTrip(n: nat, radix: nat)
    requires 2 <= radix <= 16
    ensures AllDigits(ToRadix(n, radix), radix)
    ensures ValueOf(ToRadix(n, radix), radix) == n
    decreases n
  {
    var r := ToRadix(n, radix);
    if n < radix {
      DigitCharIsDigit(n, radix);
    } else {
      DivStep(n, radix);
      var q := ToRadix(n / radix, radix);
      ToRadixRoundTrip(n / radix, radix);
      DigitCharIsDigit(n % radix, radix);
      assert r == q + [DigitChar(n % radix)];
      assert r[..|r| - 1] == q;
      assert AllDigits(r, radix) by {
        forall k | 0 <= k < |r| ensures ToDigit(r[k], radix).Some? {
          if k < |q| { assert r[k] == q[k]; }
        }
      }
    }
  }

  /** The printed form of a `u64` is accepted by `from_str_radix` and decodes
      to the same number. */
  lemma ToRadixFromStrRadix(n: u64, radix: nat)
    requires 2 <= radix <= 16
    ensures FromStrRadix(ToRadix(n, radix), radix) == Ok(n)
  {
    ToRadixRoundTrip(n, radix);
  }

  /** A number below radix^k has at most k digits. */
  lemma {:induction false} ToRadixLength(n: nat, radix: nat, k: nat)
    requires 2 <= radix <= 16 && k >= 1
    requires n < Pow(radix, k)
    ensures |ToRadix(n, radix)| <= k
    decreases n
  {
    assert Pow(radix, 1) == radix;
    if n >= radix {
      var p := Pow(radix, k - 1);
      assert Pow(radix, k) == radix * p;
      DivBound(n, radix, p);
      DivStep(n, radix);
      ToRadixLength(n / radix, radix, k - 1);
    }
  }

  /** The `0` flag with a width (`{:064b}`, `{:016x}`): the digits
      right-aligned in `width` columns, filled with '0' on the left; digits
      longer than `width` are kept whole. */
  function ZeroPad(digits: string, width: nat): (r: string)
    ensures |r| == Max(|digits|, width)
    ensures r == Repeat('0', |r| - |digits|) + digits
  {
    if |digits| >= width then digits else Repeat('0', width - |digits|) + digits
  }

  /** Leading zeros do not change the value of a digit string. */
  lemma {:induction false} ValueOfLeadingZeros(z: string, s: string, radix: nat)
    requires 2 <= radix <= 36
    requires forall k :: 0 <= k < |z| ==> z[k] == '0'
    requires AllDigits(s, radix)
    ensures AllDigits(z + s, radix)
    ensures ValueOf(z + s, radix) == ValueOf(s, radix)
    decreases |s|
  {
    var t := z + s;
    assert forall k :: 0 <= k < |t| ==> ToDigit(t[k], radix).Some? by {
      forall k | 0 <= k < |t| ensures ToDigit(t[k], radix).Some? {
        if k < |z| { assert t[k] == '0'; } else { assert t[k] == s[k - |z|]; }
      }
    }
    if s == [] {
      assert t == z;
      ZerosValue(z, radix);
    } else {
      var init := s[..|s| - 1];
      assert t[..|t| - 1] == z + init;
      assert AllDigits(init, radix) by {
        forall k | 0 <= k < |init| ensures ToDigit(init[k], radix).Some? { assert init[k] == s[k]; }
      }
      ValueOfLeadingZeros(z, init, radix);
    }
  }

  lemma {:induction false} ZerosValue(z: string, radix: nat)
    requires 2 <= radix <= 36
    requires forall k :: 0 <= k < |z| ==> z[k] == '0'
    ensures AllDigits(z, radix) && ValueOf(z, radix) == 0
  {
    if z != [] {
      ZerosValue(z[..|z| - 1], radix);
    }
  }

  /** `format!("{}")` of a signed integer: a minus sign, then the decimal
      digits of the magnitude. */
  function FormatInt(x: int): (r: string)
    ensures |r| >= 1 && (r[0] == '-' <==> x < 0)
  {
    if x < 0 then "-" + ToRadix(-x, 10) else ToRadix(x, 10)
  }

  /** Reads a decimal integer with an optional leading minus sign. */
  function ReadInt(t: string): Option<int>
  {
    var negative := |t| > 0 && t[0] == '-';
    var digits := if negative then t[1..] else t;
    if |digits| > 0 && AllDigits(digits, 10) then
      var magnitude: int := ValueOf(digits, 10);
      Some(if negative then -magnitude else magnitude)
    else None
  }

  /** Every signed integer Rust prints reads back as itself. */
  lemma FormatIntRoundTrip(x: int)
    ensures ReadInt(FormatInt(x)) == Some(x)
  {
    var m: nat := if x < 0 then -x else x;
    var d := ToRadix(m, 10);
    ToRadixRoundTrip(m, 10);
    assert ToDigit(d[0], 10).Some?;
    var t := FormatInt(x);
    if x < 0 {
      assert t == "-" + d;
      assert t[1..] == d;
    } else {
      assert t == d && t[0] != '-';
    }
  }
}
