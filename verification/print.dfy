/** The integer interpretations of a parsed value and their layout
    (src/print/mod.rs): six output groups, each a title, a list of key/value
    lines and an alignment; the numeral-system, bit-pattern and integer-cast
    groups are computed here, the three floating-point groups arrive as the
    strings an external formatter produced. `pretty_print` pads every line so
    that the values of a group line up in one column. */
module Print {
  import opened Common
  import opened Radix
  import Parse

  /** The kind of an output group. */
  datatype Interpretation = NumeralSystems | Bit64BigEndian | UnAndSignedIntegers | IEEE754 | Bytes | Ibibytes

  /** Whether the values of a group line up on their first or their last
      character. */
  datatype ValueAlignment = Left | Right

  datatype OutputLine = OutputLine(key: string, value: string)

  datatype OutputGroup = OutputGroup(
    title: Interpretation,
    interpretations: seq<OutputLine>,
    valueAlignment: ValueAlignment)

  /** The texts the external `fraction_list_fmt_align` crate returns for the
      floating-point groups: the value's bits read as an f32 and as an f64,
      and the byte size in B/KB/MB/GB and in iB/KiB/MiB/GiB. */
  datatype FloatTexts = FloatTexts(f32: string, f64: string, bytes: seq<string>, ibibytes: seq<string>)

  function Keys(lines: seq<OutputLine>): (r: seq<string>)
    ensures |r| == |lines| && forall i :: 0 <= i < |lines| ==> r[i] == lines[i].key
  {
    seq(|lines|, i requires 0 <= i < |lines| => lines[i].key)
  }

  function Values(lines: seq<OutputLine>): (r: seq<string>)
    ensures |r| == |lines| && forall i :: 0 <= i < |lines| ==> r[i] == lines[i].value
  {
    seq(|lines|, i requires 0 <= i < |lines| => lines[i].value)
  }

  // ---------------------------------------------------------------------
  // The six groups

  /** The order in which the groups are printed. */
  const GROUP_ORDER: seq<Interpretation> := [NumeralSystems, Bit64BigEndian, UnAndSignedIntegers, IEEE754, Bytes, Ibibytes]

  /** `build_output_groups`: the groups in their fixed order. Every group has
      lines, so the longest-key and longest-value searches of `pretty_print`
      always find one. */
  function BuildOutputGroups(parsed: Parse.Parsed, floats: FloatTexts): (r: seq<OutputGroup>)
    requires |floats.bytes| == 4 && |floats.ibibytes| == 4
    ensures |r| == |GROUP_ORDER|
    ensures forall i :: 0 <= i < |r| ==> r[i].title == GROUP_ORDER[i] && |r[i].interpretations| > 0
  {
    var numeralSystems := BuildNumeralSystemsOg(parsed);
    var bits := BuildBitsOg(parsed);
    var integers := BuildUnAndSignedIntegersOg(parsed);
    var ieee754 := BuildIeee754Og(floats.f32, floats.f64);
    var bytes := BuildBytes(floats.bytes);
    var ibibytes := BuildIbiBytes(floats.ibibytes);
    GroupsInOrder(numeralSystems, bits, integers, ieee754, bytes, ibibytes);
    [numeralSystems, bits, integers, ieee754, bytes, ibibytes]
  }

  /** Six groups with the titles of `GROUP_ORDER`, in that order, each with
      lines, meet the contract of `BuildOutputGroups`. */
  lemma GroupsInOrder(g0: OutputGroup, g1: OutputGroup, g2: OutputGroup, g3: OutputGroup, g4: OutputGroup, g5: OutputGroup)
    requires g0.title == NumeralSystems && g1.title == Bit64BigEndian && g2.title == UnAndSignedIntegers
    requires g3.title == IEEE754 && g4.title == Bytes && g5.title == Ibibytes
    requires |g0.interpretations| > 0 && |g1.interpretations| > 0 && |g2.interpretations| > 0
    requires |g3.interpretations| > 0 && |g4.interpretations| > 0 && |g5.interpretations| > 0
    ensures var r := [g0, g1, g2, g3, g4, g5];
      forall i :: 0 <= i < |r| ==> r[i].title == GROUP_ORDER[i] && |r[i].interpretations| > 0
  {
  }

  /** `build_numeral_systems_og`: the value in decimal, binary, octal and
      hexadecimal, left aligned. */
  function BuildNumeralSystemsOg(parsed: Parse.Parsed): (g: OutputGroup)
    ensures g.title == NumeralSystems && g.valueAlignment == Left
    ensures |g.interpretations| == 4
  {
    var texts := RadixTexts(parsed.value, [10, 2, 8, 16]);
    OutputGroup(NumeralSystems, [
      OutputLine("Decimal", texts[0]),
      OutputLine("Binary", texts[1]),
      OutputLine("Octal", texts[2]),
      OutputLine("Hexadecimal", texts[3])
    ], Left)
  }

  /** The value written in each of the radixes, in order. */
  function RadixTexts(v: nat, radixes: seq<nat>): (r: seq<string>)
    requires forall i :: 0 <= i < |radixes| ==> 2 <= radixes[i] <= 16
    ensures |r| == |radixes|
  {
    if radixes == [] then [] else [ToRadix(v, radixes[0])] + RadixTexts(v, radixes[1..])
  }

  /** `text` is the value written in `radix`: no leading zero unless the
      value is zero, and it reads back as the value. */
  predicate ReadsBackAs(text: string, radix: nat, v: u64)
    requires 2 <= radix <= 16
  {
    |text| >= 1 && (text[0] == '0' <==> v == 0) && FromStrRadix(text, radix) == Ok(v)
  }

  /** Each text of `RadixTexts` is the value written in its radix. */
  lemma {:induction false} RadixTextsReadBack(v: u64, radixes: seq<nat>)
    requires forall i :: 0 <= i < |radixes| ==> 2 <= radixes[i] <= 16
    ensures forall i :: 0 <= i < |radixes| ==> ReadsBackAs(RadixTexts(v, radixes)[i], radixes[i], v)
  {
    if radixes != [] {
      ToRadixFromStrRadix(v, radixes[0]);
      RadixTextsReadBack(v, radixes[1..]);
    }
  }

  /** Each line of the numeral-system group is the value in its radix:
      decimal, binary, octal and hexadecimal, in that order. */
  lemma NumeralSystemsReadBack(parsed: Parse.Parsed)
    ensures var lines := BuildNumeralSystemsOg(parsed).interpretations;
      Keys(lines) == ["Decimal", "Binary", "Octal", "Hexadecimal"]
      && forall i :: 0 <= i < 4 ==> ReadsBackAs(lines[i].value, [10, 2, 8, 16][i], parsed.value)
  {
    RadixTextsReadBack(parsed.value, [10, 2, 8, 16]);
  }

  /** `build_bits_og`: the 64 bits of the value, grouped by bytes and
      ungrouped, and its 16 hexadecimal digits, left aligned. */
  function BuildBitsOg(parsed: Parse.Parsed): (g: OutputGroup)
    ensures g.title == Bit64BigEndian && g.valueAlignment == Left
    ensures |g.interpretations| == 3
  {
    var v := parsed.value;
    OutputGroup(Bit64BigEndian, [
      OutputLine("Bin (Rust-style)", "0b" + Format64BitBinRustStyle(v)),
      OutputLine("Bin (C-style)", "0b" + ZeroPad(ToRadix(v, 2), 64)),
      OutputLine("Hex", "0x" + ZeroPad(ToRadix(v, 16), 16))
    ], Left)
  }

  /** The C-style line is `0b` and 64 binary digits, the hexadecimal line `0x`
      and 16 hexadecimal digits, both reading back as the value; the
      Rust-style line is `0b` and the same 64 digits with underscores
      between the bytes. */
  lemma BitsReadBack(parsed: Parse.Parsed)
    ensures var lines := BuildBitsOg(parsed).interpretations;
      var rust := lines[0].value;
      var c := lines[1].value;
      var hex := lines[2].value;
      && |c| == 66 && c[..2] == "0b" && FromStrRadix(c[2..], 2) == Ok(parsed.value)
      && |hex| == 18 && hex[..2] == "0x" && FromStrRadix(hex[2..], 16) == Ok(parsed.value)
      && |rust| == 73 && rust[..2] == "0b" && RemoveChar(rust[2..], '_') == c[2..]
  {
    var v := parsed.value;
    var bits := ZeroPad(ToRadix(v, 2), 64);
    var nibbles := ZeroPad(ToRadix(v, 16), 16);
    var rust := Format64BitBinRustStyle(v);
    RustStyleBinary(v);
    FixedWidthDigits(v, 2, 64);
    FixedWidthDigits(v, 16, 16);
    assert ("0b" + bits)[2..] == bits && ("0x" + nibbles)[2..] == nibbles && ("0b" + rust)[2..] == rust;
  }

  /** `format!("{:064b}")` and `format!("{:016x}")` of a `u64`: exactly as
      many digits as the width, which read back as the value. */
  lemma FixedWidthDigits(v: u64, radix: nat, width: nat)
    requires (radix == 2 && width == 64) || (radix == 16 && width == 16)
    ensures |ZeroPad(ToRadix(v, radix), width)| == width
    ensures FromStrRadix(ZeroPad(ToRadix(v, radix), width), radix) == Ok(v)
  {
    var digits := ToRadix(v, radix);
    assert |digits| <= width by {
      WidthOfU64(radix, width);
      ToRadixLength(v, radix, width);
    }
    var zeros := Repeat('0', width - |digits|);
    assert ZeroPad(digits, width) == zeros + digits;
    ToRadixRoundTrip(v, radix);
    ValueOfLeadingZeros(zeros, digits, radix);
  }

  /** 2^64 is 2 to the 64th and 16 to the 16th. */
  lemma WidthOfU64(radix: nat, width: nat)
    requires (radix == 2 && width == 64) || (radix == 16 && width == 16)
    ensures Pow(radix, width) == U64_LIMIT
  {
    if radix == 2 {
      PowSquare(radix, 4);
      PowSquare(radix, 8);
      PowSquare(radix, 16);
      PowSquare(radix, 32);
    } else {
      PowSquare(radix, 2);
      PowSquare(radix, 4);
      PowSquare(radix, 8);
    }
  }

  lemma PowSquare(b: nat, e: nat)
    ensures Pow(b, 2 * e) == Pow(b, e) * Pow(b, e)
  {
    PowAdd(b, e, e);
  }

  lemma {:induction false} PowAdd(b: nat, x: nat, y: nat)
    ensures Pow(b, x + y) == Pow(b, x) * Pow(b, y)
    decreases y
  {
    if y > 0 {
      PowAdd(b, x, y - 1);
      assert Pow(b, x + y) == b * Pow(b, x + y - 1);
    }
  }

  // ---------------------------------------------------------------------
  // Integer casts

  /** `v as uN`: the number below 2^N with the same low N bits as `v`, that
      is, congruent to `v` modulo 2^N. */
  function AsUnsigned(v: nat, bits: nat): (r: nat)
    ensures r < Pow(2, bits)
    ensures r % Pow(2, bits) == v % Pow(2, bits)
  {
    var p := Pow(2, bits);
    PowPositive(2, bits);
    ModOfDecomposition(v % p, p, 0, v % p);
    v % p
  }

  /** `v as iN`: the low N bits of `v` read in two's complement, the number
      in [-2^(N-1), 2^(N-1)) congruent to `v` modulo 2^N. */
  function AsSigned(v: nat, bits: nat): (r: int)
    requires bits >= 1
    ensures -(Pow(2, bits - 1) as int) <= r < Pow(2, bits - 1)
    ensures r % Pow(2, bits) == v % Pow(2, bits)
  {
    var p := Pow(2, bits);
    var m := AsUnsigned(v, bits);
    if m >= Pow(2, bits - 1) then
      ModOfDecomposition(m - p, p, -1, m);
      ModOfDecomposition(m, p, 0, m);
      m - p
    else m
  }

  /** Euclidean division is unique: writing `x` as a multiple of `p` plus a
      remainder in [0, p) determines both. */
  lemma ModOfDecomposition(x: int, p: int, q: int, m: int)
    requires p >= 1 && x == q * p + m && 0 <= m < p
    ensures x % p == m && x / p == q
  {
    var d := x / p;
    var e := x % p;
    assert (q - d) * p == e - m;
    if q - d >= 1 {
      MulAtLeast(q - d, p);
    } else if d - q >= 1 {
      MulAtLeast(d - q, p);
    }
  }

  lemma {:induction false} PowPositive(b: nat, e: nat)
    requires b >= 1
    ensures Pow(b, e) >= 1
  {
    if e > 0 {
      PowPositive(b, e - 1);
      MulAtLeast(b, Pow(b, e - 1));
    }
  }

  lemma MulAtLeast(a: int, p: int)
    requires a >= 1 && p >= 1
    ensures a * p >= p
  {
  }

  /** Two numbers with the same remainder modulo `p` that are less than `p`
      apart are equal. */
  lemma SameResidue(x: int, r: int, p: int)
    requires p >= 1 && x % p == r % p
    requires -p < x - r < p
    ensures x == r
  {
    var a := x / p;
    var b := r / p;
    assert x - r == (a - b) * p;
    if a - b >= 1 {
      MulAtLeast(a - b, p);
    } else if b - a >= 1 {
      MulAtLeast(b - a, p);
    }
  }

  /** The range and the congruence pin the unsigned cast down. */
  lemma UnsignedCastIsUnique(v: nat, bits: nat, x: int)
    requires 0 <= x < Pow(2, bits) && x % Pow(2, bits) == v % Pow(2, bits)
    ensures x == AsUnsigned(v, bits)
  {
    SameResidue(x, AsUnsigned(v, bits), Pow(2, bits));
  }

  /** The range and the congruence pin the signed cast down. */
  lemma SignedCastIsUnique(v: nat, bits: nat, x: int)
    requires bits >= 1
    requires -(Pow(2, bits - 1) as int) <= x < Pow(2, bits - 1)
    requires x % Pow(2, bits) == v % Pow(2, bits)
    ensures x == AsSigned(v, bits)
  {
    SameResidue(x, AsSigned(v, bits), Pow(2, bits));
  }

  /** A value that fits in a type is shown unchanged on that type's line:
      below 2^N for `uN`, below 2^(N-1) for `iN`. */
  lemma CastOfSmallValue(v: nat, bits: nat)
    requires bits >= 1
    ensures v < Pow(2, bits) ==> AsUnsigned(v, bits) == v
    ensures v < Pow(2, bits - 1) ==> AsSigned(v, bits) == v
  {
    PowPositive(2, bits);
    if v < Pow(2, bits) {
      ModOfDecomposition(v, Pow(2, bits), 0, v);
    }
  }

  /** A value with the top bit of its type set is shown on the `iN` line as
      itself less 2^N. */
  lemma SignedCastOfLargeValue(v: nat, bits: nat)
    requires bits >= 1 && Pow(2, bits - 1) <= v < Pow(2, bits)
    ensures AsSigned(v, bits) == v - Pow(2, bits)
  {
    CastOfSmallValue(v, bits);
  }

  /** `build_un_and_signed_integers_og`: the value cast to i8, u8, i16, u16,
      i32, u32, i64 and u64 and printed in decimal, right aligned. */
  function BuildUnAndSignedIntegersOg(parsed: Parse.Parsed): (g: OutputGroup)
    ensures g.title == UnAndSignedIntegers && g.valueAlignment == Right
    ensures |g.interpretations| == 8
  {
    var texts := CastTexts(parsed.value, INTEGER_TYPES);
    OutputGroup(UnAndSignedIntegers, [
      OutputLine(" i8", texts[0]),
      OutputLine(" u8", texts[1]),
      OutputLine("i16", texts[2]),
      OutputLine("u16", texts[3]),
      OutputLine("i32", texts[4]),
      OutputLine("u32", texts[5]),
      OutputLine("i64", texts[6]),
      OutputLine("u64", texts[7])
    ], Right)
  }

  /** A Rust integer type: its width and whether it is signed. */
  datatype IntType = IntType(bits: nat, signed: bool)

  /** i8, u8, i16, u16, i32, u32, i64 and u64. */
  const INTEGER_TYPES: seq<IntType> := [
    IntType(8, true), IntType(8, false), IntType(16, true), IntType(16, false),
    IntType(32, true), IntType(32, false), IntType(64, true), IntType(64, false)
  ]

  /** `v as T` for the type `t`. */
  function Cast(v: nat, t: IntType): int
    requires t.bits >= 1
  {
    if t.signed then AsSigned(v, t.bits) else AsUnsigned(v, t.bits)
  }

  /** The value cast to each of the types and written in decimal, in order. */
  function CastTexts(v: nat, types: seq<IntType>): (r: seq<string>)
    requires forall i :: 0 <= i < |types| ==> types[i].bits >= 1
    ensures |r| == |types|
  {
    if types == [] then [] else [FormatInt(Cast(v, types[0]))] + CastTexts(v, types[1..])
  }

  /** Each text of `CastTexts` reads back as the cast value. */
  lemma {:induction false} CastTextsReadBack(v: nat, types: seq<IntType>)
    requires forall i :: 0 <= i < |types| ==> types[i].bits >= 1
    ensures forall i :: 0 <= i < |types| ==> ReadInt(CastTexts(v, types)[i]) == Some(Cast(v, types[i]))
  {
    if types != [] {
      FormatIntRoundTrip(Cast(v, types[0]));
      CastTextsReadBack(v, types[1..]);
    }
  }

  /** Each line of the integer group reads back as the value cast to the
      line's type, and the `u64` line as the value itself. */
  lemma IntegersReadBack(parsed: Parse.Parsed)
    ensures var lines := BuildUnAndSignedIntegersOg(parsed).interpretations;
      Keys(lines) == [" i8", " u8", "i16", "u16", "i32", "u32", "i64", "u64"]
      && (forall i :: 0 <= i < 8 ==> ReadInt(lines[i].value) == Some(Cast(parsed.value, INTEGER_TYPES[i])))
      && ReadInt(lines[7].value) == Some(parsed.value)
  {
    var lines := BuildUnAndSignedIntegersOg(parsed).interpretations;
    var texts := CastTexts(parsed.value, INTEGER_TYPES);
    assert Values(lines) == texts;
    CastTextsReadBack(parsed.value, INTEGER_TYPES);
    U64CastIsIdentity(parsed.value, 64);
    IntegerKeys(parsed);
  }

  lemma IntegerKeys(parsed: Parse.Parsed)
    ensures Keys(BuildUnAndSignedIntegersOg(parsed).interpretations) == [" i8", " u8", "i16", "u16", "i32", "u32", "i64", "u64"]
  {
  }

  /** `v as u64` is `v` for a `u64`. */
  lemma U64CastIsIdentity(v: u64, bits: nat)
    requires bits == 64
    ensures AsUnsigned(v, bits) == v
  {
    WidthOfU64(2, bits);
    CastOfSmallValue(v, bits);
  }

  // ---------------------------------------------------------------------
  // The floating-point groups (their texts come from the external formatter)

  /** `build_ieee754_og`: the f32 and f64 readings of the bits. */
  function BuildIeee754Og(f32Text: string, f64Text: string): (g: OutputGroup)
    ensures g.title == IEEE754 && g.valueAlignment == Left
    ensures |g.interpretations| == 2
    ensures g.interpretations[0].value == f32Text && g.interpretations[1].value == f64Text
  {
    OutputGroup(IEEE754, [OutputLine("f32", f32Text), OutputLine("f64", f64Text)], Left)
  }

  /** `build_bytes`: the size in bytes, kilobytes, megabytes and gigabytes. */
  function BuildBytes(texts: seq<string>): (g: OutputGroup)
    requires |texts| == 4
    ensures g.title == Bytes && g.valueAlignment == Left
    ensures |g.interpretations| == 4
    ensures Values(g.interpretations) == texts
  {
    OutputGroup(Bytes, [
      OutputLine(" B", texts[0]),
      OutputLine("KB", texts[1]),
      OutputLine("MB", texts[2]),
      OutputLine("GB", texts[3])
    ], Left)
  }

  /** `build_ibi_bytes`: the size in bytes, kibibytes, mebibytes and gibibytes. */
  function BuildIbiBytes(texts: seq<string>): (g: OutputGroup)
    requires |texts| == 4
    ensures g.title == Ibibytes && g.valueAlignment == Left
    ensures |g.interpretations| == 4
    ensures Values(g.interpretations) == texts
  {
    OutputGroup(Ibibytes, [
      OutputLine(" iB", texts[0]),
      OutputLine("KiB", texts[1]),
      OutputLine("MiB", texts[2]),
      OutputLine("GiB", texts[3])
    ], Left)
  }

  // ---------------------------------------------------------------------
  // Digit grouping

  /** `slice::chunks(n)`: consecutive pieces of `n` characters, the last one
      shorter when `n` does not divide the length. */
  function Chunks(s: string, n: nat): (r: seq<string>)
    requires n > 0
    ensures Flatten(r) == s
    ensures forall i :: 0 <= i < |r| ==> 1 <= |r[i]| <= n
    decreases |s|
  {
    if |s| <= n then
      if s == [] then [] else
        assert Flatten([s]) == s + Flatten([]);
        [s]
    else
      var rest := Chunks(s[n..], n);
      assert ([s[..n]] + rest)[1..] == rest;
      assert s[..n] + s[n..] == s;
      [s[..n]] + rest
  }

  /** When `n` divides the length, there are `length / n` chunks of exactly
      `n` characters. */
  lemma {:induction false} ChunksOfMultiple(s: string, n: nat, k: nat)
    requires n > 0 && |s| == k * n
    ensures |Chunks(s, n)| == k
    ensures forall i :: 0 <= i < k ==> |Chunks(s, n)[i]| == n
    decreases k
  {
    if k >= 2 {
      assert k * n == (k - 1) * n + n;
      MulAtLeast(k - 1, n);
      assert |s[n..]| == (k - 1) * n;
      ChunksOfMultiple(s[n..], n, k - 1);
      assert Chunks(s, n) == [s[..n]] + Chunks(s[n..], n);
    }
  }

  /** The pieces written one after the other. */
  function Flatten(pieces: seq<string>): string
  {
    if pieces == [] then "" else pieces[0] + Flatten(pieces[1..])
  }

  /** The `fold` of `format_num_add_delimiters`: every piece preceded by `_`. */
  function FoldDelimited(pieces: seq<string>): string
  {
    if pieces == [] then "" else FoldDelimited(pieces[..|pieces| - 1]) + "_" + pieces[|pieces| - 1]
  }

  /** The pieces separated by single underscores. */
  function Join(pieces: seq<string>): string
  {
    if pieces == [] then ""
    else if |pieces| == 1 then pieces[0]
    else pieces[0] + "_" + Join(pieces[1..])
  }

  /** `format_num_add_delimiters`: the digits cut into chunks of `chunksize`,
      folded into one string with an underscore before every chunk, and that
      string without its first character: the chunks joined by underscores.
      The source asserts that the chunk size divides the length. */
  function FormatNumAddDelimiters(digits: string, chunksize: nat): (r: string)
    requires chunksize > 0 && |digits| % chunksize == 0
    ensures r == Join(Chunks(digits, chunksize))
  {
    var folded := FoldDelimited(Chunks(digits, chunksize));
    FoldIsDelimitedJoin(Chunks(digits, chunksize));
    if folded == [] then [] else folded[1..]
  }

  /** The left fold puts an underscore in front of the right-nested join. */
  lemma {:induction false} FoldIsDelimitedJoin(pieces: seq<string>)
    ensures pieces != [] ==> FoldDelimited(pieces) == "_" + Join(pieces)
    ensures pieces == [] ==> FoldDelimited(pieces) == ""
    decreases |pieces|
  {
    if |pieces| >= 2 {
      var init := pieces[..|pieces| - 1];
      var last := pieces[|pieces| - 1];
      FoldIsDelimitedJoin(init);
      JoinSnoc(init, last);
      assert init + [last] == pieces;
    } else if |pieces| == 1 {
      assert pieces[..0] == [];
    }
  }

  lemma {:induction false} JoinSnoc(pieces: seq<string>, last: string)
    requires pieces != []
    ensures Join(pieces + [last]) == Join(pieces) + "_" + last
    decreases |pieces|
  {
    if |pieces| == 1 {
      assert pieces + [last] == [pieces[0], last];
      assert [pieces[0], last][1..] == [last];
    } else {
      assert (pieces + [last])[1..] == pieces[1..] + [last];
      JoinSnoc(pieces[1..], last);
    }
  }

  /** Deleting the underscores from the joined pieces gives their
      concatenation back, when no piece holds one. */
  lemma {:induction false} JoinRemoveDelimiters(pieces: seq<string>)
    requires forall i :: 0 <= i < |pieces| ==> '_' !in pieces[i]
    ensures RemoveChar(Join(pieces), '_') == Flatten(pieces)
    decreases |pieces|
  {
    if |pieces| == 1 {
      RemoveCharAbsent(pieces[0], '_');
      assert pieces[1..] == [];
    } else if |pieces| >= 2 {
      JoinRemoveDelimiters(pieces[1..]);
      RemoveCharSkip(pieces[0], Join(pieces[1..]), '_');
      assert pieces[0] + "_" + Join(pieces[1..]) == pieces[0] + ['_'] + Join(pieces[1..]);
      RemoveCharAbsent(pieces[0], '_');
    }
  }

  /** The joined pieces are as long as the pieces plus one underscore between
      each two. */
  lemma {:induction false} JoinLength(pieces: seq<string>)
    requires pieces != []
    ensures |Join(pieces)| == |Flatten(pieces)| + |pieces| - 1
    decreases |pieces|
  {
    if |pieces| >= 2 {
      JoinLength(pieces[1..]);
    } else {
      assert pieces[1..] == [];
    }
  }

  /** Grouping the digits and deleting the underscores again gives the digits
      back, and a grouped string has one underscore fewer than chunks. */
  lemma DelimitersRoundTrip(digits: string, chunksize: nat)
    requires chunksize > 0 && |digits| % chunksize == 0 && |digits| > 0
    requires '_' !in digits
    ensures RemoveChar(FormatNumAddDelimiters(digits, chunksize), '_') == digits
    ensures |FormatNumAddDelimiters(digits, chunksize)| == |digits| + |digits| / chunksize - 1
  {
    var pieces := Chunks(digits, chunksize);
    var k := |digits| / chunksize;
    ModOfDecomposition(|digits|, chunksize, k, 0);
    ChunksOfMultiple(digits, chunksize, k);
    ChunksAvoid(digits, chunksize, '_');
    JoinRemoveDelimiters(pieces);
    JoinLength(pieces);
  }

  /** A character missing from the text is missing from every chunk. */
  lemma {:induction false} ChunksAvoid(s: string, n: nat, c: char)
    requires n > 0 && c !in s
    ensures forall i :: 0 <= i < |Chunks(s, n)| ==> c !in Chunks(s, n)[i]
    decreases |s|
  {
    if |s| > n {
      assert forall k :: 0 <= k < |s[..n]| ==> s[..n][k] == s[k];
      assert forall k :: 0 <= k < |s[n..]| ==> s[n..][k] == s[n + k];
      ChunksAvoid(s[n..], n, c);
      assert Chunks(s, n) == [s[..n]] + Chunks(s[n..], n);
    }
  }

  /** `format_64bit_bin_rust_style`: the 64 zero-padded bits of the number
      with an underscore between every two bytes. */
  function Format64BitBinRustStyle(number: u64): (r: string)
    ensures |r| == 71
    ensures FromStrRadix(RemoveChar(r, '_'), 2) == Ok(number)
  {
    var digits := ToRadix(number, 2);
    var bits := ZeroPad(digits, 64);
    FixedWidthDigits(number, 2, 64);
    NoDelimiterInDigits(digits, |bits| - |digits|);
    DelimitersRoundTrip(bits, 8);
    FormatNumAddDelimiters(bits, 8)
  }

  /** The Rust-style binary text is eight groups of eight bits joined by
      underscores, 71 characters, and reads back as the number once the
      underscores are deleted. */
  lemma RustStyleBinary(number: u64)
    ensures var bits := ZeroPad(ToRadix(number, 2), 64);
      var r := Format64BitBinRustStyle(number);
      && |r| == 71
      && |Chunks(bits, 8)| == 8
      && (forall i :: 0 <= i < 8 ==> |Chunks(bits, 8)[i]| == 8)
      && r == Join(Chunks(bits, 8))
      && RemoveChar(r, '_') == bits
      && FromStrRadix(RemoveChar(r, '_'), 2) == Ok(number)
  {
    var digits := ToRadix(number, 2);
    var bits := ZeroPad(digits, 64);
    FixedWidthDigits(number, 2, 64);
    NoDelimiterInDigits(digits, |bits| - |digits|);
    ChunksOfMultiple(bits, 8, 8);
    DelimitersRoundTrip(bits, 8);
  }

  lemma NoDelimiterInDigits(digits: string, zeros: nat)
    requires forall k :: 0 <= k < |digits| ==> IsHexDigit(digits[k])
    ensures '_' !in Repeat('0', zeros) + digits
  {
    var bits := Repeat('0', zeros) + digits;
    forall k | 0 <= k < |bits| ensures bits[k] != '_' {
      if k >= zeros {
        assert bits[k] == digits[k - zeros];
      }
    }
  }

  // ---------------------------------------------------------------------
  // Layout

  /** The length of the longest text. */
  function MaxLength(texts: seq<string>): (r: nat)
    requires |texts| > 0
    ensures forall i :: 0 <= i < |texts| ==> |texts[i]| <= r
    ensures exists i :: 0 <= i < |texts| && |texts[i]| == r
  {
    if |texts| == 1 then |texts[0]|
    else
      var rest := MaxLength(texts[1..]);
      assert forall i :: 1 <= i < |texts| ==> texts[i] == texts[1..][i - 1];
      if |texts[0]| >= rest then |texts[0]| else rest
  }

  /** `find_longest_key_string`: the length of the longest key, which no key
      exceeds and some key reaches. An empty group makes `unwrap` panic. */
  function FindLongestKeyString(group: OutputGroup): (r: nat)
    requires |group.interpretations| > 0
    ensures forall i :: 0 <= i < |group.interpretations| ==> |group.interpretations[i].key| <= r
    ensures exists i :: 0 <= i < |group.interpretations| && |group.interpretations[i].key| == r
  {
    var keys := Keys(group.interpretations);
    MaxLength(keys)
  }

  /** `find_longest_value_string`: the length of the longest value. */
  function FindLongestValueString(group: OutputGroup): (r: nat)
    requires |group.interpretations| > 0
    ensures forall i :: 0 <= i < |group.interpretations| ==> |group.interpretations[i].value| <= r
    ensures exists i :: 0 <= i < |group.interpretations| && |group.interpretations[i].value| == r
  {
    var values := Values(group.interpretations);
    MaxLength(values)
  }

  /** A printed row for `line`: the key, a colon and two spaces, only spaces,
      then the value. With left alignment every value starts in the column
      after the longest key's colon and spaces; with right alignment every
      value ends where the longest key's row would end with the longest
      value. */
  predicate RowAligned(row: string, line: OutputLine, alignment: ValueAlignment, longestKey: nat, longestValue: nat)
  {
    var head := line.key + ":  ";
    && |head| + |line.value| <= |row|
    && row == head + Repeat(' ', |row| - |head| - |line.value|) + line.value
    && (alignment == Left ==> |row| - |line.value| == longestKey + 3)
    && (alignment == Right ==> |row| == longestKey + 3 + longestValue)
  }

  /** The spaces `pretty_print` puts between a key's colon and its value:
      enough to reach the longest key, and with right alignment also the
      longest value. Neither difference can be negative, since the longest
      lengths bound every key and value. */
  function AdditionalLeftSpaces(line: OutputLine, alignment: ValueAlignment, longestKey: nat, longestValue: nat): (r: nat)
    requires |line.key| <= longestKey && |line.value| <= longestValue
    ensures alignment == Left ==> |line.key| + r == longestKey
    ensures alignment == Right ==> |line.key| + r + |line.value| == longestKey + longestValue
  {
    if alignment == Left then longestKey - |line.key|
    else longestKey - |line.key| + longestValue - |line.value|
  }

  /** A row as `print_key` and the padding loop write it: the key, a colon,
      two spaces, `pad` more spaces and the value. */
  function RowText(line: OutputLine, pad: nat): string
  {
    line.key + ":  " + Repeat(' ', pad) + line.value
  }

  /** The rows for `lines`, each padded as `pretty_print` pads it. */
  function PaddedRows(lines: seq<OutputLine>, alignment: ValueAlignment, longestKey: nat, longestValue: nat): (r: seq<string>)
    requires forall j :: 0 <= j < |lines| ==> |lines[j].key| <= longestKey && |lines[j].value| <= longestValue
    ensures |r| == |lines|
  {
    if lines == [] then []
    else
      var last := lines[|lines| - 1];
      PaddedRows(lines[..|lines| - 1], alignment, longestKey, longestValue)
        + [RowText(last, AdditionalLeftSpaces(last, alignment, longestKey, longestValue))]
  }

  /** The rows `pretty_print` writes below the heading, one per line: the key
      with its colon, as many spaces as the alignment asks for (never a
      negative number), and the value. */
  method PrettyPrint(group: OutputGroup) returns (rows: seq<string>)
    requires |group.interpretations| > 0
    ensures rows == PaddedRows(group.interpretations, group.valueAlignment,
                               FindLongestKeyString(group), FindLongestValueString(group))
    ensures |rows| == |group.interpretations|
    ensures forall i :: 0 <= i < |rows| ==>
      RowAligned(rows[i], group.interpretations[i], group.valueAlignment,
                 FindLongestKeyString(group), FindLongestValueString(group))
  {
    var lines := group.interpretations;
    var longestKey := FindLongestKeyString(group);
    var longestValue := FindLongestValueString(group);
    rows := [];
    for i := 0 to |lines|
      invariant rows == PaddedRows(lines[..i], group.valueAlignment, longestKey, longestValue)
    {
      var additionalLeftSpaces := AdditionalLeftSpaces(lines[i], group.valueAlignment, longestKey, longestValue);
      var row := PrintRow(lines[i], additionalLeftSpaces);
      assert lines[..i + 1][..i] == lines[..i];
      rows := rows + [row];
    }
    assert lines[..|lines|] == lines;
    PaddedRowsAligned(lines, group.valueAlignment, longestKey, longestValue);
  }

  /** One row of `pretty_print`: `print_key` writes the key with a colon and
      two spaces, then `pad` spaces are pushed one at a time, then the value. */
  method PrintRow(line: OutputLine, pad: nat) returns (row: string)
    ensures row == RowText(line, pad)
  {
    row := line.key + ":  ";
    for s := 0 to pad
      invariant row == line.key + ":  " + Repeat(' ', s)
    {
      row := row + " ";
      RepeatAdd(' ', s, 1);
    }
    row := row + line.value;
  }

  /** Rows padded by `AdditionalLeftSpaces` are all aligned. */
  lemma {:induction false} PaddedRowsAligned(lines: seq<OutputLine>, alignment: ValueAlignment, longestKey: nat, longestValue: nat)
    requires forall j :: 0 <= j < |lines| ==> |lines[j].key| <= longestKey && |lines[j].value| <= longestValue
    ensures var rows := PaddedRows(lines, alignment, longestKey, longestValue);
      forall j :: 0 <= j < |rows| ==> RowAligned(rows[j], lines[j], alignment, longestKey, longestValue)
  {
    if lines != [] {
      var n := |lines| - 1;
      PaddedRowsAligned(lines[..n], alignment, longestKey, longestValue);
      PaddedRowAligned(lines[n], AdditionalLeftSpaces(lines[n], alignment, longestKey, longestValue),
                       alignment, longestKey, longestValue);
    }
  }

  /** A row padded by `AdditionalLeftSpaces` is aligned. */
  lemma PaddedRowAligned(line: OutputLine, pad: nat, alignment: ValueAlignment, longestKey: nat, longestValue: nat)
    requires alignment == Left ==> |line.key| + pad == longestKey
    requires alignment == Right ==> |line.key| + pad + |line.value| == longestKey + longestValue
    ensures RowAligned(RowText(line, pad), line, alignment, longestKey, longestValue)
  {
  }
}
