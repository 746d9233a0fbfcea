/** The numeral system of the input (src/parse/ns.rs), read from the `0b`,
    `0o` or `0x` marker in front of the digits. */
module ParseNs {
  import opened Common

  datatype NumeralSystem = Bin | Octal | Decimal | Hex

  /** `NumeralSystem::from_input`: a chain of prefix tests on the numeral
      system group ("" when the group is absent). It never fails. */
  function FromInput(partStr: string): (r: NumeralSystem)
    ensures r != Decimal ==> StartsWith(partStr, Marker(r))
    ensures r == Decimal ==> !StartsWith(partStr, "0b") && !StartsWith(partStr, "0o") && !StartsWith(partStr, "0x")
  {
    if StartsWith(partStr, "0b") then Bin
    else if StartsWith(partStr, "0o") then Octal
    else if StartsWith(partStr, "0x") then Hex
    else Decimal
  }

  /** The marker the grammar accepts for a numeral system; decimal has none. */
  function Marker(ns: NumeralSystem): string
  {
    match ns
    case Bin => "0b"
    case Octal => "0o"
    case Hex => "0x"
    case Decimal => ""
  }

  /** A non-decimal result is exactly a text that opens with that system's
      marker; everything else, the empty group included, is decimal. */
  lemma FromInputReadsMarker(partStr: string)
    ensures FromInput(partStr) != Decimal <==>
      |partStr| >= 2 && partStr[..2] in {"0b", "0o", "0x"}
    ensures FromInput(partStr) != Decimal ==> Marker(FromInput(partStr)) == partStr[..2]
    ensures FromInput("") == Decimal
  {
  }

  /** The readings of `test_parse_numeral_system`. */
  lemma FromInputExamples()
    ensures FromInput("0b1") == Bin && FromInput("0o1") == Octal
    ensures FromInput("12345") == Decimal && FromInput("0x1") == Hex
  {
    assert "0b1"[..2] == "0b" && "0o1"[..2] == "0o" && "0x1"[..2] == "0x";
  }

  /** Only the first two characters are looked at. */
  lemma {:induction false} FromInputLooksAtTwoChars(partStr: string, rest: string)
    requires |partStr| <= 2
    ensures |partStr| == 2 ==> FromInput(partStr + rest) == FromInput(partStr)
    ensures |partStr| < 2 ==> FromInput(partStr) == Decimal
  {
    if |partStr| == 2 {
      assert (partStr + rest)[..2] == partStr;
    }
  }

  /** Reading a marker back gives its numeral system, whatever follows it. */
  lemma {:induction false} MarkerRoundTrip(ns: NumeralSystem, rest: string)
    ensures ns != Decimal ==> FromInput(Marker(ns) + rest) == ns
    ensures FromInput(Marker(ns)) == ns
  {
    assert (Marker(ns) + rest)[..|Marker(ns)|] == Marker(ns);
  }
}
