/** Byte units (src/parse/unit.rs): the suffix table of the decoder and the
    integer scaling of a value into base units. */
module ParseUnit {
  import opened Common
  import opened ParseErrors

  datatype Unit = Base | Kilo | Mega | Giga | Tera | Kibi | Mibi | Gibi | Tebi

  /** `Unit::from_input`: the unit group ("" when absent) looked up in the
      suffix table. */
  function FromInput(partStr: string): (r: Result<Unit, ParseError>)
    ensures r.Ok? ==> partStr in Aliases(r.value)
    ensures r.Err? ==> r.error == InvalidUnit(partStr) && forall u :: partStr !in Aliases(u)
  {
    if partStr == "" then Ok(Base)
    else if partStr == "k" || partStr == "kb" then Ok(Kilo)
    else if partStr == "m" || partStr == "mb" then Ok(Mega)
    else if partStr == "g" || partStr == "gb" then Ok(Giga)
    else if partStr == "t" || partStr == "tb" then Ok(Tera)
    else if partStr == "ki" || partStr == "kib" then Ok(Kibi)
    else if partStr == "mi" || partStr == "mib" then Ok(Mibi)
    else if partStr == "gi" || partStr == "gib" then Ok(Gibi)
    else if partStr == "ti" || partStr == "tib" then Ok(Tebi)
    else Err(InvalidUnit(partStr))
  }

  /** The suffixes that name each unit, unit by unit. */
  function Aliases(u: Unit): set<string>
  {
    match u
    case Base => {""}
    case Kilo => {"k", "kb"}
    case Mega => {"m", "mb"}
    case Giga => {"g", "gb"}
    case Tera => {"t", "tb"}
    case Kibi => {"ki", "kib"}
    case Mibi => {"mi", "mib"}
    case Gibi => {"gi", "gib"}
    case Tebi => {"ti", "tib"}
  }

  /** The lookup accepts exactly the aliases of each unit, and rejects every
      other suffix with an `InvalidUnit` error that carries the suffix itself. */
  lemma FromInputIsAliasTable(partStr: string, u: Unit)
    ensures FromInput(partStr) == Ok(u) <==> partStr in Aliases(u)
    ensures FromInput(partStr).Err? ==> FromInput(partStr).error == InvalidUnit(partStr)
  {
  }

  /** The lookups of `test_parse_unit`: the empty group is the base unit,
      short and long suffixes name the same unit, and a suffix outside the
      table is an error. */
  lemma FromInputExamples()
    ensures FromInput("") == Ok(Base) && FromInput("k") == Ok(Kilo)
    ensures FromInput("ki") == Ok(Kibi) && FromInput("kib") == Ok(Kibi)
    ensures FromInput("m") == Ok(Mega) && FromInput("gb") == Ok(Giga) && FromInput("tb") == Ok(Tera)
    ensures FromInput("afaf") == Err(InvalidUnit("afaf"))
  {
  }

  /** Every accepted suffix is at most three lower-case letters and does not
      start with a hex digit, so the grammar's unit group can produce it after
      a maximal run of digits. */
  lemma AcceptedSuffixFitsGrammar(partStr: string)
    requires FromInput(partStr).Ok?
    ensures |partStr| <= 3
    ensures forall k :: 0 <= k < |partStr| ==> 'a' <= partStr[k] <= 'z'
    ensures partStr != "" ==> 'g' <= partStr[0] <= 'z'
  {
  }

  /** 1000 for the SI units, 1024 for the binary ones. */
  function Scale(u: Unit): nat
  {
    match u
    case Base | Kilo | Mega | Giga | Tera => 1000
    case Kibi | Mibi | Gibi | Tebi => 1024
  }

  /** The power of the scale a unit stands for: 0 for the base unit, 1 to 4
      for kilo/kibi up to tera/tebi. */
  function Exponent(u: Unit): nat
  {
    match u
    case Base => 0
    case Kilo | Kibi => 1
    case Mega | Mibi => 2
    case Giga | Gibi => 3
    case Tera | Tebi => 4
  }

  /** How many base units one unit holds. */
  function Factor(u: Unit): nat
  {
    Pow(Scale(u), Exponent(u))
  }

  /** The factors of the nine units as literals. */
  lemma FactorValues()
    ensures Factor(Base) == 1
    ensures Factor(Kilo) == 1_000 && Factor(Mega) == 1_000_000
    ensures Factor(Giga) == 1_000_000_000 && Factor(Tera) == 1_000_000_000_000
    ensures Factor(Kibi) == 1024 && Factor(Mibi) == 1024 * 1024
    ensures Factor(Gibi) == 1024 * 1024 * 1024 && Factor(Tebi) == 1024 * 1024 * 1024 * 1024
  {
    assert Pow(1000, 1) == 1000 && Pow(1024, 1) == 1024;
  }

  /** `Unit::value_to_base_u64`: the value in base units, the value times the
      unit's power of 1000 or 1024. The `u64` product must not overflow (the
      source panics or wraps). */
  function ValueToBaseU64(u: Unit, value: u64): (r: u64)
    requires value * Factor(u) < U64_LIMIT
    ensures r == value * Pow(Scale(u), Exponent(u))
    ensures u == Base ==> r == value
  {
    FactorValues();
    var factor: nat := match u
      case Base => 1
      case Kilo => 1_000
      case Mega => 1_000_000
      case Giga => 1_000_000_000
      case Tera => 1_000_000_000_000
      case Kibi => 1024
      case Mibi => Pow(1024, 2)
      case Gibi => Pow(1024, 3)
      case Tebi => Pow(1024, 4);
    assert factor == Factor(u);
    value * factor
  }

  /** One kibibyte is 1024 bytes, one megabyte 1000000, three tebibytes
      three times 2^40. */
  lemma ValueToBaseExamples()
    ensures ValueToBaseU64(Kibi, 1) == 1024
    ensures ValueToBaseU64(Mega, 1) == 1_000_000
    ensures ValueToBaseU64(Tebi, 3) == 3 * 1_099_511_627_776
  {
    FactorValues();
  }
}
