/** The sign of the input (src/parse/sign.rs). It is kept next to the
    magnitude, which is always stored unsigned. */
module ParseSign {

  datatype Sign = Positive | Negative

  /** `Sign::from_input`: the sign group of the grammar, "" when the group is
      absent. Only "-" is negative. */
  function FromInput(normalizedInput: string): (r: Sign)
    ensures r == Negative <==> normalizedInput == Glyph(Negative)
  {
    if normalizedInput == "-" then Negative else Positive
  }

  /** `Sign::is_pos`. */
  function IsPos(sign: Sign): (r: bool)
    ensures r <==> sign == Positive
  {
    match sign
    case Positive => true
    case Negative => false
  }

  /** `Sign::is_neg`. */
  function IsNeg(sign: Sign): (r: bool)
    ensures r <==> sign == Negative
  {
    !IsPos(sign)
  }

  /** The display text of a sign (its `Display` attribute): "" or "-". */
  function Glyph(sign: Sign): string
  {
    match sign
    case Positive => ""
    case Negative => "-"
  }

  /** `from_input` inverts the display text, and it reads every text other
      than "-" (the absent group "" among them) as positive. */
  lemma FromInputInvertsGlyph(sign: Sign, text: string)
    ensures FromInput(Glyph(sign)) == sign
    ensures text != "-" ==> FromInput(text) == Positive
    ensures FromInput(text) == Negative <==> text == Glyph(Negative)
  {
  }

  /** `is_pos` holds exactly of `Positive`, `is_neg` exactly of `Negative`, and
      a sign is negative exactly when it displays a minus. */
  lemma PolarityMatchesSign(sign: Sign)
    ensures IsPos(sign) <==> sign == Positive
    ensures IsNeg(sign) <==> sign == Negative
    ensures IsNeg(sign) <==> Glyph(sign) == "-"
    ensures IsPos(sign) != IsNeg(sign)
  {
  }
}
