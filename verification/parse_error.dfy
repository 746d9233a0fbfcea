/** The decoder's recoverable errors. The enum is declared in
    src/parse/error.rs, which is not part of this model; its two variants are
    the ones the decoder constructs. */
module ParseErrors {

  datatype ParseError =
    | InvalidFormat(message: string)  // the normalised input does not match the grammar
    | InvalidUnit(unit: string)       // the unit group is not in the suffix table
}
