/**
 * The crate-level error the conversions return. Only which kind of failure happened is kept:
 * a tokenizer mismatch, a UTF-8 decoding failure, or a failed integer parse (with the kind of
 * failure `u32::from_str` reports).
 */
module Errors {
  import Nom

  /** The three ways `u32::from_str` fails. */
  datatype IntErrorKind = Empty | InvalidDigit | PosOverflow

  datatype Error =
    | ParseError(nom: Nom.Err)
    | Utf8Error
    | ParseIntError(kind: IntErrorKind)
}
