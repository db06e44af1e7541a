/** Option and Result, the two failure-carrying types the Rust code returns. */
module Wrappers {

  datatype Option<+T> = None | Some(value: T)

  datatype Result<+T, +E> = Ok(value: T) | Err(error: E)

  /** `Option::map` */
  function MapOption<T, U>(o: Option<T>, f: T -> U): Option<U>
  {
    match o
    case None => None
    case Some(v) => Some(f(v))
  }
}

/** Bytes as the Rust code sees them (`u8`), and the ASCII bytes the grammars name. */
module Bytes {

  type byte = b: int | 0 <= b < 0x100

  const DOT: byte := 0x2E    // '.'
  const COLON: byte := 0x3A  // ':'
  const AT: byte := 0x40     // '@'
}
