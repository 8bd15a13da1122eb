/** Machine integer widths, results and the I/O error kinds shared by the whole model. */
module IppTypes {

  type byte = x: int | 0 <= x < 0x100
  type u16 = x: int | 0 <= x < 0x1_0000
  type u32 = x: int | 0 <= x < 0x1_0000_0000
  type i32 = x: int | -0x8000_0000 <= x < 0x8000_0000

  /** Rust's `Result<T, E>`: the `?` operator becomes an explicit match on `Err`. */
  datatype Result<+T, +E> = Ok(value: T) | Err(error: E)

  datatype Option<+T> = None | Some(value: T)

  /** The kinds of `std::io::Error` the byte streams of this model can raise. */
  datatype IoErrorKind =
    | UnexpectedEof   // `read_exact` ran out of input before the buffer was full
    | WriteZero       // `write_all` found the sink full before all bytes were taken

  function Min(a: int, b: int): int
  {
    if a <= b then a else b
  }
}
