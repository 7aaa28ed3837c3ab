/** Types shared by the wire codec and the stream model. */
module Common {

  /** One octet, as Go's `byte`. */
  type byte = b: int | 0 <= b < 256

  /** Go's `uint64`; arithmetic on it wraps modulo 2^64. */
  const TwoTo64: nat := 0x1_0000_0000_0000_0000
  type uint64 = x: int | 0 <= x < TwoTo64

  /** The only error a `bytes.Reader` reports when it runs out of input. */
  datatype IoError = EOF

  /** A Go `(value, error)` pair where exactly one side is meaningful. */
  datatype Result<+T> = Ok(value: T) | Err(error: IoError)

  /** A Go pointer that may be nil. */
  datatype Option<+T> = None | Some(value: T)

  function Min(a: int, b: int): (r: int)
    ensures r <= a && r <= b
    ensures r == a || r == b
  {
    if a <= b then a else b
  }
}
