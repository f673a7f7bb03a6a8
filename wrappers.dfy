/** Shared value types: bytes and the success-or-failure results that replace thrown errors. */
module Wrappers {

  /** An octet, as stored in a Buffer. */
  type byte = x: nat | x < 256

  datatype Option<+T> = None | Some(value: T)

  /** The outcome of an operation that the library would otherwise end by throwing. */
  datatype Result<+T, +E> = Ok(value: T) | Err(error: E)

  /** Zero bytes, the same number of them as `n`. */
  function Zeros(n: nat): (z: seq<byte>)
    ensures |z| == n
    ensures forall i | 0 <= i < n :: z[i] == 0
  {
    seq(n, _ => 0)
  }
}
