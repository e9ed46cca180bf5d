/** Shared vocabulary of the mesh model: bytes, optional values, results and
    the outcome of one call into a radio's transmit. */
module Base {

  /** One octet, as Python's `bytes` exposes it when indexed. */
  type Byte = b: int | 0 <= b < 256

  type Bytes = seq<Byte>

  /** True when `x` can be written by `int.to_bytes(1, 'big')` without raising. */
  predicate IsByte(x: int) {
    0 <= x < 256
  }

  /** Python's `None` or a value. */
  datatype Option<+T> = None | Some(value: T)

  datatype Result<+T, +E> = Ok(value: T) | Err(error: E)

  /** What one call to a radio's `send` did: it returned, it raised a
      `RuntimeError` (the radio's own timeout), or it raised anything else. */
  datatype TxOutcome = Sent | RuntimeError | OtherError

  /** An opaque reference to a registered Python callable. */
  type Handle = nat

  function Last<T>(s: seq<T>): T
    requires |s| > 0
  {
    s[|s| - 1]
  }

  function DropLast<T>(s: seq<T>): seq<T>
    requires |s| > 0
  {
    s[..|s| - 1]
  }
}
