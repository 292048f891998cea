/** Small shared vocabulary: bytes, nullable values and the outcome of a
    call that would park its thread on a condition variable. */
module Common {

  /** An 8-bit unsigned byte (`uint8_t`). */
  newtype byte = x: int | 0 <= x < 256

  /** A value or the absence of one (a null pointer, a `false` return). */
  datatype Option<+T> = None | Some(value: T)

  /** The result of one call of an operation that may wait on a condition
      variable. In a sequential model nobody else runs while the caller
      waits, so a wait that could not end is reported as `WouldBlock`
      instead of hanging; `Returned(v)` is what the operation returns. */
  datatype Blocking<+T> = Returned(value: T) | WouldBlock

  function Min(a: nat, b: nat): (r: nat)
    ensures r <= a && r <= b
    ensures r == a || r == b
  {
    if a < b then a else b
  }
}
