/** Small shared vocabulary: optional values, results and repetition. */
module Common {

  /** A value that may be absent (Python's `None`). */
  datatype Option<+T> = None | Some(value: T)

  /** Either a value or the reason an operation raised. */
  datatype Result<+R, +E> = Success(value: R) | Failure(error: E)

  /** `n` copies of `x`; a count at or below zero gives the empty sequence,
      which is what Python's `s * n` does for `n <= 0`. */
  function Repeat<T>(x: T, n: int): (r: seq<T>)
    ensures |r| == if n <= 0 then 0 else n
    ensures forall i :: 0 <= i < |r| ==> r[i] == x
    decreases n
  {
    if n <= 0 then [] else [x] + Repeat(x, n - 1)
  }

  function Max(a: int, b: int): int
  {
    if a >= b then a else b
  }
}
