/** Failure-compatible wrappers used by every module of the codec model. */
module Results {

  /** A value that may be absent. */
  datatype Option<+T> = None | Some(value: T)

  /** Either a value or an error, usable with `:-`. */
  datatype Result<+T, +E> = Success(value: T) | Failure(error: E) {

    predicate IsFailure() {
      Failure?
    }

    function PropagateFailure<U>(): Result<U, E>
      requires Failure?
    {
      Failure(error)
    }

    function Extract(): T
      requires Success?
    {
      value
    }

    /** Re-labels the error, keeping a success as it is. */
    function MapFailure<F>(relabel: E -> F): Result<T, F>
    {
      match this
      case Success(v) => Success(v)
      case Failure(e) => Failure(relabel(e))
    }
  }
}

/** Go's `byte` and fresh zero-filled buffers. */
module Bytes {

  /** An unsigned 8-bit value. */
  type byte = x: int | 0 <= x < 256

  /** The buffer `make([]byte, n)` returns: `n` zero bytes. */
  function Zeros(n: nat): (z: seq<byte>)
    ensures |z| == n
    ensures forall i :: 0 <= i < n ==> z[i] == 0
  {
    seq(n, _ => 0)
  }
}
