/** Small value types shared by the rest of the model. */
module Basics {

  /** An optional value; stands for a Python variable that may still hold `None`. */
  datatype Option<+T> = None | Some(value: T)

  /** Either a value or the reason the script stopped with an uncaught exception. */
  datatype Result<+T, +E> = Ok(value: T) | Err(error: E)

  /** `n` copies of `x`. */
  function Repeat<T>(x: T, n: nat): (r: seq<T>)
    ensures |r| == n
    ensures forall i :: 0 <= i < n ==> r[i] == x
  {
    if n == 0 then [] else Repeat(x, n - 1) + [x]
  }
}
