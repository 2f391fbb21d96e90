/** Numbers as Go computes with them. */
module Numbers {
  datatype Option<T> = None | Some(value: T)

  const TWO_TO_THE_63: int := 0x8000_0000_0000_0000
  const TWO_TO_THE_64: int := 0x1_0000_0000_0000_0000

  type Uint64 = x: int | 0 <= x < TWO_TO_THE_64

  function Min(x: int, y: int): int {
    if x < y then x else y
  }

  function Max(x: int, y: int): int {
    if x < y then y else x
  }

  /** Addition and subtraction of uint64, which wrap around. */
  function Add64(x: int, y: int): Uint64 {
    (x + y) % TWO_TO_THE_64
  }

  function Sub64(x: int, y: int): Uint64 {
    (x - y) % TWO_TO_THE_64
  }

  /** Conversion to int64. */
  function ToInt64(x: int): int {
    (x + TWO_TO_THE_63) % TWO_TO_THE_64 - TWO_TO_THE_63
  }

  /** What fits an int64 stays as it is; anything else moves by a multiple of 2^64. */
  lemma ToInt64Fits(x: int)
    ensures -TWO_TO_THE_63 <= ToInt64(x) < TWO_TO_THE_63
    ensures -TWO_TO_THE_63 <= x < TWO_TO_THE_63 ==> ToInt64(x) == x
    ensures ToInt64(x) + (x + TWO_TO_THE_63) / TWO_TO_THE_64 * TWO_TO_THE_64 == x
  {
  }

  /** The integer part of a decimal. */
  function Truncate(x: real): int {
    if x >= 0.0 then x.Floor else -((-x).Floor)
  }
}
