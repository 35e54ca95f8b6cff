/** Small shared vocabulary: optional values and bytes. */
module Basics {

  /** A value that may be missing; `None` stands for the source's failure paths. */
  datatype Option<+T> = None | Some(value: T)

  /** One octet, as Python's `bytes` holds them. */
  type byte = x: int | 0 <= x < 256

  function Min(a: int, b: int): int
  {
    if a <= b then a else b
  }

  /** Every character is 7-bit ASCII. */
  predicate IsAscii(s: string)
  {
    forall c | c in s :: c as int < 128
  }
}
