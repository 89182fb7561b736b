/** Machine integers, optional values and results, shared by every part of the model. */
module Basics {
  type U16 = x: int | 0 <= x < 0x1_0000
  type U32 = x: int | 0 <= x < 0x1_0000_0000
  type U64 = x: int | 0 <= x < 0x1_0000_0000_0000_0000
  type I32 = x: int | -0x8000_0000 <= x < 0x8000_0000
  type I64 = x: int | -0x8000_0000_0000_0000 <= x < 0x8000_0000_0000_0000

  const U16_MAX: U16 := 0xFFFF
  const U32_MAX: U32 := 0xFFFF_FFFF

  datatype Option<+T> = None | Some(value: T)

  datatype Result<+T, +E> = Ok(value: T) | Err(error: E) {
    predicate IsFailure() {
      Err?
    }

    function PropagateFailure<U>(): (r: Result<U, E>)
      requires IsFailure()
    {
      Err(error)
    }

    function Extract(): (t: T)
      requires !IsFailure()
    {
      value
    }
  }
}
