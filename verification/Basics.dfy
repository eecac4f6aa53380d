/** Small types that several modules share. */
module Basics {

  newtype byte = x: int | 0 <= x < 256

  datatype Option<T> = None | Some(value: T)

  function Abs(x: real): real {
    if x < 0.0 then 0.0 - x else x
  }
}
