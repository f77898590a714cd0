/** Vocabulary shared by all the models. */
module Basics {

  datatype Option<+T> = None | Some(value: T)

  type Byte = x: int | 0 <= x < 256

  function Abs(x: int): (r: nat)
    ensures r == x || r == -x
  {
    if x >= 0 then x else -x
  }

  function Max(x: nat, y: nat): (r: nat)
    ensures x <= r && y <= r && (r == x || r == y)
  {
    if x > y then x else y
  }
}
