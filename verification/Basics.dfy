/** Bytes and the smaller of two numbers. */
module Basics {

  type Byte = x: int | 0 <= x < 256

  function Min(a: nat, b: nat): nat {
    if a < b then a else b
  }
}
