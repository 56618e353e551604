/** The integer macros of CELT. */
module CeltMath {

  function Min(a: int, b: int): int { if a < b then a else b }

  function Abs(x: int): int { if x < 0 then -x else x }
}
