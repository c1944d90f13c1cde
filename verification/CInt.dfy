/** C integer operators that differ from Dafny's, shared by the other modules. */
module CInt {

  /** C `/` and `%` truncate toward zero. The divisors are written as literals, which keeps the
      arithmetic linear. */
  function SecondsOf(ns: int): int {
    if ns >= 0 then ns / 1_000_000_000 else -((-ns) / 1_000_000_000)
  }

  function NanosOf(ns: int): int {
    ns - SecondsOf(ns) * 1_000_000_000
  }

  function Thousandth(a: int): int {
    if a >= 0 then a / 1000 else -((-a) / 1000)
  }

  /** 32-bit unsigned wrap-around. */
  function Wrap32(n: int): int { n % 0x1_0000_0000 }

  lemma WrapAdd(a: int, b: int)
    ensures Wrap32(Wrap32(a) + b) == Wrap32(a + b) == Wrap32(a + Wrap32(b))
  {
  }

  function Abs(a: int): int {
    if a >= 0 then a else -a
  }

  function Min(a: int, b: int): int {
    if a <= b then a else b
  }

  function Max(a: int, b: int): int {
    if a >= b then a else b
  }

  const U32: int := 0x1_0000_0000
}
