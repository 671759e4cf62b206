/**
  Java `int` arithmetic: 32-bit two's complement values, multiplication that
  wraps around, and division that rounds toward zero.
*/
module JavaInt {

  const INT_MIN: int := -0x8000_0000
  const INT_MAX: int := 0x7fff_ffff

  newtype int32 = x: int | -0x8000_0000 <= x < 0x8000_0000

  function Abs(x: int): nat { if x < 0 then -x else x }

  /** The 32-bit value Java keeps of the exact integer `x`. */
  function Wrap(x: int): (r: int32)
    ensures INT_MIN <= x <= INT_MAX ==> r as int == x
    ensures (x - r as int) % 0x1_0000_0000 == 0
  {
    ((x + 0x8000_0000) % 0x1_0000_0000 - 0x8000_0000) as int32
  }

  /** Integer division rounding toward zero, as Java's `/` does before narrowing. */
  function TruncDiv(a: int, b: int): (q: int)
    requires b != 0
    ensures Abs(q) == Abs(a) / Abs(b)
    ensures q < 0 ==> (a < 0) != (b < 0)
    ensures q > 0 ==> (a < 0) == (b < 0)
    ensures 0 <= a && 0 < b ==> q == a / b
  {
    var n := Abs(a) / Abs(b);
    assert n >= 0 by { QuotientNonNegative(Abs(a), Abs(b)); }
    if (a < 0) != (b < 0) then -n else n
  }

  lemma QuotientNonNegative(a: nat, b: nat)
    requires b > 0
    ensures a / b >= 0
  {
  }

  /** Java's `a * b` on ints. */
  function Mul(a: int32, b: int32): (r: int32)
    ensures INT_MIN <= a as int * b as int <= INT_MAX ==> r as int == a as int * b as int
    ensures (a as int * b as int - r as int) % 0x1_0000_0000 == 0
  {
    Wrap(a as int * b as int)
  }

  /** Java's `a / b` on ints; MIN_VALUE / -1 wraps to MIN_VALUE. */
  function Div(a: int32, b: int32): (r: int32)
    requires b != 0
    ensures 0 <= a && 0 < b ==> r as int == a as int / b as int
    ensures (TruncDiv(a as int, b as int) - r as int) % 0x1_0000_0000 == 0
  {
    Wrap(TruncDiv(a as int, b as int))
  }
}
