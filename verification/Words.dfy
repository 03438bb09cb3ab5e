/** Machine words of the C code: 32-bit values as integers with the wrap-around written out. */
module Words {

  type uint32 = x: int | 0 <= x < 0x1_0000_0000
  type int32 = x: int | -0x8000_0000 <= x < 0x8000_0000

  /** Truncation to an unsigned 32-bit word. */
  function U32(x: int): uint32 {
    x % 0x1_0000_0000
  }

  /** Two's complement conversion to a signed 32-bit word. */
  function I32(x: int): int32 {
    if x % 0x1_0000_0000 < 0x8000_0000 then x % 0x1_0000_0000 else x % 0x1_0000_0000 - 0x1_0000_0000
  }

  predicate FitsI32(x: int) {
    -0x8000_0000 <= x < 0x8000_0000
  }

  function Abs(x: int): nat {
    if x < 0 then -x else x
  }

  function Pow2(n: nat): (r: nat)
    ensures 1 <= r
  {
    if n == 0 then 1 else 2 * Pow2(n - 1)
  }

  lemma {:induction false} Pow2Add(m: nat, n: nat)
    ensures Pow2(m + n) == Pow2(m) * Pow2(n)
  {
    if m == 0 {
    } else {
      Pow2Add(m - 1, n);
    }
  }

  lemma MulAssoc(x: int, y: int, z: int)
    ensures (x * y) * z == x * (y * z)
  {
  }

  lemma MulDistributes(x: int, y: int, z: int)
    ensures (x + y) * z == x * z + y * z
  {
  }

  lemma MulMonotone(x: int, y: int, z: nat)
    requires x <= y
    ensures x * z <= y * z
  {
  }

  /** The quotient and remainder are determined by the division equation. */
  lemma DivModUnique(x: int, d: int, q: int, r: int)
    requires 0 < d && 0 <= r < d && x == q * d + r
    ensures x / d == q && x % d == r
  {
    var q', r' := x / d, x % d;
    assert (q - q') * d == r' - r;
    assert q - q' >= 1 ==> (q - q') * d >= d;
    assert q' - q >= 1 ==> (q' - q) * d >= d;
  }

  lemma DivAtLeast(x: nat, d: nat, k: nat)
    requires 0 < d && k * d <= x
    ensures k <= x / d
  {
    var q, r := x / d, x % d;
    assert x == q * d + r;
    MulDistributes(q, 1, d);
    if q < k {
      MulMonotone(q + 1, k, d);
    }
  }

  /** The conversions written out on the range where 32-bit arithmetic can land. */
  lemma I32Of(x: int)
    requires -0x1_0000_0000 <= x <= 0x1_0000_0000
    ensures I32(x) == if x < -0x8000_0000 then x + 0x1_0000_0000
                      else if x < 0x8000_0000 then x else x - 0x1_0000_0000
  {
  }
}
