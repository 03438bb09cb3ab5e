/** `png_muldiv`: a * times / divisor on 32-bit words, without a 64-bit type
    (the integer branch, android/jni/libpng/png.c:3193-3273). */
module MulDiv {
  import opened Words

  // ---- What the function computes, on unbounded integers -------------------------------------

  /** The rounding test of the code: the remainder is compared with the halved divisor. */
  function Rounded(q: nat, r: nat, d: nat): nat {
    if r >= d / 2 then q + 1 else q
  }

  function Quotient(a: nat, t: nat, d: nat): nat
    requires 0 < d
  {
    a * t / d
  }

  function RoundedQuotient(a: nat, t: nat, d: nat): nat
    requires 0 < d
  {
    Rounded(a * t / d, a * t % d, d)
  }

  datatype Result = Overflow | Value(value: int32)

  function Negative(a: int, t: int, d: int): bool {
    (a < 0) != ((t < 0) != (d < 0))
  }

  /** What the 32-bit result word says about a quotient `q` that was rounded to `m`. */
  function Signed(negative: bool, q: nat, m: nat): Result {
    if q >= 0x1_0000_0000 then Overflow
    else if m == 0x1_0000_0000 then Value(0)
    else if negative then
      if m <= 0x8000_0000 then Value(-(m as int)) else Overflow
    else
      if m < 0x8000_0000 then Value(m) else Overflow
  }

  /** The result of `png_muldiv` for every triple of 32-bit arguments. */
  function Scaled(a: int32, times: int32, divisor: int32): Result {
    if divisor == 0 then Overflow
    else if a == 0 || times == 0 then Value(0)
    else Signed(Negative(a, times, divisor), Quotient(Abs(a), Abs(times), Abs(divisor)),
                RoundedQuotient(Abs(a), Abs(times), Abs(divisor)))
  }

  // ---- The word-level algorithm --------------------------------------------------------------

  /** The 64-bit product of two magnitudes, as a high and a low word. */
  method WideProduct(A: uint32, T: uint32) returns (hi: uint32, lo: uint32)
    requires A <= 0x8000_0000 && T <= 0x8000_0000
    ensures hi * 0x1_0000_0000 + lo == A * T
  {
    var a1, a0, t1, t0 := A / 0x1_0000, A % 0x1_0000, T / 0x1_0000, T % 0x1_0000;
    PartialProductsFit(a1, a0, t1, t0);
    var s16: uint32 := a1 * t0 + a0 * t1;
    var s32: uint32 := a1 * t1 + s16 / 0x1_0000;
    var s00: uint32 := a0 * t0;
    ghost var cross := s16;
    PartialProductsSum(A, T, a1, a0, t1, t0, cross);
    hi, lo := AddCarry(s32, U32((s16 % 0x1_0000) * 0x1_0000), s00, A, T);
  }

  /** The low words added, with the carry into the high word. */
  method AddCarry(high: uint32, s16: uint32, low: uint32, ghost A: nat, ghost T: nat) returns (s32: uint32, s00: uint32)
    requires A <= 0x8000_0000 && T <= 0x8000_0000 && A * T == high * 0x1_0000_0000 + s16 + low
    ensures s32 * 0x1_0000_0000 + s00 == A * T
  {
    s32 := high;
    s00 := U32(low + s16);
    if s00 < s16 {
      HighWordFits(A, T, high + 1, s00);
      s32 := s32 + 1;
    }
  }

  lemma PartialProductsFit(a1: nat, a0: nat, t1: nat, t0: nat)
    requires a1 <= 0x8000 && t1 <= 0x8000 && a0 < 0x1_0000 && t0 < 0x1_0000
    ensures 0 <= a1 * t0 <= 0x8000 * 0xFFFF && 0 <= a0 * t1 <= 0xFFFF * 0x8000
    ensures 0 <= a1 * t1 <= 0x4000_0000 && 0 <= a0 * t0 <= 0xFFFF * 0xFFFF
  {
    MulBounds(a1, 0x8000, t0, 0xFFFF);
    MulBounds(a0, 0xFFFF, t1, 0x8000);
    MulBounds(a1, 0x8000, t1, 0x8000);
    MulBounds(a0, 0xFFFF, t0, 0xFFFF);
  }

  lemma MulBounds(x: nat, xm: nat, y: nat, ym: nat)
    requires x <= xm && y <= ym
    ensures 0 <= x * y <= xm * ym
  {
    assert x * y <= xm * y <= xm * ym;
  }

  lemma PartialProductsSum(A: nat, T: nat, a1: nat, a0: nat, t1: nat, t0: nat, cross: nat)
    requires A == a1 * 0x1_0000 + a0 && T == t1 * 0x1_0000 + t0
    requires cross == a1 * t0 + a0 * t1
    ensures A * T == (a1 * t1 + cross / 0x1_0000) * 0x1_0000_0000 + (cross % 0x1_0000) * 0x1_0000 + a0 * t0
  {
    calc {
      A * T;
      (a1 * 0x1_0000 + a0) * (t1 * 0x1_0000 + t0);
      (a1 * 0x1_0000) * (t1 * 0x1_0000) + (a1 * 0x1_0000) * t0 + a0 * (t1 * 0x1_0000) + a0 * t0;
      (a1 * t1) * 0x1_0000_0000 + cross * 0x1_0000 + a0 * t0;
    }
  }

  lemma HighWordFits(A: nat, T: nat, hi: nat, lo: nat)
    requires A <= 0x8000_0000 && T <= 0x8000_0000 && hi * 0x1_0000_0000 + lo == A * T
    ensures hi < 0x1_0000_0000
  {
    MulBounds(A, 0x8000_0000, T, 0x8000_0000);
  }

  /** The divisor shifted left by `shift`, as the word pair the loop builds. */
  lemma ShiftedDivisor(D: uint32, shift: nat)
    requires 0 < shift <= 31
    ensures (D / Pow2(32 - shift)) * 0x1_0000_0000 + U32(D * Pow2(shift)) == D * Pow2(shift)
    ensures 0 <= D / Pow2(32 - shift) < 0x1_0000_0000
  {
    Pow2Is32();
    Pow2Add(32 - shift, shift);
    ShiftedWords(D, Pow2(32 - shift), Pow2(shift));
  }

  lemma ShiftedWords(D: nat, low: nat, p: nat)
    requires 1 <= low && 1 <= p && low * p == 0x1_0000_0000
    ensures (D / low) * 0x1_0000_0000 + D * p % 0x1_0000_0000 == D * p
    ensures 0 <= D / low <= D
  {
    var q, r := D / low, D % low;
    assert D == q * low + r;
    SplitScaled(D, low, p, q, r);
    DivModUnique(D * p, 0x1_0000_0000, q, r * p);
    MulMonotone(1, low, q);
  }

  lemma SplitScaled(d: nat, low: nat, p: nat, q: nat, r: nat)
    requires d == q * low + r && r < low && 1 <= p
    ensures d * p == q * (low * p) + r * p && 0 <= r * p < low * p
  {
    MulDistributes(q * low, r, p);
    MulAssoc(q, low, p);
    MulMonotone(r + 1, low, p);
    MulDistributes(r, 1, p);
  }

  lemma Pow2Is32()
    ensures Pow2(31) == 0x8000_0000 && Pow2(32) == 0x1_0000_0000
  {
    assert Pow2(8) == 256;
    Pow2Add(8, 8);
    Pow2Add(16, 15);
    assert Pow2(15) == 0x8000 by { Pow2Add(8, 7); }
  }

  lemma Pow2Step(n: nat)
    ensures Pow2(n + 1) == 2 * Pow2(n) && Pow2(0) == 1
  {
  }

  /** One step of the shift-and-subtract division keeps the division equation and halves the bound. */
  lemma DivisionStep(product: nat, D: nat, q: nat, s: nat, shift: nat)
    requires product == q * D + s && s < D * Pow2(shift + 1)
    ensures product == (q + Pow2(shift)) * D + (s - D * Pow2(shift))
    ensures s < 2 * (D * Pow2(shift)) && D * Pow2(0) == D
  {
    MulDistributes(q, Pow2(shift), D);
    MulDistributes(Pow2(shift), Pow2(shift), D);
  }

  /** The compare, borrow and subtract of one loop iteration on two-word numbers. */
  method SubtractIfNotLess(s32: uint32, s00: uint32, d32: uint32, d00: uint32)
      returns (taken: bool, hi: uint32, lo: uint32)
    ensures taken <==> s32 * 0x1_0000_0000 + s00 >= d32 * 0x1_0000_0000 + d00
    ensures hi * 0x1_0000_0000 + lo ==
            s32 * 0x1_0000_0000 + s00 - (if taken then d32 * 0x1_0000_0000 + d00 else 0)
  {
    taken, hi, lo := false, s32, s00;
    if s32 > d32 {
      if s00 < d00 {
        hi := hi - 1;
      }
      taken, hi, lo := true, hi - d32, U32(s00 as int - d00);
    } else if s32 == d32 && s00 >= d00 {
      taken, hi, lo := true, 0, s00 - d00;
    }
  }

  method Divide(hi: uint32, lo: uint32, D: uint32) returns (ghost quotient: uint32, result: int32, remainder: uint32)
    requires 0 < D <= 0x8000_0000 && hi < D
    ensures quotient * D + remainder == hi * 0x1_0000_0000 + lo && remainder < D
    ensures result == I32(quotient)
  {
    hide Pow2, U32;
    ghost var product: nat := hi * 0x1_0000_0000 + lo;
    var s32: uint32, s00: uint32 := hi, lo;
    var bitshift := 32;
    result := 0;
    ghost var q: nat := 0;
    Pow2Is32();
    MulMonotone(hi + 1, D, 0x1_0000_0000);
    while bitshift > 0
      invariant 0 <= bitshift <= 32
      invariant product == q * D + (s32 * 0x1_0000_0000 + s00)
      invariant s32 * 0x1_0000_0000 + s00 < D * Pow2(bitshift)
      invariant q + Pow2(bitshift) <= 0x1_0000_0000
      invariant result == I32(q)
    {
      bitshift := bitshift - 1;
      ghost var s: nat := s32 * 0x1_0000_0000 + s00;
      var d32: uint32, d00: uint32;
      if bitshift > 0 {
        ShiftedDivisor(D, bitshift);
        d32, d00 := D / Pow2(32 - bitshift), U32(D * Pow2(bitshift));
      } else {
        d32, d00 := 0, D;
      }
      Pow2Step(bitshift);
      DivisionStep(product, D, q, s, bitshift);
      var taken;
      taken, s32, s00 := SubtractIfNotLess(s32, s00, d32, d00);
      if taken {
        I32Step(q, Pow2(bitshift));
        result := I32(result as int + Pow2(bitshift));
        q := q + Pow2(bitshift);
      }
    }
    Pow2Step(0);
    quotient, remainder := q, s00;
  }

  lemma I32Step(x: int, y: int)
    ensures I32(I32(x) as int + y) == I32(x + y)
  {
    assert exists k :: I32(x) as int + y == x + y + 0x1_0000_0000 * k by {
      assert I32(x) as int + y == x + y + 0x1_0000_0000 * ((I32(x) as int - x) / 0x1_0000_0000);
    }
  }

  /** Rounding, sign and the final overflow test, all on the wrapped 32-bit result. */
  method Finish(negative: bool, ghost quotient: uint32, result0: int32, remainder: uint32, D: uint32)
      returns (ok: bool, res: int32)
    requires result0 == I32(quotient)
    ensures ok <==> Signed(negative, quotient, Rounded(quotient, remainder, D)).Value?
    ensures ok ==> res == Signed(negative, quotient, Rounded(quotient, remainder, D)).value
  {
    var result := result0;
    I32Of(quotient);
    I32Of(result as int + 1);
    if remainder >= D / 2 {
      result := I32(result as int + 1);
    }
    I32Of(-(result as int));
    if negative {
      result := I32(-(result as int));
    }
    ok, res := (negative && result <= 0) || (!negative && result >= 0), result;
  }

  method PngMulDiv(a: int32, times: int32, divisor: int32) returns (ok: bool, res: int32)
    ensures ok <==> Scaled(a, times, divisor).Value?
    ensures ok ==> res == Scaled(a, times, divisor).value
  {
    ok, res := false, 0;
    if divisor != 0 {
      if a == 0 || times == 0 {
        return true, 0;
      }
      var negative := false;
      var A: uint32, T: uint32, D: uint32;
      if a < 0 { negative := true; A := -(a as int); } else { A := a; }
      if times < 0 { negative := !negative; T := -(times as int); } else { T := times; }
      if divisor < 0 { negative := !negative; D := -(divisor as int); } else { D := divisor; }
      var s32, s00 := WideProduct(A, T);
      if s32 < D {
        var quotient, result, remainder := Divide(s32, s00, D);
        DivModUnique(A * T, D, quotient, remainder);
        ok, res := Finish(negative, quotient, result, remainder, D);
      } else {
        QuotientTooBig(A * T, D, s32, s00);
      }
    }
  }

  lemma QuotientTooBig(product: nat, D: nat, hi: nat, lo: nat)
    requires 0 < D <= hi && product == hi * 0x1_0000_0000 + lo
    ensures product / D >= 0x1_0000_0000
  {
    MulMonotone(D, hi, 0x1_0000_0000);
    DivAtLeast(product, D, 0x1_0000_0000);
  }

  // ---- What a caller gets --------------------------------------------------------------------

  /** Rounding is to the nearest integer exactly when the divisor is even or the remainder is not
      the largest one below one half; in the excluded case the code rounds up one step too early. */
  lemma NearestIff(a: nat, t: nat, d: nat)
    requires 0 < d
    ensures 2 * Abs(RoundedQuotient(a, t, d) * d - a * t) <= d <==> d % 2 == 0 || a * t % d != d / 2
  {
    var p := a * t;
    var q, r := p / d, p % d;
    assert p == q * d + r;
    assert (q + 1) * d == q * d + d;
  }

  /** The exact real quotient lies less than one unit from the rounded one. */
  lemma RoundingError(a: nat, t: nat, d: nat)
    requires 0 < d
    ensures var m := RoundedQuotient(a, t, d);
            a * t - d < m * d <= a * t + d
    ensures d > 1 ==> RoundedQuotient(a, t, d) * d < a * t + d
  {
    var p := a * t;
    var q, r := p / d, p % d;
    assert p == q * d + r;
    assert (q + 1) * d == q * d + d;
  }

  /** Success means: the rounded magnitude with the sign of the true quotient.
      The one exception is the magnitude 2^32 that wraps to zero. */
  lemma ScaledIsSignedQuotient(a: int32, times: int32, divisor: int32)
    requires divisor != 0 && a != 0 && times != 0
    ensures var q := Quotient(Abs(a), Abs(times), Abs(divisor));
            var m := RoundedQuotient(Abs(a), Abs(times), Abs(divisor));
            var signed: int := if Negative(a, times, divisor) then -(m as int) else m;
            (FitsI32(signed) <==> Scaled(a, times, divisor).Value? && Scaled(a, times, divisor).value == signed)
            && (Scaled(a, times, divisor).Value? && !FitsI32(signed) <==> m == 0x1_0000_0000 && q < 0x1_0000_0000)
  {
  }

  /** Whatever the signs, the result is the exact quotient up to one, unless it has wrapped. */
  lemma QuotientIsNear(a: int32, times: int32, divisor: int32)
    requires divisor != 0 && Scaled(a, times, divisor).Value?
    ensures RoundedQuotient(Abs(a), Abs(times), Abs(divisor)) == 0x1_0000_0000
            || Abs(Scaled(a, times, divisor).value * divisor - a * times) <= Abs(divisor)
  {
    if a != 0 && times != 0 {
      hide RoundedQuotient;
      RoundingError(Abs(a), Abs(times), Abs(divisor));
      SignsCancel(a, times, divisor, RoundedQuotient(Abs(a), Abs(times), Abs(divisor)));
    }
  }

  lemma SignsCancel(a: int, times: int, divisor: int, m: nat)
    requires a != 0 && times != 0 && divisor != 0
    requires Abs(a) * Abs(times) - Abs(divisor) < m * Abs(divisor) <= Abs(a) * Abs(times) + Abs(divisor)
    ensures var signed: int := if Negative(a, times, divisor) then 0 - m else m;
            Abs(signed * divisor - a * times) <= Abs(divisor)
  {
    assert Abs(a) * Abs(times) == if (a < 0) == (times < 0) then a * times else -(a * times) by {
      SignsOfProduct(a, times);
    }
    assert m * Abs(divisor) == if divisor < 0 then -(m * divisor) else m * divisor by { SignsOfProduct(m, divisor); }
    assert (0 - m) * divisor == -(m * divisor);
  }

  lemma SignsOfProduct(a: int, b: int)
    ensures Abs(a) * Abs(b) == if (a < 0) == (b < 0) || a == 0 then a * b else -(a * b)
  {
    if a < 0 && b < 0 {
      assert (-a) * (-b) == a * b;
    } else if a < 0 {
      assert (-a) * b == -(a * b);
    } else if b < 0 {
      assert a * (-b) == -(a * b);
    }
  }

  /** Dividing by one does not return the product: zero passes the halved-divisor test. */
  lemma DivideByOneIsOffByOne(a: int32, times: int32)
    requires 0 < a && 0 < times && a * times < 0x8000_0000 - 1
    ensures Scaled(a, times, 1) == Value(a * times + 1)
  {
    ScaledIs(a, times, 1, a * times, 0);
  }

  /** The result from a quotient and remainder that satisfy the division equation. */
  lemma ScaledIs(a: int32, t: int32, d: int32, q: nat, r: nat)
    requires a != 0 && t != 0 && d != 0 && Abs(a) * Abs(t) == q * Abs(d) + r && r < Abs(d)
    ensures Scaled(a, t, d) == Signed(Negative(a, t, d), q, Rounded(q, r, Abs(d)))
  {
    DivModUnique(Abs(a) * Abs(t), Abs(d), q, r);
  }

  /** An overflow that is reported as a success with the value zero. */
  lemma SilentWrap()
    ensures Scaled(65535, 65537, 1) == Value(0)
  {
    ScaledIs(65535, 65537, 1, 0xFFFF_FFFF, 0);
  }
}
