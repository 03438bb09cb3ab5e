/** `png_colorspace_set_rgb_coefficients`: integer gray weights from the Y values of the end points
    (android/jni/libpng/png.c:2357-2419). */
module GrayCoefficients {
  import opened Words
  import opened MulDiv

  /** The stored weights (blue is the rest), or one of the two `png_error` calls. */
  datatype Outcome = Weights(red: nat, green: nat, blue: nat) | CoefficientError | EndPointError

  /** A weight is off its exact value x * 32768 / total by less than two units. */
  ghost predicate Close(weight: int, x: int, total: int) {
    -2 * total < weight * total - x * 32768 < 2 * total
  }

  /** The scaled weight exists, is the rounded quotient and needs no clamping. */
  ghost predicate RoundsInRange(x: int32, total: int32)
    requires 0 <= x && 0 < total
  {
    Scaled(x, 32768, total).Value? && Scaled(x, 32768, total).value == RoundedQuotient(x, 32768, total) <= 32768
  }

  /** One coefficient, as `png_muldiv` rounds it, lies in 0..32768. */
  lemma WeightInRange(x: int32, total: int32)
    requires 0 <= x <= total && 2 <= total
    ensures RoundsInRange(x, total)
  {
    var q, r := x * 32768 / total, x * 32768 % total;
    assert x * 32768 == q * total + r;
    MulMonotone(x, total, 32768);
    if q > 32768 {
      MulMonotone(32769, q, total);
    } else if q == 32768 {
      assert r == 0;
    }
    if x == 0 {
      DivModUnique(0, total, 0, 0);
    }
  }

  /** Three remainders that add up to k times the divisor are rounded up k times, give or take one. */
  lemma RoundUpsMatch(d: int, r1: int, r2: int, r3: int, k: int)
    requires 2 <= d && 0 <= r1 < d && 0 <= r2 < d && 0 <= r3 < d && r1 + r2 + r3 == k * d
    requires !(d == 3 && r1 == r2 == r3 == 1)
    ensures var ups := (if r1 >= d / 2 then 1 else 0) + (if r2 >= d / 2 then 1 else 0) + (if r3 >= d / 2 then 1 else 0);
            -1 <= ups - k <= 1
  {
    if k >= 3 {
      MulMonotone(3, k, d);
    } else if k <= -1 {
      MulMonotone(k, -1, d);
    }
    UpsMatch(d, r1, r2, r3, k);
  }

  lemma UpsMatch(d: int, r1: int, r2: int, r3: int, k: int)
    requires 2 <= d && 0 <= r1 < d && 0 <= r2 < d && 0 <= r3 < d && 0 <= k <= 2
    requires r1 + r2 + r3 == if k == 0 then 0 else if k == 1 then d else 2 * d
    requires !(d == 3 && r1 == r2 == r3 == 1)
    ensures var ups := (if r1 >= d / 2 then 1 else 0) + (if r2 >= d / 2 then 1 else 0) + (if r3 >= d / 2 then 1 else 0);
            -1 <= ups - k <= 1
  {
  }

  /** Quotient and remainder of a coefficient, and how it is rounded. */
  lemma RoundedParts(x: nat, total: nat) returns (q: int, rest: int)
    requires 2 <= total
    ensures x * 32768 == q * total + rest && 0 <= q && 0 <= rest < total && (total == 3 ==> rest == x * 32768 % 3)
    ensures RoundedQuotient(x, 32768, total) == if rest >= total / 2 then q + 1 else q
  {
    q, rest := x * 32768 / total, x * 32768 % total;
  }

  lemma RemainderSum(x: int, y: int, z: int, d: int, qx: int, qy: int, qz: int, rx: int, ry: int, rz: int, k: int)
    requires x == qx * d + rx && y == qy * d + ry && z == qz * d + rz
    requires x + y + z == 32768 * d && k == 32768 - qx - qy - qz
    ensures rx + ry + rz == k * d
  {
  }

  lemma NotThreeThirds(r: nat, g: nat, b: nat)
    requires r + g + b == 3
    ensures !(r * 32768 % 3 == 1 && g * 32768 % 3 == 1 && b * 32768 % 3 == 1)
  {
  }

  /** The sum of the three rounded coefficients is 32768 up to one. */
  lemma SumOffByOne(r: int32, g: int32, b: int32, total: int32)
    requires 0 <= r && 0 <= g && 0 <= b && total == r + g + b && 2 <= total
    ensures 32767 <= RoundedQuotient(r, 32768, total) + RoundedQuotient(g, 32768, total)
                     + RoundedQuotient(b, 32768, total) <= 32769
  {
    hide RoundedQuotient;
    var qr, rr := RoundedParts(r, total);
    var qg, rg := RoundedParts(g, total);
    var qb, rb := RoundedParts(b, total);
    var k: int := 32768 - qr - qg - qb;
    RemainderSum(r * 32768, g * 32768, b * 32768, total, qr, qg, qb, rr, rg, rb, k);
    if total == 3 {
      NotThreeThirds(r, g, b);
    }
    RoundedSum(total, qr, qg, qb, rr, rg, rb, RoundedQuotient(r, 32768, total), RoundedQuotient(g, 32768, total),
               RoundedQuotient(b, 32768, total), k);
  }

  lemma RoundedSum(d: nat, q1: nat, q2: nat, q3: nat, r1: nat, r2: nat, r3: nat, m1: nat, m2: nat, m3: nat, k: int)
    requires 2 <= d && r1 < d && r2 < d && r3 < d && r1 + r2 + r3 == k * d && k == 32768 - q1 - q2 - q3
    requires !(d == 3 && r1 == r2 == r3 == 1)
    requires m1 == if r1 >= d / 2 then q1 + 1 else q1
    requires m2 == if r2 >= d / 2 then q2 + 1 else q2
    requires m3 == if r3 >= d / 2 then q3 + 1 else q3
    ensures 32767 <= m1 + m2 + m3 <= 32769
  {
    RoundUpsMatch(d, r1, r2, r3, k);
  }

  lemma RoundedClose(x: nat, total: nat, adjust: int)
    requires 2 <= total && -1 <= adjust <= 1
    ensures Close(RoundedQuotient(x, 32768, total) + adjust, x, total)
  {
    RoundingError(x, 32768, total);
    MulDistributes(RoundedQuotient(x, 32768, total), adjust, total);
  }

  ghost predicate AllClose(x: int, total: int, weight: int) {
    Close(weight - 1, x, total) && Close(weight, x, total) && Close(weight + 1, x, total)
  }

  /** What holds once every argument is non-negative and the total is at least two. */
  lemma Roundings(r: int32, g: int32, b: int32, total: int32)
    requires 0 <= r && 0 <= g && 0 <= b && total == r + g + b && 2 <= total
    ensures var (mr, mg, mb) := (RoundedQuotient(r, 32768, total), RoundedQuotient(g, 32768, total),
            RoundedQuotient(b, 32768, total));
            RoundsInRange(r, total) && RoundsInRange(g, total) && RoundsInRange(b, total)
            && 32767 <= mr + mg + mb <= 32769
            && AllClose(r, total, mr) && AllClose(g, total, mg) && AllClose(b, total, mb)
  {
    hide Scaled, RoundedQuotient, Close;
    WeightInRange(r, total);
    WeightInRange(g, total);
    WeightInRange(b, total);
    SumOffByOne(r, g, b, total);
    RoundedCloseThrice(r, total);
    RoundedCloseThrice(g, total);
    RoundedCloseThrice(b, total);
  }

  lemma RoundedCloseThrice(x: nat, total: nat)
    requires 2 <= total
    ensures AllClose(x, total, RoundedQuotient(x, 32768, total))
  {
    hide RoundedQuotient, Close;
    RoundedClose(x, total, -1);
    RoundedClose(x, total, 0);
    RoundedClose(x, total, 1);
  }

  /** The correction: the largest coefficient absorbs a sum that is off by one, green first. */
  method Correct(r0: nat, g0: nat, b0: nat) returns (r: int, g: int, b: int)
    requires 32767 <= r0 + g0 + b0 <= 32769
    ensures r + g + b == 32768 && r >= 0 && g >= 0 && b >= 0
    ensures -1 <= r - r0 <= 1 && -1 <= g - g0 <= 1 && -1 <= b - b0 <= 1
    ensures r0 + g0 + b0 == 32768 ==> r == r0 && g == g0 && b == b0
    ensures r != r0 ==> r0 >= b0 && r0 > g0 && g == g0 && b == b0
    ensures g != g0 ==> g0 >= r0 && g0 >= b0 && r == r0 && b == b0
    ensures b != b0 ==> b0 > r0 && b0 > g0 && r == r0 && g == g0
  {
    r, g, b := r0, g0, b0;
    var add := 0;
    if r + g + b > 32768 {
      add := -1;
    } else if r + g + b < 32768 {
      add := 1;
    }
    if add != 0 {
      if g >= r && g >= b {
        g := g + add;
      } else if r >= g && r >= b {
        r := r + add;
      } else {
        b := b + add;
      }
    }
  }

  /** The guarded computation: sound coefficients for every non-negative triple with a total of at
      least two, and the end point error otherwise.  The check on the corrected sum never fires. */
  method Balance(redY: int32, greenY: int32, blueY: int32) returns (out: Outcome)
    requires FitsI32(redY as int + greenY + blueY)
    ensures out.Weights? <==> redY >= 0 && greenY >= 0 && blueY >= 0 && redY as int + greenY + blueY >= 2
    ensures out.Weights? ==>
              out.red + out.green + out.blue == 32768
              && Close(out.red, redY, redY as int + greenY + blueY)
              && Close(out.green, greenY, redY as int + greenY + blueY)
              && Close(out.blue, blueY, redY as int + greenY + blueY)
    ensures out != CoefficientError
  {
    hide Scaled, RoundedQuotient, Close;
    var total: int32 := redY as int + greenY + blueY;
    var r: int, g: int, b: int := 0, 0, 0;
    var ok := total > 0 && redY >= 0;
    if ok {
      ok, r := PngMulDiv(redY, 32768, total);
      ok := ok && 0 <= r <= 32768 && greenY >= 0;
    }
    if ok {
      ok, g := PngMulDiv(greenY, 32768, total);
      ok := ok && 0 <= g <= 32768 && blueY >= 0;
    }
    if ok {
      ok, b := PngMulDiv(blueY, 32768, total);
      ok := ok && 0 <= b <= 32768 && r + g + b <= 32769;
    }
    if redY >= 0 && greenY >= 0 && blueY >= 0 {
      if total == 1 {
        TotalOfOne(redY, greenY, blueY);
      } else if total >= 2 {
        Roundings(redY, greenY, blueY, total);
      }
    }
    if !ok {
      return EndPointError;
    }
    r, g, b := Correct(r, g, b);
    if r + g + b != 32768 {
      return CoefficientError;
    }
    out := Weights(r, g, b);
  }

  /** With a total of one the dominant end point is scaled to 32769 and rejected. */
  lemma TotalOfOne(r: int32, g: int32, b: int32)
    requires r + g + b == 1 && r >= 0 && g >= 0 && b >= 0
    ensures Scaled(r, 32768, 1) == Value(32769) || Scaled(g, 32768, 1) == Value(32769)
            || Scaled(b, 32768, 1) == Value(32769)
  {
    DivideByOneIsOffByOne(1, 32768);
  }
}
