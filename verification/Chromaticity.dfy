/** `png_XYZ_from_xy`: end points from chromaticities by Cramer's rule in 32-bit fixed point
    (android/jni/libpng/png.c:1230-1488). */
module Chromaticity {
  import opened Basics
  import opened Words
  import opened MulDiv

  datatype Point = Point(x: int32, y: int32)
  datatype Xy = Xy(red: Point, green: Point, blue: Point, white: Point)
  datatype Tristimulus = Tristimulus(X: int32, Y: int32, Z: int32)
  datatype EndPoints = EndPoints(red: Tristimulus, green: Tristimulus, blue: Tristimulus)

  /** Return codes 0, 1 and 2 of the C function. */
  datatype Inversion = Inverted(ends: EndPoints) | Unusable | InternalError

  /** The range check; it also keeps z = 1 - x - y non-negative. */
  predicate InTriangle(p: Point) {
    0 <= p.x <= 100000 && 0 <= p.y <= 100000 - p.x
  }

  /** png_reciprocal: zero stands for "error or overflow". */
  function Reciprocal(a: int32): int32 {
    match Scaled(100000, 100000, a)
    case Value(v) => v
    case Overflow => 0
  }

  /** The scaled two-by-two determinant (a - o) x (b - o) as the code computes it: two divided
      products and a wrapping subtraction. `None` is the code's internal error. */
  function CrossMinor(a: int, b: int, c: int, d: int): Option<int32>
    requires FitsI32(a) && FitsI32(b) && FitsI32(c) && FitsI32(d)
  {
    match (Scaled(a, b, 7), Scaled(c, d, 7))
    case (Value(left), Value(right)) => Some(I32(left as int - right as int))
    case _ => None
  }

  function Cross(p: Point, q: Point, o: Point): int {
    (p.x as int - o.x) * (q.y as int - o.y) - (p.y as int - o.y) * (q.x as int - o.x)
  }

  // ---- The geometry behind "overflow should be impossible here" ------------------------------

  lemma PairwiseProducts(a: int, b: int, c: int)
    requires 0 <= a <= 100000 && 0 <= b <= 100000 && 0 <= c <= 100000
    ensures 100000 * (a + b + c) - (a * b + b * c + c * a) <= 100000 * 100000
  {
    assert c * (100000 - a - b) <= if a + b <= 100000 then 100000 * (100000 - a - b) else 0 by {
      if a + b <= 100000 {
        MulMonotone(c, 100000, 100000 - a - b);
      } else {
        MulMonotone(0, c, a + b - 100000);
      }
    }
    MulMonotone(0, a, b);
    assert (100000 - a) * (100000 - b) >= 0 by {
      MulMonotone(0, 100000 - a, 100000 - b);
    }
    assert c * (100000 - a - b) == 100000 * c - c * a - b * c;
    assert (100000 - a) * (100000 - b) == 100000 * 100000 - 100000 * a - 100000 * b + a * b;
  }

  lemma CrossUpper(px: int, py: int, qx: int, qy: int, ox: int, oy: int)
    requires 0 <= px && 0 <= py && px + py <= 100000
    requires 0 <= qx && 0 <= qy && qx + qy <= 100000
    requires 0 <= ox && 0 <= oy && ox + oy <= 100000
    ensures (px - ox) * (qy - oy) - (py - oy) * (qx - ox) <= 100000 * 100000
  {
    PairwiseProducts(px, qx, ox);
    Beneath(px, qx, qy);
    Beneath(qx, ox, oy);
    Beneath(ox, px, py);
    NonNegative(py, qx);
    NonNegative(oy, px);
    NonNegative(ox, qy);
    CrossExpands(px, py, qx, qy, ox, oy);
    SixProducts(px * qy, qx * oy, ox * py, py * qx, oy * px, ox * qy, px * qx, qx * ox, ox * px, px, qx, ox);
  }

  lemma Beneath(a: nat, x: nat, y: nat)
    requires x + y <= 100000
    ensures a * y <= 100000 * a - a * x
  {
    MulMonotone(y, 100000 - x, a);
  }

  lemma NonNegative(a: nat, b: nat)
    ensures 0 <= a * b
  {
  }

  lemma CrossExpands(px: int, py: int, qx: int, qy: int, ox: int, oy: int)
    ensures (px - ox) * (qy - oy) - (py - oy) * (qx - ox)
         == px * qy + qx * oy + ox * py - (py * qx + oy * px + ox * qy)
  {
  }

  lemma SixProducts(a: int, b: int, c: int, d: int, e: int, f: int, pq: int, qo: int, op: int, px: int, qx: int,
      ox: int)
    requires a <= 100000 * px - pq && b <= 100000 * qx - qo && c <= 100000 * ox - op
    requires 0 <= d && 0 <= e && 0 <= f
    requires 100000 * (px + qx + ox) - (pq + qo + op) <= 100000 * 100000
    ensures a + b + c - (d + e + f) <= 100000 * 100000
  {
  }

  /** Twice the area of a triangle inside x, y >= 0, x + y <= 1 is at most one. */
  lemma CrossBound(p: Point, q: Point, o: Point)
    requires InTriangle(p) && InTriangle(q) && InTriangle(o)
    ensures -10_000_000_000 <= Cross(p, q, o) <= 10_000_000_000
  {
    CrossUpper(p.x, p.y, q.x, q.y, o.x, o.y);
    CrossUpper(q.x, q.y, p.x, p.y, o.x, o.y);
  }

  lemma AbsMul(a: int, t: int)
    ensures Abs(a) * Abs(t) == Abs(a * t)
  {
    MulMonotone(0, Abs(a), Abs(t));
  }

  /** Dividing a product of chromaticity differences by seven succeeds and is almost exact. */
  lemma SevenSucceeds(a: int, t: int)
    requires -100000 <= a <= 100000 && -100000 <= t <= 100000
    ensures Scaled(a, t, 7).Value? && -4 <= 7 * Scaled(a, t, 7).value - a * t <= 4
  {
    if a != 0 && t != 0 {
      MulBounds(Abs(a), 100000, Abs(t), 100000);
      AbsMul(a, t);
      SignOfProduct(a, t);
      SevenMagnitude(Abs(a) * Abs(t));
    }
  }

  lemma SignOfProduct(a: int, t: int)
    requires a != 0 && t != 0
    ensures Negative(a, t, 7) <==> a * t < 0
  {
    MulMonotone(1, Abs(a), Abs(t));
    AbsMul(a, t);
    if a < 0 && t < 0 {
      assert a * t == (-a) * (-t);
    } else if a < 0 {
      assert a * t == -((-a) * t);
    } else if t < 0 {
      assert a * t == -(a * (-t));
    }
  }

  lemma SevenMagnitude(p: nat)
    requires p <= 10_000_000_000
    ensures Rounded(p / 7, p % 7, 7) < 0x8000_0000 && -4 <= 7 * Rounded(p / 7, p % 7, 7) - p <= 4
  {
  }

  /** The minor is defined, its subtraction did not wrap, and seven times it is the exact value up to 8. */
  ghost predicate Approximates(m: Option<int32>, exact: int) {
    m.Some? && -8 <= 7 * m.value - exact <= 8
  }

  /** A determinant of two points seen from a third is computed without failure and without
      wrap-around, to within 8/7 of its exact value. */
  lemma MinorExact(p: Point, q: Point, o: Point)
    requires InTriangle(p) && InTriangle(q) && InTriangle(o)
    ensures Approximates(CrossMinor(p.x - o.x, q.y - o.y, p.y - o.y, q.x - o.x), Cross(p, q, o))
  {
    var a, b, c, d := p.x - o.x, q.y - o.y, p.y - o.y, q.x - o.x;
    SevenSucceeds(a, b);
    SevenSucceeds(c, d);
    CrossBound(p, q, o);
    I32Of(Scaled(a, b, 7).value as int - Scaled(c, d, 7).value as int);
  }

  lemma CrossMinorCommutes(a: int32, b: int32, c: int32, d: int32)
    ensures CrossMinor(a, b, c, d) == CrossMinor(b, a, d, c)
  {
    ScaledCommutes(a, b, 7);
    ScaledCommutes(c, d, 7);
  }

  // ---- The inversion -------------------------------------------------------------------------

  /** One end point from its chromaticity: x * times / divisor and so on. */
  function Column(p: Point, times: int32, divisor: int32): Option<Tristimulus>
    requires InTriangle(p)
  {
    match (Scaled(p.x, times, divisor), Scaled(p.y, times, divisor), Scaled(100000 - p.x - p.y, times, divisor))
    case (Value(x), Value(y), Value(z)) => Some(Tristimulus(x, y, z))
    case _ => None
  }

  /** The blue scale before it is stored in 32 bits. */
  function BlueScale(whitey: int32, redInverse: int32, greenInverse: int32): int {
    Reciprocal(whitey) as int - Reciprocal(redInverse) - Reciprocal(greenInverse)
  }

  predicate InRange(xy: Xy) {
    InTriangle(xy.red) && InTriangle(xy.green) && InTriangle(xy.blue) && InTriangle(xy.white)
  }

  /** The reciprocals of the red and green scale factors, or the return code that ends the search. */
  datatype Scales = Stop(code: Inversion) | Scales(redInverse: int32, greenInverse: int32)

  function FindScales(xy: Xy): Scales
    requires InRange(xy)
  {
    var Xy(r, g, b, w) := xy;
    var denominator := CrossMinor(g.x - b.x, r.y - b.y, g.y - b.y, r.x - b.x);
    var redMinor := CrossMinor(g.x - b.x, w.y - b.y, g.y - b.y, w.x - b.x);
    if denominator.None? || redMinor.None? then Stop(InternalError) else
    var redInverse := Scaled(w.y, denominator.value, redMinor.value);
    if redInverse.Overflow? || redInverse.value <= w.y then Stop(Unusable) else
    var greenMinor := CrossMinor(r.y - b.y, w.x - b.x, r.x - b.x, w.y - b.y);
    if greenMinor.None? then Stop(InternalError) else
    var greenInverse := Scaled(w.y, denominator.value, greenMinor.value);
    if greenInverse.Overflow? || greenInverse.value <= w.y then Stop(Unusable) else
    Scales(redInverse.value, greenInverse.value)
  }

  /** `png_XYZ_from_xy` with every 32-bit subtraction wrapping. */
  function InvertXy(xy: Xy): Inversion {
    if !InRange(xy) then Unusable else
    match FindScales(xy)
    case Stop(code) => code
    case Scales(redInverse, greenInverse) =>
      var blueScale := I32(BlueScale(xy.white.y, redInverse, greenInverse));
      if blueScale <= 0 then Unusable else
      match (Column(xy.red, 100000, redInverse), Column(xy.green, 100000, greenInverse),
          Column(xy.blue, blueScale, 100000))
      case (Some(red), Some(green), Some(blue)) => Inverted(EndPoints(red, green, blue))
      case _ => Unusable
  }

  /** The determinants of the two products, divided by seven and subtracted. */
  method DivideMinor(a: int32, b: int32, c: int32, d: int32) returns (ok: bool, v: int32)
    ensures ok <==> CrossMinor(a, b, c, d).Some?
    ensures ok ==> v == CrossMinor(a, b, c, d).value
  {
    var left, right;
    v := 0;
    ok, left := PngMulDiv(a, b, 7);
    if ok {
      ok, right := PngMulDiv(c, d, 7);
      if ok {
        v := I32(left as int - right as int);
      }
    }
  }

  method DivideColumn(p: Point, times: int32, divisor: int32) returns (ok: bool, t: Tristimulus)
    requires InTriangle(p)
    ensures ok <==> Column(p, times, divisor).Some?
    ensures ok ==> t == Column(p, times, divisor).value
  {
    var x, y, z;
    t := Tristimulus(0, 0, 0);
    ok, x := PngMulDiv(p.x, times, divisor);
    if !ok { return; }
    ok, y := PngMulDiv(p.y, times, divisor);
    if !ok { return; }
    ok, z := PngMulDiv(100000 - p.x - p.y, times, divisor);
    if !ok { return; }
    t := Tristimulus(x, y, z);
  }

  method PngReciprocal(a: int32) returns (r: int32)
    ensures r == Reciprocal(a)
  {
    var ok, res := PngMulDiv(100000, 100000, a);
    r := if ok then res else 0;
  }

  method SearchScales(xy: Xy) returns (r: Scales)
    requires InRange(xy)
    ensures r == FindScales(xy)
  {
    hide Scaled, CrossMinor;
    var ok, denominator, minor, redInverse, greenInverse;
    ok, denominator := DivideMinor(xy.green.x - xy.blue.x, xy.red.y - xy.blue.y, xy.green.y - xy.blue.y,
        xy.red.x - xy.blue.x);
    if !ok { return Stop(InternalError); }
    ok, minor := DivideMinor(xy.green.x - xy.blue.x, xy.white.y - xy.blue.y, xy.green.y - xy.blue.y,
        xy.white.x - xy.blue.x);
    if !ok { return Stop(InternalError); }
    ok, redInverse := PngMulDiv(xy.white.y, denominator, minor);
    if !ok || redInverse <= xy.white.y { return Stop(Unusable); }
    ok, minor := DivideMinor(xy.red.y - xy.blue.y, xy.white.x - xy.blue.x, xy.red.x - xy.blue.x,
        xy.white.y - xy.blue.y);
    if !ok { return Stop(InternalError); }
    ok, greenInverse := PngMulDiv(xy.white.y, denominator, minor);
    if !ok || greenInverse <= xy.white.y { return Stop(Unusable); }
    r := Scales(redInverse, greenInverse);
  }

  method XYZFromXy(xy: Xy) returns (r: Inversion)
    ensures r == InvertXy(xy)
    ensures r != InternalError
  {
    hide FindScales, Scaled, Column, Reciprocal;
    if !InRange(xy) { return Unusable; }
    var scales := SearchScales(xy);
    NeverInternalError(xy);
    if scales.Stop? { return scales.code; }
    var rw := PngReciprocal(xy.white.y);
    var rr := PngReciprocal(scales.redInverse);
    var rg := PngReciprocal(scales.greenInverse);
    var blueScale := I32(rw as int - rr as int - rg as int);
    if blueScale <= 0 { return Unusable; }
    var ok, red, green, blue;
    ok, red := DivideColumn(xy.red, 100000, scales.redInverse);
    if !ok { return Unusable; }
    ok, green := DivideColumn(xy.green, 100000, scales.greenInverse);
    if !ok { return Unusable; }
    ok, blue := DivideColumn(xy.blue, blueScale, 100000);
    if !ok { return Unusable; }
    r := Inverted(EndPoints(red, green, blue));
  }

  lemma MinorSucceeds(a: int, b: int, c: int, d: int)
    requires -100000 <= a <= 100000 && -100000 <= b <= 100000
    requires -100000 <= c <= 100000 && -100000 <= d <= 100000
    ensures CrossMinor(a, b, c, d).Some?
  {
    SevenSucceeds(a, b);
    SevenSucceeds(c, d);
  }

  /** Return code 2 cannot happen. */
  lemma NeverInternalError(xy: Xy)
    requires InRange(xy)
    ensures FindScales(xy) != Stop(InternalError)
  {
    var Xy(r, g, b, w) := xy;
    MinorSucceeds(g.x - b.x, r.y - b.y, g.y - b.y, r.x - b.x);
    MinorSucceeds(g.x - b.x, w.y - b.y, g.y - b.y, w.x - b.x);
    MinorSucceeds(r.y - b.y, w.x - b.x, r.x - b.x, w.y - b.y);
  }

  lemma ScaledCommutes(a: int32, t: int32, d: int32)
    ensures Scaled(a, t, d) == Scaled(t, a, d)
  {
    assert Abs(a) * Abs(t) == Abs(t) * Abs(a);
  }

  /** None of the three subtractions in the code wraps, and each result is within 8/7 of the
      exact determinant over seven (the third one is taken with white and red exchanged). */
  lemma DeterminantsExact(xy: Xy)
    requires InRange(xy)
    ensures var Xy(r, g, b, w) := xy;
            Approximates(CrossMinor(g.x - b.x, r.y - b.y, g.y - b.y, r.x - b.x), Cross(g, r, b))
            && Approximates(CrossMinor(g.x - b.x, w.y - b.y, g.y - b.y, w.x - b.x), Cross(g, w, b))
            && Approximates(CrossMinor(r.y - b.y, w.x - b.x, r.x - b.x, w.y - b.y), Cross(w, r, b))
  {
    hide CrossMinor, Cross, Approximates;
    var Xy(r, g, b, w) := xy;
    MinorExact(g, r, b);
    MinorExact(g, w, b);
    MinorExact(w, r, b);
    CrossMinorCommutes(r.y - b.y, w.x - b.x, r.x - b.x, w.y - b.y);
  }

  // ---- The blue scale ------------------------------------------------------------------------

  lemma ReciprocalBounds(a: int32)
    requires 0 < a
    ensures a < 5 ==> Reciprocal(a) == 0
    ensures a >= 5 ==> 10_000_000_000 / a <= Reciprocal(a) <= 10_000_000_000 / a + 1
    ensures 0 <= Reciprocal(a) <= 2_000_000_000
  {
    hide Scaled;
    var q, r := 10_000_000_000 / a, 10_000_000_000 % a;
    assert 10_000_000_000 == q * a + r;
    ScaledIs(100000, 100000, a, q, r);
    if a >= 6 {
      DivAntitone(10_000_000_000, 6, a);
    }
  }

  lemma DivAntitone(x: nat, d: nat, e: nat)
    requires 0 < d <= e
    ensures x / e <= x / d
  {
    var q := x / e;
    assert x == q * e + x % e;
    MulMonotone(d, e, q);
    DivAtLeast(x, d, q);
  }

  /** The largest partner of a small inverse scale with which the two reciprocals exceed 2^31. */
  function Partner(smaller: int): int {
    if smaller == 5 then 67
    else if smaller == 6 then 20
    else if smaller == 7 then 13
    else if smaller == 8 then 11
    else if smaller == 9 then 9
    else 0
  }

  /** Two inverse scales that are so small that their reciprocals do not go together into 32 bits. */
  predicate TooSmall(a: int, b: int) {
    if a <= b then b <= Partner(a) else a <= Partner(b)
  }

  /** Two reciprocals exceed 2^31 exactly for the pairs of the table. */
  lemma TooSmallIff(a: int32, b: int32)
    requires 0 < a <= b
    ensures Reciprocal(a) as int + Reciprocal(b) > 0x8000_0000 <==> b <= Partner(a)
  {
    hide Reciprocal;
    ReciprocalBounds(a);
    ReciprocalBounds(b);
    if 5 <= a <= 9 {
      if b <= Partner(a) {
        DivAntitone(10_000_000_000, b, Partner(a));
      } else {
        DivAntitone(10_000_000_000, Partner(a) + 1, b);
      }
    } else if a >= 10 {
      DivAntitone(10_000_000_000, 10, a);
      DivAntitone(10_000_000_000, 10, b);
    }
  }

  /** The comment at the blue scale says the subtraction cannot overflow.  It cannot exactly when
      the white y is at least 0.00005 or the two inverse scales are no pair of the table. */
  lemma BlueScaleFitsIff(whitey: int32, redInverse: int32, greenInverse: int32)
    requires 0 < whitey < redInverse && whitey < greenInverse
    ensures FitsI32(BlueScale(whitey, redInverse, greenInverse)) <==> whitey >= 5 || !TooSmall(redInverse, greenInverse)
  {
    hide Reciprocal, TooSmall;
    ReciprocalBounds(whitey);
    ReciprocalBounds(redInverse);
    ReciprocalBounds(greenInverse);
    DivAntitone(10_000_000_000, whitey, redInverse);
    DivAntitone(10_000_000_000, whitey, greenInverse);
    TooSmallBoth(redInverse, greenInverse);
  }

  lemma TooSmallBoth(a: int32, b: int32)
    requires 0 < a && 0 < b
    ensures TooSmall(a, b) <==> Reciprocal(a) as int + Reciprocal(b) > 0x8000_0000
  {
    hide Reciprocal;
    if a <= b {
      TooSmallIff(a, b);
    } else {
      TooSmallIff(b, a);
    }
  }

  /** The search only succeeds for a positive white y. */
  lemma WhiteIsPositive(xy: Xy)
    requires InRange(xy) && FindScales(xy).Scales?
    ensures 0 < xy.white.y < FindScales(xy).redInverse && xy.white.y < FindScales(xy).greenInverse
  {
    hide CrossMinor;
  }

  lemma StopIsNoSuccess(xy: Xy)
    ensures InvertXy(xy).Inverted? ==> InRange(xy) && FindScales(xy).Scales?
  {
    hide CrossMinor, Scaled, Column;
  }

  /** For every set of chromaticities that gets as far: the blue scale in its 32-bit variable is the
      difference of the three reciprocals if and only if it does not wrap, and this is the condition. */
  lemma StoredBlueScaleIff(xy: Xy)
    requires InRange(xy) && FindScales(xy).Scales?
    ensures var Scales(redInverse, greenInverse) := FindScales(xy);
            I32(BlueScale(xy.white.y, redInverse, greenInverse)) == BlueScale(xy.white.y, redInverse, greenInverse)
            <==> xy.white.y >= 5 || !TooSmall(redInverse, greenInverse)
  {
    hide FindScales, Reciprocal, TooSmall;
    WhiteIsPositive(xy);
    var Scales(redInverse, greenInverse) := FindScales(xy);
    BlueScaleFitsIff(xy.white.y, redInverse, greenInverse);
    StoredIff(BlueScale(xy.white.y, redInverse, greenInverse));
  }

  lemma StoredIff(x: int)
    ensures I32(x) == x <==> FitsI32(x)
  {
  }

  /** A set of chromaticities that passes every check before it and makes the blue scale wrap. */
  lemma BlueScaleWraps()
    ensures var xy := Xy(Point(54953, 246), Point(9521, 2564), Point(57571, 6230), Point(35824, 4));
            InRange(xy) && FindScales(xy) == Scales(5, 10)
            && BlueScale(4, 5, 10) == -3_000_000_000 && I32(BlueScale(4, 5, 10)) > 0
            && InvertXy(xy).Inverted?
  {
    hide FindScales, Column, Scaled, InvertXy;
    BlueScaleWrapsScales();
    ScaledIs(100000, 100000, 4, 2500000000, 0);
    ScaledIs(100000, 100000, 5, 2000000000, 0);
    ScaledIs(100000, 100000, 10, 1000000000, 0);
    BlueScaleWrapsColumns();
    InvertedIf(Xy(Point(54953, 246), Point(9521, 2564), Point(57571, 6230), Point(35824, 4)), 5, 10);
  }

  lemma InvertedIf(xy: Xy, redInverse: int32, greenInverse: int32)
    requires InRange(xy) && FindScales(xy) == Scales(redInverse, greenInverse)
    requires I32(BlueScale(xy.white.y, redInverse, greenInverse)) > 0
    requires Column(xy.red, 100000, redInverse).Some? && Column(xy.green, 100000, greenInverse).Some?
    requires Column(xy.blue, I32(BlueScale(xy.white.y, redInverse, greenInverse)), 100000).Some?
    ensures InvertXy(xy).Inverted?
  {
    hide FindScales, Column, BlueScale;
  }

  lemma BlueScaleWrapsMinors()
    ensures CrossMinor(-48050, -5984, -3666, -2618) == Some(39704802)
    ensures CrossMinor(-48050, -6226, -3666, -21747) == Some(31347828)
    ensures CrossMinor(-5984, -21747, -2618, -6226) == Some(16262054)
  {
    ScaledIs(-48050, -5984, 7, 41075885, 5);
    ScaledIs(-3666, -2618, 7, 1371084, 0);
    ScaledIs(-48050, -6226, 7, 42737042, 6);
    ScaledIs(-3666, -21747, 7, 11389214, 4);
    ScaledIs(-5984, -21747, 7, 18590578, 2);
    ScaledIs(-2618, -6226, 7, 2328524, 0);
  }

  lemma BlueScaleWrapsScales()
    ensures FindScales(Xy(Point(54953, 246), Point(9521, 2564), Point(57571, 6230), Point(35824, 4))) == Scales(5, 10)
  {
    BlueScaleWrapsMinors();
    ScaledIs(4, 39704802, 31347828, 5, 2080068);
    ScaledIs(4, 39704802, 16262054, 9, 12460722);
  }

  lemma BlueScaleWrapsColumns()
    ensures Column(Point(54953, 246), 100000, 5).Some? && Column(Point(9521, 2564), 100000, 10).Some?
    ensures Column(Point(57571, 6230), 1294967296, 100000).Some?
  {
    ScaledIs(54953, 100000, 5, 1099060000, 0);
    ScaledIs(246, 100000, 5, 4920000, 0);
    ScaledIs(44801, 100000, 5, 896020000, 0);
    ScaledIs(9521, 100000, 10, 95210000, 0);
    ScaledIs(2564, 100000, 10, 25640000, 0);
    ScaledIs(87915, 100000, 10, 879150000, 0);
    ScaledIs(57571, 1294967296, 100000, 745525621, 98016);
    ScaledIs(6230, 1294967296, 100000, 80676462, 54080);
    ScaledIs(36199, 1294967296, 100000, 468765211, 47904);
  }

  // ---- What the end points are -----------------------------------------------------------------

  /** A scaled value that is off its exact one, n * times / divisor, by at most one. */
  predicate WithinOne(value: int, n: int, times: int, divisor: int) {
    -divisor <= value * divisor - n * times <= divisor
  }

  lemma ScaledIsClose(n: int32, times: int32, divisor: int32)
    requires 0 <= n <= 100000 && 0 < times && 1 < divisor && Scaled(n, times, divisor).Value?
    requires times == 100000 || divisor == 100000
    ensures 0 <= Scaled(n, times, divisor).value && WithinOne(Scaled(n, times, divisor).value, n, times, divisor)
  {
    hide RoundedQuotient;
    if n > 0 {
      NoWrap(n, times, divisor);
      RoundingError(n, times, divisor);
    }
  }

  /** The one magnitude that would wrap to zero does not occur here. */
  lemma NoWrap(n: nat, times: nat, divisor: nat)
    requires n <= 100000 && 0 < times < 0x8000_0000 && 1 < divisor && (times == 100000 || divisor == 100000)
    ensures RoundedQuotient(n, times, divisor) != 0x1_0000_0000
  {
    var q, r := n * times / divisor, n * times % divisor;
    assert n * times == q * divisor + r;
    if q >= 0xFFFF_FFFF {
      MulMonotone(0xFFFF_FFFF, q, divisor);
      MulMonotone(n, 100000, times);
    }
  }

  /** Three values that are each off by at most one have the ratios of the exact ones, up to this. */
  predicate Matches(p: Point, t: Tristimulus) {
    var sum := t.X as int + t.Y + t.Z;
    && Abs(t.X as int * 100000 - p.x as int * sum) <= 100000 + p.x
    && Abs(t.Y as int * 100000 - p.y as int * sum) <= 100000 + p.y
  }

  lemma ShareIsClose(n: int, a: int, b: int, value: int, va: int, vb: int, times: int, divisor: int)
    requires 0 <= n <= 100000 && n + a + b == 100000 && 0 < divisor
    requires WithinOne(value, n, times, divisor) && WithinOne(va, a, times, divisor) && WithinOne(vb, b, times, divisor)
    ensures Abs(value * 100000 - n * (value + va + vb)) <= 100000 + n
  {
    hide WithinOne, Abs;
    var e, ea, eb := value * divisor - n * times, va * divisor - a * times, vb * divisor - b * times;
    ErrorOfShare(n, a, b, value, va, vb, times, divisor, e, ea, eb);
    ErrorBound(n, divisor, value * 100000 - n * (value + va + vb), e, ea, eb) by {
      assert -divisor <= e <= divisor by { Unfold(value, n, times, divisor); }
      assert -divisor <= ea <= divisor by { Unfold(va, a, times, divisor); }
      assert -divisor <= eb <= divisor by { Unfold(vb, b, times, divisor); }
    }
  }

  lemma Unfold(value: int, n: int, times: int, divisor: int)
    requires WithinOne(value, n, times, divisor)
    ensures -divisor <= value * divisor - n * times <= divisor
  {
  }

  lemma ErrorOfShare(n: int, a: int, b: int, value: int, va: int, vb: int, times: int, divisor: int, e: int, ea: int,
      eb: int)
    requires n + a + b == 100000
    requires e == value * divisor - n * times && ea == va * divisor - a * times && eb == vb * divisor - b * times
    ensures (value * 100000 - n * (value + va + vb)) * divisor == 100000 * e - n * (e + ea + eb)
  {
    assert e + ea + eb == (value + va + vb) * divisor - (n + a + b) * times;
    assert n * ((value + va + vb) * divisor) == n * (value + va + vb) * divisor;
    assert n * (100000 * times) == 100000 * (n * times);
  }

  lemma ErrorBound(n: int, divisor: int, error: int, e: int, ea: int, eb: int)
    requires 0 <= n <= 100000 && 0 < divisor
    requires -divisor <= e <= divisor && -divisor <= ea <= divisor && -divisor <= eb <= divisor
    requires error * divisor == 100000 * e - n * (e + ea + eb)
    ensures Abs(error) <= 100000 + n
  {
    TimesBound(e, divisor, 100000 - n);
    TimesBound(ea, divisor, n);
    TimesBound(eb, divisor, n);
    SplitError(n, divisor, e, ea, eb);
    MulDistributes(100000 + n, 1, divisor);
    Between(error, divisor, -(100000 + n), 100000 + n);
  }

  lemma SplitError(n: int, divisor: int, e: int, ea: int, eb: int)
    ensures 100000 * e - n * (e + ea + eb) == e * (100000 - n) - ea * n - eb * n
    ensures divisor * (100000 - n) + divisor * n + divisor * n == (100000 + n) * divisor
    ensures -(100000 + n) * divisor == -((100000 + n) * divisor)
  {
  }

  /** A factor between two products. */
  lemma Between(x: int, d: int, low: int, high: int)
    requires 0 < d && low * d <= x * d < (high + 1) * d
    ensures low <= x <= high
  {
    if x < low {
      MulMonotone(x + 1, low, d);
      MulDistributes(x, 1, d);
    } else if high < x {
      MulMonotone(high + 1, x, d);
    }
  }

  lemma TimesBound(e: int, d: int, n: int)
    requires -d <= e <= d && 0 <= n
    ensures -(d * n) <= e * n <= d * n
  {
    MulMonotone(e, d, n);
    MulMonotone(-d, e, n);
  }

  lemma ColumnMatches(p: Point, times: int32, divisor: int32)
    requires InTriangle(p) && Column(p, times, divisor).Some?
    requires 0 < times && 1 < divisor && (times == 100000 || divisor == 100000)
    ensures Matches(p, Column(p, times, divisor).value)
    ensures var t := Column(p, times, divisor).value;
            0 <= t.X && 0 <= t.Y && 0 <= t.Z && SumIsClose(t, times, divisor)
  {
    hide Scaled, WithinOne;
    var z := 100000 - p.x - p.y;
    var t := Column(p, times, divisor).value;
    ScaledIsClose(p.x, times, divisor);
    ScaledIsClose(p.y, times, divisor);
    ScaledIsClose(z, times, divisor);
    ShareIsClose(p.x, p.y, z, t.X, t.Y, t.Z, times, divisor);
    ShareIsClose(p.y, p.x, z, t.Y, t.X, t.Z, times, divisor);
    ThreeClose(p.x, p.y, z, t, times, divisor);
  }

  /** X + Y + Z against its exact value, 100000 * times / divisor. */
  predicate SumIsClose(t: Tristimulus, times: int, divisor: int) {
    Abs((t.X as int + t.Y + t.Z) * divisor - 100000 * times) <= 3 * divisor
  }

  lemma ThreeClose(x: int, y: int, z: int, t: Tristimulus, times: int, divisor: int)
    requires x + y + z == 100000
    requires WithinOne(t.X, x, times, divisor) && WithinOne(t.Y, y, times, divisor) && WithinOne(t.Z, z, times, divisor)
    ensures SumIsClose(t, times, divisor)
  {
    MulDistributes(x + y, z, times);
    MulDistributes(x, y, times);
    MulDistributes(t.X as int + t.Y, t.Z, divisor);
    MulDistributes(t.X, t.Y, divisor);
  }

  /** Whenever the inversion succeeds, X : Y : Z of every end point is its chromaticity, up to
      (100000 + x) / (X + Y + Z) units. */
  lemma EndPointsMatch(xy: Xy)
    requires InvertXy(xy).Inverted?
    ensures var ends := InvertXy(xy).ends;
            Matches(xy.red, ends.red) && Matches(xy.green, ends.green) && Matches(xy.blue, ends.blue)
  {
    hide FindScales, Scaled, Column, Reciprocal, Matches, SumIsClose;
    StopIsNoSuccess(xy);
    WhiteIsPositive(xy);
    var Scales(redInverse, greenInverse) := FindScales(xy);
    ColumnMatches(xy.red, 100000, redInverse);
    ColumnMatches(xy.green, 100000, greenInverse);
    ColumnMatches(xy.blue, I32(BlueScale(xy.white.y, redInverse, greenInverse)), 100000);
  }

  function Sum(t: Tristimulus): int {
    t.X as int + t.Y + t.Z
  }

  lemma SumNearReciprocal(t: Tristimulus, a: int32)
    requires 5 <= a && SumIsClose(t, 100000, a)
    ensures -4 <= Sum(t) - Reciprocal(a) <= 4
  {
    hide Reciprocal;
    ReciprocalBounds(a);
    QuotientNear(Sum(t), a);
  }

  lemma QuotientNear(sum: int, a: int)
    requires 0 < a && Abs(sum * a - 10_000_000_000) <= 3 * a
    ensures -3 <= sum - 10_000_000_000 / a <= 3
  {
    NearFrom(sum * a, sum, a, 10_000_000_000 / a, 10_000_000_000 % a);
  }

  lemma NearFrom(product: int, sum: int, a: int, q: int, r: int)
    requires 0 <= r < a && product == sum * a && 10_000_000_000 == q * a + r
    requires -3 * a <= product - 10_000_000_000 <= 3 * a
    ensures -3 <= sum - q <= 3
  {
    assert (sum - q) * a == product - q * a;
    Between(sum - q, a, -3, 3);
  }

  /** When white y is at least 5 units, the end points add up to the white point: their X + Y + Z
      together are the reciprocal of white y, up to 11 units. */
  lemma EndPointsAddUp(xy: Xy)
    requires InvertXy(xy).Inverted? && xy.white.y >= 5
    ensures var ends := InvertXy(xy).ends;
            -11 <= Sum(ends.red) + Sum(ends.green) + Sum(ends.blue) - Reciprocal(xy.white.y) <= 11
  {
    hide FindScales, Scaled, Column, Reciprocal, Matches, SumIsClose, TooSmall;
    StopIsNoSuccess(xy);
    WhiteIsPositive(xy);
    StoredBlueScaleIff(xy);
    var Scales(redInverse, greenInverse) := FindScales(xy);
    var blueScale := I32(BlueScale(xy.white.y, redInverse, greenInverse));
    ColumnMatches(xy.red, 100000, redInverse);
    ColumnMatches(xy.green, 100000, greenInverse);
    ColumnMatches(xy.blue, blueScale, 100000);
    var ends := InvertXy(xy).ends;
    SumNearReciprocal(ends.red, redInverse);
    SumNearReciprocal(ends.green, greenInverse);
    BlueSum(ends.blue, blueScale);
  }

  lemma BlueSum(t: Tristimulus, blueScale: int32)
    requires SumIsClose(t, blueScale, 100000)
    ensures -3 <= Sum(t) - blueScale <= 3
  {
  }
}
