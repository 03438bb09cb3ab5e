/** What the inversion of chromaticities is for: the end points add up to the white point, and it succeeds when white
    lies inside the triangle of the other three (android/jni/libpng/png.c:1330-1488). */
module WhitePoint {
  import opened Basics
  import opened Words
  import opened MulDiv
  import opened Chromaticity

  // ---- The scales are ratios of areas ------------------------------------------------------------------

  /** The two areas with white in place of red and of green, and the area of the triangle, all seen from blue. */
  function Whole(xy: Xy): int {
    Cross(xy.green, xy.red, xy.blue)
  }

  function RedPart(xy: Xy): int {
    Cross(xy.green, xy.white, xy.blue)
  }

  function GreenPart(xy: Xy): int {
    Cross(xy.white, xy.red, xy.blue)
  }

  /** inverse * part is y * whole, up to what the roundings of the two determinants and of the quotient make of it. */
  predicate IsRatio(inverse: int, part: int, y: int, whole: int) {
    Abs(inverse * part - y * whole) <= Abs(part) + 8 * (inverse + y + 1)
  }

  lemma TimesSmall(x: nat, e: int, k: nat)
    requires Abs(e) <= k
    ensures Abs(x * e) <= k * x
  {
    AbsMul(x, e);
    MulMonotone(Abs(e), k, x);
  }

  /** A positive quotient has operands of one sign, and is off by at most one. */
  lemma PositiveQuotient(y: int32, m: int32, n: int32)
    requires 0 < y && Scaled(y, m, n).Value? && Scaled(y, m, n).value > 0
    ensures n != 0 && m != 0 && (m < 0 <==> n < 0) && Abs(Scaled(y, m, n).value * n - y * m) <= Abs(n)
  {
    hide RoundedQuotient;
    assert n != 0 && m != 0;
    ScaledIsSignedQuotient(y, m, n);
    RoundingError(y, Abs(m), Abs(n));
    SameSigns(y, m, n, Scaled(y, m, n).value);
  }

  lemma SameSigns(y: nat, m: int, n: int, q: int)
    requires m != 0 && n != 0 && (m < 0 <==> n < 0) && y * Abs(m) - Abs(n) < q * Abs(n) <= y * Abs(m) + Abs(n)
    ensures Abs(q * n - y * m) <= Abs(n)
  {
    if n < 0 {
      assert q * n == -(q * -n) && y * m == -(y * -m);
    }
  }

  lemma InverseIsRatio(y: int32, m: int32, n: int32, whole: int, part: int)
    requires 0 < y && Scaled(y, m, n).Value? && Scaled(y, m, n).value > 0
    requires Abs(7 * m - whole) <= 8 && Abs(7 * n - part) <= 8
    ensures IsRatio(Scaled(y, m, n).value, part, y, whole)
  {
    hide Scaled;
    PositiveQuotient(y, m, n);
    var inverse := Scaled(y, m, n).value;
    TimesSmall(inverse, part - 7 * n, 8);
    TimesSmall(y, whole - 7 * m, 8);
    SevenTimes(inverse, part, n);
    SevenTimes(y, whole, m);
    RatioFrom(inverse, n, part, y, inverse * n, y * m, inverse * part, y * whole);
  }

  lemma SevenTimes(x: int, a: int, m: int)
    ensures x * (a - 7 * m) == x * a - 7 * (x * m)
  {
    assert x * (7 * m) == 7 * (x * m);
  }

  lemma RatioFrom(inverse: int, n: int, part: int, y: int, qn: int, ym: int, qp: int, yw: int)
    requires Abs(qn - ym) <= Abs(n) && Abs(7 * n - part) <= 8
    requires Abs(qp - 7 * qn) <= 8 * inverse && Abs(yw - 7 * ym) <= 8 * y
    ensures Abs(qp - yw) <= Abs(part) + 8 * (inverse + y + 1)
  {
  }

  /** Both inverse scales, for all chromaticities that get as far. */
  lemma ScalesAreRatios(xy: Xy)
    requires InRange(xy) && FindScales(xy).Scales?
    ensures IsRatio(FindScales(xy).redInverse, RedPart(xy), xy.white.y, Whole(xy))
    ensures IsRatio(FindScales(xy).greenInverse, GreenPart(xy), xy.white.y, Whole(xy))
  {
    hide CrossMinor, Scaled, Cross, IsRatio;
    WhiteIsPositive(xy);
    DeterminantsExact(xy);
    var Xy(r, g, b, w) := xy;
    var denominator := CrossMinor(g.x - b.x, r.y - b.y, g.y - b.y, r.x - b.x).value;
    InverseIsRatio(w.y, denominator, CrossMinor(g.x - b.x, w.y - b.y, g.y - b.y, w.x - b.x).value, Whole(xy),
                   RedPart(xy));
    InverseIsRatio(w.y, denominator, CrossMinor(r.y - b.y, w.x - b.x, r.x - b.x, w.y - b.y).value, Whole(xy),
                   GreenPart(xy));
  }

  // ---- What a primary contributes ----------------------------------------------------------------------

  function Slack(y: int, whole: int, part: int): int {
    10_000_000_000 * Abs(part) + (y + 1) * (y * Abs(whole) + Abs(part)) + 300_000_000_000 * y
  }

  /** A quotient by an inverse scale is a multiple of its part of the triangle. */
  lemma ShareOfPart(v: nat, n: nat, inverse: int, part: int, y: int, whole: int)
    requires 5 <= y < inverse < 0x8000_0000 && n <= 10_000_000_000
    requires Abs(v * inverse - n) <= inverse && IsRatio(inverse, part, y, whole)
    ensures Abs(y * whole * v - n * part) * y <= Slack(y, whole, part)
  {
    hide IsRatio;
    var a, vi := Abs(part), v * inverse;
    var first, second := v * (y * whole - inverse * part), part * (vi - n);
    SplitShare(v, n, inverse, part, y, whole);
    AreaBound(inverse, part, y, whole);
    BothBounds(v, n, inverse, part, y, whole);
    ShareBound(Abs(first + second), v, vi, n, inverse, a, y, Abs(whole), a * inverse);
  }

  lemma BothBounds(v: nat, n: nat, inverse: nat, part: int, y: nat, whole: int)
    requires IsRatio(inverse, part, y, whole) && Abs(v * inverse - n) <= inverse
    ensures Abs(v * (y * whole - inverse * part) + part * (v * inverse - n))
            <= (Abs(part) + 8 * (inverse + y + 1)) * v + Abs(part) * inverse
  {
    Swapped(y * whole, inverse * part);
    TimesSmall(v, y * whole - inverse * part, Abs(part) + 8 * (inverse + y + 1));
    AbsMul(part, v * inverse - n);
    MulMonotone(Abs(v * inverse - n), inverse, Abs(part));
    SumOfBounds(v * (y * whole - inverse * part), part * (v * inverse - n),
                (Abs(part) + 8 * (inverse + y + 1)) * v, Abs(part) * inverse);
  }

  lemma Swapped(a: int, b: int)
    ensures Abs(a - b) == Abs(b - a)
  {
  }

  lemma SumOfBounds(a: int, b: int, c: int, d: int)
    requires Abs(a) <= c && Abs(b) <= d
    ensures Abs(a + b) <= c + d
  {
  }

  lemma SplitShare(v: int, n: int, inverse: int, part: int, y: int, whole: int)
    ensures y * whole * v - n * part == v * (y * whole - inverse * part) + part * (v * inverse - n)
  {
    assert v * (y * whole - inverse * part) == v * (y * whole) - v * (inverse * part);
    assert part * (v * inverse - n) == part * (v * inverse) - part * n;
    assert v * (inverse * part) == part * (v * inverse);
  }

  lemma AreaBound(inverse: int, part: int, y: int, whole: int)
    requires 0 < y < inverse && IsRatio(inverse, part, y, whole)
    ensures Abs(part) * inverse <= y * Abs(whole) + Abs(part) + 16 * inverse
  {
    AbsMul(inverse, part);
    AbsMul(y, whole);
  }

  lemma ShareBound(t: nat, v: nat, vi: nat, n: nat, inverse: nat, a: nat, y: nat, w: nat, ai: nat)
    requires 5 <= y < inverse < 0x8000_0000 && n <= 10_000_000_000
    requires vi == v * inverse && vi <= n + inverse && ai == a * inverse && ai <= y * w + a + 16 * inverse
    requires t <= (a + 8 * (inverse + y + 1)) * v + ai
    ensures t * y <= 10_000_000_000 * a + (y + 1) * (y * w + a) + 300_000_000_000 * y
  {
    ShareOfV(a, inverse, y, v, vi);
    ShareOfA(a, v, y, vi, n, inverse, ai);
    MulMonotone(t, a * v + 16 * vi + ai, y);
    MulDistributes(a * v + 16 * vi, ai, y);
    MulDistributes(a * v, 16 * vi, y);
    MulAssoc(16, vi, y);
    MulMonotone(vi, n + inverse, y);
    MulDistributes(n, inverse, y);
    MulMonotone(n, 10_000_000_000, y);
    MulMonotone(inverse, 0x8000_0000, y);
    MulMonotone(n, 10_000_000_000, a);
    MulMonotone(ai, y * w + a + 16 * inverse, y + 1);
    MulDistributes(y, 1, ai);
    WithInverse(y, w, a, inverse);
    AddsUp(t * y, a * v * y, vi * y, ai, ai * y, a * n, n * y, inverse * y, a, y, inverse, (y + 1) * (y * w + a),
      (y * w + a + 16 * inverse) * (y + 1));
  }

  lemma WithInverse(y: nat, w: nat, a: nat, inverse: nat)
    ensures (y * w + a + 16 * inverse) * (y + 1) == (y + 1) * (y * w + a) + 16 * (inverse * y) + 16 * inverse
  {
    MulDistributes(y * w + a, 16 * inverse, y + 1);
    assert 16 * inverse * (y + 1) == 16 * (inverse * y) + 16 * inverse;
  }

  lemma AddsUp(ty: int, avy: int, viy: int, ai: int, aiy: int, an: int, ny: int, iy: int, a: int, y: int, inverse: int,
      area: int, all: int)
    requires ty <= avy + 16 * viy + aiy && avy <= an + ai && viy <= ny + iy && an <= 10_000_000_000 * a
    requires ny <= 10_000_000_000 * y && iy <= 0x8000_0000 * y
    requires ai + aiy <= all && all == area + 16 * iy + 16 * inverse
    requires 5 <= y && inverse < 0x8000_0000
    ensures ty <= 10_000_000_000 * a + area + 300_000_000_000 * y
  {
  }

  lemma ShareOfV(a: nat, inverse: nat, y: nat, v: nat, vi: nat)
    requires y < inverse && vi == v * inverse
    ensures (a + 8 * (inverse + y + 1)) * v <= a * v + 16 * vi
  {
    assert (a + 8 * (inverse + y + 1)) * v == a * v + 8 * ((inverse + y + 1) * v);
    MulMonotone(inverse + y + 1, 2 * inverse, v);
    assert 2 * inverse * v == 2 * vi;
  }

  lemma ShareOfA(a: nat, v: nat, y: nat, vi: nat, n: nat, inverse: nat, ai: nat)
    requires y < inverse && vi == v * inverse && vi <= n + inverse && ai == a * inverse
    ensures a * v * y <= a * n + ai
  {
    MulMonotone(y, inverse, v);
    assert a * v * y == a * (v * y);
    MulMonotone(v * y, n + inverse, a);
    assert (n + inverse) * a == a * n + ai;
  }

  // ---- The white point ---------------------------------------------------------------------------------

  /** By how much the end points may miss the white point, in units that grow with the triangle. */
  function Tolerance(xy: Xy): int {
    var y, whole := xy.white.y, Whole(xy);
    2 * (Slack(y, whole, RedPart(xy)) + Slack(y, whole, GreenPart(xy)) + y * y * Abs(whole))
  }

  /** The reciprocal of y is the share of the whole triangle. */
  lemma WhiteShare(y: int32, whole: int)
    requires 5 <= y
    ensures Abs(y * whole * Reciprocal(y) - 10_000_000_000 * whole) <= y * Abs(whole)
  {
    hide Reciprocal;
    ReciprocalNear(y);
    var e := Reciprocal(y) * y - 10_000_000_000;
    assert y * whole * Reciprocal(y) - 10_000_000_000 * whole == whole * e by { Shuffled(y, whole, Reciprocal(y)); }
    AbsMul(whole, e);
    MulMonotone(Abs(e), y, Abs(whole));
  }

  lemma Shuffled(y: int, whole: int, r: int)
    ensures y * whole * r - 10_000_000_000 * whole == whole * (r * y - 10_000_000_000)
  {
    assert y * whole * r == whole * (r * y);
  }

  lemma ReciprocalNear(a: int32)
    requires 5 <= a
    ensures 0 <= Reciprocal(a) && Abs(Reciprocal(a) * a - 10_000_000_000) <= a
  {
    hide Reciprocal;
    ReciprocalBounds(a);
    var q, r := 10_000_000_000 / a, 10_000_000_000 % a;
    assert 10_000_000_000 == q * a + r;
    assert (q + 1) * a == q * a + a;
  }

  /** What is left for blue. */
  lemma BlueShare(y: int32, red: int32, green: int32, whole: int, redPart: int, greenPart: int)
    requires 5 <= y < red && y < green
    requires IsRatio(red, redPart, y, whole) && IsRatio(green, greenPart, y, whole)
    ensures Abs(y * whole * BlueScale(y, red, green) - 10_000_000_000 * (whole - redPart - greenPart)) * y
            <= y * y * Abs(whole) + Slack(y, whole, redPart) + Slack(y, whole, greenPart)
  {
    hide Reciprocal, IsRatio, Slack;
    ReciprocalNear(red);
    ReciprocalNear(green);
    ShareOfPart(Reciprocal(red), 10_000_000_000, red, redPart, y, whole);
    ShareOfPart(Reciprocal(green), 10_000_000_000, green, greenPart, y, whole);
    WhiteShare(y, whole);
    var yw := y * whole;
    ThreeScales(yw, Reciprocal(y), Reciprocal(red), Reciprocal(green));
    MulMonotone(Abs(yw * Reciprocal(y) - 10_000_000_000 * whole), y * Abs(whole), y);
    ThreeParts(yw * Reciprocal(y) - 10_000_000_000 * whole, yw * Reciprocal(red) - 10_000_000_000 * redPart,
               yw * Reciprocal(green) - 10_000_000_000 * greenPart, y);
    MulAssoc(y, y, Abs(whole));
  }

  lemma ThreeScales(yw: int, w: int, r: int, g: int)
    ensures yw * (w - r - g) == yw * w - yw * r - yw * g
  {
  }

  lemma ThreeParts(a: int, b: int, c: int, y: nat)
    ensures Abs(a - b - c) * y <= Abs(a) * y + Abs(b) * y + Abs(c) * y
  {
    MulMonotone(Abs(a - b - c), Abs(a) + Abs(b) + Abs(c), y);
    MulDistributes(Abs(a) + Abs(b), Abs(c), y);
    MulDistributes(Abs(a), Abs(b), y);
  }

  lemma BlueChannel(y: nat, whole: int, v: int, c: nat, scale: int, rest: int, slack: int)
    requires c <= 100000 && Abs(v * 100000 - c * scale) <= 100000
    requires Abs(y * whole * scale - 10_000_000_000 * rest) * y <= y * y * Abs(whole) + slack
    ensures Abs(y * whole * v - 100000 * c * rest) * y <= 2 * (y * y * Abs(whole)) + slack
  {
    hide Abs;
    var yw := y * whole;
    var e, f := v * 100000 - c * scale, yw * scale - 10_000_000_000 * rest;
    SplitBlue(yw, v, c, scale, rest);
    BlueBound(yw, e, c, f, yw * v - 100000 * c * rest);
    AreaTimes(y, whole);
    MulMonotone(Abs(yw * v - 100000 * c * rest), Abs(yw) + Abs(f), y);
    MulDistributes(Abs(yw), Abs(f), y);
  }

  lemma AreaTimes(y: nat, whole: int)
    ensures Abs(y * whole) * y == y * y * Abs(whole)
  {
    AbsMul(y, whole);
    MulAssoc(y, y, Abs(whole));
  }

  lemma BlueBound(yw: int, e: int, c: nat, f: int, x: int)
    requires 100000 * x == yw * e + c * f && Abs(e) <= 100000 && c <= 100000
    ensures Abs(x) <= Abs(yw) + Abs(f)
  {
    AbsMul(yw, e);
    MulMonotone(Abs(e), 100000, Abs(yw));
    TimesSmall(c, f, Abs(f));
    MulMonotone(c, 100000, Abs(f));
    Scaled5(x, yw * e, c * f, Abs(yw), Abs(f));
  }

  lemma SplitBlue(yw: int, v: int, c: int, scale: int, rest: int)
    ensures 100000 * (yw * v - 100000 * c * rest)
         == yw * (v * 100000 - c * scale) + c * (yw * scale - 10_000_000_000 * rest)
  {
    assert yw * (v * 100000 - c * scale) == 100000 * (yw * v) - yw * (c * scale);
    assert c * (yw * scale - 10_000_000_000 * rest) == c * (yw * scale) - 10_000_000_000 * (c * rest);
    assert yw * (c * scale) == c * (yw * scale);
    assert 100000 * c * rest == 100000 * (c * rest);
  }

  lemma Scaled5(x: int, a: int, b: int, c: int, d: int)
    requires 100000 * x == a + b && Abs(a) <= 100000 * c && Abs(b) <= 100000 * d
    ensures Abs(x) <= c + d
  {
  }

  /** The areas, weighed with a coordinate of the primaries, give that of white. */
  lemma Weighed(rx: int, ry: int, gx: int, gy: int, ux: int, uy: int, wx: int, wy: int, whole: int, red: int,
      green: int)
    requires whole == (gx - ux) * (ry - uy) - (gy - uy) * (rx - ux)
    requires red == (gx - ux) * (wy - uy) - (gy - uy) * (wx - ux)
    requires green == (wx - ux) * (ry - uy) - (wy - uy) * (rx - ux)
    ensures (rx - ux) * red + (gx - ux) * green == (wx - ux) * whole
    ensures (ry - uy) * red + (gy - uy) * green == (wy - uy) * whole
  {
    WeighedFrom(rx - ux, ry - uy, gx - ux, gy - uy, wx - ux, wy - uy, whole, red, green);
  }

  lemma WeighedFrom(rx: int, ry: int, gx: int, gy: int, wx: int, wy: int, whole: int, red: int, green: int)
    requires whole == gx * ry - gy * rx && red == gx * wy - gy * wx && green == wx * ry - wy * rx
    ensures rx * red + gx * green == wx * whole
    ensures ry * red + gy * green == wy * whole
  {
    SixFactors(rx, gx, wx, ry, gy, wy);
    SixFactors(ry, gy, wy, rx, gx, wx);
  }

  lemma SixFactors(rx: int, gx: int, wx: int, ry: int, gy: int, wy: int)
    ensures rx * (gx * wy - gy * wx) + gx * (wx * ry - wy * rx) == wx * (gx * ry - gy * rx)
  {
    MulMinus(rx, gx * wy, gy * wx);
    MulMinus(gx, wx * ry, wy * rx);
    MulMinus(wx, gx * ry, gy * rx);
    ThreeFactors(rx, gx, wy);
    ThreeFactors(rx, gy, wx);
    ThreeFactors(gx, wx, ry);
  }

  lemma MulMinus(a: int, b: int, c: int)
    ensures a * (b - c) == a * b - a * c
  {
  }

  lemma ThreeFactors(a: int, b: int, c: int)
    ensures a * (b * c) == b * (c * a) == c * (b * a)
  {
  }

  predicate IsWeighed(cr: int, cg: int, cb: int, cw: int, whole: int, red: int, green: int) {
    cr * red + cg * green + cb * (whole - red - green) == cw * whole
  }

  lemma WhiteIsWeighed(xy: Xy)
    ensures var Xy(r, g, b, w) := xy;
            && IsWeighed(r.x, g.x, b.x, w.x, Whole(xy), RedPart(xy), GreenPart(xy))
            && IsWeighed(r.y, g.y, b.y, w.y, Whole(xy), RedPart(xy), GreenPart(xy))
            && IsWeighed(100000 - r.x - r.y, 100000 - g.x - g.y, 100000 - b.x - b.y, 100000 - w.x - w.y, Whole(xy),
                         RedPart(xy), GreenPart(xy))
  {
    var Xy(r, g, b, w) := xy;
    var d, red, green := Whole(xy), RedPart(xy), GreenPart(xy);
    Weighed(r.x, r.y, g.x, g.y, b.x, b.y, w.x, w.y, d, red, green);
    Gathered(r.x, g.x, b.x, w.x, d, red, green);
    Gathered(r.y, g.y, b.y, w.y, d, red, green);
    Complement(r.x, g.x, b.x, w.x, r.y, g.y, b.y, w.y, d, red, green);
  }

  lemma Gathered(cr: int, cg: int, cb: int, cw: int, whole: int, red: int, green: int)
    requires (cr - cb) * red + (cg - cb) * green == (cw - cb) * whole
    ensures IsWeighed(cr, cg, cb, cw, whole, red, green)
  {
    assert (cr - cb) * red == cr * red - cb * red && (cg - cb) * green == cg * green - cb * green;
    assert (cw - cb) * whole == cw * whole - cb * whole;
    assert cb * (whole - red - green) == cb * whole - cb * red - cb * green;
  }

  lemma Complement(rx: int, gx: int, ux: int, wx: int, ry: int, gy: int, uy: int, wy: int, whole: int, red: int,
      green: int)
    requires IsWeighed(rx, gx, ux, wx, whole, red, green) && IsWeighed(ry, gy, uy, wy, whole, red, green)
    ensures IsWeighed(100000 - rx - ry, 100000 - gx - gy, 100000 - ux - uy, 100000 - wx - wy, whole, red, green)
  {
    var rest := whole - red - green;
    assert (100000 - rx - ry) * red == 100000 * red - rx * red - ry * red;
    assert (100000 - gx - gy) * green == 100000 * green - gx * green - gy * green;
    assert (100000 - ux - uy) * rest == 100000 * rest - ux * rest - uy * rest;
    assert (100000 - wx - wy) * whole == 100000 * whole - wx * whole - wy * whole;
  }

  /** One coordinate of the three end points together. */
  lemma Channel(y: int32, whole: int, redPart: int, greenPart: int, red: int32, green: int32, vr: nat, vg: nat, vb: int,
      cr: nat, cg: nat, cb: nat, cw: int)
    requires 5 <= y < red && y < green && cr <= 100000 && cg <= 100000 && cb <= 100000
    requires IsRatio(red, redPart, y, whole) && IsRatio(green, greenPart, y, whole)
    requires IsWeighed(cr, cg, cb, cw, whole, redPart, greenPart)
    requires WithinOne(vr, cr, 100000, red) && WithinOne(vg, cg, 100000, green)
    requires WithinOne(vb, cb, BlueScale(y, red, green), 100000)
    ensures Abs(y * (vr + vg + vb) - 100000 * cw) * Abs(whole) * y
            <= 2 * (Slack(y, whole, redPart) + Slack(y, whole, greenPart) + y * y * Abs(whole))
  {
    hide IsRatio, Slack, BlueScale, IsWeighed, Abs, WithinOne;
    PrimaryShare(vr, cr, red, redPart, y, whole);
    PrimaryShare(vg, cg, green, greenPart, y, whole);
    BlueShare(y, red, green, whole, redPart, greenPart);
    var rest := whole - redPart - greenPart;
    LastShare(y, whole, vb, cb, BlueScale(y, red, green), rest,
              Slack(y, whole, redPart) + Slack(y, whole, greenPart));
    Together(y, whole, redPart, greenPart, vr, vg, vb, cr, cg, cb, cw);
    SumOfThree(y * whole * vr - 100000 * cr * redPart, y * whole * vg - 100000 * cg * greenPart,
               y * whole * vb - 100000 * cb * rest, y);
    AbsMul(y * (vr + vg + vb) - 100000 * cw, whole);
  }

  lemma PrimaryShare(v: nat, c: nat, inverse: int, part: int, y: int, whole: int)
    requires 5 <= y < inverse < 0x8000_0000 && c <= 100000
    requires WithinOne(v, c, 100000, inverse) && IsRatio(inverse, part, y, whole)
    ensures Abs(y * whole * v - 100000 * c * part) * y <= Slack(y, whole, part)
  {
    hide IsRatio, Slack;
    ShareOfPart(v, 100000 * c, inverse, part, y, whole);
  }

  lemma LastShare(y: nat, whole: int, v: int, c: nat, scale: int, rest: int, slack: int)
    requires c <= 100000 && WithinOne(v, c, scale, 100000)
    requires Abs(y * whole * scale - 10_000_000_000 * rest) * y <= y * y * Abs(whole) + slack
    ensures Abs(y * whole * v - 100000 * c * rest) * y <= 2 * (y * y * Abs(whole)) + slack
  {
    BlueChannel(y, whole, v, c, scale, rest, slack);
  }

  lemma SumOfThree(a: int, b: int, c: int, y: nat)
    ensures Abs(a + b + c) * y <= Abs(a) * y + Abs(b) * y + Abs(c) * y
  {
    MulMonotone(Abs(a + b + c), Abs(a) + Abs(b) + Abs(c), y);
    MulDistributes(Abs(a) + Abs(b), Abs(c), y);
    MulDistributes(Abs(a), Abs(b), y);
  }

  lemma Together(y: int, whole: int, redPart: int, greenPart: int, vr: int, vg: int, vb: int, cr: int, cg: int,
      cb: int, cw: int)
    requires IsWeighed(cr, cg, cb, cw, whole, redPart, greenPart)
    ensures var rest := whole - redPart - greenPart;
            (y * (vr + vg + vb) - 100000 * cw) * whole
            == (y * whole * vr - 100000 * cr * redPart) + (y * whole * vg - 100000 * cg * greenPart)
               + (y * whole * vb - 100000 * cb * rest)
  {
    var rest, yw := whole - redPart - greenPart, y * whole;
    assert (y * (vr + vg + vb) - 100000 * cw) * whole == y * (vr + vg + vb) * whole - 100000 * (cw * whole);
    assert y * (vr + vg + vb) * whole == yw * (vr + vg + vb);
    assert yw * (vr + vg + vb) == yw * vr + yw * vg + yw * vb;
    assert 100000 * cr * redPart == 100000 * (cr * redPart) && 100000 * cg * greenPart == 100000 * (cg * greenPart);
    assert 100000 * cb * rest == 100000 * (cb * rest);
  }

  /** The sum of one coordinate over the end points is that of white, scaled to a Y of one. */
  predicate NearWhite(xy: Xy, coordinate: int, sum: int) {
    Abs(xy.white.y * sum - 100000 * coordinate) * Abs(Whole(xy)) * xy.white.y <= Tolerance(xy)
  }

  lemma ColumnIsClose(p: Point, times: int32, divisor: int32)
    requires InTriangle(p) && Column(p, times, divisor).Some?
    requires 0 < times && 1 < divisor && (times == 100000 || divisor == 100000)
    ensures var t := Column(p, times, divisor).value;
            && 0 <= t.X && 0 <= t.Y && 0 <= t.Z
            && WithinOne(t.X, p.x, times, divisor) && WithinOne(t.Y, p.y, times, divisor)
            && WithinOne(t.Z, 100000 - p.x - p.y, times, divisor)
  {
    hide Scaled, WithinOne;
    ScaledIsClose(p.x, times, divisor);
    ScaledIsClose(p.y, times, divisor);
    ScaledIsClose(100000 - p.x - p.y, times, divisor);
  }

  /** What an inversion that succeeds is made of. */
  lemma InvertedFrom(xy: Xy)
    requires InvertXy(xy).Inverted? && xy.white.y >= 5
    ensures InRange(xy) && FindScales(xy).Scales?
    ensures var Scales(red, green) := FindScales(xy);
            var scale := BlueScale(xy.white.y, red, green);
            && xy.white.y < red && xy.white.y < green && 0 < scale < 0x8000_0000
            && Column(xy.red, 100000, red) == Some(InvertXy(xy).ends.red)
            && Column(xy.green, 100000, green) == Some(InvertXy(xy).ends.green)
            && Column(xy.blue, scale, 100000) == Some(InvertXy(xy).ends.blue)
  {
    hide FindScales, Column, Reciprocal, TooSmall;
    StopIsNoSuccess(xy);
    WhiteIsPositive(xy);
    StoredBlueScaleIff(xy);
  }

  /** Whenever the inversion succeeds for a white y of at least 5 units, the end points add up to the white point with
      its Y scaled to one, within the tolerance. */
  lemma WhiteMatches(xy: Xy)
    requires InvertXy(xy).Inverted? && xy.white.y >= 5
    ensures var EndPoints(r, g, b) := InvertXy(xy).ends;
            var w := xy.white;
            && NearWhite(xy, w.x, r.X as int + g.X + b.X)
            && NearWhite(xy, w.y, r.Y as int + g.Y + b.Y)
            && NearWhite(xy, 100000 - w.x - w.y, r.Z as int + g.Z + b.Z)
  {
    hide FindScales, Column, IsRatio, IsWeighed, Slack, WithinOne, InvertXy, BlueScale, Cross;
    InvertedFrom(xy);
    ScalesAreRatios(xy);
    WhiteIsWeighed(xy);
    var Scales(red, green) := FindScales(xy);
    var scale := BlueScale(xy.white.y, red, green);
    ColumnIsClose(xy.red, 100000, red);
    ColumnIsClose(xy.green, 100000, green);
    ColumnIsClose(xy.blue, scale, 100000);
    var EndPoints(r, g, b) := InvertXy(xy).ends;
    var whole, y := Whole(xy), xy.white.y;
    Channel(y, whole, RedPart(xy), GreenPart(xy), red, green, r.X, g.X, b.X, xy.red.x, xy.green.x, xy.blue.x,
            xy.white.x);
    Channel(y, whole, RedPart(xy), GreenPart(xy), red, green, r.Y, g.Y, b.Y, xy.red.y, xy.green.y, xy.blue.y,
            xy.white.y);
    Channel(y, whole, RedPart(xy), GreenPart(xy), red, green, r.Z, g.Z, b.Z, 100000 - xy.red.x - xy.red.y,
            100000 - xy.green.x - xy.green.y, 100000 - xy.blue.x - xy.blue.y, 100000 - xy.white.x - xy.white.y);
  }

  /** A white y below 5 units is accepted only because the blue scale wraps: it is negative. */
  lemma DarkWhiteWraps(xy: Xy)
    requires InvertXy(xy).Inverted? && xy.white.y < 5
    ensures FindScales(xy).Scales? && BlueScale(xy.white.y, FindScales(xy).redInverse, FindScales(xy).greenInverse) < 0
  {
    hide FindScales, Column, Reciprocal;
    StopIsNoSuccess(xy);
    WhiteIsPositive(xy);
    var Scales(red, green) := FindScales(xy);
    ReciprocalBounds(xy.white.y);
    ReciprocalBounds(red);
    ReciprocalBounds(green);
  }

  // ---- When the inversion succeeds ---------------------------------------------------------------------

  /** A part of the triangle, positive on the side of white that the triangle is on. */
  function Side(whole: int, part: int): int {
    if whole < 0 then -part else part
  }

  function BlueSide(xy: Xy): int {
    Abs(Whole(xy)) - Side(Whole(xy), RedPart(xy)) - Side(Whole(xy), GreenPart(xy))
  }

  /** A scale that can be stored. */
  predicate Storable(y: int, whole: int, side: int) {
    9 <= side && y * (Abs(whole) + 8) <= 2_000_000_000 * (side - 8)
  }

  /** The three coordinates are fractions of one. */
  predicate OnChart(p: Point) {
    0 <= p.x && 0 <= p.y && p.x as int + p.y <= 100000
  }

  predicate AllOnChart(xy: Xy) {
    OnChart(xy.red) && OnChart(xy.green) && OnChart(xy.blue) && OnChart(xy.white)
  }

  /** White lies inside the triangle, by so much that no rounding puts it outside. */
  predicate ClearlyInside(xy: Xy) {
    var y, whole := xy.white.y, Whole(xy);
    && AllOnChart(xy) && 5 <= y
    && Storable(y, whole, Side(whole, RedPart(xy))) && Storable(y, whole, Side(whole, GreenPart(xy)))
    && 10_000_000_000 * y * BlueSide(xy)
       > y * y * Abs(whole) + Slack(y, whole, RedPart(xy)) + Slack(y, whole, GreenPart(xy))
  }

  lemma QuotientBetween(y: nat, m: nat, n: nat)
    requires 0 < n && (y + 1) * n <= y * m <= 2_000_000_000 * n
    ensures y < y * m / n <= 2_000_000_000
  {
    DivAtLeast(y * m, n, y + 1);
    var q, r := y * m / n, y * m % n;
    assert y * m == q * n + r;
    if q > 2_000_000_000 {
      MulMonotone(2_000_000_001, q, n);
    }
  }

  lemma ScaleIsFound(y: int32, m: int32, n: int32, whole: int, part: int)
    requires 5 <= y && Abs(7 * m - whole) <= 8 && Abs(7 * n - part) <= 8
    requires Storable(y, whole, Side(whole, part)) && y * (Abs(whole) - Side(whole, part) - 16) >= Side(whole, part) + 8
    ensures Scaled(y, m, n).Value? && Scaled(y, m, n).value > y
  {
    hide Scaled, Abs, Side;
    var w, s := Abs(whole), Side(whole, part);
    FarApart(y, w, s);
    SameSide(m, n, whole, part);
    FoundOnSide(y, Abs(m), Abs(n), w, s);
    FoundFrom(y, m, n);
  }

  lemma SameSide(m: int, n: int, whole: int, part: int)
    requires Abs(7 * m - whole) <= 8 && Abs(7 * n - part) <= 8 && Abs(whole) >= 9 && Side(whole, part) >= 9
    ensures m != 0 && n != 0 && (m < 0 <==> n < 0) && Abs(n) > 0
    ensures Abs(whole) - 8 <= 7 * Abs(m) <= Abs(whole) + 8
    ensures Side(whole, part) - 8 <= 7 * Abs(n) <= Side(whole, part) + 8
  {
  }

  lemma FarApart(y: nat, w: int, s: int)
    requires y * (w - s - 16) >= s + 8 && s >= 9
    ensures w > s + 16
  {
    if w - s - 16 <= 0 {
      MulMonotone(w - s - 16, 0, y);
    }
  }

  lemma FoundOnSide(y: nat, m: nat, n: nat, w: int, s: int)
    requires 0 < n && w - 8 <= 7 * m <= w + 8 && s - 8 <= 7 * n <= s + 8
    requires y * (w + 8) <= 2_000_000_000 * (s - 8) && y * (w - s - 16) >= s + 8
    ensures y < y * m / n <= 2_000_000_000
  {
    MulMonotone(7 * m, w + 8, y);
    MulMonotone(w - 8, 7 * m, y);
    MulMonotone(7 * n, s + 8, y + 1);
    InOrder(y, m, n, w, s);
    QuotientBetween(y, m, n);
  }

  lemma InOrder(y: int, m: int, n: int, w: int, s: int)
    requires 7 * m * y <= (w + 8) * y && (w - 8) * y <= 7 * m * y && 7 * n * (y + 1) <= (s + 8) * (y + 1)
    requires s - 8 <= 7 * n && y * (w + 8) <= 2_000_000_000 * (s - 8) && y * (w - s - 16) >= s + 8
    ensures (y + 1) * n <= y * m <= 2_000_000_000 * n
  {
    assert y * (w - s - 16) == (w - 8) * y - (s + 8) * y;
    assert (s + 8) * (y + 1) == (s + 8) * y + (s + 8);
    assert 7 * m * y == 7 * (y * m) && 7 * n * (y + 1) == 7 * ((y + 1) * n);
  }

  lemma FoundFrom(y: int32, m: int32, n: int32)
    requires 0 < y && m != 0 && n != 0 && (m < 0 <==> n < 0) && y < y * Abs(m) / Abs(n) <= 2_000_000_000
    ensures Scaled(y, m, n).Value? && Scaled(y, m, n).value > y
  {
  }

  /** White is on the inner side of both edges at blue. */
  lemma InsideEdges(y: int, w: int, r: int, g: int)
    requires 5 <= y && 9 <= r && 9 <= g
    requires 10_000_000_000 * y * (w - r - g) > 10_000_000_000 * (r + g) + 600_000_000_000 * y
    ensures y * (w - r - 16) >= r + 8 && y * (w - g - 16) >= g + 8
  {
    assert 10_000_000_000 * y * (w - r - g) == 10_000_000_000 * (y * (w - r - g));
    MulMonotone(5, y, g);
    MulMonotone(5, y, r);
    assert y * (w - r - 16) == y * (w - r - g) + y * g - 16 * y;
    assert y * (w - g - 16) == y * (w - r - g) + y * r - 16 * y;
  }

  lemma EdgesOf(xy: Xy)
    requires ClearlyInside(xy)
    ensures var y, w := xy.white.y, Abs(Whole(xy));
            var r, g := Side(Whole(xy), RedPart(xy)), Side(Whole(xy), GreenPart(xy));
            y * (w - r - 16) >= r + 8 && y * (w - g - 16) >= g + 8
  {
    hide Cross, AllOnChart;
    var y, whole := xy.white.y, Whole(xy);
    SlackIsMore(y, whole, RedPart(xy));
    SlackIsMore(y, whole, GreenPart(xy));
    MulMonotone(0, Abs(whole), y);
    MulMonotone(0, y * Abs(whole), y);
    MulAssoc(y, y, Abs(whole));
    InsideEdges(y, Abs(whole), Side(whole, RedPart(xy)), Side(whole, GreenPart(xy)));
  }

  lemma SlackIsMore(y: nat, whole: int, part: int)
    ensures Slack(y, whole, part) >= 10_000_000_000 * Abs(part) + 300_000_000_000 * y
  {
    MulMonotone(0, Abs(whole), y);
    MulMonotone(0, y * Abs(whole) + Abs(part), y + 1);
  }

  lemma ScalesAreFound(xy: Xy)
    requires ClearlyInside(xy)
    ensures FindScales(xy).Scales?
  {
    hide CrossMinor, Scaled, Cross, Storable, Slack;
    EdgesOf(xy);
    DeterminantsExact(xy);
    var Xy(r, g, b, w) := xy;
    var denominator := CrossMinor(g.x - b.x, r.y - b.y, g.y - b.y, r.x - b.x).value;
    ScaleIsFound(w.y, denominator, CrossMinor(g.x - b.x, w.y - b.y, g.y - b.y, w.x - b.x).value, Whole(xy),
                 RedPart(xy));
    ScaleIsFound(w.y, denominator, CrossMinor(r.y - b.y, w.x - b.x, r.x - b.x, w.y - b.y).value, Whole(xy),
                 GreenPart(xy));
  }

  /** The estimate of the blue scale on the side of the triangle. */
  lemma BlueOnSide(y: nat, whole: int, redPart: int, greenPart: int, scale: int, margin: int)
    requires Abs(y * whole * scale - 10_000_000_000 * (whole - redPart - greenPart)) * y <= margin
    ensures var rest := Abs(whole) - Side(whole, redPart) - Side(whole, greenPart);
            -margin <= y * y * Abs(whole) * scale - 10_000_000_000 * y * rest <= margin
  {
    var rest := Abs(whole) - Side(whole, redPart) - Side(whole, greenPart);
    var x := y * whole * scale - 10_000_000_000 * (whole - redPart - greenPart);
    Turned(y, whole, scale);
    OnSide(x, y * Abs(whole) * scale - 10_000_000_000 * rest, y, margin);
    Spread(y, Abs(whole), scale, rest);
  }

  lemma Turned(y: int, whole: int, scale: int)
    ensures y * whole * scale == if whole < 0 then -(y * Abs(whole) * scale) else y * Abs(whole) * scale
  {
    assert y * -whole * scale == -(y * whole * scale);
  }

  lemma OnSide(x: int, e: int, y: nat, margin: int)
    requires Abs(x) * y <= margin && (e == x || e == -x)
    ensures -margin <= y * e <= margin
  {
    AbsMul(y, e);
  }

  lemma Spread(y: int, w: int, scale: int, rest: int)
    ensures y * (y * w * scale - 10_000_000_000 * rest) == y * y * w * scale - 10_000_000_000 * y * rest
  {
    assert y * (y * w * scale) == y * y * w * scale;
    assert y * (10_000_000_000 * rest) == 10_000_000_000 * y * rest;
  }

  lemma ChartIsRange(xy: Xy)
    ensures AllOnChart(xy) <==> InRange(xy)
  {
  }

  lemma BlueIsPositive(xy: Xy)
    requires ClearlyInside(xy) && FindScales(xy).Scales?
    ensures BlueScale(xy.white.y, FindScales(xy).redInverse, FindScales(xy).greenInverse) > 0
  {
    hide FindScales, IsRatio, Slack, BlueScale, Cross, Abs, Storable, AllOnChart;
    var y, whole := xy.white.y, Whole(xy);
    ChartIsRange(xy);
    WhiteIsPositive(xy);
    ScalesAreRatios(xy);
    var Scales(red, green) := FindScales(xy);
    BlueShare(y, red, green, whole, RedPart(xy), GreenPart(xy));
    var margin := y * y * Abs(whole) + Slack(y, whole, RedPart(xy)) + Slack(y, whole, GreenPart(xy));
    var scale := BlueScale(y, red, green);
    BlueOnSide(y, whole, RedPart(xy), GreenPart(xy), scale, margin);
    if scale <= 0 {
      MulMonotone(0, y * Abs(whole), y);
      MulMonotone(0, Abs(whole), y);
      MulMonotone(scale, 0, y * y * Abs(whole));
    }
  }

  lemma ColumnFits(p: Point, times: int32, divisor: int32)
    requires InTriangle(p) && 0 < times && 0 < divisor && 100000 * times <= 2_000_000_000 * divisor
    ensures Column(p, times, divisor).Some?
  {
    hide Scaled;
    ScaledFits(p.x, times, divisor);
    ScaledFits(p.y, times, divisor);
    ScaledFits(100000 - p.x - p.y, times, divisor);
  }

  lemma ScaledFits(n: int32, times: int32, divisor: int32)
    requires 0 <= n <= 100000 && 0 < times && 0 < divisor && 100000 * times <= 2_000_000_000 * divisor
    ensures Scaled(n, times, divisor).Value?
  {
    MulMonotone(n, 100000, times);
    var q, r := n * times / divisor, n * times % divisor;
    assert n * times == q * divisor + r;
    if q > 2_000_000_000 {
      MulMonotone(2_000_000_001, q, divisor);
    }
  }

  /** White clearly inside the triangle is accepted. */
  lemma InsideIsAccepted(xy: Xy)
    requires ClearlyInside(xy)
    ensures InvertXy(xy).Inverted?
  {
    hide FindScales, Column, Reciprocal, TooSmall, Cross, Slack, Storable, InvertXy;
    ScalesAreFound(xy);
    BlueIsPositive(xy);
    WhiteIsPositive(xy);
    StoredBlueScaleIff(xy);
    var Scales(red, green) := FindScales(xy);
    ReciprocalBounds(xy.white.y);
    ReciprocalBounds(red);
    ReciprocalBounds(green);
    ColumnFits(xy.red, 100000, red);
    ColumnFits(xy.green, 100000, green);
    ColumnFits(xy.blue, BlueScale(xy.white.y, red, green), 100000);
    InvertedIf(xy, red, green);
  }

  /** And what is accepted is not clearly outside: each part is on the side of the triangle, up to the rounding. */
  lemma AcceptedIsInside(xy: Xy)
    requires InvertXy(xy).Inverted? && xy.white.y >= 5 && Abs(Whole(xy)) >= 9
    ensures AllOnChart(xy)
    ensures Side(Whole(xy), RedPart(xy)) >= -1 && Side(Whole(xy), GreenPart(xy)) >= -1
    ensures var y, whole := xy.white.y, Whole(xy);
            10_000_000_000 * y * BlueSide(xy) >= -(Slack(y, whole, RedPart(xy)) + Slack(y, whole, GreenPart(xy)))
  {
    hide FindScales, IsRatio, Slack, BlueScale, Cross, Column, InvertXy;
    var y, whole := xy.white.y, Whole(xy);
    InvertedFrom(xy);
    SidesOf(xy);
    ScalesAreRatios(xy);
    var Scales(red, green) := FindScales(xy);
    BlueShare(y, red, green, whole, RedPart(xy), GreenPart(xy));
    var margin := y * y * Abs(whole) + Slack(y, whole, RedPart(xy)) + Slack(y, whole, GreenPart(xy));
    var scale := BlueScale(y, red, green);
    BlueOnSide(y, whole, RedPart(xy), GreenPart(xy), scale, margin);
    MulMonotone(1, scale, y * y * Abs(whole));
  }

  lemma SidesOf(xy: Xy)
    requires InRange(xy) && FindScales(xy).Scales? && Abs(Whole(xy)) >= 9
    ensures Side(Whole(xy), RedPart(xy)) >= -1 && Side(Whole(xy), GreenPart(xy)) >= -1
  {
    hide CrossMinor, Scaled, Cross;
    WhiteIsPositive(xy);
    DeterminantsExact(xy);
    var Xy(r, g, b, w) := xy;
    var denominator := CrossMinor(g.x - b.x, r.y - b.y, g.y - b.y, r.x - b.x).value;
    PositiveQuotient(w.y, denominator, CrossMinor(g.x - b.x, w.y - b.y, g.y - b.y, w.x - b.x).value);
    PositiveQuotient(w.y, denominator, CrossMinor(r.y - b.y, w.x - b.x, r.x - b.x, w.y - b.y).value);
  }

  /** The chromaticities of sRGB. */
  const SRGB := Xy(Point(64000, 33000), Point(30000, 60000), Point(15000, 6000), Point(31270, 32900))

  lemma SrgbAreas()
    ensures Whole(SRGB) == -2_241_000_000 && RedPart(SRGB) == -475_080_000 && GreenPart(SRGB) == -878_810_000
  {
  }

  /** They are accepted, and the end points add up to their white point within 18 units. */
  lemma SrgbIsAccepted()
    ensures InvertXy(SRGB).Inverted?
    ensures var EndPoints(r, g, b) := InvertXy(SRGB).ends;
            && Abs(32900 * (r.X as int + g.X + b.X) - 100000 * 31270) <= 18 * 32900
            && Abs(32900 * (r.Y as int + g.Y + b.Y) - 100000 * 32900) <= 18 * 32900
            && Abs(32900 * (r.Z as int + g.Z + b.Z) - 100000 * 35830) <= 18 * 32900
  {
    hide InvertXy, Cross, FindScales;
    SrgbAreas();
    InsideIsAccepted(SRGB);
    WhiteMatches(SRGB);
  }
}
