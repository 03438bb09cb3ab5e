/** `png_build_16to8_table`: the segmented table that maps a 16-bit sample to an 8-bit one
    (android/jni/libpng/png.c:3819-3880).  The gamma function is arbitrary. */
module GammaTable {
  import opened Words

  type uint16 = x: int | 0 <= x < 0x1_0000
  type Gamma = uint16 -> uint16

  ghost predicate Increasing(gamma: Gamma) {
    forall a: uint16, b: uint16 :: a <= b ==> gamma(a) <= gamma(b)
  }

  /** The number of sub-tables: the samples that share their eight high bits. */
  function SubTables(shift: nat): (num: nat)
    requires shift <= 8
    ensures 1 <= num <= 256
  {
    PowersInRange(shift);
    Pow2(8 - shift)
  }

  lemma PowersInRange(shift: nat)
    requires shift <= 8
    ensures 1 <= Pow2(8 - shift) <= 256
  {
    assert Pow2(0) == 1 && Pow2(1) == 2 && Pow2(2) == 4 && Pow2(3) == 8 && Pow2(4) == 16;
    assert Pow2(5) == 32 && Pow2(6) == 64 && Pow2(7) == 128 && Pow2(8) == 256;
  }

  /** The first input value above the boundary between the outputs i and i + 1. */
  function Bound(gamma: Gamma, num: nat, i: nat): (b: nat)
    requires 1 <= num <= 256 && i < 255
    ensures 1 <= b <= 256 * num
  {
    BoundFits(gamma(i * 257 + 128), 256 * num - 1);
    (gamma(i * 257 + 128) * (256 * num - 1) + 32768) / 65535 + 1
  }

  /** The rounded boundary stays inside the table and its computation inside 32 bits. */
  lemma BoundFits(g: uint16, max: nat)
    requires 255 <= max <= 65535
    ensures 0 <= g * max + 32768 < 0x1_0000_0000
    ensures 0 <= (g * max + 32768) / 65535 <= max
  {
    MulMonotone(g, 65535, max);
  }

  /** The output the table should hold for v: the least i from `from` on whose boundary is above v. */
  function LeastAbove(gamma: Gamma, num: nat, v: nat, from: nat): (i: nat)
    requires 1 <= num <= 256 && from <= 255
    ensures from <= i <= 255
    ensures i < 255 ==> Bound(gamma, num, i) > v
    ensures forall j :: from <= j < i ==> Bound(gamma, num, j) <= v
    decreases 255 - from
  {
    if from == 255 || Bound(gamma, num, from) > v then from else LeastAbove(gamma, num, v, from + 1)
  }

  /** The input value stored in column `high` of sub-table `low`. */
  function Input(num: nat, low: nat, high: nat): nat {
    high * num + low
  }

  /** The cell of an input value: `last & (0xff >> shift)` and `last >> (8 - shift)`. */
  function Row(num: nat, v: nat): nat
    requires num > 0
  {
    v % num
  }

  function Column(num: nat, v: nat): nat
    requires num > 0
  {
    v / num
  }

  lemma InputUnique(num: nat, v: nat, low: nat, high: nat)
    requires low < num && v == Input(num, low, high)
    ensures Row(num, v) == low && Column(num, v) == high
  {
    DivModUnique(v, num, high, low);
  }

  lemma CellOf(num: nat, v: nat)
    requires 1 <= num <= 256 && v < 256 * num
    ensures Row(num, v) < num && Column(num, v) < 256 && v == Input(num, Row(num, v), Column(num, v))
  {
    var q := v / num;
    assert v == q * num + v % num;
    if q >= 256 {
      MulMonotone(256, q, num);
    }
  }

  ghost predicate FilledBelow(gamma: Gamma, table: array2<uint16>, num: nat, last: nat)
    requires 1 <= num <= 256 && table.Length0 == num && table.Length1 == 256
    reads table
  {
    forall low, high :: 0 <= low < num && 0 <= high < 256 && Input(num, low, high) < last
      ==> table[low, high] == 257 * LeastAbove(gamma, num, Input(num, low, high), 0)
  }

  /** One table store; the cells for smaller inputs are not touched. */
  method Store(gamma: Gamma, table: array2<uint16>, num: nat, last: nat, out: uint16)
    requires 1 <= num <= 256 && table.Length0 == num && table.Length1 == 256 && last < 256 * num
    requires FilledBelow(gamma, table, num, last)
    requires out == 257 * LeastAbove(gamma, num, last, 0)
    modifies table
    ensures FilledBelow(gamma, table, num, last + 1)
  {
    hide LeastAbove, Bound, Input, Row, Column;
    CellOf(num, last);
    table[Row(num, last), Column(num, last)] := out;
    forall low, high | 0 <= low < num && 0 <= high < 256 && Input(num, low, high) < last + 1
      ensures table[low, high] == 257 * LeastAbove(gamma, num, Input(num, low, high), 0)
    {
      InputUnique(num, Input(num, low, high), low, high);
    }
  }

  /** `last & (0xff >> shift)` and `last >> (8 - shift)` are written as remainder and quotient by the
      number of sub-tables, which is 2^(8 - shift). */
  method Build(gamma: Gamma, shift: nat) returns (table: array2<uint16>)
    requires shift <= 8
    ensures fresh(table) && table.Length0 == SubTables(shift) && table.Length1 == 256
    ensures forall low, high :: 0 <= low < SubTables(shift) && 0 <= high < 256 ==>
              table[low, high] == 257 * LeastAbove(gamma, SubTables(shift), Input(SubTables(shift), low, high), 0)
  {
    hide LeastAbove, Bound, Input;
    var num := SubTables(shift);
    table := new uint16[num, 256];
    var last := 0;
    for i := 0 to 255
      invariant 0 <= last <= 256 * num
      invariant forall j :: 0 <= j < i ==> Bound(gamma, num, j) <= last
      invariant FilledBelow(gamma, table, num, last)
    {
      var out: uint16 := i * 257;
      var bound := Bound(gamma, num, i);
      while last < bound
        invariant 0 <= last <= 256 * num
        invariant forall j :: 0 <= j < i ==> Bound(gamma, num, j) <= last
        invariant FilledBelow(gamma, table, num, last)
      {
        Store(gamma, table, num, last, out);
        last := last + 1;
      }
    }
    while last < 256 * num
      invariant 0 <= last <= 256 * num
      invariant forall j :: 0 <= j < 255 ==> Bound(gamma, num, j) <= last
      invariant FilledBelow(gamma, table, num, last)
    {
      Store(gamma, table, num, last, 65535);
      last := last + 1;
    }
    forall low, high | 0 <= low < num && 0 <= high < 256
      ensures Input(num, low, high) < 256 * num
    {
      InputBelow(num, low, high);
    }
  }

  lemma InputBelow(num: nat, low: nat, high: nat)
    requires low < num && high < 256
    ensures Input(num, low, high) < 256 * num
  {
    MulMonotone(high, 255, num);
  }

  /** The table is monotone in the sample, whatever the gamma function does. */
  lemma {:induction false} Monotone(gamma: Gamma, num: nat, v: nat, w: nat)
    requires 1 <= num <= 256 && v <= w
    ensures LeastAbove(gamma, num, v, 0) <= LeastAbove(gamma, num, w, 0)
  {
    var i := LeastAbove(gamma, num, w, 0);
    assert i < 255 ==> Bound(gamma, num, i) > v;
  }

  lemma BoundsAscend(gamma: Gamma, num: nat, i: nat, j: nat)
    requires 1 <= num <= 256 && i <= j < 255
    requires Increasing(gamma)
    ensures Bound(gamma, num, i) <= Bound(gamma, num, j)
  {
    MulMonotone(gamma(i * 257 + 128), gamma(j * 257 + 128), 256 * num - 1);
  }

  /** For an increasing gamma the output i is used exactly between its two boundaries. */
  lemma Segments(gamma: Gamma, num: nat, v: nat, i: nat)
    requires 1 <= num <= 256 && i <= 255
    requires Increasing(gamma)
    ensures LeastAbove(gamma, num, v, 0) == i
            <==> (i == 0 || Bound(gamma, num, i - 1) <= v) && (i == 255 || v < Bound(gamma, num, i))
  {
    var l := LeastAbove(gamma, num, v, 0);
    if l < i {
      BoundsAscend(gamma, num, l, i - 1);
    } else if i < l {
      assert Bound(gamma, num, i) <= v;
    }
  }

  /** Every sample below 2^(16 - shift) has exactly one cell, so the table has no unset entry and no
      entry that is written for two samples. */
  lemma CellsAreSamples(num: nat, low: nat, high: nat, low': nat, high': nat)
    requires 1 <= num <= 256 && low < num && low' < num && high < 256 && high' < 256
    ensures Input(num, low, high) == Input(num, low', high') <==> low == low' && high == high'
    ensures Input(num, low, high) < 256 * num
  {
    InputUnique(num, Input(num, low, high), low, high);
    InputUnique(num, Input(num, low', high'), low', high');
    InputBelow(num, low, high);
  }

  // ---- What the table is for -------------------------------------------------------------------------

  /** The samples have 16 - shift bits, and every sub-table has 256 of them. */
  lemma SampleRange(shift: nat)
    requires shift <= 8
    ensures 256 * SubTables(shift) == Pow2(16 - shift) && SubTables(shift) * Pow2(shift) == 256
  {
    hide Pow2;
    assert Pow2(8) == 256 by { EightBits(); }
    Pow2Add(8, 8 - shift);
    Pow2Add(8 - shift, shift);
  }

  lemma EightBits()
    ensures Pow2(8) == 256
  {
    assert Pow2(4) == 16;
    Pow2Add(4, 4);
  }

  /** A 16-bit sample iv is looked up at `table[(iv & 0xff) >> shift][iv >> 8]`, and that is the cell of iv without its
      lowest bits, iv >> shift. */
  lemma LookupIsCell(shift: nat, iv: uint16)
    requires shift <= 8
    ensures var low, high := iv % 256 / Pow2(shift), iv / 256;
            0 <= low < SubTables(shift) && 0 <= high < 256 && Input(SubTables(shift), low, high) == iv / Pow2(shift)
  {
    hide Pow2, SubTables;
    SampleRange(shift);
    var p, num, high, l := Pow2(shift), SubTables(shift), iv / 256, iv % 256;
    var low, r := l / p, l % p;
    assert l == low * p + r;
    if low >= num {
      MulMonotone(num, low, p);
    }
    MulAssoc(high, num, p);
    MulDistributes(high * num, low, p);
    DivModUnique(iv, p, high * num + low, r);
  }

  /** A sample v is at most the corrected midpoint between the outputs 257 * i and 257 * (i + 1), scaled from 16 bits to
      those of v and rounded. */
  predicate UpToMidpoint(gamma: Gamma, shift: nat, v: nat, i: nat)
    requires shift <= 8 && i < 255
  {
    65535 * v <= gamma(257 * i + 128) * (Pow2(16 - shift) - 1) + 32768
  }

  lemma BoundIsMidpoint(gamma: Gamma, shift: nat, v: nat, i: nat)
    requires shift <= 8 && i < 255
    ensures v < Bound(gamma, SubTables(shift), i) <==> UpToMidpoint(gamma, shift, v, i)
  {
    hide Pow2, SubTables;
    SampleRange(shift);
    var x: nat := gamma(257 * i + 128) * (Pow2(16 - shift) - 1) + 32768;
    var q := x / 65535;
    assert x == q * 65535 + x % 65535;
    assert Bound(gamma, SubTables(shift), i) == q + 1;
  }

  /** For an increasing gamma a cell holds 257 * i if and only if its sample is above the midpoint below i and not above
      the one over it. */
  lemma CellHolds(gamma: Gamma, shift: nat, v: nat, i: nat)
    requires shift <= 8 && i <= 255 && Increasing(gamma)
    ensures LeastAbove(gamma, SubTables(shift), v, 0) == i
            <==> (i == 0 || !UpToMidpoint(gamma, shift, v, i - 1)) && (i == 255 || UpToMidpoint(gamma, shift, v, i))
  {
    hide LeastAbove, Bound, SubTables, UpToMidpoint;
    Segments(gamma, SubTables(shift), v, i);
    if i > 0 { BoundIsMidpoint(gamma, shift, v, i - 1); }
    if i < 255 { BoundIsMidpoint(gamma, shift, v, i); }
  }

  /** With all 16 bits nothing is scaled or rounded. */
  lemma FullSamples(gamma: Gamma, v: nat, i: nat)
    requires i <= 255 && Increasing(gamma)
    ensures LeastAbove(gamma, SubTables(0), v, 0) == i
            <==> (i == 0 || gamma(257 * (i - 1) + 128) < v) && (i == 255 || v <= gamma(257 * i + 128))
  {
    hide LeastAbove, SubTables, Pow2;
    CellHolds(gamma, 0, v, i);
    SixteenBits();
  }

  lemma SixteenBits()
    ensures Pow2(16) == 65536
  {
    hide Pow2;
    EightBits();
    Pow2Add(8, 8);
  }

  function Identity(x: uint16): uint16 {
    x
  }

  /** Of all outputs the one in the cell is the closest to the sample, both taken as parts of their ranges. */
  ghost predicate Closest(shift: nat, v: nat)
    requires shift <= 8
  {
    var max, i := Pow2(16 - shift) - 1, LeastAbove(Identity, SubTables(shift), v, 0);
    forall m: nat :: m <= 255 ==> Abs(257 * i * max - 65535 * v) <= Abs(257 * m * max - 65535 * v)
  }

  /** The comment at the loop says that the closest output is selected.  Without any correction it is, for all samples,
      if and only if no bits are dropped or all eight: otherwise a boundary may be rounded up over the sample. */
  lemma ClosestIff(shift: nat)
    requires shift <= 8
    ensures (forall v: nat :: v < Pow2(16 - shift) ==> Closest(shift, v)) <==> shift in {0, 8}
  {
    hide Closest, Pow2;
    Powers();
    if shift == 0 || shift == 8 {
      forall v: nat | v < Pow2(16 - shift)
        ensures Closest(shift, v)
      {
        if shift == 0 { ClosestInFull(v); } else { ClosestInEight(v); }
      }
    } else {
      var (v, i) := TooFar(shift);
      NotClosest(shift, v, i);
    }
  }

  /** For each number of dropped bits a sample, and the output that its cell holds instead of the next one. */
  function TooFar(shift: nat): (nat, nat) {
    if shift == 1 then (16512, 128)
    else if shift == 2 then (225, 3)
    else if shift == 3 then (177, 5)
    else if shift == 4 then (153, 9)
    else if shift == 5 then (157, 19)
    else if shift == 6 then (175, 43)
    else (258, 128)
  }

  lemma Powers()
    ensures Pow2(16) == 65536 && Pow2(15) == 32768 && Pow2(14) == 16384 && Pow2(13) == 8192 && Pow2(12) == 4096
    ensures Pow2(11) == 2048 && Pow2(10) == 1024 && Pow2(9) == 512 && Pow2(8) == 256
  {
    EightBits();
    assert forall n: nat {:trigger Pow2(n)} :: n > 0 ==> Pow2(n) == 2 * Pow2(n - 1);
  }

  lemma NextIsCloser(shift: nat, v: nat, i: nat)
    requires 1 <= shift <= 7 && (v, i) == TooFar(shift)
    ensures var max := Pow2(16 - shift) - 1;
            i < 255 && Abs(257 * i * max - 65535 * v) > Abs(257 * (i + 1) * max - 65535 * v)
  {
    hide Pow2;
    Powers();
  }

  lemma CellOfTooFar(shift: nat, v: nat, i: nat)
    requires 1 <= shift <= 7 && (v, i) == TooFar(shift)
    ensures 0 < i < 255 && v < Pow2(16 - shift)
    ensures !UpToMidpoint(Identity, shift, v, i - 1) && UpToMidpoint(Identity, shift, v, i)
  {
    hide Pow2;
    Powers();
  }

  lemma NotClosest(shift: nat, v: nat, i: nat)
    requires 1 <= shift <= 7 && (v, i) == TooFar(shift)
    ensures v < Pow2(16 - shift) && !Closest(shift, v)
  {
    hide LeastAbove, SubTables, Pow2, Abs, TooFar, UpToMidpoint;
    CellOfTooFar(shift, v, i);
    CellHolds(Identity, shift, v, i);
    NextIsCloser(shift, v, i);
    assert (i + 1) as nat <= 255;
  }

  /** A multiple of d that is at most d / 2 away is the closest one. */
  lemma HalfAway(d: nat, i: nat, m: nat, x: int)
    requires 2 * Abs(i * d - x) <= d
    ensures Abs(i * d - x) <= Abs(m * d - x)
  {
    if m > i {
      MulMonotone(i + 1, m, d);
    } else if m < i {
      MulMonotone(m + 1, i, d);
    }
  }

  lemma ClosestIfHalfAway(shift: nat, v: nat, i: nat, d: nat)
    requires shift <= 8 && i == LeastAbove(Identity, SubTables(shift), v, 0) && d == 257 * (Pow2(16 - shift) - 1)
    requires 2 * Abs(i * d - 65535 * v) <= d
    ensures Closest(shift, v)
  {
    hide LeastAbove, SubTables, Pow2, Abs;
    var max := Pow2(16 - shift) - 1;
    forall m: nat | m <= 255
      ensures Abs(257 * i * max - 65535 * v) <= Abs(257 * m * max - 65535 * v)
    {
      HalfAway(d, i, m, 65535 * v);
      assert 257 * i * max == i * d && 257 * m * max == m * d;
    }
  }

  lemma ClosestInFull(v: nat)
    requires v < 65536
    ensures Closest(0, v)
  {
    hide LeastAbove, SubTables, Pow2, Closest, UpToMidpoint;
    SixteenBits();
    var i := LeastAbove(Identity, SubTables(0), v, 0);
    FullSamples(Identity, v, i);
    WithinHalf(v, i);
    ClosestIfHalfAway(0, v, i, 257 * 65535);
  }

  lemma WithinHalf(v: nat, i: nat)
    requires v < 65536 && i <= 255
    requires (i == 0 || 257 * (i - 1) + 128 < v) && (i == 255 || v <= 257 * i + 128)
    ensures 2 * Abs(i * (257 * 65535) - 65535 * v) <= 257 * 65535
  {
    assert i * (257 * 65535) - 65535 * v == 65535 * (257 * i - v);
    assert -128 <= 257 * i - v <= 128;
  }

  lemma MidpointsInEight(v: nat)
    requires v < 256
    ensures v > 0 ==> !UpToMidpoint(Identity, 8, v, v - 1)
    ensures v < 255 ==> UpToMidpoint(Identity, 8, v, v)
  {
    hide Pow2;
    EightBits();
  }

  lemma ClosestInEight(v: nat)
    requires v < 256
    ensures Closest(8, v)
  {
    hide LeastAbove, SubTables, Pow2, Closest;
    EightBits();
    MidpointsInEight(v);
    CellHolds(Identity, 8, v, v);
    ClosestIfHalfAway(8, v, v, 257 * 255);
  }
}
