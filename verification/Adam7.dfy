/** The Adam7 macros of png.h (android/jni/libpng/png.h:2572-2628), PNG (Second Edition) section 8.2.
    Shifts and masks of non-negative values are written as quotients, remainders and powers of two. */
module Adam7 {
  import opened Words

  type Pass = p: nat | p < 7

  /** `((1&~(pass))<<(3-((pass)>>1)))&7` */
  function StartRow(pass: Pass): nat {
    (1 - pass % 2) * Pow2(3 - pass / 2) % 8
  }

  /** `((1&(pass))<<(3-(((pass)+1)>>1)))&7` */
  function StartCol(pass: Pass): nat {
    if pass % 2 == 0 then 0 else Pow2(3 - (pass + 1) / 2) % 8
  }

  function RowShift(pass: Pass): nat {
    if pass > 2 then (8 - pass) / 2 else 3
  }

  function ColShift(pass: Pass): nat {
    if pass > 1 then (7 - pass) / 2 else 3
  }

  function PassRows(height: nat, pass: Pass): nat {
    (height + (Pow2(RowShift(pass)) - 1 - StartRow(pass))) / Pow2(RowShift(pass))
  }

  function PassCols(width: nat, pass: Pass): nat {
    (width + (Pow2(ColShift(pass)) - 1 - StartCol(pass))) / Pow2(ColShift(pass))
  }

  function RowFromPassRow(k: nat, pass: Pass): nat {
    k * Pow2(RowShift(pass)) + StartRow(pass)
  }

  function ColFromPassCol(k: nat, pass: Pass): nat {
    k * Pow2(ColShift(pass)) + StartCol(pass)
  }

  /** `x >> (n << 2)` */
  function DropNibbles(x: nat, n: nat): nat {
    if n == 0 then x else DropNibbles(x / 16, n - 1)
  }

  /** `PNG_PASS_MASK`: the low nibble from one constant, the high nibble from the other. */
  function PassMask(pass: Pass, off: nat): nat
    requires off <= 1
  {
    DropNibbles(0x110145AF, 7 - off - pass) % 16 + DropNibbles(0x01145AF0, 7 - off - pass) / 16 % 16 * 16
  }

  /** `(m >> r) & 1` */
  predicate TestBit(m: nat, r: nat) {
    if r == 0 then m % 2 == 1 else TestBit(m / 2, r - 1)
  }

  predicate RowInPass(y: nat, pass: Pass) {
    TestBit(PassMask(pass, 0), y % 8)
  }

  predicate ColInPass(x: nat, pass: Pass) {
    TestBit(PassMask(pass, 1), x % 8)
  }

  // ---- The macros as tables ------------------------------------------------------------------

  /** Distance between the rows of a pass, and between its columns. */
  function RowStep(pass: Pass): nat {
    if pass <= 2 then 8 else if pass <= 4 then 4 else 2
  }

  function ColStep(pass: Pass): nat {
    if pass <= 1 then 8 else if pass <= 3 then 4 else if pass <= 5 then 2 else 1
  }

  function FirstRow(pass: Pass): nat {
    if pass == 2 then 4 else if pass == 4 then 2 else if pass == 6 then 1 else 0
  }

  function FirstCol(pass: Pass): nat {
    if pass == 1 then 4 else if pass == 3 then 2 else if pass == 5 then 1 else 0
  }

  lemma MacroTables(pass: Pass)
    ensures Pow2(RowShift(pass)) == RowStep(pass) && StartRow(pass) == FirstRow(pass)
    ensures Pow2(ColShift(pass)) == ColStep(pass) && StartCol(pass) == FirstCol(pass)
  {
    assert Pow2(0) == 1 && Pow2(1) == 2 && Pow2(2) == 4 && Pow2(3) == 8;
  }

  /** The masks of the seven passes; a column mask is the row mask of the next pass. */
  function Mask(index: nat): nat
    requires index <= 7
  {
    [1, 1, 16, 17, 68, 85, 170, 255][index]
  }

  lemma MaskTable(pass: Pass, off: nat)
    requires off <= 1
    ensures PassMask(pass, off) == Mask(pass + off)
  {
    assert DropNibbles(0x110145AF, 7) == 0x1 && DropNibbles(0x110145AF, 6) == 0x11
           && DropNibbles(0x110145AF, 5) == 0x110;
    assert DropNibbles(0x110145AF, 4) == 0x1101 && DropNibbles(0x110145AF, 3) == 0x11014
           && DropNibbles(0x110145AF, 2) == 0x110145;
    assert DropNibbles(0x110145AF, 1) == 0x110145A && DropNibbles(0x110145AF, 0) == 0x110145AF;
    assert DropNibbles(0x01145AF0, 7) == 0x0 && DropNibbles(0x01145AF0, 6) == 0x1 && DropNibbles(0x01145AF0, 5) == 0x11;
    assert DropNibbles(0x01145AF0, 4) == 0x114 && DropNibbles(0x01145AF0, 3) == 0x1145
           && DropNibbles(0x01145AF0, 2) == 0x1145A;
    assert DropNibbles(0x01145AF0, 1) == 0x1145AF && DropNibbles(0x01145AF0, 0) == 0x1145AF0;
  }

  /** Bit r of a mask says whether r is the first row (or column) of its pass modulo the step. */
  lemma MaskBits(pass: Pass, r: nat)
    requires r < 8
    ensures TestBit(Mask(pass), r) <==> r % RowStep(pass) == FirstRow(pass)
    ensures TestBit(Mask(pass + 1), r) <==> r % ColStep(pass) == FirstCol(pass)
  {
    assert TestBit(1, 0) && !TestBit(1, 1) && !TestBit(1, 2) && !TestBit(1, 3) && !TestBit(1, 4) && !TestBit(1, 5)
           && !TestBit(1, 6) && !TestBit(1, 7);
    assert !TestBit(16, 0) && !TestBit(16, 1) && !TestBit(16, 2) && !TestBit(16, 3) && TestBit(16, 4)
           && !TestBit(16, 5) && !TestBit(16, 6) && !TestBit(16, 7);
    assert TestBit(17, 0) && !TestBit(17, 1) && !TestBit(17, 2) && !TestBit(17, 3) && TestBit(17, 4)
           && !TestBit(17, 5) && !TestBit(17, 6) && !TestBit(17, 7);
    assert !TestBit(68, 0) && !TestBit(68, 1) && TestBit(68, 2) && !TestBit(68, 3) && !TestBit(68, 4)
           && !TestBit(68, 5) && TestBit(68, 6) && !TestBit(68, 7);
    assert TestBit(85, 0) && !TestBit(85, 1) && TestBit(85, 2) && !TestBit(85, 3) && TestBit(85, 4) && !TestBit(85, 5)
           && TestBit(85, 6) && !TestBit(85, 7);
    assert !TestBit(170, 0) && TestBit(170, 1) && !TestBit(170, 2) && TestBit(170, 3) && !TestBit(170, 4)
           && TestBit(170, 5) && !TestBit(170, 6) && TestBit(170, 7);
    assert TestBit(255, 0) && TestBit(255, 1) && TestBit(255, 2) && TestBit(255, 3) && TestBit(255, 4)
           && TestBit(255, 5) && TestBit(255, 6) && TestBit(255, 7);
  }

  /** Membership in a pass is a congruence. */
  lemma RowInPassIff(y: nat, pass: Pass)
    ensures RowInPass(y, pass) <==> y % RowStep(pass) == FirstRow(pass)
  {
    hide PassMask, TestBit, Mask;
    MaskTable(pass, 0);
    MaskBits(pass, y % 8);
    ModOfMod(y, RowStep(pass));
  }

  lemma ColInPassIff(x: nat, pass: Pass)
    ensures ColInPass(x, pass) <==> x % ColStep(pass) == FirstCol(pass)
  {
    hide PassMask, TestBit, Mask;
    MaskTable(pass, 1);
    MaskBits(pass, x % 8);
    ModOfMod(x, ColStep(pass));
  }

  lemma ModOfMod(x: nat, step: nat)
    requires step == 1 || step == 2 || step == 4 || step == 8
    ensures x % 8 % step == x % step
  {
  }

  // ---- Adam7 is a partition ------------------------------------------------------------------

  /** The one pass that holds the pixel (x, y). */
  function PassOf(x: nat, y: nat): Pass {
    if y % 2 == 1 then 6
    else if x % 2 == 1 then 5
    else if y % 4 == 2 then 4
    else if x % 4 == 2 then 3
    else if y % 8 == 4 then 2
    else if x % 8 == 4 then 1
    else 0
  }

  lemma ExactlyOnePass(x: nat, y: nat, pass: Pass)
    ensures RowInPass(y, pass) && ColInPass(x, pass) <==> pass == PassOf(x, y)
  {
    hide RowInPass, ColInPass;
    RowInPassIff(y, pass);
    ColInPassIff(x, pass);
    Residues(x);
    Residues(y);
    OnePassOf(x % 8, y % 8, pass);
    assert PassOf(x, y) == PassOf(x % 8, y % 8);
    ModOfMod(y, RowStep(pass));
    ModOfMod(x, ColStep(pass));
  }

  lemma Residues(n: nat)
    ensures n % 8 % 2 == n % 2 && n % 8 % 4 == n % 4 && n % 8 % 8 == n % 8 < 8
  {
  }

  lemma OnePassOf(c: nat, r: nat, pass: Pass)
    requires c < 8 && r < 8
    ensures r % RowStep(pass) == FirstRow(pass) && c % ColStep(pass) == FirstCol(pass) <==> pass == PassOf(c, r)
  {
  }

  lemma RowsByStep(height: nat, pass: Pass)
    ensures PassRows(height, pass) == (height + (RowStep(pass) - 1 - FirstRow(pass))) / RowStep(pass)
  {
    MacroTables(pass);
  }

  lemma ColsByStep(width: nat, pass: Pass)
    ensures PassCols(width, pass) == (width + (ColStep(pass) - 1 - FirstCol(pass))) / ColStep(pass)
  {
    MacroTables(pass);
  }

  function RowIndex(y: nat, pass: Pass): nat {
    y / Pow2(RowShift(pass))
  }

  function ColIndex(x: nat, pass: Pass): nat {
    x / Pow2(ColShift(pass))
  }

  lemma FirstIsInStep(pass: Pass)
    ensures FirstRow(pass) < RowStep(pass) && FirstCol(pass) < ColStep(pass)
  {
  }

  /** The pass rows are numbered 0, 1, 2, ... without a gap: row k of the pass is a row of the image
      in that pass, it lies inside the image exactly for k < PassRows, and every image row in the
      pass has its number. */
  lemma RowsEnumerated(height: nat, pass: Pass, k: nat, y: nat)
    ensures RowInPass(RowFromPassRow(k, pass), pass)
    ensures RowFromPassRow(k, pass) < height <==> k < PassRows(height, pass)
    ensures RowInPass(y, pass) <==> RowFromPassRow(RowIndex(y, pass), pass) == y
  {
    hide RowInPass, PassRows, RowStep, FirstRow, Pow2, RowShift, StartRow;
    MacroTables(pass);
    FirstIsInStep(pass);
    RowsByStep(height, pass);
    RowInPassIff(RowFromPassRow(k, pass), pass);
    RowInPassIff(y, pass);
    Grid(height, RowStep(pass), FirstRow(pass), k);
    assert y == y / RowStep(pass) * RowStep(pass) + y % RowStep(pass);
  }

  lemma ColsEnumerated(width: nat, pass: Pass, k: nat, x: nat)
    ensures ColInPass(ColFromPassCol(k, pass), pass)
    ensures ColFromPassCol(k, pass) < width <==> k < PassCols(width, pass)
    ensures ColInPass(x, pass) <==> ColFromPassCol(ColIndex(x, pass), pass) == x
  {
    hide ColInPass, PassCols, ColStep, FirstCol, Pow2, ColShift, StartCol;
    MacroTables(pass);
    FirstIsInStep(pass);
    ColsByStep(width, pass);
    ColInPassIff(ColFromPassCol(k, pass), pass);
    ColInPassIff(x, pass);
    Grid(width, ColStep(pass), FirstCol(pass), k);
    assert x == x / ColStep(pass) * ColStep(pass) + x % ColStep(pass);
  }

  /** The points first, first + step, first + 2 step, ... below n. */
  lemma Grid(n: nat, step: nat, first: nat, k: nat)
    requires first < step
    ensures (k * step + first) % step == first
    ensures k * step + first < n <==> k < (n + (step - 1 - first)) / step
  {
    DivModUnique(k * step + first, step, k, first);
    var m := n + (step - 1 - first);
    var q := m / step;
    assert m == q * step + m % step;
    if k < q {
      MulMonotone(k + 1, q, step);
      MulDistributes(k, 1, step);
    } else {
      MulMonotone(q, k, step);
    }
  }

  lemma NextQuotient(n: nat, step: nat, first: nat)
    requires first < step
    ensures (n + 1 + (step - 1 - first)) / step
            == (n + (step - 1 - first)) / step + (if n % step == first then 1 else 0)
    ensures (0 + (step - 1 - first)) / step == 0
  {
    var q, r := n / step, n % step;
    assert n == q * step + r;
    MulDistributes(q, 1, step);
    DivModUnique(step - 1 - first, step, 0, step - 1 - first);
    if r < first {
      DivModUnique(n + 1 + (step - 1 - first), step, q, r + 1 + (step - 1 - first));
      DivModUnique(n + (step - 1 - first), step, q, r + (step - 1 - first));
    } else if r == first {
      DivModUnique(n + 1 + (step - 1 - first), step, q + 1, 0);
      DivModUnique(n + (step - 1 - first), step, q, step - 1);
    } else {
      DivModUnique(n + 1 + (step - 1 - first), step, q + 1, r - first);
      DivModUnique(n + (step - 1 - first), step, q + 1, r - first - 1);
    }
  }

  ghost function Below(n: nat, step: nat, first: nat): set<int>
    requires first < step
  {
    set y | 0 <= y < n && y % step == first
  }

  lemma BelowStep(n: nat, step: nat, first: nat)
    requires first < step
    ensures |Below(n + 1, step, first)| == |Below(n, step, first)| + (if n % step == first then 1 else 0)
  {
    var before := Below(n, step, first);
    assert Below(n + 1, step, first) == if n % step == first then before + {n} else before;
  }

  /** How many points first, first + step, ... there are below n. */
  lemma {:induction false} GridCounted(n: nat, step: nat, first: nat)
    requires first < step
    ensures |Below(n, step, first)| == (n + (step - 1 - first)) / step
  {
    if n == 0 {
      assert Below(0, step, first) == {};
      NextQuotient(0, step, first);
    } else {
      hide Below;
      GridCounted(n - 1, step, first);
      NextQuotient(n - 1, step, first);
      BelowStep(n - 1, step, first);
    }
  }

  ghost function RowsBelow(height: nat, pass: Pass): set<int> {
    set y | 0 <= y < height && RowInPass(y, pass)
  }

  ghost function ColsBelow(width: nat, pass: Pass): set<int> {
    set x | 0 <= x < width && ColInPass(x, pass)
  }

  /** PassRows counts: it is the number of image rows that lie in the pass. */
  lemma RowsCounted(height: nat, pass: Pass)
    ensures |RowsBelow(height, pass)| == PassRows(height, pass)
  {
    hide RowInPass, PassRows;
    forall y: nat
      ensures RowInPass(y, pass) <==> y % RowStep(pass) == FirstRow(pass)
    {
      RowInPassIff(y, pass);
    }
    assert RowsBelow(height, pass) == Below(height, RowStep(pass), FirstRow(pass));
    RowsByStep(height, pass);
    GridCounted(height, RowStep(pass), FirstRow(pass));
  }

  /** PassCols counts the image columns of the pass. */
  lemma ColsCounted(width: nat, pass: Pass)
    ensures |ColsBelow(width, pass)| == PassCols(width, pass)
  {
    hide ColInPass, PassCols;
    forall x: nat
      ensures ColInPass(x, pass) <==> x % ColStep(pass) == FirstCol(pass)
    {
      ColInPassIff(x, pass);
    }
    assert ColsBelow(width, pass) == Below(width, ColStep(pass), FirstCol(pass));
    ColsByStep(width, pass);
    GridCounted(width, ColStep(pass), FirstCol(pass));
  }

  function PassPixels(width: nat, height: nat, pass: Pass): nat {
    PassRows(height, pass) * PassCols(width, pass)
  }

  lemma Merge(a: int, b: int, c: int)
    ensures a * b + a * c == a * (b + c)
  {
  }

  /** The seven reduced images together have exactly the pixels of the image. */
  lemma PixelsAddUp(width: nat, height: nat)
    ensures PassPixels(width, height, 0) + PassPixels(width, height, 1) + PassPixels(width, height, 2)
            + PassPixels(width, height, 3) + PassPixels(width, height, 4) + PassPixels(width, height, 5)
            + PassPixels(width, height, 6) == width * height
  {
    hide PassRows, PassCols;
    RowTable(height);
    ColTable(width);
    Halves(height);
    Halves(width);
    Tiles((height + 7) / 8, (height + 3) / 8, (height + 3) / 4, (height + 1) / 4, (height + 1) / 2, height / 2, height,
          (width + 7) / 8, (width + 3) / 8, (width + 3) / 4, (width + 1) / 4, (width + 1) / 2, width / 2, width);
  }

  /** Two reduced images side by side, or one above the other, make one of twice the density. */
  lemma Tiles(r8: nat, r8': nat, r4: nat, r4': nat, r2: nat, r2': nat, h: nat,
              c8: nat, c8': nat, c4: nat, c4': nat, c2: nat, c2': nat, w: nat)
    requires r8 + r8' == r4 && r4 + r4' == r2 && r2 + r2' == h
    requires c8 + c8' == c4 && c4 + c4' == c2 && c2 + c2' == w
    ensures r8 * c8 + r8 * c8' + r8' * c4 + r4 * c4' + r4' * c2 + r2 * c2' + r2' * w == w * h
  {
    Merge(r8, c8, c8');
    MulDistributes(r8, r8', c4);
    Merge(r4, c4, c4');
    MulDistributes(r4, r4', c2);
    Merge(r2, c2, c2');
    MulDistributes(r2, r2', w);
  }

  lemma Halves(n: nat)
    ensures (n + 7) / 8 + (n + 3) / 8 == (n + 3) / 4 && (n + 3) / 4 + (n + 1) / 4 == (n + 1) / 2
    ensures (n + 1) / 2 + n / 2 == n
  {
    EighthsOf(n);
    QuartersOf(n);
  }

  lemma EighthsOf(n: nat)
    ensures (n + 7) / 8 + (n + 3) / 8 == (n + 3) / 4
  {
    var q, r := n / 8, n % 8;
    assert n == 8 * q + r;
    assert (n + 7) / 8 == q + (if r >= 1 then 1 else 0) && (n + 3) / 8 == q + (if r >= 5 then 1 else 0);
  }

  lemma QuartersOf(n: nat)
    ensures (n + 3) / 4 + (n + 1) / 4 == (n + 1) / 2
  {
    var q, r := n / 4, n % 4;
    assert n == 4 * q + r;
    assert (n + 3) / 4 == q + (if r >= 1 then 1 else 0);
    assert (n + 1) / 4 == q + (if r == 3 then 1 else 0);
  }

  lemma RowTable(height: nat)
    ensures PassRows(height, 0) == (height + 7) / 8 == PassRows(height, 1) && PassRows(height, 2) == (height + 3) / 8
    ensures PassRows(height, 3) == (height + 3) / 4 && PassRows(height, 4) == (height + 1) / 4
    ensures PassRows(height, 5) == (height + 1) / 2 && PassRows(height, 6) == height / 2
  {
    hide PassRows;
    RowsByStep(height, 0);
    RowsByStep(height, 1);
    RowsByStep(height, 2);
    RowsByStep(height, 3);
    RowsByStep(height, 4);
    RowsByStep(height, 5);
    RowsByStep(height, 6);
  }

  lemma ColTable(width: nat)
    ensures PassCols(width, 0) == (width + 7) / 8 && PassCols(width, 1) == (width + 3) / 8
    ensures PassCols(width, 2) == (width + 3) / 4 && PassCols(width, 3) == (width + 1) / 4
    ensures PassCols(width, 4) == (width + 1) / 2 && PassCols(width, 5) == width / 2 && PassCols(width, 6) == width
  {
    hide PassCols;
    ColsByStep(width, 0);
    ColsByStep(width, 1);
    ColsByStep(width, 2);
    ColsByStep(width, 3);
    ColsByStep(width, 4);
    ColsByStep(width, 5);
    ColsByStep(width, 6);
  }
}
