/** The row machine counted in data rows: where it stands after n of them, and which callbacks one more of them makes
    (android/jni/libpng/pngpread.c:983-1228). */
module RowSchedule {
  import opened Adam7
  import opened Basics
  import opened RowMachine
  import opened Words

  /** The data rows of the whole image. */
  function Total(image: Image): nat {
    DataBefore(image, 7)
  }

  function PassFrom(image: Image, n: nat, from: nat): (p: nat)
    requires from <= 7
    ensures from <= p <= 7 && (p < 7 ==> n < DataBefore(image, p + 1)) && (p > from ==> DataBefore(image, p) <= n)
    decreases 7 - from
  {
    if from == 7 || n < DataBefore(image, from + 1) then from else PassFrom(image, n, from + 1)
  }

  /** The pass of data row n; 7 behind the last one. */
  function PassAt(image: Image, n: nat): (p: nat)
    ensures p <= 7 && DataBefore(image, p) <= n && (p < 7 ==> n < DataBefore(image, p + 1))
  {
    PassFrom(image, n, 0)
  }

  /** The row counter when data row n is due. */
  function RowAt(image: Image, n: nat): nat {
    var p := PassAt(image, n);
    if p == 7 then 0
    else if image.expand then RowFromPassRow(n - DataBefore(image, p), p)
    else n - DataBefore(image, p)
  }

  /** The callbacks of the first n data rows. */
  function LogOf(image: Image, n: nat): seq<Callback> {
    LogAt(image, PassAt(image, n), RowAt(image, n))
  }

  /** The number of the data row that a callback hands out, counted through all passes. */
  function DataRow(image: Image, c: Callback): Option<nat>
    requires c.pass <= 7
  {
    match c.data
    case None => None
    case Some(k) => Some(DataBefore(image, c.pass) + k)
  }

  // ---- The row machine stands there --------------------------------------------------------------------

  lemma {:induction false} DataGrows(image: Image, p: nat, q: nat)
    requires p <= q <= 7
    ensures DataBefore(image, p) <= DataBefore(image, q)
  {
    if p < q {
      DataGrows(image, p, q - 1);
    }
  }

  lemma PassIs(image: Image, n: nat, p: nat)
    requires p < 7 && DataBefore(image, p) <= n < DataBefore(image, p + 1)
    ensures PassAt(image, n) == p
  {
    hide DataBefore, PassFrom;
    var q := PassAt(image, n);
    if q < p {
      DataGrows(image, q + 1, p);
    } else if q > p {
      DataGrows(image, p + 1, q);
    }
  }

  /** A row machine that has used up n data rows stands where the schedule says, knows the width of the next row, has
      made these callbacks, and the test for the last row holds exactly behind it. */
  lemma ReaderAt(r: RowReader)
    requires r.Valid()
    ensures var n := r.usedBefore + r.used;
            && r.pass == PassAt(r.image, n) && r.log == LogOf(r.image, n)
            && (r.pass < 7 ==> r.rowNumber == RowAt(r.image, n) && r.iwidth == PassCols(r.image.width, r.pass))
            && (r.rowNumber >= r.numRows || r.pass > 6 <==> n >= Total(r.image))
  {
    hide PassRows, PassCols, LogBefore, PassLog, RowFromPassRow, PassFrom;
    var n := r.usedBefore + r.used;
    if r.pass < 7 {
      RowInside(r.image.height, r.pass, r.used);
      PassIs(r.image, n, r.pass);
      DataGrows(r.image, r.pass + 1, 7);
    } else {
      var p := PassAt(r.image, n);
      if p < 7 {
        DataGrows(r.image, p + 1, 7);
      }
    }
  }

  // ---- What one data row adds --------------------------------------------------------------------------

  /** The second log goes on from the first one with callbacks that hand out data row n or nothing. */
  ghost predicate Grows(image: Image, a: seq<Callback>, b: seq<Callback>, n: nat) {
    && |a| <= |b| && b[..|a|] == a
    && forall i :: |a| <= i < |b| ==> b[i].pass <= 7 && DataRow(image, b[i]) in {None, Some(n)}
  }

  lemma GrowsOn(image: Image, a: seq<Callback>, b: seq<Callback>, c: seq<Callback>, n: nat)
    requires Grows(image, a, b, n) && Grows(image, b, c, n)
    ensures Grows(image, a, c, n)
  {
    hide DataRow;
    assert c[..|a|] == c[..|b|][..|a|];
    forall i | |a| <= i < |c|
      ensures c[i].pass <= 7 && DataRow(image, c[i]) in {None, Some(n)}
    {
      if i < |b| {
        assert c[i] == c[..|b|][i];
      }
    }
  }

  /** Some rows of a pass, none of which hands out any other data row. */
  lemma RowsGrow(image: Image, p: Pass, a: nat, b: nat, n: nat)
    requires a <= b
    requires forall y: nat :: a <= y < b ==> Expected(image, p, y).pass == p
                                             && DataRow(image, Expected(image, p, y)) in {None, Some(n)}
    ensures Grows(image, LogAt(image, p, a), LogAt(image, p, b), n)
  {
    hide Expected, LogBefore, DataRow;
    var before := LogBefore(image, p);
    assert LogAt(image, p, b)[..|LogAt(image, p, a)|] == LogAt(image, p, a);
    forall i | |LogAt(image, p, a)| <= i < |LogAt(image, p, b)|
      ensures LogAt(image, p, b)[i].pass <= 7 && DataRow(image, LogAt(image, p, b)[i]) in {None, Some(n)}
    {
      assert LogAt(image, p, b)[i] == Expected(image, p, i - |before|);
    }
  }

  /** The place of data row k in its pass. */
  function RowOf(image: Image, p: Pass, k: nat): nat {
    if image.expand then RowFromPassRow(k, p) else k
  }

  /** From the place of a data row to that of the next one, or to the end of the pass. */
  lemma BlockGrows(image: Image, p: Pass, k: nat, end: nat)
    requires RowOf(image, p, k) <= end <= RowOf(image, p, k + 1)
    ensures Grows(image, LogAt(image, p, RowOf(image, p, k)), LogAt(image, p, end), DataBefore(image, p) + k)
  {
    hide Grows, LogAt, DataBefore, Expected, RowFromPassRow;
    ExpectedIsAt(image, p);
    forall y: nat | RowOf(image, p, k) <= y < end
      ensures Expected(image, p, y).data in {None, Some(k)}
    {
      BlockRow(image, p, k, y);
    }
    RowsGrow(image, p, RowOf(image, p, k), end, DataBefore(image, p) + k);
  }

  lemma BlockRow(image: Image, p: Pass, k: nat, y: nat)
    requires RowOf(image, p, k) <= y < RowOf(image, p, k + 1)
    ensures Expected(image, p, y).data in {None, Some(k)}
  {
    hide RowFromPassRow, RowStep, FirstRow;
    if image.expand && Expected(image, p, y).data.Some? {
      var m := Expected(image, p, y).data.value;
      ShownWithin(image, p, m, y);
      RowFromStep(k, p);
      RowFromStep(k + 1, p);
      StepsApart(m, k, RowStep(p), FirstRow(p), y);
    }
  }

  lemma StepsApart(m: nat, k: nat, step: nat, first: nat, y: nat)
    requires m * step + first <= y < (m + 1) * step + first && k * step + first <= y < (k + 1) * step + first
    ensures m == k
  {
    if m < k {
      MulMonotone(m + 1, k, step);
    } else if k < m {
      MulMonotone(k + 1, m, step);
    }
  }

  /** Generated rows above the first data row. */
  lemma TopGrows(image: Image, p: Pass, end: nat, n: nat)
    requires end <= RowOf(image, p, 0)
    ensures Grows(image, LogAt(image, p, 0), LogAt(image, p, end), n)
  {
    hide Grows, LogAt, DataBefore, Expected, RowFromPassRow;
    ExpectedIsAt(image, p);
    if image.expand {
      TopRows(image);
      RowFromStep(0, p);
    }
    RowsGrow(image, p, 0, end, n);
  }

  /** A whole pass at its end, and a pass that makes no callbacks. */
  lemma PassEnds(image: Image, p: Pass)
    ensures LogBefore(image, p + 1)
            == if Live(image, p) then LogAt(image, p, RowsOf(image, p)) else LogAt(image, p, 0)
    ensures LogAt(image, p, 0) == LogBefore(image, p)
  {
    hide Live, RowsOf;
  }

  /** Passes without data rows make no callbacks but generated ones. */
  lemma {:induction false} GapGrows(image: Image, a: nat, b: nat, n: nat)
    requires a <= b <= 7 && DataBefore(image, a) == DataBefore(image, b)
    ensures Grows(image, LogBefore(image, a), LogBefore(image, b), n)
  {
    if a < b {
      hide LogBefore, LogAt, RowFromPassRow, PassRows, PassCols, Grows;
      var p := b - 1;
      DataGrows(image, a, p);
      GapGrows(image, a, p, n);
      PassEnds(image, p);
      if Live(image, p) {
        RowInside(image.height, p, 0);
        TopGrows(image, p, RowsOf(image, p), n);
        GrowsOn(image, LogBefore(image, a), LogBefore(image, p), LogBefore(image, b), n);
      }
    }
  }

  /** One more data row adds callbacks, and each of them hands out that data row or nothing. */
  lemma OneRowMore(image: Image, n: nat)
    requires n < Total(image)
    ensures Grows(image, LogOf(image, n), LogOf(image, n + 1), n)
  {
    hide LogBefore, LogAt, RowFromPassRow, PassRows, PassCols, Grows, PassFrom;
    var p, q := PassAt(image, n), PassAt(image, n + 1);
    BeforeTheEnd(image, n);
    var k := n - DataBefore(image, p);
    if q == p {
      PlaceGrows(image, p, k);
      BlockGrows(image, p, k, RowOf(image, p, k + 1));
    } else {
      LeavesPass(image, n);
      BlockGrows(image, p, k, RowsOf(image, p));
      PassEnds(image, p);
      GapGrows(image, p + 1, q, n);
      GrowsOn(image, LogOf(image, n), LogBefore(image, p + 1), LogBefore(image, q), n);
      if q < 7 {
        PassEnds(image, q);
        TopGrows(image, q, RowOf(image, q, 0), n);
        GrowsOn(image, LogOf(image, n), LogBefore(image, q), LogOf(image, n + 1), n);
      } else {
        NoPass(image);
      }
    }
  }

  lemma NoPass(image: Image)
    ensures LogAt(image, 7, 0) == LogBefore(image, 7)
  {
  }

  lemma BeforeTheEnd(image: Image, n: nat)
    requires n < Total(image)
    ensures PassAt(image, n) < 7 && PassAt(image, n) <= PassAt(image, n + 1)
  {
    hide DataBefore, PassFrom;
    var p, q := PassAt(image, n), PassAt(image, n + 1);
    if q < p {
      DataGrows(image, q + 1, p);
    }
  }

  lemma PlaceGrows(image: Image, p: Pass, k: nat)
    ensures RowOf(image, p, k) <= RowOf(image, p, k + 1)
  {
    hide RowFromPassRow;
    RowFromStep(k + 1, p);
  }

  /** The last data row of a pass. */
  lemma LeavesPass(image: Image, n: nat)
    requires n < Total(image) && PassAt(image, n) < PassAt(image, n + 1)
    ensures var p, q := PassAt(image, n), PassAt(image, n + 1);
            var k := n - DataBefore(image, p);
            && p < 7 && Live(image, p) && n + 1 == DataBefore(image, p + 1) == DataBefore(image, q)
            && RowOf(image, p, k) <= RowsOf(image, p) <= RowOf(image, p, k + 1)
  {
    hide RowFromPassRow, PassRows, PassCols, PassFrom;
    var p, q := PassAt(image, n), PassAt(image, n + 1);
    var k := n - DataBefore(image, p);
    if n + 1 < DataBefore(image, p + 1) {
      PassIs(image, n + 1, p);
    }
    DataGrows(image, p + 1, q);
    RowInside(image.height, p, k);
    RowInside(image.height, p, k + 1);
  }

  /** At the start nothing has been called, and at the end everything has. */
  lemma StartAndEnd(image: Image)
    requires ValidImage(image)
    ensures LogOf(image, 0) == [] && LogOf(image, Total(image)) == LogAt(image, 7, 0) && Total(image) > 0
  {
    hide RowFromPassRow, LogAt, PassFrom, DataBefore;
    FirstPass(image);
    DataGrows(image, 1, 7);
    PassIs(image, 0, 0);
    FirstPlace(image);
    var p := PassAt(image, Total(image));
    if p < 7 {
      DataGrows(image, p + 1, 7);
    }
  }

  lemma FirstPass(image: Image)
    requires ValidImage(image)
    ensures DataBefore(image, 0) == 0 < DataBefore(image, 1)
  {
    hide Live, PassCols, PassRows;
    StartFacts(image);
    RowInside(image.height, 0, 0);
    RowFromStep(0, 0);
  }

  lemma FirstPlace(image: Image)
    ensures LogAt(image, 0, RowOf(image, 0, 0)) == []
  {
    hide RowFromPassRow;
    RowFromStep(0, 0);
  }

  /** A callback hands out a data row that has been used. */
  lemma {:induction false} AllUsed(image: Image, n: nat)
    requires ValidImage(image) && n <= Total(image)
    ensures forall c :: c in LogOf(image, n) ==>
              c.pass <= 7 && (DataRow(image, c).Some? ==> DataRow(image, c).value < n)
  {
    hide DataRow, LogOf, Total;
    if n == 0 {
      StartAndEnd(image);
    } else {
      AllUsed(image, n - 1);
      OneRowMore(image, n - 1);
      var a, b := LogOf(image, n - 1), LogOf(image, n);
      forall c | c in b
        ensures c.pass <= 7 && (DataRow(image, c).Some? ==> DataRow(image, c).value < n)
      {
        var i :| 0 <= i < |b| && b[i] == c;
        if i < |a| {
          assert c == b[..|a|][i] && c in a;
        }
      }
    }
  }
}
