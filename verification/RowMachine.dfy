/** The progressive row machine over the Adam7 passes: `png_push_process_row` and
    `png_read_push_finish_row` (android/jni/libpng/pngpread.c:983-1226). */
module RowMachine {
  import opened Basics
  import opened Words
  import opened Adam7

  /** One call of the row callback; `data` is the number of the data row of the pass that is handed
      out, or nothing for the NULL row of a generated repetition. */
  datatype Callback = Callback(pass: nat, row: nat, data: Option<nat>)

  /** An interlaced image: its dimensions and whether PNG_INTERLACE asks for full-size passes. */
  datatype Image = Image(width: nat, height: nat, expand: bool)

  predicate ValidImage(image: Image) {
    1 <= image.width <= 0x7FFF_FFFF && 1 <= image.height <= 0x7FFF_FFFF
  }

  // ---- The schedule: which callbacks an image must produce ------------------------------------

  /** Without expansion a pass is run when it has pixels, with expansion when it has columns. */
  predicate Live(image: Image, pass: Pass) {
    PassCols(image.width, pass) > 0 && (image.expand || PassRows(image.height, pass) > 0)
  }

  /** A pass is run if and only if the image has a column in it and, without expansion, also a row. */
  lemma LiveIff(image: Image, pass: Pass)
    ensures Live(image, pass)
            <==> (exists x: nat :: x < image.width && ColInPass(x, pass))
                 && (image.expand || exists y: nat :: y < image.height && RowInPass(y, pass))
  {
    hide PassCols, PassRows, ColInPass, RowInPass, ColFromPassCol, RowFromPassRow, ColIndex, RowIndex;
    ColsEnumerated(image.width, pass, 0, 0);
    RowsEnumerated(image.height, pass, 0, 0);
    if x: nat :| x < image.width && ColInPass(x, pass) {
      ColsEnumerated(image.width, pass, ColIndex(x, pass), x);
    }
    if y: nat :| y < image.height && RowInPass(y, pass) {
      RowsEnumerated(image.height, pass, RowIndex(y, pass), y);
    }
  }

  /** Callbacks in one pass. */
  function RowsOf(image: Image, pass: Pass): nat {
    if image.expand then image.height else PassRows(image.height, pass)
  }

  /** The callback for a row of a pass.  With expansion, image row y repeats data row y / step from
      its own position in the block on, and is NULL above it. */
  function Expected(image: Image, pass: Pass, row: nat): Callback {
    if !image.expand then Callback(pass, row, Some(row))
    else if row % RowStep(pass) >= FirstRow(pass) then Callback(pass, row, Some(row / RowStep(pass)))
    else Callback(pass, row, None)
  }

  function PassLog(image: Image, pass: Pass, rows: nat): seq<Callback> {
    seq(rows, (y: nat) => Expected(image, pass, y))
  }

  /** Everything before a pass. */
  function LogBefore(image: Image, pass: nat): seq<Callback>
    requires pass <= 7
  {
    if pass == 0 then []
    else LogBefore(image, pass - 1) + (if Live(image, pass - 1) then PassLog(image, pass - 1, RowsOf(image, pass - 1))
        else [])
  }

  /** Everything before a row of a pass. */
  function LogAt(image: Image, pass: nat, row: nat): seq<Callback>
    requires pass <= 7
  {
    LogBefore(image, pass) + (if pass < 7 then PassLog(image, pass, row) else [])
  }

  /** Data rows of the passes before one. */
  function DataBefore(image: Image, pass: nat): nat
    requires pass <= 7
  {
    if pass == 0 then 0
    else DataBefore(image, pass - 1) + (if Live(image, pass - 1) then PassRows(image.height, pass - 1) else 0)
  }

  predicate NoneLive(image: Image, from: nat, to: nat)
    requires to <= 7
  {
    forall p: nat :: from <= p < to ==> !Live(image, p)
  }

  lemma {:induction false} SkipDead(image: Image, from: nat, to: nat)
    requires from <= to <= 7 && NoneLive(image, from, to)
    ensures LogBefore(image, to) == LogBefore(image, from) && DataBefore(image, to) == DataBefore(image, from)
  {
    if from < to {
      SkipDead(image, from, to - 1);
    }
  }

  /** The width tests of the code say that a pass has columns. */
  lemma LiveColumns(width: nat, pass: Pass)
    requires 1 <= width
    ensures PassCols(width, pass) == 0
            <==> (pass == 1 && width < 5) || (pass == 3 && width < 3) || (pass == 5 && width < 2)
  {
    hide PassCols;
    ColTable(width);
  }

  /** The next live pass after one; 7 when there is none. */
  function NextPass(image: Image, pass: nat): (next: nat)
    requires pass <= 7
    ensures next <= 7 && (pass < next || next == 7)
    ensures next < 7 ==> Live(image, next)
    ensures NoneLive(image, pass + 1, next)
    decreases 7 - pass
  {
    if pass >= 6 then 7
    else if Live(image, pass + 1) then pass + 1
    else NextPass(image, pass + 1)
  }

  lemma NextPassUnique(image: Image, pass: nat, next: nat)
    requires pass <= 7 && next <= 7 && (pass < next || next == 7)
    requires next < 7 ==> Live(image, next)
    requires NoneLive(image, pass + 1, next)
    ensures next == NextPass(image, pass)
  {
    hide Live;
    var n := NextPass(image, pass);
  }

  /** One more callback in a pass, and what comes after its last one. */
  lemma LogStep(image: Image, pass: Pass, row: nat)
    requires Live(image, pass) && row < RowsOf(image, pass)
    ensures LogAt(image, pass, row) + [Expected(image, pass, row)] == LogAt(image, pass, row + 1)
    ensures row + 1 == RowsOf(image, pass) ==>
              LogAt(image, pass, row + 1) == LogAt(image, NextPass(image, pass), 0)
              && DataBefore(image, NextPass(image, pass)) == DataBefore(image, pass) + PassRows(image.height, pass)
  {
    hide Live, RowsOf, Expected, PassRows;
    assert PassLog(image, pass, row) + [Expected(image, pass, row)] == PassLog(image, pass, row + 1);
    if row + 1 == RowsOf(image, pass) {
      SkipDead(image, pass + 1, NextPass(image, pass));
      var next := NextPass(image, pass);
      assert LogAt(image, next, 0) == LogBefore(image, next);
      assert LogAt(image, pass, row + 1) == LogBefore(image, pass + 1);
    }
  }

  lemma StartFacts(image: Image)
    requires ValidImage(image)
    ensures Live(image, 0) && PassCols(image.width, 0) == (image.width + 7) / 8
    ensures RowsOf(image, 0) == (if image.expand then image.height else (image.height + 7) / 8) > 0
  {
    hide PassRows, PassCols;
    ColsByStep(image.width, 0);
    RowsByStep(image.height, 0);
  }

  lemma StartPosition(image: Image)
    ensures RowFromPassRow(0, 0) == 0 && LogAt(image, 0, 0) == []
  {
    MacroTables(0);
  }

  /** The pass after the width tests and the clamp of the code. */
  function Stepped(width: nat, pass: nat): nat
    requires pass <= 7
  {
    var p := pass + 1;
    var q := if (p == 1 && width < 5) || (p == 3 && width < 3) || (p == 5 && width < 2) then p + 1 else p;
    if q > 7 then q - 1 else q
  }

  lemma SteppedSkipsDead(image: Image, pass: nat)
    requires ValidImage(image) && pass <= 7
    ensures var q := Stepped(image.width, pass);
            q <= 7 && (pass < q || q == 7) && NoneLive(image, pass + 1, q) && (q < 7 ==> PassCols(image.width, q) > 0)
  {
    hide PassCols, PassRows;
    var q := Stepped(image.width, pass);
    if q < 7 {
      LiveColumns(image.width, q);
    }
    if pass + 1 < q {
      LiveColumns(image.width, pass + 1);
    }
  }

  /** The table expressions of the code are the macros. */
  lemma CodeTables(image: Image, pass: Pass)
    ensures PassCols(image.width, pass)
         == (image.width + [8, 8, 4, 4, 2, 2, 1][pass] - 1 - [0, 4, 0, 2, 0, 1, 0][pass]) / [8, 8, 4, 4, 2, 2, 1][pass]
    ensures PassRows(image.height, pass)
         == (image.height + [8, 8, 8, 4, 4, 2, 2][pass] - 1 - [0, 0, 4, 0, 2, 0, 1][pass]) / [8, 8, 8, 4, 4, 2, 2][pass]
  {
    hide PassRows, PassCols;
    ColsByStep(image.width, pass);
    RowsByStep(image.height, pass);
  }

  class RowReader {
    const image: Image
    var pass: nat
    var rowNumber: nat
    var numRows: nat
    var iwidth: nat
    ghost var log: seq<Callback>
    /** Data rows consumed in the current pass, and in all passes before it. */
    ghost var used: nat
    ghost var usedBefore: nat

    /** The dimensions the code keeps for the current pass. */
    ghost predicate Sized()
      reads this
    {
      && ValidImage(image) && pass <= 7
      && (image.expand ==> numRows == image.height)
      && (pass < 7 ==>
            && Live(image, pass)
            && iwidth == PassCols(image.width, pass)
            && rowNumber < numRows == RowsOf(image, pass))
    }

    /** The position bookkeeping; it also holds between the callbacks of one data row. */
    ghost predicate Placed()
      reads this
    {
      && Sized()
      && log == LogAt(image, pass, rowNumber)
      && usedBefore == DataBefore(image, pass)
    }

    /** Ready for the next data row: with expansion the row counter stands on the image row of the
        data row to come. */
    ghost predicate Valid()
      reads this
    {
      && Placed()
      && (pass < 7 ==> rowNumber == if image.expand then RowFromPassRow(used, pass) else used)
      && (pass == 7 ==> used == 0)
    }

    /** `png_read_start_row` for an interlaced image (pngrutil.c:4211-4224). */
    constructor (image: Image)
      requires ValidImage(image)
      ensures this.image == image && Valid()
      ensures pass == 0 && rowNumber == 0 && used == 0 && usedBefore == 0 && log == []
    {
      hide PassRows, PassCols, Live, RowFromPassRow, LogAt, RowsOf, Pow2, StartRow, RowShift, StartCol, ColShift;
      this.image := image;
      pass, rowNumber := 0, 0;
      numRows := if image.expand then image.height else (image.height + 8 - 1 - 0) / 8;
      iwidth := (image.width + 8 - 1 - 0) / 8;
      log, used, usedBefore := [], 0, 0;
      new;
      StartFacts(image);
      StartPosition(image);
    }

    /** `png_read_push_finish_row`: the next row, or the first row of the next live pass.  At pass 7
        it stays there. */
    method FinishRow()
      requires Sized()
      modifies this`pass, this`rowNumber, this`numRows, this`iwidth
      ensures Sized()
      ensures old(pass) < 7 && old(rowNumber) + 1 < RowsOf(image, old(pass)) ==>
                pass == old(pass) && rowNumber == old(rowNumber) + 1
      ensures old(pass) < 7 && old(rowNumber) + 1 == RowsOf(image, old(pass)) ==>
                pass == NextPass(image, old(pass)) && rowNumber == 0
      ensures old(pass) == 7 ==> pass == 7
    {
      hide PassRows, PassCols, NextPass;
      rowNumber := rowNumber + 1;
      if rowNumber < numRows {
        return;
      }
      rowNumber := 0;
      AdvancePass();
    }

    /** The do-while loop that looks for the next pass. */
    method AdvancePass()
      requires ValidImage(image) && pass <= 7 && (image.expand ==> numRows == image.height)
      modifies this`pass, this`numRows, this`iwidth
      ensures pass == NextPass(image, old(pass))
      ensures image.expand ==> numRows == image.height
      ensures pass < 7 ==>
                Live(image, pass) && iwidth == PassCols(image.width, pass) && numRows == RowsOf(image, pass) > 0
    {
      hide PassRows, PassCols, NextPass, Stepped;
      ghost var from := pass;
      while true
        invariant from <= pass <= 7
        invariant NoneLive(image, from + 1, if pass < 7 then pass + 1 else 7)
        invariant image.expand ==> pass == from && numRows == image.height
        invariant pass == 7 ==> pass == from
        decreases 7 - pass
      {
        SteppedSkipsDead(image, pass);
        pass := Stepped(image.width, pass);
        if pass >= 7 {
          break;
        }
        CodeTables(image, pass);
        iwidth := (image.width + [8, 8, 4, 4, 2, 2, 1][pass] - 1 - [0, 4, 0, 2, 0, 1, 0][pass])
            / [8, 8, 4, 4, 2, 2, 1][pass];
        if image.expand {
          break;
        }
        numRows := (image.height + [8, 8, 8, 4, 4, 2, 2][pass] - 1 - [0, 0, 4, 0, 2, 0, 1][pass])
            / [8, 8, 8, 4, 4, 2, 2][pass];
        if !(iwidth == 0 || numRows == 0) {
          break;
        }
      }
      NextPassUnique(image, from, pass);
    }

    /** `png_push_have_row` and `png_read_push_finish_row` for the callback the schedule asks for. */
    method HaveRow(ghost data: Option<nat>)
      requires Placed() && pass < 7
      requires Callback(pass, rowNumber, data) == Expected(image, pass, rowNumber)
      modifies this`pass, this`rowNumber, this`numRows, this`iwidth, this`log, this`usedBefore
      ensures Placed()
      ensures old(rowNumber) + 1 < RowsOf(image, old(pass)) ==> pass == old(pass) && rowNumber == old(rowNumber) + 1
      ensures old(rowNumber) + 1 == RowsOf(image, old(pass)) ==> pass == NextPass(image, old(pass)) && rowNumber == 0
      ensures usedBefore == old(usedBefore) + if pass == old(pass) then 0 else PassRows(image.height, old(pass))
    {
      hide PassRows, PassCols, NextPass, Expected, LogAt, Live, RowsOf, DataBefore;
      log := log + [Callback(pass, rowNumber, data)];
      LogStep(image, pass, rowNumber);
      ghost var from := pass;
      FinishRow();
      usedBefore := DataBefore(image, pass);
    }

    /** `for (i = 0; i < count && pass == p; i++) { have_row; finish_row; }` */
    method Repeat(p: Pass, count: nat, ghost data: Option<nat>)
      requires Placed() && image.expand
      requires pass == p ==>
                 forall y: nat :: rowNumber <= y < rowNumber + count ==> Expected(image, p, y) == Callback(p, y, data)
      modifies this`pass, this`rowNumber, this`numRows, this`iwidth, this`log, this`usedBefore
      ensures Placed()
      ensures old(pass) != p ==> pass == old(pass) && rowNumber == old(rowNumber) && usedBefore == old(usedBefore)
      ensures old(pass) == p && old(rowNumber) + count < image.height ==>
                pass == p && rowNumber == old(rowNumber) + count && usedBefore == old(usedBefore)
      ensures old(pass) == p && count > 0 && old(rowNumber) + count >= image.height ==>
                pass == NextPass(image, p) && rowNumber == 0
                    && usedBefore == old(usedBefore) + PassRows(image.height, p)
    {
      hide PassRows, PassCols, NextPass, Expected, LogAt, Live, DataBefore;
      var i := 0;
      while i < count && pass == p
        invariant i <= count && Placed()
        invariant old(pass) != p ==> pass == old(pass) && rowNumber == old(rowNumber) && usedBefore == old(usedBefore)
        invariant old(pass) == p ==>
                    || (pass == p && rowNumber == old(rowNumber) + i && usedBefore == old(usedBefore))
                    || (pass == NextPass(image, p) && rowNumber == 0 && old(rowNumber) + i == image.height
                        && usedBefore == old(usedBefore) + PassRows(image.height, p))
      {
        NextPassDiffers(image, p);
        HaveRow(data);
        i := i + 1;
      }
    }

    /** After one data row: either the next data row of the pass is due, or a later pass is, on its
        first row; the count of consumed rows has grown by one. */
    ghost predicate Landed(p: Pass, k: nat, before: nat)
      reads this
    {
      || (pass == p && rowNumber == (k + 1) * RowStep(p) + FirstRow(p) && usedBefore == before)
      || (p < pass && (pass < 7 ==> rowNumber == FirstRow(pass)) && usedBefore == before + k + 1)
    }

    ghost predicate AtDataRow(p: Pass, k: nat)
      reads this
    {
      Placed() && image.expand && pass == p && rowNumber == k * RowStep(p) + FirstRow(p)
    }

    method ExpandPass0(ghost k: nat)
      requires AtDataRow(0, k)
      modifies this`pass, this`rowNumber, this`numRows, this`iwidth, this`log, this`usedBefore
      ensures Placed() && Landed(0, k, old(usedBefore))
    {
      hide PassRows, PassCols, NextPass, Expected, LogAt, Live, DataBefore;
      NextPasses(image);
      Blocks(image, 0, k);
      TopRows(image);
      Repeat(0, 8, Some(k));
      if pass == 2 {
        Repeat(2, 4, None);
      }
      if pass == 4 && image.height <= 4 {
        Repeat(4, 2, None);
      }
      if pass == 6 && image.height <= 4 {
        HaveRow(None);
      }
    }

    method ExpandPass1(ghost k: nat)
      requires AtDataRow(1, k)
      modifies this`pass, this`rowNumber, this`numRows, this`iwidth, this`log, this`usedBefore
      ensures Placed() && Landed(1, k, old(usedBefore))
    {
      hide PassRows, PassCols, NextPass, Expected, LogAt, Live, DataBefore;
      NextPasses(image);
      Blocks(image, 1, k);
      TopRows(image);
      Repeat(1, 8, Some(k));
      if pass == 2 {
        Repeat(2, 4, None);
      }
    }

    method ExpandPass2(ghost k: nat)
      requires AtDataRow(2, k)
      modifies this`pass, this`rowNumber, this`numRows, this`iwidth, this`log, this`usedBefore
      ensures Placed() && Landed(2, k, old(usedBefore))
    {
      hide PassRows, PassCols, NextPass, Expected, LogAt, Live, DataBefore;
      NextPasses(image);
      Blocks(image, 2, k);
      TopRows(image);
      Repeat(2, 4, Some(k));
      Repeat(2, 4, None);
      if pass == 4 {
        Repeat(4, 2, None);
      }
    }

    method ExpandPass3(ghost k: nat)
      requires AtDataRow(3, k)
      modifies this`pass, this`rowNumber, this`numRows, this`iwidth, this`log, this`usedBefore
      ensures Placed() && Landed(3, k, old(usedBefore))
    {
      hide PassRows, PassCols, NextPass, Expected, LogAt, Live, DataBefore;
      NextPasses(image);
      Blocks(image, 3, k);
      TopRows(image);
      Repeat(3, 4, Some(k));
      if pass == 4 {
        Repeat(4, 2, None);
      }
    }

    method ExpandPass4(ghost k: nat)
      requires AtDataRow(4, k)
      modifies this`pass, this`rowNumber, this`numRows, this`iwidth, this`log, this`usedBefore
      ensures Placed() && Landed(4, k, old(usedBefore))
    {
      hide PassRows, PassCols, NextPass, Expected, LogAt, Live, DataBefore;
      NextPasses(image);
      Blocks(image, 4, k);
      TopRows(image);
      Repeat(4, 2, Some(k));
      Repeat(4, 2, None);
      if pass == 6 {
        HaveRow(None);
      }
    }

    method ExpandPass5(ghost k: nat)
      requires AtDataRow(5, k)
      modifies this`pass, this`rowNumber, this`numRows, this`iwidth, this`log, this`usedBefore
      ensures Placed() && Landed(5, k, old(usedBefore))
    {
      hide PassRows, PassCols, NextPass, Expected, LogAt, Live, DataBefore;
      NextPasses(image);
      Blocks(image, 5, k);
      TopRows(image);
      Repeat(5, 2, Some(k));
      if pass == 6 {
        HaveRow(None);
      }
    }

    method ExpandPass6(ghost k: nat)
      requires AtDataRow(6, k)
      modifies this`pass, this`rowNumber, this`numRows, this`iwidth, this`log, this`usedBefore
      ensures Placed() && Landed(6, k, old(usedBefore))
    {
      hide PassRows, PassCols, NextPass, Expected, LogAt, Live, DataBefore;
      NextPasses(image);
      Blocks(image, 6, k);
      TopRows(image);
      HaveRow(Some(k));
      if pass != 6 {
        return;
      }
      HaveRow(None);
    }

    /** The switch over the pass. */
    method Expand(ghost k: nat)
      requires pass < 7 && AtDataRow(pass, k)
      modifies this`pass, this`rowNumber, this`numRows, this`iwidth, this`log, this`usedBefore
      ensures Placed() && Landed(old(pass), k, old(usedBefore))
    {
      hide Placed;
      match pass {
        case 0 => ExpandPass0(k);
        case 1 => ExpandPass1(k);
        case 2 => ExpandPass2(k);
        case 3 => ExpandPass3(k);
        case 4 => ExpandPass4(k);
        case 5 => ExpandPass5(k);
        case _ => ExpandPass6(k);
      }
    }

    /** `png_push_process_row` from the interlace switch on: one more data row. */
    method ProcessRow()
      requires Valid() && pass < 7
      modifies this
      ensures Valid()
      ensures usedBefore + used == old(usedBefore + used) + 1
      ensures pass > old(pass) || (pass == old(pass) && rowNumber > old(rowNumber))
    {
      hide PassRows, PassCols, NextPass, Expected, LogAt, Live, DataBefore, RowFromPassRow, RowStep, FirstRow;
      ghost var p, k := pass, used;
      if image.expand {
        RowFromStep(k, p);
        Expand(k);
        RowFromStep(k + 1, p);
        if pass < 7 {
          RowFromStep(0, pass);
        }
      } else {
        ExpectedPlain(image, pass, rowNumber);
        HaveRow(Some(k));
      }
      used := if pass == p then k + 1 else 0;
    }

    /** All data rows of an image, one after the other. */
    method ReadRows()
      requires Valid() && log == [] && usedBefore + used == 0
      modifies this
      ensures Valid() && pass == 7
      ensures log == LogAt(image, 7, 0)
      ensures InOrder(log) && forall c :: c in log <==> Due(image, 7, c)
      ensures usedBefore == DataBefore(image, 7) && used == 0
    {
      hide PassRows, PassCols, Expected, Live, RowsOf, PassLog, Due, InOrder;
      EachRowOnce(image, 7);
      assert LogAt(image, 7, 0) == LogBefore(image, 7);
      while pass < 7
        invariant Valid()
        decreases 7 - pass, if pass < 7 then numRows - rowNumber else 0
      {
        ProcessRow();
      }
    }
  }

  /** With expansion the next pass is decided by the width alone. */
  lemma NextPasses(image: Image)
    requires image.expand && 1 <= image.width
    ensures NextPass(image, 0) == (if image.width < 5 then 2 else 1) && NextPass(image, 1) == 2
    ensures NextPass(image, 2) == (if image.width < 3 then 4 else 3) && NextPass(image, 3) == 4
    ensures NextPass(image, 4) == (if image.width < 2 then 6 else 5) && NextPass(image, 5) == 6
    ensures NextPass(image, 6) == 7
  {
    hide PassCols, PassRows;
    forall p: Pass
      ensures Live(image, p) <==>
              !((p == 1 && image.width < 5) || (p == 3 && image.width < 3) || (p == 5 && image.width < 2))
    {
      LiveColumns(image.width, p);
    }
    hide NextPass, Live;
    NextPassUnique(image, 0, if image.width < 5 then 2 else 1);
    NextPassUnique(image, 1, 2);
    NextPassUnique(image, 2, if image.width < 3 then 4 else 3);
    NextPassUnique(image, 3, 4);
    NextPassUnique(image, 4, if image.width < 2 then 6 else 5);
    NextPassUnique(image, 5, 6);
    NextPassUnique(image, 6, 7);
  }

  /** The callbacks of the block of data row k, and the number of data rows when the next block would
      start behind the image. */
  lemma Blocks(image: Image, p: Pass, k: nat)
    requires image.expand
    ensures forall y: nat :: k * RowStep(p) + FirstRow(p) <= y < (k + 1) * RowStep(p) ==>
              Expected(image, p, y) == Callback(p, y, Some(k))
    ensures forall y: nat :: (k + 1) * RowStep(p) <= y < (k + 1) * RowStep(p) + FirstRow(p) ==>
              Expected(image, p, y) == Callback(p, y, None)
    ensures k * RowStep(p) + FirstRow(p) < image.height <= (k + 1) * RowStep(p) + FirstRow(p)
            ==> PassRows(image.height, p) == k + 1
  {
    hide PassRows;
    var step, first := RowStep(p), FirstRow(p);
    MulDistributes(k, 1, step);
    forall y: nat | k * step + first <= y < (k + 1) * step
      ensures y / step == k && y % step == y - k * step
    {
      DivModUnique(y, step, k, y - k * step);
    }
    forall y: nat | (k + 1) * step <= y < (k + 1) * step + first
      ensures y % step == y - (k + 1) * step
    {
      DivModUnique(y, step, k + 1, y - (k + 1) * step);
    }
    RowsByStep(image.height, p);
    Grid(image.height, step, first, k);
    Grid(image.height, step, first, k + 1);
  }

  /** The generated rows above the first data row of a pass, and the passes without data rows. */
  lemma TopRows(image: Image)
    requires image.expand
    ensures forall p: Pass, y: nat :: y < FirstRow(p) ==> Expected(image, p, y) == Callback(p, y, None)
    ensures forall p: Pass :: image.height <= FirstRow(p) ==> PassRows(image.height, p) == 0
  {
    hide PassRows;
    forall p: Pass, y: nat | y < FirstRow(p)
      ensures Expected(image, p, y) == Callback(p, y, None)
    {
      DivModUnique(y, RowStep(p), 0, y);
    }
    forall p: Pass | image.height <= FirstRow(p)
      ensures PassRows(image.height, p) == 0
    {
      RowsByStep(image.height, p);
      Grid(image.height, RowStep(p), FirstRow(p), 0);
    }
  }

  lemma RowFromStep(k: nat, p: Pass)
    ensures RowFromPassRow(k, p) == k * RowStep(p) + FirstRow(p)
    ensures k == 0 ==> RowFromPassRow(k, p) == FirstRow(p)
    ensures k > 0 ==> RowFromPassRow(k - 1, p) < RowFromPassRow(k, p)
  {
    hide Pow2, RowShift, StartRow;
    MacroTables(p);
    MulDistributes(k - 1, 1, RowStep(p));
  }

  lemma ExpectedPlain(image: Image, p: Pass, y: nat)
    requires !image.expand
    ensures Expected(image, p, y) == Callback(p, y, Some(y))
  {
  }

  lemma NextPassDiffers(image: Image, p: Pass)
    ensures NextPass(image, p) != p
  {
  }

  // ---- What the schedule says ----------------------------------------------------------------

  /** In a pass with expansion, data row k is shown first on its own image row, then repeated to the
      end of its block; every image row of the pass area gets its callback, with data or without. */
  lemma DataRowShownAt(image: Image, p: Pass, k: nat)
    requires image.expand
    ensures Expected(image, p, RowFromPassRow(k, p)).data == Some(k)
    ensures forall y: nat :: Expected(image, p, y).data == Some(k) ==>
              RowFromPassRow(k, p) <= y < RowFromPassRow(k + 1, p)
    ensures RowFromPassRow(k, p) < image.height <==> k < PassRows(image.height, p)
  {
    hide PassRows, RowFromPassRow, Expected, RowStep, FirstRow;
    RowFromStep(k, p);
    RowFromStep(k + 1, p);
    ShownFirst(image, p, k);
    RowInside(image.height, p, k);
    forall y: nat | Expected(image, p, y).data == Some(k)
      ensures k * RowStep(p) + FirstRow(p) <= y < (k + 1) * RowStep(p) + FirstRow(p)
    {
      ShownWithin(image, p, k, y);
    }
  }

  lemma RowInside(height: nat, p: Pass, k: nat)
    ensures RowFromPassRow(k, p) < height <==> k < PassRows(height, p)
  {
    hide PassRows, RowFromPassRow, RowStep, FirstRow;
    RowsEnumerated(height, p, k, 0);
  }

  lemma ShownFirst(image: Image, p: Pass, k: nat)
    requires image.expand
    ensures Expected(image, p, k * RowStep(p) + FirstRow(p)).data == Some(k)
  {
    DivModUnique(k * RowStep(p) + FirstRow(p), RowStep(p), k, FirstRow(p));
  }

  lemma ShownWithin(image: Image, p: Pass, k: nat, y: nat)
    requires image.expand && Expected(image, p, y).data == Some(k)
    ensures k * RowStep(p) + FirstRow(p) <= y < (k + 1) * RowStep(p) + FirstRow(p)
  {
    MulDistributes(k, 1, RowStep(p));
    assert y == y / RowStep(p) * RowStep(p) + y % RowStep(p);
  }

  /** An earlier pass, or an earlier row of the same pass. */
  predicate Earlier(c: Callback, d: Callback) {
    c.pass < d.pass || (c.pass == d.pass && c.row < d.row)
  }

  predicate InOrder(log: seq<Callback>) {
    forall i, j :: 0 <= i < j < |log| ==> Earlier(log[i], log[j])
  }

  /** The callback of a row that some pass below `passes` has. */
  predicate Due(image: Image, passes: nat, c: Callback)
    requires passes <= 7
  {
    c.pass < passes && Live(image, c.pass) && c.row < RowsOf(image, c.pass) && c == Expected(image, c.pass, c.row)
  }

  lemma PassLogIs(image: Image, p: Pass, rows: nat)
    ensures InOrder(PassLog(image, p, rows))
    ensures forall c :: c in PassLog(image, p, rows) <==> c.pass == p && c.row < rows && c == Expected(image, p, c.row)
  {
    hide Expected;
    var log := PassLog(image, p, rows);
    ExpectedIsAt(image, p);
    assert forall y: nat :: y < rows ==> log[y] == Expected(image, p, y) && log[y].pass == p && log[y].row == y;
    forall c: Callback | c.pass == p && c.row < rows && c == Expected(image, p, c.row)
      ensures c in log
    {
      assert log[c.row] == c;
    }
  }

  lemma ExpectedIsAt(image: Image, p: Pass)
    ensures forall y: nat :: Expected(image, p, y).pass == p && Expected(image, p, y).row == y
  {
  }

  /** What the schedule holds before a pass: the callbacks of all rows of the live passes so far, each
      once, ordered by pass and row. */
  lemma {:induction false} EachRowOnce(image: Image, passes: nat)
    requires passes <= 7
    ensures InOrder(LogBefore(image, passes))
    ensures forall c :: c in LogBefore(image, passes) <==> Due(image, passes, c)
  {
    hide Live, RowsOf, Expected, PassLog, InOrder;
    NothingInOrder();
    if passes > 0 {
      var last := passes - 1;
      var front, back := LogBefore(image, last), if Live(image, last) then PassLog(image, last, RowsOf(image, last))
          else [];
      EachRowOnce(image, last);
      PassLogIs(image, last, RowsOf(image, last));
      JoinInOrder(front, back, last);
      assert LogBefore(image, passes) == front + back;
    }
  }

  lemma NothingInOrder()
    ensures InOrder([])
  {
  }

  lemma JoinInOrder(front: seq<Callback>, back: seq<Callback>, p: nat)
    requires front == [] || InOrder(front)
    requires back == [] || InOrder(back)
    requires (forall c :: c in front ==> c.pass < p) && (forall c :: c in back ==> c.pass == p)
    ensures InOrder(front + back)
    ensures forall c :: c in front + back <==> c in front || c in back
  {
    var log := front + back;
    forall i, j | 0 <= i < j < |log|
      ensures Earlier(log[i], log[j])
    {
      assert i < |front| ==> log[i] in front;
      assert j >= |front| ==> log[j] in back;
    }
  }

  /** The pixels of the live passes. */
  function LivePixels(image: Image, pass: nat): nat
    requires pass <= 7
  {
    if pass == 0 then 0
    else LivePixels(image, pass - 1) + (if Live(image, pass - 1) then PassPixels(image.width, image.height, pass - 1)
        else 0)
  }

  lemma DeadIsEmpty(image: Image, p: Pass)
    ensures !Live(image, p) ==> PassPixels(image.width, image.height, p) == 0
  {
  }

  /** The passes that are run hold every pixel of the image. */
  lemma AllPixelsRead(image: Image)
    ensures LivePixels(image, 7) == image.width * image.height
  {
    hide Live, PassPixels;
    PixelsAddUp(image.width, image.height);
    forall p: Pass
      ensures !Live(image, p) ==> PassPixels(image.width, image.height, p) == 0
    {
      DeadIsEmpty(image, p);
    }
    assert LivePixels(image, 1) == PassPixels(image.width, image.height, 0);
    assert LivePixels(image, 3) == PassPixels(image.width, image.height, 0) + PassPixels(image.width, image.height, 1)
           + PassPixels(image.width, image.height, 2);
    assert LivePixels(image, 5) == LivePixels(image, 3) + PassPixels(image.width, image.height, 3)
           + PassPixels(image.width, image.height, 4);
  }
}
