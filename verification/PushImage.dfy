/** An interlaced image from its bytes to the row callbacks: the progressive reader, the inflate loop and the row
    machine together (android/jni/libpng/pngpread.c:726-1228; PNG_ROWBYTES in pngpriv.h:656-659). */
module PushImage {
  import opened Adam7
  import opened Basics
  import opened PushInflate
  import opened PushRows
  import opened PushSpec
  import opened PushSplit
  import PushStream
  import RowMachine
  import opened RowSchedule
  import opened Words

  function RowBytes(depth: nat, width: nat): nat {
    if depth >= 8 then width * (depth / 8) else (width * depth + 7) / 8
  }

  /** The least number of bytes that hold the bits of the row, for every pixel depth of a PNG. */
  lemma RowBytesHold(depth: nat, width: nat)
    requires depth < 8 || depth % 8 == 0
    ensures 8 * RowBytes(depth, width) - 8 < width * depth <= 8 * RowBytes(depth, width)
  {
    if depth >= 8 {
      assert width * depth == 8 * (width * (depth / 8));
    }
  }

  /** The width of data row n; behind the last row that of the last pass stays. */
  function WidthAt(image: RowMachine.Image, n: nat): nat {
    PassCols(image.width, if PassAt(image, n) < 7 then PassAt(image, n) else 6)
  }

  /** The rows of an interlaced image with `depth` bits a pixel, as the inflate loop sees them: the data rows so far.  A
      filter type beyond 4 is an error. */
  function RowCodec<D>(image: RowMachine.Image, depth: nat, decode: (D, byte) -> (D, Bytes), verdict: D -> ZStatus)
    : Codec<D, seq<Bytes>>
  {
    Codec(decode, verdict,
          (rows: seq<Bytes>) => RowBytes(depth, WidthAt(image, |rows|)),
          (rows: seq<Bytes>, data: Bytes) => if data == [] || data[0] > 4 then None else Some(rows + [data]),
          (rows: seq<Bytes>) => |rows| >= Total(image))
  }

  /** Where data row n begins in the decompressed data. */
  function Offset(image: RowMachine.Image, depth: nat, n: nat): nat {
    if n == 0 then 0 else Offset(image, depth, n - 1) + RowBytes(depth, WidthAt(image, n - 1)) + 1
  }

  lemma {:induction false} OffsetGrows(image: RowMachine.Image, depth: nat, m: nat, n: nat)
    requires m <= n
    ensures Offset(image, depth, m) <= Offset(image, depth, n)
  {
    hide RowBytes, WidthAt;
    if m < n {
      OffsetGrows(image, depth, m, n - 1);
    }
  }

  /** The bytes of data row m, with its filter type. */
  predicate IsSlice(image: RowMachine.Image, depth: nat, all: Bytes, row: Bytes, m: nat) {
    && Offset(image, depth, m) <= Offset(image, depth, m + 1) <= |all|
    && row == all[Offset(image, depth, m)..Offset(image, depth, m + 1)]
  }

  /** The data rows are the slices of the decompressed data, in order. */
  predicate Sliced(image: RowMachine.Image, depth: nat, all: Bytes, rows: seq<Bytes>) {
    && |rows| <= Total(image) && Offset(image, depth, |rows|) <= |all|
    && forall m :: 0 <= m < |rows| ==> IsSlice(image, depth, all, rows[m], m)
  }

  /** Where the cutting has stopped: in the middle of a row or at the end of the data, behind the last row, or at a
      wrong filter type. */
  ghost predicate Stopped(image: RowMachine.Image, depth: nat, all: Bytes, shown: Slices<seq<Bytes>>) {
    var n := |shown.rows|;
    && Sliced(image, depth, all, shown.rows)
    && match shown
       case Partial(_, left) => left == all[Offset(image, depth, n)..] && |left| <= RowBytes(depth, WidthAt(image, n))
       case Surplus(_) => n == Total(image)
       case Refused(_) => n < Total(image) && Offset(image, depth, n) < |all| && all[Offset(image, depth, n)] > 4
  }

  lemma SliceAdds(image: RowMachine.Image, depth: nat, all: Bytes, rows: seq<Bytes>)
    requires Sliced(image, depth, all, rows) && |rows| < Total(image) && Offset(image, depth, |rows| + 1) <= |all|
    ensures Offset(image, depth, |rows|) < Offset(image, depth, |rows| + 1)
    ensures Sliced(image, depth, all, rows + [all[Offset(image, depth, |rows|)..Offset(image, depth, |rows| + 1)]])
  {
    hide Total, Offset, IsSlice, RowBytes, WidthAt;
    NextOffset(image, depth, |rows|);
    var slice := all[Offset(image, depth, |rows|)..Offset(image, depth, |rows| + 1)];
    SliceIs(image, depth, all, |rows|);
    OneMoreSlice(image, depth, all, rows, slice);
  }

  lemma OneMoreSlice(image: RowMachine.Image, depth: nat, all: Bytes, rows: seq<Bytes>, slice: Bytes)
    requires Sliced(image, depth, all, rows) && IsSlice(image, depth, all, slice, |rows|)
    ensures forall m :: 0 <= m < |rows + [slice]| ==> IsSlice(image, depth, all, (rows + [slice])[m], m)
  {
    hide Total, Offset, IsSlice;
    forall m | 0 <= m < |rows + [slice]|
      ensures IsSlice(image, depth, all, (rows + [slice])[m], m)
    {
      if m < |rows| {
        assert (rows + [slice])[m] == rows[m];
      } else {
        assert (rows + [slice])[m] == slice;
      }
    }
  }

  lemma SliceIs(image: RowMachine.Image, depth: nat, all: Bytes, m: nat)
    requires Offset(image, depth, m) <= Offset(image, depth, m + 1) <= |all|
    ensures IsSlice(image, depth, all, all[Offset(image, depth, m)..Offset(image, depth, m + 1)], m)
  {
    hide Offset;
  }

  /** One step of the cutting, for these rows. */
  lemma CutStep<D>(image: RowMachine.Image, depth: nat, decode: (D, byte) -> (D, Bytes), verdict: D -> ZStatus,
      rows: seq<Bytes>, data: Bytes)
    ensures var c, size := RowCodec(image, depth, decode, verdict), RowBytes(depth, WidthAt(image, |rows|)) + 1;
            Cut(c, rows, data)
            == if data != [] && |rows| >= Total(image) then Surplus(rows)
               else if |data| < size then Partial(rows, data)
               else if data[0] > 4 then Refused(rows)
               else Cut(c, rows + [data[..size]], data[size..])
  {
    hide WidthAt, RowBytes, Total, Offset;
  }

  /** Cutting the rest of the data goes on with the slices. */
  lemma {:induction false} CutSlices<D>(image: RowMachine.Image, depth: nat, decode: (D, byte) -> (D, Bytes),
      verdict: D -> ZStatus, all: Bytes, rows: seq<Bytes>)
    requires Sliced(image, depth, all, rows)
    ensures Stopped(image, depth, all,
                    Cut(RowCodec(image, depth, decode, verdict), rows, all[Offset(image, depth, |rows|)..]))
    decreases |all| - Offset(image, depth, |rows|)
  {
    hide WidthAt, RowBytes, Total, Sliced, Offset, RowCodec, Cut;
    SlicedSize(image, depth, all, rows);
    var n := |rows|;
    var from, next, data := Offset(image, depth, n), Offset(image, depth, n + 1), all[Offset(image, depth, n)..];
    NextOffset(image, depth, n);
    CutStep(image, depth, decode, verdict, rows, data);
    if n < Total(image) && next <= |all| && data[0] <= 4 {
      SliceAdds(image, depth, all, rows);
      assert data[..next - from] == all[from..next] && data[next - from..] == all[next..];
      CutSlices(image, depth, decode, verdict, all, rows + [all[from..next]]);
    }
  }

  lemma NextOffset(image: RowMachine.Image, depth: nat, n: nat)
    ensures Offset(image, depth, n + 1) == Offset(image, depth, n) + RowBytes(depth, WidthAt(image, n)) + 1
  {
    hide WidthAt, RowBytes;
  }

  lemma SlicedSize(image: RowMachine.Image, depth: nat, all: Bytes, rows: seq<Bytes>)
    requires Sliced(image, depth, all, rows)
    ensures |rows| <= Total(image) && Offset(image, depth, |rows|) <= |all|
  {
    hide Total, Offset;
  }

  // ---- The callbacks -------------------------------------------------------------------------------------

  /** A row callback with the data row it hands out. */
  datatype Line = Line(pass: nat, row: nat, data: Option<Bytes>)

  function Handed(image: RowMachine.Image, c: RowMachine.Callback, rows: seq<Bytes>): Line
    requires c.pass <= 7 && (DataRow(image, c).Some? ==> DataRow(image, c).value < |rows|)
  {
    Line(c.pass, c.row, match DataRow(image, c) case None => None case Some(m) => Some(rows[m]))
  }

  /** What the application has been called with when these data rows have been used. */
  function Lines(image: RowMachine.Image, rows: seq<Bytes>): seq<Line>
    requires RowMachine.ValidImage(image) && |rows| <= Total(image)
  {
    AllUsed(image, |rows|);
    var log := LogOf(image, |rows|);
    seq(|log|, i requires 0 <= i < |log| => (assert log[i] in log; Handed(image, log[i], rows)))
  }

  /** One more data row leaves the callbacks made so far as they were; the new ones hand out that row or nothing. */
  lemma LinesGrow(image: RowMachine.Image, rows: seq<Bytes>, row: Bytes)
    requires RowMachine.ValidImage(image) && |rows| < Total(image)
    ensures var before, after := Lines(image, rows), Lines(image, rows + [row]);
            && |before| <= |after| && after[..|before|] == before
            && forall i :: |before| <= i < |after| ==> after[i].data in {None, Some(row)}
  {
    hide LogOf, DataRow, Total;
    OneRowMore(image, |rows|);
    AllUsed(image, |rows|);
    var a, b := LogOf(image, |rows|), LogOf(image, |rows| + 1);
    var before, after := Lines(image, rows), Lines(image, rows + [row]);
    forall i | 0 <= i < |a|
      ensures after[i] == before[i]
    {
      assert b[..|a|][i] == a[i] && a[i] in a;
    }
  }

  /** Every accepted file with an interlaced image, cut in any way: the application gets the callbacks of the schedule
      with the slices of the decompressed data, each data row in its place; if the data is long enough, the callbacks
      of all rows of all passes. */
  lemma InterlacedImage<D, Z, I>(image: RowMachine.Image, depth: nat, decode: (D, byte) -> (D, Bytes),
      verdict: D -> ZStatus, env: Env<Z, I>, sigBytes: nat, file: PushStream.File, d: D, info: I, pieces: seq<Bytes>)
    requires RowMachine.ValidImage(image) && sigBytes < 8
    requires var all := WithImages(RowCodec(image, depth, decode, verdict), env);
             && PushStream.Regular(all, file) && PushStream.Accepted(all, file, Going(d, [], [], []), info)
             && Concat(pieces) == PushStream.Stream(all, sigBytes, file)
    ensures var c := RowCodec(image, depth, decode, verdict);
            var o := FeedAll(WithImages(c, env), Ok(Start(sigBytes, Going(d, [], [], []), info)), pieces);
            var out := Output(c, d, PushStream.Data(file.image));
            && o.Ok? && o.st.core.mode == Done && o.st.core.z.Over?
            && var rows := o.st.core.z.rows;
            && Sliced(image, depth, out, rows)
            && (|rows| == Total(image) || |out| < Offset(image, depth, |rows| + 1))
            && (|rows| == Total(image) <==> |out| >= Offset(image, depth, Total(image)))
            && (|rows| == Total(image) ==> LogOf(image, |rows|) == RowMachine.LogAt(image, 7, 0))
  {
    hide Total, Sliced, Offset, RowCodec, Cut, FeedAll, Output, PushStream.Stream, PushStream.Regular,
         PushStream.Accepted, LogOf, WithImages;
    var c := RowCodec(image, depth, decode, verdict);
    var out := Output(c, d, PushStream.Data(file.image));
    ImageIsShown(c, env, sigBytes, file, d, [], info, pieces);
    NoSlices(image, depth, out);
    assert out[0..] == out;
    CutSlices(image, depth, decode, verdict, out, []);
    var rows := Cut(c, [], out).rows;
    SlicedSize(image, depth, out, rows);
    NextOffset(image, depth, |rows|);
    OffsetGrows(image, depth, |rows|, Total(image));
    if |rows| < Total(image) {
      OffsetGrows(image, depth, |rows| + 1, Total(image));
    }
    StartAndEnd(image);
  }

  lemma NoSlices(image: RowMachine.Image, depth: nat, all: Bytes)
    ensures Sliced(image, depth, all, []) && Offset(image, depth, 0) == 0
  {
    hide Total;
  }

  // ---- How long the data has to be -----------------------------------------------------------------------

  lemma {:induction false} PassOffset(image: RowMachine.Image, depth: nat, p: Pass, k: nat)
    requires RowMachine.Live(image, p) && k <= PassRows(image.height, p)
    ensures var before := RowMachine.DataBefore(image, p);
            Offset(image, depth, before + k)
            == Offset(image, depth, before) + k * (RowBytes(depth, PassCols(image.width, p)) + 1)
  {
    hide RowBytes, PassCols, PassRows, Offset, RowMachine.Live, PassFrom;
    if k > 0 {
      PassOffset(image, depth, p, k - 1);
      PassIs(image, RowMachine.DataBefore(image, p) + k - 1, p);
      NextOffset(image, depth, RowMachine.DataBefore(image, p) + k - 1);
      MulDistributes(k - 1, 1, RowBytes(depth, PassCols(image.width, p)) + 1);
    }
  }

  /** With whole bytes in a pixel: the bytes of all pixels so far, and a filter type for every data row. */
  lemma {:induction false} LengthBefore(image: RowMachine.Image, depth: nat, passes: nat)
    requires depth >= 8 && passes <= 7
    ensures Offset(image, depth, RowMachine.DataBefore(image, passes))
            == RowMachine.LivePixels(image, passes) * (depth / 8) + RowMachine.DataBefore(image, passes)
  {
    hide RowMachine.Live, PassCols, PassRows, Offset;
    NoSlices(image, depth, []);
    if passes > 0 {
      var p := passes - 1;
      LengthBefore(image, depth, p);
      if RowMachine.Live(image, p) {
        PassOffset(image, depth, p, PassRows(image.height, p));
        RowTimes(PassRows(image.height, p), PassCols(image.width, p), depth / 8, RowMachine.LivePixels(image, p));
      }
    }
  }

  lemma RowTimes(rows: nat, cols: nat, bytes: nat, pixels: nat)
    ensures rows * (cols * bytes + 1) == rows * cols * bytes + rows
    ensures (pixels + rows * cols) * bytes == pixels * bytes + rows * cols * bytes
  {
    MulAssoc(rows, cols, bytes);
    MulDistributes(pixels, rows * cols, bytes);
    assert rows * (cols * bytes + 1) == rows * (cols * bytes) + rows;
  }

  /** The decompressed data of a whole image: every pixel once, and a filter type for every data row. */
  lemma DataLength(image: RowMachine.Image, depth: nat)
    requires depth >= 8
    ensures Offset(image, depth, Total(image)) == image.width * image.height * (depth / 8) + Total(image)
  {
    hide Offset, RowMachine.DataBefore, RowMachine.LivePixels;
    LengthBefore(image, depth, 7);
    RowMachine.AllPixelsRead(image);
  }
}
