/** From image data to rows: `png_process_IDAT_data` and the inflate calls in it
    (android/jni/libpng/pngpread.c:236-242, 829-931). */
module PushInflate {
  import opened Basics
  import opened PushSpec

  /** What the loop calls.  The decompressor is a machine: one more byte of the stream changes its state and
      fixes some more output.  A full row buffer goes to `png_push_process_row`, which changes the row state R or
      raises an error; `rowBytes` is PNG_ROWBYTES of the current row, and `complete` that the last row is done. */
  datatype Codec<!D, !R> = Codec(
    decode: (D, byte) -> (D, Bytes),
    verdict: D -> ZStatus,
    rowBytes: R -> nat,
    row: (R, Bytes) -> Option<R>,
    complete: R -> bool)

  /** Between two bytes: output that inflate has not handed out yet, the row buffer up to `next_out`, the rows.
      After PNG_FLAG_ZSTREAM_ENDED or an error only the rows count. */
  datatype Progress<D, R> =
    | Going(decoder: D, waiting: Bytes, row: Bytes, rows: R)
    | Over(rows: R)
    | Wrong(rows: R)

  /** A row with its filter byte. */
  function RowSize<D, R>(c: Codec<D, R>, r: R): (n: nat)
    ensures n > 0
  {
    c.rowBytes(r) + 1
  }

  /** Room in the row buffer, and nothing in it when all rows are done. */
  predicate Good<D, R>(c: Codec<D, R>, s: Progress<D, R>) {
    s.Going? ==> |s.row| < RowSize(c, s.rows) && (c.complete(s.rows) ==> s.row == [])
  }

  // ---- Byte by byte ----------------------------------------------------------------------------------

  /** As much output as there is and as fits into the row buffer. */
  function Fill<D, R>(c: Codec<D, R>, s: Progress<D, R>): Progress<D, R>
    requires s.Going? && |s.row| <= RowSize(c, s.rows)
  {
    var n := Min(|s.waiting|, RowSize(c, s.rows) - |s.row|);
    s.(waiting := s.waiting[n..], row := s.row + s.waiting[..n])
  }

  /** What the loop makes of it: unexpected output ends the stream, a full buffer is a row, and then what inflate
      says about the stream counts; an error behind the last row does not. */
  function Checked<D, R>(c: Codec<D, R>, s: Progress<D, R>): Progress<D, R>
    requires s.Going?
  {
    if s.row != [] && c.complete(s.rows) then Over(s.rows)
    else if |s.row| == RowSize(c, s.rows) then
      match c.row(s.rows, s.row)
      case None => Wrong(s.rows)
      case Some(r) => s.(row := [], rows := r)
    else
      match c.verdict(s.decoder)
      case Running => s
      case Ended => Over(s.rows)
      case Broken => if c.complete(s.rows) then Over(s.rows) else Wrong(s.rows)
  }

  /** All the output that is there, before the next byte is taken. */
  function Settle<D, R>(c: Codec<D, R>, s: Progress<D, R>): (r: Progress<D, R>)
    requires Good(c, s)
    ensures Good(c, r) && (r.Going? ==> r.waiting == [] && c.verdict(r.decoder) == Running)
    decreases if s.Going? then |s.waiting| else 0
  {
    if !s.Going? then s
    else if s.waiting == [] then Checked(c, s)
    else Settle(c, Checked(c, Fill(c, s)))
  }

  function Decoded<D, R>(c: Codec<D, R>, s: Progress<D, R>, b: byte): Progress<D, R>
    requires s.Going?
  {
    var (d, out) := c.decode(s.decoder, b);
    s.(decoder := d, waiting := out)
  }

  /** One byte of image data; it is ignored when the stream is over. */
  function Eat<D, R>(c: Codec<D, R>, s: Progress<D, R>, b: byte): (r: Progress<D, R>)
    requires Good(c, s)
    ensures Good(c, r)
  {
    var t := Settle(c, s);
    if t.Going? then Checked(c, Fill(c, Decoded(c, t, b))) else t
  }

  function EatAll<D, R>(c: Codec<D, R>, s: Progress<D, R>, data: Bytes): (r: Progress<D, R>)
    requires Good(c, s)
    ensures Good(c, r)
    decreases |data|
  {
    if data == [] then s else EatAll(c, Eat(c, s, data[0]), data[1..])
  }

  // ---- Call by call ----------------------------------------------------------------------------------

  datatype Fetched<D> = Fetched(decoder: D, waiting: Bytes, row: Bytes, rest: Bytes, verdict: ZStatus)

  /** `inflate` with Z_SYNC_FLUSH: it goes on until the output space is full, the stream has ended or is broken,
      or the input is used up. */
  function Call<D, R>(c: Codec<D, R>, d: D, waiting: Bytes, row: Bytes, size: nat, input: Bytes): (f: Fetched<D>)
    requires |row| < size
    ensures row <= f.row && |f.row| <= size && |f.rest| <= |input|
    decreases |input|
  {
    var n := Min(|waiting|, size - |row|);
    var filled := row + waiting[..n];
    if |filled| == size then Fetched(d, waiting[n..], filled, input, Running)
    else if c.verdict(d) != Running || input == [] then Fetched(d, [], filled, input, c.verdict(d))
    else
      var (d', out) := c.decode(d, input[0]);
      Call(c, d', out, filled, size, input[1..])
  }

  /** What the library does when the output space is full: it may read on, as long as it has nothing to write, and it
      may then tell what it has found there. */
  datatype Ahead = Ahead(bytes: nat, told: bool)

  function ReadOn<D, R>(c: Codec<D, R>, f: Fetched<D>, bytes: nat): (g: Fetched<D>)
    ensures g.row == f.row && |g.rest| <= |f.rest|
    decreases bytes
  {
    if bytes == 0 || f.waiting != [] || f.rest == [] || c.verdict(f.decoder) != Running then f
    else
      var (d, out) := c.decode(f.decoder, f.rest[0]);
      ReadOn(c, Fetched(d, out, f.row, f.rest[1..], f.verdict), bytes - 1)
  }

  function CallAhead<D, R>(c: Codec<D, R>, d: D, waiting: Bytes, row: Bytes, size: nat, input: Bytes, ahead: Ahead)
    : (g: Fetched<D>)
    requires |row| < size
    ensures row <= g.row && |g.row| <= size && |g.rest| <= |input|
  {
    var f := Call(c, d, waiting, row, size, input);
    if |f.row| < size then f
    else
      var g := ReadOn(c, f, ahead.bytes);
      if ahead.told && g.waiting == [] then g.(verdict := c.verdict(g.decoder)) else g
  }

  /** The tests behind a call, in their order. */
  function Tested<D, R>(c: Codec<D, R>, g: Fetched<D>, rows: R): (t: Progress<D, R>)
    requires |g.row| <= RowSize(c, rows)
    ensures Good(c, t)
  {
    if g.verdict == Broken then if c.complete(rows) then Over(rows) else Wrong(rows)
    else if g.row != [] && c.complete(rows) then Over(rows)
    else if |g.row| < RowSize(c, rows) then
      if g.verdict == Ended then Over(rows) else Going(g.decoder, g.waiting, g.row, rows)
    else
      match c.row(rows, g.row)
      case None => Wrong(rows)
      case Some(r) => if g.verdict == Ended then Over(r) else Going(g.decoder, g.waiting, [], r)
  }

  function Choice(plan: seq<Ahead>): Ahead {
    if plan == [] then Ahead(0, false) else plan[0]
  }

  function Later(plan: seq<Ahead>): seq<Ahead> {
    if plan == [] then [] else plan[1..]
  }

  /** `png_process_IDAT_data` for a library that reads ahead by this plan, call after call; it does not when the plan is
      at its end. */
  function Process<D, R>(c: Codec<D, R>, s: Progress<D, R>, data: Bytes, plan: seq<Ahead>): (r: Progress<D, R>)
    requires Good(c, s)
    ensures Good(c, r)
    decreases |data|, if s.Going? then |s.waiting| + 1 else 0
  {
    if data == [] || !s.Going? then s
    else
      var g := CallAhead(c, s.decoder, s.waiting, s.row, RowSize(c, s.rows), data, Choice(plan));
      AheadMoves(c, s.decoder, s.waiting, s.row, RowSize(c, s.rows), data, Choice(plan));
      Process(c, Tested(c, g, s.rows), g.rest, Later(plan))
  }

  /** The warnings of `png_process_IDAT_data`. */
  datatype Warning = Truncated | ExtraOutput | ExtraInput

  /** The warning with which the tests leave the loop for good. */
  function Leaving<D, R>(c: Codec<D, R>, g: Fetched<D>, rows: R): Option<Warning> {
    if g.verdict == Broken then if c.complete(rows) then Some(Truncated) else None
    else if g.row != [] && c.complete(rows) then Some(ExtraOutput)
    else None
  }

  /** The warnings of one call; input behind the end of the stream gets one in every call. */
  function Warnings<D, R>(c: Codec<D, R>, s: Progress<D, R>, data: Bytes, plan: seq<Ahead>): seq<Warning>
    requires Good(c, s)
    decreases |data|, if s.Going? then |s.waiting| + 1 else 0
  {
    if data == [] || s.Wrong? then []
    else if s.Over? then [ExtraInput]
    else
      var g := CallAhead(c, s.decoder, s.waiting, s.row, RowSize(c, s.rows), data, Choice(plan));
      AheadMoves(c, s.decoder, s.waiting, s.row, RowSize(c, s.rows), data, Choice(plan));
      match Leaving(c, g, s.rows)
      case Some(w) => [w]
      case None => Warnings(c, Tested(c, g, s.rows), g.rest, Later(plan))
  }

  // ---- The loop is the byte machine --------------------------------------------------------------------

  /** Handing out waiting output changes nothing that comes later. */
  lemma FillFirst<D, R>(c: Codec<D, R>, s: Progress<D, R>)
    requires s.Going? && Good(c, s)
    ensures Good(c, Checked(c, Fill(c, s))) && Settle(c, Checked(c, Fill(c, s))) == Settle(c, s)
  {
    if s.waiting == [] {
      assert s.row + [] == s.row && Fill(c, s) == s;
    }
  }

  lemma FilledIsEaten<D, R>(c: Codec<D, R>, s: Progress<D, R>, data: Bytes)
    requires s.Going? && Good(c, s) && data != []
    ensures Good(c, Checked(c, Fill(c, s))) && EatAll(c, Checked(c, Fill(c, s)), data) == EatAll(c, s, data)
  {
    hide Settle, Checked, Fill;
    FillFirst(c, s);
  }

  lemma {:induction false} OverStays<D, R>(c: Codec<D, R>, s: Progress<D, R>, data: Bytes)
    requires !s.Going?
    ensures EatAll(c, s, data) == s
  {
    if data != [] {
      OverStays(c, s, data[1..]);
    }
  }

  lemma CallStep<D, R>(c: Codec<D, R>, d: D, waiting: Bytes, row: Bytes, size: nat, input: Bytes)
    requires |row| < size
    ensures var n := Min(|waiting|, size - |row|);
            var filled := row + waiting[..n];
            Call(c, d, waiting, row, size, input)
            == if |filled| == size then Fetched(d, waiting[n..], filled, input, Running)
               else if c.verdict(d) != Running || input == [] then Fetched(d, [], filled, input, c.verdict(d))
               else Call(c, c.decode(d, input[0]).0, c.decode(d, input[0]).1, filled, size, input[1..])
  {
  }

  lemma NothingEaten<D, R>(c: Codec<D, R>, s: Progress<D, R>)
    requires Good(c, s)
    ensures EatAll(c, s, []) == s
  {
  }

  lemma FitsAndSettles<D, R>(c: Codec<D, R>, s: Progress<D, R>)
    requires s.Going? && Good(c, s)
    requires |Fill(c, s).row| < RowSize(c, s.rows) && c.verdict(s.decoder) == Running
    ensures Settle(c, s) == if Fill(c, s).row != [] && c.complete(s.rows) then Over(s.rows) else Fill(c, s)
    ensures Fill(c, s).Going?
  {
    hide Settle;
    FillFirst(c, s);
    SettleStep(c, Checked(c, Fill(c, s)));
  }

  lemma SettleStep<D, R>(c: Codec<D, R>, s: Progress<D, R>)
    requires Good(c, s)
    ensures !s.Going? ==> Settle(c, s) == s
    ensures s.Going? && s.waiting == [] ==> Settle(c, s) == Checked(c, s)
  {
    hide Checked, Fill;
  }

  /** The first byte, when all output before it fits and the stream goes on. */
  lemma ByteEaten<D, R>(c: Codec<D, R>, s: Progress<D, R>, data: Bytes)
    requires s.Going? && Good(c, s) && data != []
    requires |Fill(c, s).row| < RowSize(c, s.rows) && c.verdict(s.decoder) == Running
    ensures var filled := Fill(c, s);
            if filled.row != [] && c.complete(s.rows) then EatAll(c, s, data) == EatAll(c, Over(s.rows), data[1..])
            else
              var next := Checked(c, Fill(c, Decoded(c, filled, data[0])));
              Good(c, next) && EatAll(c, s, data) == EatAll(c, next, data[1..])
  {
    hide Settle, Checked, Fill, Decoded;
    FitsAndSettles(c, s);
    SettleStep(c, Over(s.rows));
    assert Eat(c, s, data[0]) == if Settle(c, s).Going? then Eat(c, s, data[0]) else Settle(c, s);
    if !Settle(c, s).Going? {
      assert Eat(c, s, data[0]) == Over(s.rows);
      OverStays(c, Over(s.rows), data[1..]);
    }
  }

  /** One call of inflate and the tests behind it do what the byte machine does with the bytes that were used. */
  lemma {:induction false} CallIsEaten<D, R>(c: Codec<D, R>, s: Progress<D, R>, input: Bytes)
    requires s.Going? && Good(c, s)
    ensures var f := Call(c, s.decoder, s.waiting, s.row, RowSize(c, s.rows), input);
            var t := Checked(c, Going(f.decoder, f.waiting, f.row, s.rows));
            && Good(c, t)
            && EatAll(c, t, f.rest) == if input == [] then Checked(c, Fill(c, s)) else EatAll(c, s, input)
    decreases |input|
  {
    hide EatAll, Settle, Call;
    CallStep(c, s.decoder, s.waiting, s.row, RowSize(c, s.rows), input);
    var filled := Fill(c, s);
    var f := Call(c, s.decoder, s.waiting, s.row, RowSize(c, s.rows), input);
    var t := Checked(c, Going(f.decoder, f.waiting, f.row, s.rows));
    if |filled.row| == RowSize(c, s.rows) || c.verdict(s.decoder) != Running || input == [] {
      NothingEaten(c, t);
      if input != [] {
        FilledIsEaten(c, s, input);
      }
    } else {
      ByteEaten(c, s, input);
      if filled.row != [] && c.complete(s.rows) {
        OverStays(c, Over(s.rows), input[1..]);
        OverStays(c, t, f.rest);
      } else {
        var next := Decoded(c, filled, input[0]);
        CallIsEaten(c, next, input[1..]);
        if input[1..] == [] {
          NothingEaten(c, Checked(c, Fill(c, next)));
        } else {
          FilledIsEaten(c, next, input[1..]);
        }
      }
    }
  }

  /** The stream fields and the row buffer of `png_struct`. */
  class ImageReader<D, R(!new)> {
    const codec: Codec<D, R>
    /** What the library keeps behind `zstream`. */
    var decoder: D
    var waiting: Bytes
    /** `next_out`, as an index into the row buffer, and `avail_out`. */
    const rowBuf: array<byte>
    var nextOut: nat
    var availOut: nat
    /** PNG_FLAG_ZSTREAM_ENDED */
    var ended: bool
    /** Set by `png_error`. */
    var failed: bool
    var rows: R
    var warnings: seq<Warning>

    /** The row buffer holds the longest row. */
    ghost predicate Fits()
      reads this
    {
      forall r :: RowSize(codec, r) <= rowBuf.Length
    }

    ghost predicate Valid()
      reads this
    {
      && Fits() && nextOut + availOut <= rowBuf.Length
      && (!ended && !failed && availOut > 0 ==>
            nextOut + availOut == RowSize(codec, rows) && (codec.complete(rows) ==> nextOut == 0))
    }

    /** A full row buffer has been handed on. */
    ghost function Abs(): Progress<D, R>
      requires Valid()
      reads this, rowBuf
    {
      if failed then Wrong(rows) else if ended then Over(rows)
      else Going(decoder, waiting, if availOut == 0 then [] else rowBuf[..nextOut], rows)
    }

    /** The start of the image in `png_push_read_chunk`. */
    constructor (codec: Codec<D, R>, decoder: D, rows: R, longest: nat)
      requires forall r :: RowSize(codec, r) <= longest
      ensures Valid() && !failed && this.codec == codec && Abs() == Going(decoder, [], [], rows)
    {
      this.codec, this.decoder, this.rows := codec, decoder, rows;
      waiting, ended, failed, warnings := [], false, false, [];
      rowBuf := new byte[longest];
      nextOut, availOut := 0, RowSize(codec, rows);
    }

    /** `inflate` on what is left of the data; how far it reads ahead is up to the library. */
    method CallInflate(data: Bytes, nextIn: nat, ahead: Ahead) returns (ret: ZStatus, newIn: nat)
      requires nextIn <= |data| && availOut > 0 && nextOut + availOut <= rowBuf.Length
      modifies this`decoder, this`waiting, this`nextOut, this`availOut, rowBuf
      ensures nextIn <= newIn <= |data| && nextOut + availOut == old(nextOut + availOut)
      ensures Fetched(decoder, waiting, rowBuf[..nextOut], data[newIn..], ret)
           == CallAhead(codec, old(decoder), old(waiting), old(rowBuf[..nextOut]), old(nextOut + availOut),
                        data[nextIn..], ahead)
    {
      hide CallAhead;
      var size := nextOut + availOut;
      ghost var before := rowBuf[..nextOut];
      var f := CallAhead(codec, decoder, waiting, rowBuf[..nextOut], size, data[nextIn..], ahead);
      AheadMoves(codec, decoder, waiting, rowBuf[..nextOut], size, data[nextIn..], ahead);
      forall k | nextOut <= k < |f.row| {
        rowBuf[k] := f.row[k];
      }
      assert before == f.row[..nextOut];
      assert rowBuf[..|f.row|] == f.row;
      decoder, waiting, nextOut, availOut := f.decoder, f.waiting, |f.row|, size - |f.row|;
      ret, newIn := f.verdict, |data| - |f.rest|;
      assert data[nextIn..][|data| - nextIn - |f.rest|..] == data[newIn..];
    }

    /** `png_push_process_row` with a full row buffer. */
    method ProcessRow()
      requires Valid() && !ended && !failed && nextOut == RowSize(codec, rows)
      modifies this`rows, this`failed
      ensures match codec.row(old(rows), rowBuf[..nextOut])
              case None => failed && rows == old(rows)
              case Some(r) => !failed && rows == r
    {
      match codec.row(rows, rowBuf[..nextOut])
      case None => failed := true;
      case Some(r) => rows := r;
    }

    /** The tests behind a call of inflate; `left` is set when they return from the function. */
    method TakeOutput(ret: ZStatus) returns (left: bool)
      requires Fits() && !failed && !ended && nextOut + availOut == RowSize(codec, rows)
      modifies this`ended, this`failed, this`rows, this`warnings
      ensures Valid()
      ensures var w := Leaving(codec, Fetched(decoder, waiting, old(rowBuf[..nextOut]), [], ret), old(rows));
              && warnings == old(warnings) + (if w.Some? then [w.value] else [])
              && (left <==> w.Some? || failed) && (left ==> ended || failed)
      ensures Abs() == Tested(codec, Fetched(decoder, waiting, old(rowBuf[..nextOut]), [], ret), old(rows))
    {
      if ret == Broken {
        ended := true;
        if codec.complete(rows) {
          warnings := warnings + [Truncated];
        } else {
          failed := true;
        }
        return true;
      }
      if nextOut != 0 {
        if codec.complete(rows) {
          warnings := warnings + [ExtraOutput];
          ended := true;
          return true;
        }
        if availOut == 0 {
          ProcessRow();
          if failed {
            return true;
          }
        }
      }
      if ret == Ended {
        ended := true;
      }
      left := false;
    }

    /** Somewhere to put the output. */
    method MakeRoom()
      requires Valid() && !failed && !ended
      modifies this`availOut, this`nextOut
      ensures Valid() && Abs() == old(Abs()) == Going(decoder, waiting, rowBuf[..nextOut], rows)
      ensures availOut > 0 && nextOut + availOut == RowSize(codec, rows)
    {
      if !(availOut > 0) {
        availOut, nextOut := RowSize(codec, rows), 0;
      }
    }

    /** One round of the loop. */
    method Round(data: Bytes, nextIn: nat, plan: seq<Ahead>) returns (newIn: nat, left: bool)
      requires Valid() && !failed && !ended && nextIn < |data|
      modifies this, rowBuf
      ensures Valid() && nextIn <= newIn <= |data| && Good(codec, old(Abs())) && Good(codec, Abs())
      ensures Process(codec, Abs(), data[newIn..], Later(plan)) == Process(codec, old(Abs()), data[nextIn..], plan)
      ensures warnings + (if left then [] else Warnings(codec, Abs(), data[newIn..], Later(plan)))
              == old(warnings) + Warnings(codec, old(Abs()), data[nextIn..], plan)
      ensures newIn == nextIn && !ended && !failed ==> |waiting| < |old(waiting)|
      ensures left ==> ended || failed
    {
      hide Process, CallAhead, Tested, Leaving, Warnings, Choice, Later;
      MakeRoom();
      ghost var s, input := Abs(), data[nextIn..];
      ProcessStep(codec, s, input, plan);
      AheadMoves(codec, decoder, waiting, s.row, RowSize(codec, rows), input, Choice(plan));
      var ret;
      ret, newIn := CallInflate(data, nextIn, Choice(plan));
      left := TakeOutput(ret);
      EndTells(codec, Fetched(decoder, waiting, rowBuf[..nextOut], [], ret), s.rows);
      if left {
        ProcessEnds(codec, Abs(), data[newIn..], Later(plan));
      }
    }

    /** `png_process_IDAT_data`, with a library that reads ahead by any plan. */
    method ProcessIdatData(data: Bytes, plan: seq<Ahead>)
      requires Valid() && !failed
      modifies this, rowBuf
      ensures Valid() && (data == [] ==> failed)
      ensures data != [] ==> Good(codec, old(Abs())) && Abs() == Process(codec, old(Abs()), data, plan)
      ensures data != [] ==> warnings == old(warnings) + Warnings(codec, old(Abs()), data, plan)
    {
      hide Process, CallAhead, Tested, Warnings;
      if |data| == 0 {
        failed := true;
        return;
      }
      ghost var all, allWarned := Process(codec, Abs(), data, plan), warnings + Warnings(codec, Abs(), data, plan);
      var nextIn, left, next := 0, false, plan;
      assert data[0..] == data;
      while nextIn < |data| && !ended && !failed && !left
        invariant Valid() && nextIn <= |data|
        invariant Good(codec, Abs()) && Process(codec, Abs(), data[nextIn..], next) == all
        invariant warnings + (if left then [] else Warnings(codec, Abs(), data[nextIn..], next)) == allWarned
        invariant left ==> ended || failed
        decreases |data| - nextIn, if ended || failed then 0 else |waiting| + 1
      {
        nextIn, left := Round(data, nextIn, next);
        next := Later(next);
      }
      ProcessEnds(codec, Abs(), data[nextIn..], next);
      if !left && !failed && nextIn < |data| {
        warnings := warnings + [ExtraInput];
      }
    }
  }

  lemma ProcessStep<D, R>(c: Codec<D, R>, s: Progress<D, R>, data: Bytes, plan: seq<Ahead>)
    requires Good(c, s) && s.Going? && data != []
    ensures var g := CallAhead(c, s.decoder, s.waiting, s.row, RowSize(c, s.rows), data, Choice(plan));
            && Process(c, s, data, plan) == Process(c, Tested(c, g, s.rows), g.rest, Later(plan))
            && Tested(c, g, s.rows) == Tested(c, g.(rest := []), s.rows)
            && Leaving(c, g, s.rows) == Leaving(c, g.(rest := []), s.rows)
            && Warnings(c, s, data, plan)
               == match Leaving(c, g, s.rows)
                  case Some(w) => [w]
                  case None => Warnings(c, Tested(c, g, s.rows), g.rest, Later(plan))
  {
    hide CallAhead;
  }

  lemma EndTells<D, R>(c: Codec<D, R>, g: Fetched<D>, rows: R)
    requires |g.row| <= RowSize(c, rows)
    ensures var t := Tested(c, g, rows);
            t.Going? ==> g.verdict == Running && t.waiting == g.waiting && t.decoder == g.decoder
  {
  }

  lemma ProcessEnds<D, R>(c: Codec<D, R>, s: Progress<D, R>, data: Bytes, plan: seq<Ahead>)
    requires Good(c, s) && (data == [] || !s.Going?)
    ensures Process(c, s, data, plan) == s
    ensures Warnings(c, s, data, plan) == if data != [] && s.Over? then [ExtraInput] else []
  {
  }

  /** How a call ends: the row is full, or all output is there and the stream says why; without input used, some
      output was handed out. */
  lemma {:induction false} CallEnds<D, R>(c: Codec<D, R>, d: D, waiting: Bytes, row: Bytes, size: nat, input: Bytes)
    requires |row| < size
    ensures var f := Call(c, d, waiting, row, size, input);
            && (if |f.row| == size then f.verdict == Running else f.verdict == c.verdict(f.decoder) && f.waiting == [])
            && (input != [] && |f.rest| == |input| && f.verdict == Running ==> |f.waiting| < |waiting|)
    decreases |input|
  {
    var n := Min(|waiting|, size - |row|);
    var filled := row + waiting[..n];
    if |filled| < size && c.verdict(d) == Running && input != [] {
      var (d', out) := c.decode(d, input[0]);
      CallEnds(c, d', out, filled, size, input[1..]);
    }
  }

  /** What is left of the input is its end. */
  lemma {:induction false} CallRest<D, R>(c: Codec<D, R>, d: D, waiting: Bytes, row: Bytes, size: nat, input: Bytes)
    requires |row| < size
    ensures var f := Call(c, d, waiting, row, size, input); f.rest == input[|input| - |f.rest|..]
    decreases |input|
  {
    var n := Min(|waiting|, size - |row|);
    var filled := row + waiting[..n];
    if |filled| < size && c.verdict(d) == Running && input != [] {
      var (d', out) := c.decode(d, input[0]);
      CallRest(c, d', out, filled, size, input[1..]);
    }
  }

  lemma {:induction false} ReadOnRest<D, R>(c: Codec<D, R>, f: Fetched<D>, bytes: nat)
    ensures var g := ReadOn(c, f, bytes);
            g.verdict == f.verdict && g.rest == f.rest[|f.rest| - |g.rest|..] && (|g.rest| == |f.rest| ==> g == f)
    decreases bytes
  {
    if bytes > 0 && f.waiting == [] && f.rest != [] && c.verdict(f.decoder) == Running {
      var (d, out) := c.decode(f.decoder, f.rest[0]);
      ReadOnRest(c, Fetched(d, out, f.row, f.rest[1..], f.verdict), bytes - 1);
    }
  }

  /** A call leaves an end of its input, and uses up some of it or hands out some output that waited. */
  lemma AheadMoves<D, R>(c: Codec<D, R>, d: D, waiting: Bytes, row: Bytes, size: nat, input: Bytes, ahead: Ahead)
    requires |row| < size
    ensures var g := CallAhead(c, d, waiting, row, size, input, ahead);
            && g.rest == input[|input| - |g.rest|..]
            && (input != [] && |g.rest| == |input| && g.verdict == Running ==> |g.waiting| < |waiting|)
            && (|g.row| < size ==> g.waiting == [])
  {
    hide Call, ReadOn;
    CallEnds(c, d, waiting, row, size, input);
    CallRest(c, d, waiting, row, size, input);
    var f := Call(c, d, waiting, row, size, input);
    ReadOnRest(c, f, ahead.bytes);
    var g := ReadOn(c, f, ahead.bytes);
    EndOfEnd(input, |f.rest|, |g.rest|);
  }

  lemma EndOfEnd(input: Bytes, n: nat, m: nat)
    requires m <= n <= |input|
    ensures input[|input| - n..][n - m..] == input[|input| - m..]
  {
  }

  // ---- Without reading ahead -----------------------------------------------------------------------------

  lemma TestedIsChecked<D, R>(c: Codec<D, R>, s: Progress<D, R>, data: Bytes)
    requires Good(c, s) && s.Going?
    ensures var f := Call(c, s.decoder, s.waiting, s.row, RowSize(c, s.rows), data);
            && f == CallAhead(c, s.decoder, s.waiting, s.row, RowSize(c, s.rows), data, Ahead(0, false))
            && Tested(c, f, s.rows) == Checked(c, Going(f.decoder, f.waiting, f.row, s.rows))
  {
    hide Call;
    CallEnds(c, s.decoder, s.waiting, s.row, RowSize(c, s.rows), data);
  }

  /** A library that stops when the output space is full makes the loop the byte machine. */
  lemma {:induction false} ProcessIsEaten<D, R>(c: Codec<D, R>, s: Progress<D, R>, data: Bytes)
    requires Good(c, s)
    ensures Process(c, s, data, []) == EatAll(c, s, data)
    decreases |data|, if s.Going? then |s.waiting| + 1 else 0
  {
    hide EatAll, Call, CallAhead, Tested, Checked, Process;
    if data == [] || !s.Going? {
      ProcessEnds(c, s, data, []);
      if data == [] { NothingEaten(c, s); } else { OverStays(c, s, data); }
    } else {
      ProcessStep(c, s, data, []);
      CallIsEaten(c, s, data);
      TestedIsChecked(c, s, data);
      AheadMoves(c, s.decoder, s.waiting, s.row, RowSize(c, s.rows), data, Ahead(0, false));
      var f := Call(c, s.decoder, s.waiting, s.row, RowSize(c, s.rows), data);
      EndTells(c, f, s.rows);
      ProcessIsEaten(c, Tested(c, f, s.rows), f.rest);
    }
  }
}
