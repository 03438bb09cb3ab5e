/** What reading ahead changes: `png_process_IDAT_data` with any library, whatever the cut
    (android/jni/libpng/pngpread.c:845-925). */
module PushAhead {
  import opened Basics
  import opened PushSpec
  import opened PushInflate
  import opened PushRows

  /** The data in pieces, each with a plan of the library. */
  function ProcessAll<D, R>(c: Codec<D, R>, s: Progress<D, R>, pieces: seq<(Bytes, seq<Ahead>)>): (r: Progress<D, R>)
    requires Good(c, s)
    ensures Good(c, r)
    decreases |pieces|
  {
    if pieces == [] then s else ProcessAll(c, Process(c, s, pieces[0].0, pieces[0].1), pieces[1..])
  }

  function Whole(pieces: seq<(Bytes, seq<Ahead>)>): Bytes {
    if pieces == [] then [] else pieces[0].0 + Whole(pieces[1..])
  }

  /** The byte machine shows one more row than was shown before the error: it fails behind it, or, if that row is the
      last one, it only ends. */
  ghost predicate RowLost<D, R>(c: Codec<D, R>, rows: R, e: Progress<D, R>) {
    exists row :: |row| == RowSize(c, rows) && c.row(rows, row).Some?
                  && e == if c.complete(c.row(rows, row).value) then Over(c.row(rows, row).value)
                          else Wrong(c.row(rows, row).value)
  }

  /** The decompressor finds the stream broken in these bytes. */
  predicate Damaged<D, R>(c: Codec<D, R>, s: Progress<D, R>, data: Bytes) {
    s.Going? && c.verdict(After(c, s.decoder, data)) == Broken
  }

  /** The same once all output is handed out, or the damage was told before the row in front of it was shown. */
  ghost predicate Agrees<D, R>(c: Codec<D, R>, f: Progress<D, R>, e: Progress<D, R>, damaged: bool)
    requires Good(c, f) && Good(c, e)
  {
    Settle(c, f) == Settle(c, e) || (damaged && f.Wrong? && RowLost(c, f.rows, Settle(c, e)))
  }

  // ---- The decompressor --------------------------------------------------------------------------------

  lemma {:induction false} AfterAppend<D, R>(c: Codec<D, R>, d: D, a: Bytes, b: Bytes)
    ensures After(c, d, a + b) == After(c, After(c, d, a), b)
    decreases |a|
  {
    if a == [] {
      assert a + b == b;
    } else if c.verdict(d) == Running {
      assert (a + b)[0] == a[0] && (a + b)[1..] == a[1..] + b;
      AfterAppend(c, c.decode(d, a[0]).0, a[1..], b);
    }
  }

  lemma {:induction false} CallAfter<D, R>(c: Codec<D, R>, d: D, waiting: Bytes, row: Bytes, size: nat, input: Bytes)
    requires |row| < size
    ensures var f := Call(c, d, waiting, row, size, input);
            After(c, f.decoder, f.rest) == After(c, d, input)
    decreases |input|
  {
    var filled := row + waiting[..Min(|waiting|, size - |row|)];
    if |filled| < size && c.verdict(d) == Running && input != [] {
      var (d', out) := c.decode(d, input[0]);
      CallAfter(c, d', out, filled, size, input[1..]);
    }
  }

  lemma {:induction false} ReadOnAfter<D, R>(c: Codec<D, R>, f: Fetched<D>, bytes: nat)
    ensures var g := ReadOn(c, f, bytes);
            After(c, g.decoder, g.rest) == After(c, f.decoder, f.rest)
    decreases bytes
  {
    if bytes > 0 && f.waiting == [] && f.rest != [] && c.verdict(f.decoder) == Running {
      var (d, out) := c.decode(f.decoder, f.rest[0]);
      ReadOnAfter(c, Fetched(d, out, f.row, f.rest[1..], f.verdict), bytes - 1);
    }
  }

  lemma AheadAfter<D, R>(c: Codec<D, R>, d: D, waiting: Bytes, row: Bytes, size: nat, input: Bytes, ahead: Ahead)
    requires |row| < size
    ensures var g := CallAhead(c, d, waiting, row, size, input, ahead);
            After(c, g.decoder, g.rest) == After(c, d, input)
  {
    hide Call, ReadOn, After;
    CallAfter(c, d, waiting, row, size, input);
    ReadOnAfter(c, Call(c, d, waiting, row, size, input), ahead.bytes);
  }

  // ---- One call ----------------------------------------------------------------------------------------

  /** Bytes read ahead behind a full row that has been taken. */
  lemma {:induction false} AheadIsEaten<D, R>(c: Codec<D, R>, f: Fetched<D>, bytes: nat, rows: R)
    ensures var g := ReadOn(c, f, bytes);
            var t, u := Going(f.decoder, f.waiting, [], rows), Going(g.decoder, g.waiting, [], rows);
            && Settle(c, EatAll(c, t, f.rest)) == Settle(c, EatAll(c, u, g.rest))
    decreases bytes
  {
    hide EatAll, Settle, Checked, Fill;
    if bytes > 0 && f.waiting == [] && f.rest != [] && c.verdict(f.decoder) == Running {
      var t := Going(f.decoder, f.waiting, [], rows);
      var next := Decoded(c, t, f.rest[0]);
      AheadIsEaten(c, Fetched(next.decoder, next.waiting, f.row, f.rest[1..], f.verdict), bytes - 1, rows);
      SettledAlready(c, t);
      EatSettles(c, t, f.rest);
    }
  }

  lemma SettledAlready<D, R>(c: Codec<D, R>, s: Progress<D, R>)
    requires Good(c, s) && s.Going? && s.waiting == [] && s.row == [] && c.verdict(s.decoder) == Running
    ensures Settle(c, s) == s
  {
  }

  /** What the decompressor has found is what the byte machine finds, whatever is still to come. */
  lemma FoundStays<D, R>(c: Codec<D, R>, s: Progress<D, R>, data: Bytes)
    requires Good(c, s) && !Settle(c, s).Going?
    ensures Settle(c, EatAll(c, s, data)) == Settle(c, s)
  {
    hide Settle, EatAll;
    if data == [] {
      NothingEaten(c, s);
    } else {
      EatSettles(c, s, data);
    }
  }

  lemma SettledFound<D, R>(c: Codec<D, R>, d: D, rows: R)
    requires c.verdict(d) != Running
    ensures Settle(c, Going(d, [], [], rows))
            == if c.verdict(d) == Ended || c.complete(rows) then Over(rows) else Wrong(rows)
  {
  }

  /** One call with the tests behind it. */
  lemma RoundAgrees<D, R>(c: Codec<D, R>, s: Progress<D, R>, data: Bytes, ahead: Ahead)
    requires Good(c, s) && s.Going? && data != []
    ensures var g := CallAhead(c, s.decoder, s.waiting, s.row, RowSize(c, s.rows), data, ahead);
            var t, e := Tested(c, g, s.rows), EatAll(c, s, data);
            || Settle(c, EatAll(c, t, g.rest)) == Settle(c, e)
            || (Damaged(c, s, data) && t.Wrong? && RowLost(c, t.rows, Settle(c, e)))
  {
    hide Call, ReadOn, EatAll, Settle, After;
    var size := RowSize(c, s.rows);
    var f := Call(c, s.decoder, s.waiting, s.row, size, data);
    CallIsEaten(c, s, data);
    TestedIsChecked(c, s, data);
    if |f.row| == size {
      var g := CallAhead(c, s.decoder, s.waiting, s.row, size, data, ahead);
      var t := Tested(c, g, s.rows);
      var tf := Tested(c, f, s.rows);
      CallEnds(c, s.decoder, s.waiting, s.row, size, data);
      if !tf.Going? {
        OverStays(c, tf, f.rest);
        OverStays(c, tf, g.rest);
      } else {
        AheadIsEaten(c, f, ahead.bytes, tf.rows);
        ToldAgrees(c, s, f, g, data, ahead);
      }
    }
  }

  /** With a full row that is taken. */
  lemma ToldAgrees<D, R>(c: Codec<D, R>, s: Progress<D, R>, f: Fetched<D>, g: Fetched<D>, data: Bytes, ahead: Ahead)
    requires Good(c, s) && s.Going? && |f.row| == RowSize(c, s.rows) && !c.complete(s.rows)
    requires f == Call(c, s.decoder, s.waiting, s.row, RowSize(c, s.rows), data) && f.verdict == Running
    requires g == CallAhead(c, s.decoder, s.waiting, s.row, RowSize(c, s.rows), data, ahead)
    requires c.row(s.rows, f.row).Some?
    ensures var u, t := Going(g.decoder, g.waiting, [], c.row(s.rows, f.row).value), Tested(c, g, s.rows);
            || Settle(c, EatAll(c, t, g.rest)) == Settle(c, EatAll(c, u, g.rest))
            || (Damaged(c, s, data) && t.Wrong? && RowLost(c, t.rows, Settle(c, EatAll(c, u, g.rest))))
  {
    hide Call, EatAll, Settle, ReadOn, After, RowLost;
    ReadOnRest(c, f, ahead.bytes);
    var r := c.row(s.rows, f.row).value;
    var u, t := Going(g.decoder, g.waiting, [], r), Tested(c, g, s.rows);
    if g.verdict != Running {
      assert g.waiting == [] && g.verdict == c.verdict(g.decoder);
      SettledFound(c, g.decoder, r);
      FoundStays(c, u, g.rest);
      if g.verdict == Ended {
        OverStays(c, t, g.rest);
        SettleStep(c, t);
      } else {
        AheadAfter(c, s.decoder, s.waiting, s.row, RowSize(c, s.rows), data, ahead);
        AfterFound(c, g.decoder, g.rest);
        LostRow(c, s.rows, f.row);
      }
    }
  }

  lemma AfterFound<D, R>(c: Codec<D, R>, d: D, data: Bytes)
    requires c.verdict(d) != Running
    ensures After(c, d, data) == d
  {
  }

  lemma LostRow<D, R>(c: Codec<D, R>, rows: R, row: Bytes)
    requires |row| == RowSize(c, rows) && c.row(rows, row).Some?
    ensures var r := c.row(rows, row).value; RowLost(c, rows, if c.complete(r) then Over(r) else Wrong(r))
  {
  }

  // ---- All calls ---------------------------------------------------------------------------------------

  /** One call of `png_process_IDAT_data` and the byte machine. */
  lemma {:induction false} ProcessAgrees<D, R>(c: Codec<D, R>, s: Progress<D, R>, data: Bytes, plan: seq<Ahead>)
    requires Good(c, s)
    ensures Agrees(c, Process(c, s, data, plan), EatAll(c, s, data), Damaged(c, s, data))
    ensures Process(c, s, data, plan).Going? ==>
              s.Going? && Process(c, s, data, plan).decoder == After(c, s.decoder, data)
    decreases |data|, if s.Going? then |s.waiting| + 1 else 0
  {
    hide Process, EatAll, Settle, After, CallAhead, Tested, RowLost;
    if data == [] || !s.Going? {
      ProcessEnds(c, s, data, plan);
      if data == [] {
        NothingEaten(c, s);
        NothingAfter(c, s);
      } else {
        OverStays(c, s, data);
      }
    } else {
      var g := CallAhead(c, s.decoder, s.waiting, s.row, RowSize(c, s.rows), data, Choice(plan));
      var t := Tested(c, g, s.rows);
      ProcessStep(c, s, data, plan);
      RoundAgrees(c, s, data, Choice(plan));
      AheadMoves(c, s.decoder, s.waiting, s.row, RowSize(c, s.rows), data, Choice(plan));
      AheadAfter(c, s.decoder, s.waiting, s.row, RowSize(c, s.rows), data, Choice(plan));
      EndTells(c, g, s.rows);
      ProcessAgrees(c, t, g.rest, Later(plan));
      if t.Wrong? {
        ProcessEnds(c, t, g.rest, Later(plan));
        OverStays(c, t, g.rest);
      }
    }
  }

  lemma NothingAfter<D, R>(c: Codec<D, R>, s: Progress<D, R>)
    ensures s.Going? ==> After(c, s.decoder, []) == s.decoder
  {
  }

  lemma {:induction false} EatAppend<D, R>(c: Codec<D, R>, s: Progress<D, R>, a: Bytes, b: Bytes)
    requires Good(c, s)
    ensures EatAll(c, s, a + b) == EatAll(c, EatAll(c, s, a), b)
    decreases |a|
  {
    hide Eat;
    if a == [] {
      assert a + b == b;
    } else {
      assert (a + b)[0] == a[0] && (a + b)[1..] == a[1..] + b;
      EatAppend(c, Eat(c, s, a[0]), a[1..], b);
    }
  }

  /** What waits makes no difference to what comes. */
  lemma SettledAlike<D, R>(c: Codec<D, R>, s: Progress<D, R>, t: Progress<D, R>, data: Bytes)
    requires Good(c, s) && Good(c, t) && Settle(c, s) == Settle(c, t)
    ensures Settle(c, EatAll(c, s, data)) == Settle(c, EatAll(c, t, data))
  {
    hide Settle, EatAll;
    if data == [] {
      NothingEaten(c, s);
      NothingEaten(c, t);
    } else {
      EatSettles(c, s, data);
      EatSettles(c, t, data);
    }
  }

  lemma {:induction false} WrongStays<D, R>(c: Codec<D, R>, s: Progress<D, R>, pieces: seq<(Bytes, seq<Ahead>)>)
    requires s.Wrong?
    ensures ProcessAll(c, s, pieces) == s
    decreases |pieces|
  {
    if pieces != [] {
      ProcessEnds(c, s, pieces[0].0, pieces[0].1);
      WrongStays(c, s, pieces[1..]);
    }
  }

  /** However the image data is cut, and however far the library reads ahead in each call: the rows, the end and the
      error are those of the byte machine on the joined data, once all output is handed out.  The one exception is a
      damaged stream: the row in front of the damage may be lost, and if it is the last one, there is an error where
      the byte machine only ends. */
  lemma {:induction false} ReadingAhead<D, R>(c: Codec<D, R>, s: Progress<D, R>, pieces: seq<(Bytes, seq<Ahead>)>)
    requires Good(c, s)
    ensures Agrees(c, ProcessAll(c, s, pieces), EatAll(c, s, Whole(pieces)), Damaged(c, s, Whole(pieces)))
    decreases |pieces|
  {
    hide Process, EatAll, Settle, After, RowLost, Good;
    if pieces == [] {
      NothingEaten(c, s);
    } else {
      var (data, plan) := pieces[0];
      var rest := Whole(pieces[1..]);
      var f, e := Process(c, s, data, plan), EatAll(c, s, data);
      ProcessAgrees(c, s, data, plan);
      ReadingAhead(c, f, pieces[1..]);
      EatAppend(c, s, data, rest);
      if s.Going? {
        AfterAppend(c, s.decoder, data, rest);
      }
      if Settle(c, f) == Settle(c, e) {
        SettledAlike(c, f, e, rest);
      } else {
        WrongStays(c, f, pieces[1..]);
        LostIsFound(c, f.rows, Settle(c, e));
        FoundStays(c, e, rest);
        AfterFound(c, After(c, s.decoder, data), rest);
      }
    }
  }

  lemma LostIsFound<D, R>(c: Codec<D, R>, rows: R, e: Progress<D, R>)
    requires RowLost(c, rows, e)
    ensures !e.Going?
  {
  }

  /** So for a stream that is not damaged neither the cut nor the reading ahead matters. */
  lemma UndamagedAgree<D, R>(c: Codec<D, R>, s: Progress<D, R>, a: seq<(Bytes, seq<Ahead>)>,
      b: seq<(Bytes, seq<Ahead>)>)
    requires Good(c, s) && Whole(a) == Whole(b) && !Damaged(c, s, Whole(a))
    ensures Settle(c, ProcessAll(c, s, a)) == Settle(c, ProcessAll(c, s, b))
  {
    hide ProcessAll, Settle, EatAll, Whole, Damaged;
    ReadingAhead(c, s, a);
    ReadingAhead(c, s, b);
  }

  // ---- The exception -----------------------------------------------------------------------------------

  /** One row of one byte: the first byte of the stream gives it, the second one is a wrong check sum. */
  const BAD_CHECKSUM: Codec<int, int> :=
    Codec((d, b) => (d + 1, if d == 0 then [0, 0] else []), d => if d < 2 then Running else Broken, r => 1,
          (r, data) => Some(r + 1), r => r == 1)

  lemma OnePiece(s: Progress<int, int>, data: Bytes, g: Fetched<int>)
    requires Good(BAD_CHECKSUM, s) && s.Going? && data != [] && g.rest == []
    requires CallAhead(BAD_CHECKSUM, s.decoder, s.waiting, s.row, 2, data, Ahead(1, true)) == g
    ensures ProcessAll(BAD_CHECKSUM, s, [(data, [Ahead(1, true)])]) == Tested(BAD_CHECKSUM, g, s.rows)
    ensures Process(BAD_CHECKSUM, s, data, [Ahead(1, true)]) == Tested(BAD_CHECKSUM, g, s.rows)
  {
    hide CallAhead, Tested, Process;
    ProcessStep(BAD_CHECKSUM, s, data, [Ahead(1, true)]);
    ProcessEnds(BAD_CHECKSUM, Tested(BAD_CHECKSUM, g, s.rows), [], []);
    assert [Ahead(1, true)][1..] == [];
  }

  lemma BadCalls()
    ensures CallAhead(BAD_CHECKSUM, 0, [], [], 2, [7, 9], Ahead(1, true)) == Fetched(2, [], [0, 0], [], Broken)
    ensures CallAhead(BAD_CHECKSUM, 0, [], [], 2, [7], Ahead(1, true)) == Fetched(1, [], [0, 0], [], Running)
    ensures CallAhead(BAD_CHECKSUM, 1, [], [], 2, [9], Ahead(1, true)) == Fetched(2, [], [], [], Broken)
  {
    var two, nine: Bytes := [7, 9], [9];
    assert two[1..] == nine && nine[1..] == [] && [7 as byte][1..] == [];
    assert Call(BAD_CHECKSUM, 0, [], [], 2, two) == Fetched(1, [], [0, 0], nine, Running);
    assert ReadOn(BAD_CHECKSUM, Fetched(1, [], [0, 0], nine, Running), 1) == Fetched(2, [], [0, 0], [], Running);
  }

  /** The same two bytes: an error in one piece, with a library that reads on behind the last row; the whole image and
      no error in two pieces. */
  lemma CutDecides()
    ensures var c, s := BAD_CHECKSUM, Going(0, [], [], 0);
            && Good(c, s) && ProcessAll(c, s, [([7, 9], [Ahead(1, true)])]) == Wrong(0)
            && ProcessAll(c, s, [([7], [Ahead(1, true)]), ([9], [Ahead(1, true)])]) == Over(1)
  {
    hide CallAhead, Process;
    BadCalls();
    var start, behind: Progress<int, int> := Going(0, [], [], 0), Going(1, [], [], 1);
    OnePiece(start, [7, 9], Fetched(2, [], [0, 0], [], Broken));
    OnePiece(start, [7], Fetched(1, [], [0, 0], [], Running));
    OnePiece(behind, [9], Fetched(2, [], [], [], Broken));
    var pieces: seq<(Bytes, seq<Ahead>)> := [([7], [Ahead(1, true)]), ([9], [Ahead(1, true)])];
    assert pieces[1..] == [([9], [Ahead(1, true)])];
  }
}
