/** The rows of a decompressed image (android/jni/libpng/pngpread.c:829-931), and the whole reader on top of
    `png_process_IDAT_data`. */
module PushRows {
  import opened Basics
  import opened PushSpec
  import opened PushSplit
  import opened PushStream
  import opened PushVerdict
  import opened PushInflate

  /** The decompressed data cut into rows: the last piece is no row yet; or there is data behind the last row,
      or a row raises an error. */
  datatype Slices<R> = Partial(rows: R, left: Bytes) | Surplus(rows: R) | Refused(rows: R)

  function Cut<D, R>(c: Codec<D, R>, r: R, data: Bytes): Slices<R>
    decreases |data|
  {
    if data != [] && c.complete(r) then Surplus(r)
    else if |data| < RowSize(c, r) then Partial(r, data)
    else
      match c.row(r, data[..RowSize(c, r)])
      case None => Refused(r)
      case Some(next) => Cut(c, next, data[RowSize(c, r)..])
  }

  /** The decompressor on its own: its state after some bytes, and all its output. */
  function After<D, R>(c: Codec<D, R>, d: D, data: Bytes): D {
    if data == [] || c.verdict(d) != Running then d else After(c, c.decode(d, data[0]).0, data[1..])
  }

  function Output<D, R>(c: Codec<D, R>, d: D, data: Bytes): Bytes {
    if data == [] || c.verdict(d) != Running then []
    else c.decode(d, data[0]).1 + Output(c, c.decode(d, data[0]).0, data[1..])
  }

  /** What the reader makes of rows and stream together. */
  function Judge<D, R>(c: Codec<D, R>, d: D, shown: Slices<R>): Progress<D, R> {
    match shown
    case Surplus(r) => Over(r)
    case Refused(r) => Wrong(r)
    case Partial(r, left) =>
      match c.verdict(d)
      case Running => Going(d, [], left, r)
      case Ended => Over(r)
      case Broken => if c.complete(r) then Over(r) else Wrong(r)
  }

  lemma {:induction false} CutAppend<D, R>(c: Codec<D, R>, r: R, a: Bytes, b: Bytes)
    ensures Cut(c, r, a + b) == match Cut(c, r, a) case Partial(r', left) => Cut(c, r', left + b) case shown => shown
    decreases |a|
  {
    var n := RowSize(c, r);
    if a == [] {
      assert a + b == b && [] + b == b;
    } else if !c.complete(r) && |a| >= n {
      assert (a + b)[..n] == a[..n] && (a + b)[n..] == a[n..] + b;
      if c.row(r, a[..n]).Some? {
        CutAppend(c, c.row(r, a[..n]).value, a[n..], b);
      }
    }
  }

  /** Handing out all waiting output cuts it into rows. */
  lemma {:induction false} SettleCuts<D, R>(c: Codec<D, R>, s: Progress<D, R>)
    requires s.Going? && Good(c, s)
    ensures Settle(c, s) == Judge(c, s.decoder, Cut(c, s.rows, s.row + s.waiting))
    decreases |s.waiting|
  {
    if s.waiting == [] {
      assert s.row + s.waiting == s.row;
    } else {
      var filled, n := Fill(c, s), RowSize(c, s.rows);
      var data := s.row + s.waiting;
      if |filled.row| == n && !c.complete(s.rows) {
        assert data[..n] == filled.row && data[n..] == filled.waiting;
        var next := Checked(c, filled);
        if next.Going? {
          assert [] + next.waiting == next.waiting;
          SettleCuts(c, next);
        }
      } else {
        assert filled.row == data || c.complete(s.rows);
      }
    }
  }

  /** One byte, and whether the row that it fills is taken at once or later. */
  lemma EatSettles<D, R>(c: Codec<D, R>, s: Progress<D, R>, data: Bytes)
    requires Good(c, s) && data != []
    ensures var t := Settle(c, s);
            if !t.Going? then Settle(c, EatAll(c, s, data)) == t
            else
              var next := Decoded(c, t, data[0]);
              Good(c, next) && Settle(c, EatAll(c, s, data)) == Settle(c, EatAll(c, next, data[1..]))
  {
    hide Settle, EatAll, Checked;
    var t := Settle(c, s);
    EatOne(c, s, data);
    if !t.Going? {
      OverStays(c, t, data[1..]);
      SettleStep(c, t);
    } else {
      var next := Decoded(c, t, data[0]);
      FillFirst(c, next);
      if data[1..] == [] {
        NothingEaten(c, next);
        NothingEaten(c, Checked(c, Fill(c, next)));
      } else {
        FilledIsEaten(c, next, data[1..]);
      }
    }
  }

  lemma EatOne<D, R>(c: Codec<D, R>, s: Progress<D, R>, data: Bytes)
    requires Good(c, s) && data != []
    ensures EatAll(c, s, data) == EatAll(c, Eat(c, s, data[0]), data[1..])
  {
    hide Eat;
  }

  /** The image reader, with its row buffer and with output left behind now and then, shows the rows of the
      decompressed data, in order, each once, and nothing else; it makes no difference how the data came. */
  lemma {:induction false} RowsAreShown<D, R>(c: Codec<D, R>, s: Progress<D, R>, data: Bytes)
    requires s.Going? && Good(c, s)
    ensures Settle(c, EatAll(c, s, data))
         == Judge(c, After(c, s.decoder, data), Cut(c, s.rows, s.row + s.waiting + Output(c, s.decoder, data)))
    decreases |data|
  {
    hide Settle, Checked, Fill, Cut, EatAll;
    SettleCuts(c, s);
    var held, out := s.row + s.waiting, Output(c, s.decoder, data);
    if data == [] {
      assert held + [] == held;
      NothingEaten(c, s);
    } else {
      EatSettles(c, s, data);
      CutAppend(c, s.rows, held, out);
      var t := Settle(c, s);
      if t.Going? {
        var next := Decoded(c, t, data[0]);
        RowsAreShown(c, next, data[1..]);
        assert next.row + next.waiting + Output(c, next.decoder, data[1..]) == t.row + out;
      } else if c.verdict(s.decoder) != Running {
        assert held + [] == held;
      }
    }
  }

  // ---- The comment at the loop -------------------------------------------------------------------------

  lemma {:induction false} EatLast<D, R>(c: Codec<D, R>, s: Progress<D, R>, data: Bytes, b: byte)
    requires Good(c, s)
    ensures EatAll(c, s, data + [b]) == Eat(c, EatAll(c, s, data), b)
    decreases |data|
  {
    hide Eat;
    if data == [] {
      assert [] + [b] == [b] && [b][1..] == [];
    } else {
      assert (data + [b])[1..] == data[1..] + [b];
      EatLast(c, Eat(c, s, data[0]), data[1..], b);
    }
  }

  /** Output that the decompressor has and the application will see only if more image data comes. */
  predicate Waits<D, R>(s: Progress<D, R>) {
    s.Going? && s.waiting != []
  }

  /** "This routine must process all the data it has been given": it does not if and only if the output of the
      last byte is more than fits into the row buffer, with the row that it fills neither refused nor behind the
      last one.  `before` is what the other bytes leave once all their output is handed out. */
  lemma AllProcessedIff<D, R>(c: Codec<D, R>, s: Progress<D, R>, data: Bytes, b: byte)
    requires Good(c, s)
    ensures var before := Settle(c, EatAll(c, s, data));
            Waits(EatAll(c, s, data + [b])) <==>
              && before.Going?
              && var out, room := c.decode(before.decoder, b).1, RowSize(c, before.rows) - |before.row|;
              |out| > room && !c.complete(before.rows) && c.row(before.rows, before.row + out[..room]).Some?
  {
    hide Settle, EatAll;
    EatLast(c, s, data, b);
    LastByteWaits(c, EatAll(c, s, data), b);
  }

  lemma LastByteWaits<D, R>(c: Codec<D, R>, s: Progress<D, R>, b: byte)
    requires Good(c, s)
    ensures var before := Settle(c, s);
            Waits(Eat(c, s, b)) <==>
              && before.Going?
              && var out, room := c.decode(before.decoder, b).1, RowSize(c, before.rows) - |before.row|;
              |out| > room && !c.complete(before.rows) && c.row(before.rows, before.row + out[..room]).Some?
  {
    hide Settle;
  }

  /** One-byte rows with a filter byte each, and a stream whose bytes give two of them. */
  const TWO_ROWS_A_BYTE: Codec<int, int> :=
    Codec((d, b) => (d, [0, 0, 0, 0]), d => Running, r => 1, (r, data) => Some(r + 1), r => r == 9)

  /** Two rows that come out of one byte: the second one is not shown before another byte comes. */
  lemma RowLeftBehind()
    ensures var c, s := TWO_ROWS_A_BYTE, Going(0, [], [], 0);
            Good(c, s) && EatAll(c, s, [7]) == Going(0, [0, 0], [], 1)
            && Settle(c, EatAll(c, s, [7])) == Going(0, [], [], 2)
  {
    var c := TWO_ROWS_A_BYTE;
    var s: Progress<int, int> := Going(0, [], [], 0);
    assert Settle(c, s) == s;
    assert Eat(c, s, 7) == Going(0, [0, 0], [], 1);
    assert [7 as byte][1..] == [];
    FillFirst(c, Going(0, [0, 0], [], 1));
  }

  // ---- The whole reader ----------------------------------------------------------------------------------

  /** The callees of the reader with the image reader among them. */
  function WithImages<D, R, Z, I>(c: Codec<D, R>, env: Env<Z, I>): Env<Progress<D, R>, I> {
    Env((s: Progress<D, R>, b: byte) => if Good(c, s) then Eat(c, s, b) else s,
        (s: Progress<D, R>) => match s case Going(_, _, _, _) => Running case Over(_) => Ended case Wrong(_) => Broken,
        env.handle, env.haveIhdr, env.missingPalette, env.crcAccepted, env.benignErrorsWarn)
  }

  /** To the reader the image reader is a machine that takes one byte after the other. */
  lemma {:induction false} InflateIsEaten<D, R, Z, I>(c: Codec<D, R>, env: Env<Z, I>, s: Progress<D, R>, data: Bytes)
    requires Good(c, s)
    ensures Inflate(WithImages(c, env), s, data) == EatAll(c, s, data)
    decreases |data|
  {
    hide Eat;
    if data != [] {
      if s.Going? {
        InflateIsEaten(c, env, Eat(c, s, data[0]), data[1..]);
      } else {
        OverStays(c, s, data);
      }
    }
  }

  /** A datastream that is accepted, cut into any pieces: the rows shown are those of the decompressed data of its
      IDAT chunks, up to the last row or the end of the compressed stream. */
  lemma ImageIsShown<D, R, Z, I>(c: Codec<D, R>, env: Env<Z, I>, sigBytes: nat, file: File, d: D, r: R, info: I,
      pieces: seq<Bytes>)
    requires sigBytes < 8 && Regular(WithImages(c, env), file)
             && Accepted(WithImages(c, env), file, Going(d, [], [], r), info)
    requires Concat(pieces) == Stream(WithImages(c, env), sigBytes, file)
    ensures var start := Ok(Start(sigBytes, Going(d, [], [], r), info));
            var o := FeedAll(WithImages(c, env), start, pieces);
            var shown := Cut(c, r, Output(c, d, Data(file.image)));
            && Sound(start) && o.Ok? && o.st.core.mode == Done && o.st.core.z == Over(shown.rows) && !shown.Refused?
  {
    hide FeedAll, Stream, Cut, Output, After, EatAll, Settle;
    var data, s := Data(file.image), Going(d, [], [], r);
    CutStreamIsRead(WithImages(c, env), sigBytes, file, s, info, pieces);
    InflateIsEaten(c, env, s, data);
    RowsAreShown(c, s, data);
    SettleStep(c, EatAll(c, s, data));
    assert s.row + s.waiting + Output(c, d, data) == Output(c, d, data);
  }
}
