/** The warnings of `png_process_IDAT_data` by what is in the stream (android/jni/libpng/pngpread.c:867-931). */
module PushWarnings {
  import opened Basics
  import opened PushSpec
  import opened PushInflate
  import opened PushRows

  /** What one call of inflate finds, by the output and the end of its input. */
  lemma {:induction false} CallFinds<D, R>(c: Codec<D, R>, d: D, waiting: Bytes, row: Bytes, size: nat, input: Bytes)
    requires |row| < size
    ensures var f := Call(c, d, waiting, row, size, input);
            var out := row + waiting + Output(c, d, input);
            if |out| >= size then f.row == out[..size] && f.verdict == Running
            else
              && f.row == out && f.verdict == c.verdict(After(c, d, input)) && f.waiting == []
              && (f.verdict == Running ==> f.rest == [])
    decreases |input|
  {
    var n := Min(|waiting|, size - |row|);
    var filled := row + waiting[..n];
    var out := row + waiting + Output(c, d, input);
    assert |filled| == size ==> filled == out[..size];
    if |filled| < size {
      assert waiting[..n] == waiting;
      if c.verdict(d) == Running && input != [] {
        var (d', more) := c.decode(d, input[0]);
        CallFinds(c, d', more, filled, size, input[1..]);
        assert filled + more + Output(c, d', input[1..]) == out;
      } else {
        assert out == filled;
      }
    }
  }

  /** Behind the last row: damage within the room of the row buffer is a truncated stream; other output is too much; and
      without output only input behind the end of the stream is warned about. */
  lemma BehindTheLastRow<D, R>(c: Codec<D, R>, s: Progress<D, R>, data: Bytes)
    requires Good(c, s) && s.Going? && c.complete(s.rows) && data != []
    ensures var out, end := s.waiting + Output(c, s.decoder, data), c.verdict(After(c, s.decoder, data));
            Warnings(c, s, data, [])
            == if |out| < RowSize(c, s.rows) && end == Broken then [Truncated]
               else if out != [] then [ExtraOutput]
               else if end == Ended && LeftOver(c, s.decoder, data) != [] then [ExtraInput]
               else []
  {
    hide Call, Process, Output, After;
    ProcessStep(c, s, data, []);
    CallFinds(c, s.decoder, s.waiting, s.row, RowSize(c, s.rows), data);
    assert s.row + s.waiting + Output(c, s.decoder, data) == s.waiting + Output(c, s.decoder, data);
    if |s.waiting + Output(c, s.decoder, data)| < RowSize(c, s.rows) {
      CallLeaves(c, s.decoder, s.waiting, s.row, RowSize(c, s.rows), data);
    }
    var g := CallAhead(c, s.decoder, s.waiting, s.row, RowSize(c, s.rows), data, Choice([]));
    if Leaving(c, g, s.rows).None? {
      ProcessEnds(c, Tested(c, g, s.rows), g.rest, Later([]));
    }
  }

  /** The input behind the end of the stream. */
  function LeftOver<D, R>(c: Codec<D, R>, d: D, data: Bytes): Bytes {
    if data == [] || c.verdict(d) != Running then data else LeftOver(c, c.decode(d, data[0]).0, data[1..])
  }

  lemma {:induction false} CallLeaves<D, R>(c: Codec<D, R>, d: D, waiting: Bytes, row: Bytes, size: nat, input: Bytes)
    requires |row| < size && |row + waiting + Output(c, d, input)| < size
    ensures Call(c, d, waiting, row, size, input).rest == LeftOver(c, d, input)
    decreases |input|
  {
    var filled := row + waiting;
    assert waiting[..|waiting|] == waiting;
    if c.verdict(d) == Running && input != [] {
      var (d', more) := c.decode(d, input[0]);
      CallLeaves(c, d', more, filled, size, input[1..]);
    }
  }

  /** Whatever the library does, a call gives at most one warning: about the stream behind the last row, or about input
      behind the end; with an error or while the stream goes on there is none. */
  lemma {:induction false} WhatWarningsMean<D, R>(c: Codec<D, R>, s: Progress<D, R>, data: Bytes, plan: seq<Ahead>)
    requires Good(c, s)
    ensures var w, t := Warnings(c, s, data, plan), Process(c, s, data, plan);
            && (w == [] || (|w| == 1 && t.Over?))
            && (w in {[Truncated], [ExtraOutput]} ==> c.complete(t.rows))
    decreases |data|, if s.Going? then |s.waiting| + 1 else 0
  {
    hide Process, Warnings, CallAhead, Choice, Later;
    if data == [] || !s.Going? {
      ProcessEnds(c, s, data, plan);
    } else {
      ProcessStep(c, s, data, plan);
      var g := CallAhead(c, s.decoder, s.waiting, s.row, RowSize(c, s.rows), data, Choice(plan));
      AheadMoves(c, s.decoder, s.waiting, s.row, RowSize(c, s.rows), data, Choice(plan));
      EndTells(c, g, s.rows);
      if Leaving(c, g, s.rows).Some? {
        ProcessEnds(c, Tested(c, g, s.rows), g.rest, Later(plan));
      } else {
        WhatWarningsMean(c, Tested(c, g, s.rows), g.rest, Later(plan));
      }
    }
  }
}
