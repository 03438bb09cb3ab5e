/** Whole runs of the progressive reader: what is decoded does not depend on how the input is cut. */
module PushSplit {
  import opened PushSpec

  /** The `while (buffer_size)` loop of `png_process_data`. */
  function Run<Z, I>(env: Env<Z, I>, st: State<Z, I>): (r: Reader<Z, I>)
    requires Inv(st)
    ensures r.Ok? ==> Inv(r.st)
    decreases |st.pending|
  {
    if st.pending == [] then Ok(st)
    else
      StepInv(env, st);
      match Step(env, st)
      case Next(st') => Run(env, st')
      case Stall(st') => Ok(st')
      case Error(events, z, info) => Failed(events, z, info)
  }

  predicate Sound<Z, I>(r: Reader<Z, I>) {
    r.Ok? ==> Inv(r.st)
  }

  /** `png_process_data`; after an error nothing more is done. */
  function Feed<Z, I>(env: Env<Z, I>, r: Reader<Z, I>, data: Bytes): (r': Reader<Z, I>)
    requires Sound(r)
    ensures Sound(r')
  {
    match r
    case Failed(_, _, _) => r
    case Ok(st) => Run(env, Fed(st, data))
  }

  // ---- One step with more input behind it ----------------------------------------------------

  /** What a step has to do with the same step when `more` is already there: the same error, the same
      continuation, or a wait (or an emptied buffer) from which `again` shows the longer step. */
  ghost predicate Extends<Z, I>(o: Outcome<Z, I>, longer: Outcome<Z, I>, again: Outcome<Z, I>, more: Bytes) {
    match o
    case Error(_, _, _) => longer == o
    case Stall(s) => longer == again
    case Next(s) => longer == Next(Fed(s, more)) || (s.pending == [] && longer == again)
  }

  lemma FedConsume<Z, I>(st: State<Z, I>, more: Bytes, n: nat)
    requires n <= |st.pending|
    ensures Consume(Fed(st, more), n) == Fed(Consume(st, n), more)
    ensures (st.pending + more)[..n] == st.pending[..n]
  {
  }

  lemma {:induction false} InflateAppend<Z, I>(env: Env<Z, I>, z: Z, a: Bytes, b: Bytes)
    ensures Inflate(env, z, a + b) == Inflate(env, Inflate(env, z, a), b)
  {
    if a == [] || env.status(z) != Running {
      assert a == [] ==> a + b == b;
      InflateStuck(env, z, b);
    } else {
      assert (a + b)[1..] == a[1..] + b;
      InflateAppend(env, env.inflate(z, a[0]), a[1..], b);
    }
  }

  lemma InflateStuck<Z, I>(env: Env<Z, I>, z: Z, b: Bytes)
    ensures env.status(z) != Running ==> Inflate(env, z, b) == z
  {
  }

  lemma SigExtends<Z, I>(st: State<Z, I>, more: Bytes)
    requires Inv(st) && st.core.mode == ReadSig && st.pending != [] && more != []
    ensures var o := StepSig(st);
            Extends(o, StepSig(Fed(st, more)),
                    if o.Next? && o.st.core.sigBytes < 8 then StepSig(Fed(o.st, more)) else Fail(st.core), more)
    ensures var o := StepSig(st);
            o.Next? && o.st.core.sigBytes >= 8 ==> StepSig(Fed(st, more)) == Next(Fed(o.st, more))
  {
    var room := 8 - st.core.sigBytes;
    if |st.pending| >= room {
      FedConsume(st, more, room);
    } else {
      SigShort(st, more, Min(room - |st.pending|, |more|));
    }
  }

  /** The signature step from the bytes it compares and the bytes behind them. */
  function SigTaken<Z, I>(c: Core<Z, I>, consumed: Bytes, dropped: Bytes, piece: Bytes, rest: Bytes): Outcome<Z, I>
    requires c.sigBytes + |piece| <= 8
  {
    var n := c.sigBytes + |piece|;
    if piece != SIGNATURE[c.sigBytes..n] then Fail(c)
    else Next(State(if n == 8 then c.(sigBytes := 8, mode := ReadChunk) else c.(sigBytes := n),
                    consumed + piece, dropped, rest))
  }

  lemma SigShort<Z, I>(st: State<Z, I>, more: Bytes, m: nat)
    requires st.core.sigBytes + |st.pending| < 8 && st.pending != []
    requires m == Min(8 - st.core.sigBytes - |st.pending|, |more|) && m > 0
    ensures StepSig(st).Error? ==> StepSig(Fed(st, more)) == StepSig(st)
    ensures StepSig(st).Next? ==>
              StepSig(st).st.core.sigBytes < 8 && StepSig(st).st.pending == []
              && StepSig(Fed(st, more)) == StepSig(Fed(StepSig(st).st, more))
  {
    hide StepSig, SigTaken;
    var c, p := st.core, st.pending;
    SigPieces(st, more, m);
    SigAgain(State(c.(sigBytes := c.sigBytes + |p|), st.consumed + p, st.dropped, []), more, m);
    SigSeam(c, st.consumed, st.dropped, p, more[..m], more[m..]);
    SigTakenShort(c, st.consumed, st.dropped, p);
  }

  lemma SigPieces<Z, I>(st: State<Z, I>, more: Bytes, m: nat)
    requires st.core.sigBytes + |st.pending| < 8
    requires m == Min(8 - st.core.sigBytes - |st.pending|, |more|)
    ensures StepSig(st) == SigTaken(st.core, st.consumed, st.dropped, st.pending, [])
    ensures StepSig(Fed(st, more)) == SigTaken(st.core, st.consumed, st.dropped, st.pending + more[..m], more[m..])
  {
    hide StepSig, SigTaken;
    var p := st.pending;
    assert p == p + [] && p + more == p + more[..m] + more[m..];
    SigIsTaken(st, p, []);
    SigIsTaken(Fed(st, more), p + more[..m], more[m..]);
  }

  lemma SigAgain<Z, I>(s: State<Z, I>, more: Bytes, m: nat)
    requires s.core.sigBytes < 8 && s.pending == [] && m == Min(8 - s.core.sigBytes, |more|)
    ensures StepSig(Fed(s, more)) == SigTaken(s.core, s.consumed, s.dropped, more[..m], more[m..])
  {
    hide StepSig, SigTaken;
    assert [] + more == more == more[..m] + more[m..];
    SigIsTaken(Fed(s, more), more[..m], more[m..]);
  }

  lemma SigTakenShort<Z, I>(c: Core<Z, I>, consumed: Bytes, dropped: Bytes, p: Bytes)
    requires c.sigBytes + |p| < 8
    ensures SigTaken(c, consumed, dropped, p, [])
         == if p != SIGNATURE[c.sigBytes..c.sigBytes + |p|] then Fail(c)
            else Next(State(c.(sigBytes := c.sigBytes + |p|), consumed + p, dropped, []))
  {
  }

  lemma SigIsTaken<Z, I>(st: State<Z, I>, piece: Bytes, rest: Bytes)
    requires st.core.sigBytes < 8 && st.pending == piece + rest && |piece| == Min(8 - st.core.sigBytes, |st.pending|)
    ensures StepSig(st) == SigTaken(st.core, st.consumed, st.dropped, piece, rest)
  {
    assert st.pending[..|piece|] == piece && st.pending[|piece|..] == rest;
  }

  lemma SigSeam<Z, I>(c: Core<Z, I>, consumed: Bytes, dropped: Bytes, p: Bytes, q: Bytes, rest: Bytes)
    requires c.sigBytes + |p| + |q| <= 8
    ensures SigTaken(c, consumed, dropped, p + q, rest)
         == if p != SIGNATURE[c.sigBytes..c.sigBytes + |p|] then Fail(c)
            else SigTaken(c.(sigBytes := c.sigBytes + |p|), consumed + p, dropped, q, rest)
  {
    SeamOf(SIGNATURE, c.sigBytes, p, q);
    assert consumed + p + q == consumed + (p + q);
  }

  lemma SeamOf(all: Bytes, from: nat, p: Bytes, q: Bytes)
    requires from + |p| + |q| <= |all|
    ensures p + q == all[from..from + |p + q|]
       <==> p == all[from..from + |p|] && q == all[from + |p|..from + |p| + |q|]
  {
    var expected, more := all[from..from + |p|], all[from + |p|..from + |p| + |q|];
    assert all[from..from + |p + q|] == expected + more;
    Halves(p, q, expected, more);
  }

  lemma Halves(a: Bytes, b: Bytes, c: Bytes, d: Bytes)
    requires |a| == |c|
    ensures a + b == c + d <==> a == c && b == d
  {
    if a + b == c + d {
      assert a == (a + b)[..|a|] && c == (c + d)[..|a|];
      assert b == (a + b)[|a|..] && d == (c + d)[|a|..];
    }
  }

  lemma ChunkBodyExtends<Z, I>(env: Env<Z, I>, st: State<Z, I>, more: Bytes)
    ensures var o := ChunkBody(env, st);
            Extends(o, ChunkBody(env, Fed(st, more)), if o.Error? then o else ChunkBody(env, Fed(o.st, more)), more)
    ensures var o := ChunkBody(env, st);
            o.Next? ==> ChunkBody(env, Fed(st, more)) == Next(Fed(o.st, more))
    ensures var o := ChunkBody(env, st);
            o.Stall? ==> o.st == st
  {
    hide StartIdat, Dispatch;
    if st.core.pushLength + 4 <= |st.pending| {
      FedConsume(st, more, st.core.pushLength + 4);
    }
  }

  lemma EndIdatExtends<Z, I>(env: Env<Z, I>, st: State<Z, I>, more: Bytes)
    ensures Extends(EndIdat(env, st), EndIdat(env, Fed(st, more)), EndIdat(env, Fed(st, more)), more)
    ensures EndIdat(env, st).Stall? ==> EndIdat(env, st).st == st
    ensures EndIdat(env, st).Next? ==> EndIdat(env, Fed(st, more)) == Next(Fed(EndIdat(env, st).st, more))
  {
    if |st.pending| >= 4 {
      FedConsume(st, more, 4);
    }
  }

  /** All the data of the chunk is there already. */
  lemma IdatBodyLong<Z, I>(env: Env<Z, I>, st: State<Z, I>, more: Bytes)
    requires st.core.idatSize <= |st.pending|
    ensures var o := IdatBody(env, st);
            Extends(o, IdatBody(env, Fed(st, more)), if o.Error? then o else IdatBody(env, Fed(o.st, more)), more)
    ensures var o := IdatBody(env, st);
            o.Next? ==> IdatBody(env, Fed(st, more)) == Next(Fed(o.st, more))
    ensures var o := IdatBody(env, st);
            o.Stall? ==> o.st.core.header == st.core.header && o.st.core.mode == st.core.mode
  {
    hide EndIdat, Inflate;
    var n := st.core.idatSize;
    FedConsume(st, more, n);
    var s := Consume(st, n).(core := TakeIdat(env, st.core, st.pending[..n]));
    EndIdatExtends(env, s, more);
    NothingToTake(env, s.core);
    assert Fed(s, more).pending[..0] == [] && Consume(Fed(s, more), 0).(core := s.core) == Fed(s, more) by {
      assert Fed(s, more).consumed + [] == Fed(s, more).consumed;
    }
  }

  lemma NothingToTake<Z, I>(env: Env<Z, I>, c: Core<Z, I>)
    ensures TakeIdat(env, c, []) == c
  {
    assert c.crc + [] == c.crc;
  }

  /** `IdatBody` from the data it takes and the bytes behind them. */
  function IdatTaken<Z, I>(env: Env<Z, I>, c: Core<Z, I>, consumed: Bytes, dropped: Bytes, data: Bytes,
      rest: Bytes): Outcome<Z, I>
    requires |data| <= c.idatSize
  {
    var d := TakeIdat(env, c, data);
    var s := State(d, consumed + data, dropped, rest);
    if data != [] && env.status(d.z) == Broken then Fail(d)
    else if d.idatSize > 0 then Next(s)
    else EndIdat(env, s)
  }

  lemma IdatIsTaken<Z, I>(env: Env<Z, I>, st: State<Z, I>, data: Bytes, rest: Bytes)
    requires st.pending == data + rest && |data| == Min(st.core.idatSize, |st.pending|)
    ensures IdatBody(env, st) == IdatTaken(env, st.core, st.consumed, st.dropped, data, rest)
  {
    hide EndIdat, Inflate, TakeIdat;
    assert st.pending[..|data|] == data && st.pending[|data|..] == rest;
  }

  /** The data runs out in the middle of the chunk. */
  lemma IdatBodyShort<Z, I>(env: Env<Z, I>, st: State<Z, I>, more: Bytes)
    requires st.core.idatSize > |st.pending| && more != []
    ensures var o := IdatBody(env, st);
            o.Error? ==> IdatBody(env, Fed(st, more)) == o
    ensures var o := IdatBody(env, st);
            !o.Error? ==>
              o.Next? && o.st.pending == [] && IdatBody(env, Fed(st, more)) == IdatBody(env, Fed(o.st, more))
    ensures var o := IdatBody(env, st);
            !o.Error? ==> o.st.core.header == st.core.header && o.st.core.mode == st.core.mode
  {
    hide EndIdat, Inflate, IdatBody, IdatTaken, TakeIdat;
    var c, p := st.core, st.pending;
    var m := Min(c.idatSize - |p|, |more|);
    var head, tail := more[..m], more[m..];
    var d := TakeIdat(env, c, p);
    assert p == p + [];
    IdatTakenShort(env, c, st.consumed, st.dropped, p);
    IdatIsTaken(env, st, p, []);
    assert Fed(st, more).pending == p + head + tail;
    IdatIsTaken(env, Fed(st, more), p + head, tail);
    IdatSeam(env, c, st.consumed, st.dropped, p, head, tail);
    var s := State(d, st.consumed + p, st.dropped, []);
    assert Fed(s, more).pending == head + tail;
    IdatIsTaken(env, Fed(s, more), head, tail);
  }

  lemma IdatSeam<Z, I>(env: Env<Z, I>, c: Core<Z, I>, consumed: Bytes, dropped: Bytes, p: Bytes, q: Bytes, rest: Bytes)
    requires |p| + |q| <= c.idatSize && q != []
    ensures var d := TakeIdat(env, c, p);
            IdatTaken(env, c, consumed, dropped, p + q, rest)
            == if p != [] && env.status(d.z) == Broken then Fail(d)
               else IdatTaken(env, d, consumed + p, dropped, q, rest)
  {
    hide EndIdat, Inflate;
    TakeTwice(env, c, p, q);
    InflateStuck(env, TakeIdat(env, c, p).z, q);
    assert consumed + p + q == consumed + (p + q);
  }

  lemma IdatTakenShort<Z, I>(env: Env<Z, I>, c: Core<Z, I>, consumed: Bytes, dropped: Bytes, p: Bytes)
    requires |p| < c.idatSize
    ensures var d := TakeIdat(env, c, p);
            d.idatSize == c.idatSize - |p| && d.header == c.header && d.mode == c.mode
            && IdatTaken(env, c, consumed, dropped, p, [])
            == if p != [] && env.status(d.z) == Broken then Fail(d) else Next(State(d, consumed + p, dropped, []))
  {
  }

  lemma TakeTwice<Z, I>(env: Env<Z, I>, c: Core<Z, I>, a: Bytes, b: Bytes)
    requires |a| + |b| <= c.idatSize
    ensures TakeIdat(env, TakeIdat(env, c, a), b) == TakeIdat(env, c, a + b)
  {
    InflateAppend(env, c.z, a, b);
    assert c.crc + (a + b) == c.crc + a + b;
  }

  lemma HeaderExtends<Z, I>(st: State<Z, I>, more: Bytes)
    requires |st.pending| >= 8
    ensures ReadHeader(Fed(st, more)) == Fed(ReadHeader(st), more)
    ensures LengthTooBig(Fed(st, more)) == LengthTooBig(st)
    ensures (st.pending + more)[4..8] == st.pending[4..8]
  {
    FedConsume(st, more, 8);
    FedConsume(st, more, 4);
  }

  lemma SkipExtends<Z, I>(env: Env<Z, I>, st: State<Z, I>, more: Bytes)
    requires st.pending != [] && more != []
    ensures var o := StepSkip(env, st);
            Extends(o, StepSkip(env, Fed(st, more)), if o.Error? then o else StepSkip(env, Fed(o.st, more)), more)
    ensures var o := StepSkip(env, st);
            o.Stall? || (o.Next? && o.st.pending == [] && o.st.core.skipLength > 0) ==> o.st.core.mode == st.core.mode
    ensures var o := StepSkip(env, st);
            o.Next? && o.st.core.skipLength == 0 ==> StepSkip(env, Fed(st, more)) == Next(Fed(o.st, more))
  {
    hide StepSkip;
    if st.core.skipLength > |st.pending| {
      SkipShort(env, st, more);
    } else {
      SkipLong(env, st, more);
    }
  }

  /** The state behind the chunk that was skipped. */
  function AtCrc<Z, I>(st: State<Z, I>): State<Z, I>
    requires st.core.skipLength <= |st.pending|
  {
    Consume(st, st.core.skipLength).(core := Skipped(st.core, st.pending[..st.core.skipLength]))
  }

  lemma SkipEnds<Z, I>(env: Env<Z, I>, st: State<Z, I>)
    requires st.core.skipLength <= |st.pending|
    ensures StepSkip(env, st) == EndSkip(env, AtCrc(st))
  {
    hide EndSkip;
  }

  lemma AtCrcAgain<Z, I>(st: State<Z, I>)
    requires st.core.skipLength == 0
    ensures AtCrc(st) == st
  {
    assert st.consumed + [] == st.consumed && st.core.crc + [] == st.core.crc;
  }

  lemma EndSkipExtends<Z, I>(env: Env<Z, I>, st: State<Z, I>, more: Bytes)
    requires st.core.skipLength == 0
    ensures var o := EndSkip(env, st);
            match o
            case Error(_, _, _) => EndSkip(env, Fed(st, more)) == o
            case Stall(s) => s == st
            case Next(s) => s.core.skipLength == 0 && EndSkip(env, Fed(st, more)) == Next(Fed(s, more))
  {
    if |st.pending| >= 4 {
      FedConsume(st, more, 4);
    }
  }

  lemma SkipLong<Z, I>(env: Env<Z, I>, st: State<Z, I>, more: Bytes)
    requires st.core.skipLength <= |st.pending|
    ensures var o := StepSkip(env, st);
            Extends(o, StepSkip(env, Fed(st, more)), if o.Error? then o else StepSkip(env, Fed(o.st, more)), more)
    ensures var o := StepSkip(env, st);
            !o.Error? ==> o.st.core.skipLength == 0 && (o.Stall? ==> o.st.core.mode == st.core.mode)
    ensures var o := StepSkip(env, st);
            o.Next? ==> StepSkip(env, Fed(st, more)) == Next(Fed(o.st, more))
  {
    hide StepSkip, EndSkip, Consume;
    var s := AtCrc(st);
    FedConsume(st, more, st.core.skipLength);
    SkipEnds(env, st);
    SkipEnds(env, Fed(st, more));
    SkipEnds(env, Fed(s, more));
    AtCrcAgain(Fed(s, more));
    EndSkipExtends(env, s, more);
  }

  /** The fields after some data was skipped. */
  function Skipped<Z, I>(c: Core<Z, I>, data: Bytes): Core<Z, I>
    requires |data| <= c.skipLength
  {
    c.(skipLength := c.skipLength - |data|, crc := c.crc + data)
  }

  /** `StepSkip` from the data it takes and the bytes behind them. */
  function SkipTaken<Z, I>(env: Env<Z, I>, c: Core<Z, I>, consumed: Bytes, dropped: Bytes, data: Bytes,
      rest: Bytes): Outcome<Z, I>
    requires |data| <= c.skipLength
  {
    var s := State(Skipped(c, data), consumed + data, dropped, rest);
    if s.core.skipLength > 0 then Next(s) else EndSkip(env, s)
  }

  lemma SkipIsTaken<Z, I>(env: Env<Z, I>, st: State<Z, I>, data: Bytes, rest: Bytes)
    requires st.pending == data + rest && |data| == Min(st.core.skipLength, |st.pending|)
    ensures StepSkip(env, st) == SkipTaken(env, st.core, st.consumed, st.dropped, data, rest)
  {
    hide EndSkip;
    assert st.pending[..|data|] == data && st.pending[|data|..] == rest;
  }

  lemma SkipSeam<Z, I>(env: Env<Z, I>, c: Core<Z, I>, consumed: Bytes, dropped: Bytes, p: Bytes, q: Bytes, rest: Bytes)
    requires |p| + |q| <= c.skipLength
    ensures SkipTaken(env, c, consumed, dropped, p + q, rest)
            == SkipTaken(env, Skipped(c, p), consumed + p, dropped, q, rest)
  {
    hide EndSkip;
    assert consumed + p + q == consumed + (p + q) && c.crc + p + q == c.crc + (p + q);
  }

  lemma SkipShort<Z, I>(env: Env<Z, I>, st: State<Z, I>, more: Bytes)
    requires st.core.skipLength > |st.pending|
    ensures var o := StepSkip(env, st);
            o.Next? && o.st.pending == [] && StepSkip(env, Fed(st, more)) == StepSkip(env, Fed(o.st, more))
            && o.st.core.skipLength > 0 && o.st.core.mode == st.core.mode
  {
    hide EndSkip, StepSkip;
    var c, p := st.core, st.pending;
    var m := Min(c.skipLength - |p|, |more|);
    var head, tail := more[..m], more[m..];
    assert p == p + [] && p + more == p + head + tail && more == head + tail;
    SkipIsTaken(env, st, p, []);
    SkipIsTaken(env, Fed(st, more), p + head, tail);
    SkipSeam(env, c, st.consumed, st.dropped, p, head, tail);
    var s := State(Skipped(c, p), st.consumed + p, st.dropped, []);
    assert Fed(s, more).pending == head + tail;
    SkipIsTaken(env, Fed(s, more), head, tail);
  }

  /** Every step with more input behind it does the same, or is shown again by the state it left. */
  lemma StepExtends<Z, I>(env: Env<Z, I>, st: State<Z, I>, more: Bytes)
    requires Inv(st) && st.pending != [] && more != []
    ensures var o := Step(env, st);
            !o.Error? ==> Inv(o.st)
    ensures var o := Step(env, st);
            Extends(o, Step(env, Fed(st, more)), if o.Error? then o else Step(env, Fed(o.st, more)), more)
  {
    StepInv(env, st);
    hide StepSig, ChunkBody, IdatBody, StepSkip, ReadHeader, LengthTooBig;
    match st.core.mode {
      case ReadSig =>
        SigExtends(st, more);
      case ReadChunk =>
        if st.core.header {
          ChunkBodyExtends(env, st, more);
        } else if |st.pending| >= 8 {
          HeaderExtends(st, more);
          HeaderFields(st);
          ChunkBodyExtends(env, ReadHeader(st), more);
        }
      case ReadIdat =>
        if st.core.header {
          IdatBodyExtends(env, st, more);
        } else if |st.pending| >= 8 {
          HeaderExtends(st, more);
          HeaderFields(st);
          var s := ReadHeader(st);
          if s.core.name == IDAT {
            IdatBodyExtends(env, s.(core := s.core.(idatSize := s.core.pushLength)), more);
          }
        }
      case SkipData =>
        SkipExtends(env, st, more);
      case Done =>
        assert st.dropped + (st.pending + more) == st.dropped + st.pending + more;
        assert [] + more == more;
    }
  }

  lemma IdatBodyExtends<Z, I>(env: Env<Z, I>, st: State<Z, I>, more: Bytes)
    requires more != []
    ensures var o := IdatBody(env, st);
            Extends(o, IdatBody(env, Fed(st, more)), if o.Error? then o else IdatBody(env, Fed(o.st, more)), more)
    ensures var o := IdatBody(env, st);
            o.Stall? || (o.Next? && IdatBody(env, Fed(st, more)) != Next(Fed(o.st, more)))
            ==> o.st.core.header == st.core.header && o.st.core.mode == st.core.mode
  {
    if st.core.idatSize <= |st.pending| {
      IdatBodyLong(env, st, more);
    } else {
      IdatBodyShort(env, st, more);
    }
  }

  // ---- Whole runs ----------------------------------------------------------------------------

  /** A finished run has nothing more to do. */
  lemma {:induction false} RunAgain<Z, I>(env: Env<Z, I>, st: State<Z, I>)
    requires Inv(st)
    ensures Feed(env, Run(env, st), []) == Run(env, st)
    decreases |st.pending|
  {
    assert st.pending + [] == st.pending;
    if st.pending != [] {
      StepInv(env, st);
      if Step(env, st).Stall? {
        StallStays(env, st);
      }
      hide Step;
      var o := Step(env, st);
      if o.Next? {
        RunAgain(env, o.st);
      } else if o.Stall? {
        assert o.st.pending + [] == o.st.pending;
      }
    }
  }

  /** A run, then more input, is the run on all of it. */
  lemma {:induction false} RunSplit<Z, I>(env: Env<Z, I>, st: State<Z, I>, more: Bytes)
    requires Inv(st)
    ensures Feed(env, Run(env, st), more) == Run(env, Fed(st, more))
    decreases |st.pending|
  {
    assert st.pending + [] == st.pending;
    if more == [] {
      RunAgain(env, st);
    } else if st.pending != [] {
      hide Step;
      StepInv(env, st);
      StepExtends(env, st, more);
      StepInv(env, Fed(st, more));
      var o := Step(env, st);
      if o.Next? {
        RunSplit(env, o.st, more);
        assert Fed(o.st, more).pending != [];
      }
    }
  }

  /** A reader that waits keeps waiting until there is more input. */
  lemma StallStays<Z, I>(env: Env<Z, I>, st: State<Z, I>)
    requires Inv(st) && st.pending != [] && Step(env, st).Stall?
    ensures Inv(Step(env, st).st)
    ensures Run(env, Step(env, st).st) == Ok(Step(env, st).st)
  {
    StepInv(env, st);
    var s := Step(env, st).st;
    if s.pending != [] {
      StallIsFixed(env, st);
    }
  }

  lemma StallIsFixed<Z, I>(env: Env<Z, I>, st: State<Z, I>)
    requires Inv(st) && Step(env, st).Stall? && Inv(Step(env, st).st)
    ensures Step(env, Step(env, st).st) == Stall(Step(env, st).st)
  {
    hide StartIdat, Dispatch, LengthTooBig, IdatBody, StepSkip;
    match st.core.mode {
      case ReadIdat =>
        if st.core.header {
          IdatStall(env, st);
        } else if |st.pending| >= 8 {
          var s := ReadHeader(st);
          IdatStall(env, s.(core := s.core.(idatSize := s.core.pushLength)));
        }
      case SkipData => SkipStall(env, st);
      case _ =>
    }
  }

  lemma IdatStall<Z, I>(env: Env<Z, I>, st: State<Z, I>)
    requires IdatBody(env, st).Stall?
    ensures IdatBody(env, IdatBody(env, st).st) == IdatBody(env, st)
    ensures IdatBody(env, st).st.core.header == st.core.header && IdatBody(env, st).st.core.mode == st.core.mode
  {
    var s := IdatBody(env, st).st;
    NothingToTake(env, s.core);
    assert s.consumed + [] == s.consumed;
    assert Consume(s, 0) == s;
  }

  lemma SkipStall<Z, I>(env: Env<Z, I>, st: State<Z, I>)
    requires StepSkip(env, st).Stall?
    ensures StepSkip(env, StepSkip(env, st).st) == StepSkip(env, st) && StepSkip(env, st).st.core.mode == st.core.mode
  {
    var s := StepSkip(env, st).st;
    assert s.core.crc + [] == s.core.crc;
    assert s.consumed + [] == s.consumed;
    assert Consume(s, 0) == s;
  }

  /** Feeding `a` and then `b` is feeding `a + b`, from every sound reader, for every environment. */
  lemma SplitIndependence<Z, I>(env: Env<Z, I>, r: Reader<Z, I>, a: Bytes, b: Bytes)
    requires Sound(r)
    ensures Feed(env, Feed(env, r, a), b) == Feed(env, r, a + b)
  {
    if r.Ok? {
      RunSplit(env, Fed(r.st, a), b);
      assert r.st.pending + a + b == r.st.pending + (a + b);
    }
  }

  function FeedAll<Z, I>(env: Env<Z, I>, r: Reader<Z, I>, pieces: seq<Bytes>): (r': Reader<Z, I>)
    requires Sound(r)
    ensures Sound(r')
    decreases |pieces|
  {
    if pieces == [] then r else FeedAll(env, Feed(env, r, pieces[0]), pieces[1..])
  }

  function Concat(pieces: seq<Bytes>): Bytes {
    if pieces == [] then [] else pieces[0] + Concat(pieces[1..])
  }

  /** However the input is cut into pieces, the result is that of feeding it in one piece. */
  lemma {:induction false} AnyCutting<Z, I>(env: Env<Z, I>, r: Reader<Z, I>, pieces: seq<Bytes>)
    requires Sound(r)
    ensures pieces != [] ==> FeedAll(env, r, pieces) == Feed(env, r, Concat(pieces))
    decreases |pieces|
  {
    if |pieces| == 1 {
      assert pieces[0] + [] == pieces[0];
    } else if |pieces| > 1 {
      AnyCutting(env, Feed(env, r, pieces[0]), pieces[1..]);
      SplitIndependence(env, r, pieces[0], Concat(pieces[1..]));
    }
  }

  /** Every byte fed is consumed, dropped behind the end, or still pending, in order; nothing is
      dropped before the end of the file. */
  lemma {:induction false} RunConserves<Z, I>(env: Env<Z, I>, st: State<Z, I>)
    requires Inv(st)
    ensures var r := Run(env, st);
            r.Ok? ==>
              && r.st.consumed + r.st.dropped + r.st.pending == st.consumed + st.dropped + st.pending
              && (r.st.core.mode != Done ==> r.st.consumed + r.st.pending == st.consumed + st.dropped + st.pending)
    decreases |st.pending|
  {
    assert st.core.mode != Done ==> st.consumed + [] == st.consumed;
    if st.pending != [] {
      StepInv(env, st);
      hide Step;
      match Step(env, st) {
        case Next(s) => RunConserves(env, s);
        case Stall(s) => assert s.core.mode != Done ==> s.consumed + [] == s.consumed;
        case Error(_, _, _) =>
      }
    }
  }

  lemma Conservation<Z, I>(env: Env<Z, I>, st: State<Z, I>, data: Bytes)
    requires Inv(st)
    ensures var r := Feed(env, Ok(st), data);
            r.Ok? ==>
              && r.st.consumed + r.st.dropped + r.st.pending == st.consumed + st.dropped + st.pending + data
              && (r.st.core.mode != Done ==>
                    r.st.consumed + r.st.pending == st.consumed + st.dropped + st.pending + data)
  {
    RunConserves(env, Fed(st, data));
    assert st.consumed + st.dropped + (st.pending + data) == st.consumed + st.dropped + st.pending + data;
  }
}
