/** The progressive reader chunk by chunk, for every datastream that is a list of chunks: any names, any CRCs, in any
    order (android/jni/libpng/pngpread.c:184-311, 726-826; PNG (Second Edition) section 5.3). */
module PushChunks {
  import opened PushSpec
  import opened PushSplit
  import opened PushStream

  function Shown(ch: Chunk): seq<Event> {
    [Handled(ch.name, ch.data + ch.crc)] + if ch.name == IEND then [HaveEnd] else []
  }

  /** These bytes do not show inflate a broken stream. */
  predicate Unbroken<Z, I>(env: Env<Z, I>, z: Z, data: Bytes) {
    data == [] || env.status(Inflate(env, z, data)) != Broken
  }

  /** The reader between two chunks. */
  datatype View<Z, I> = View(mode: Mode, afterIdat: bool, chunkAfterIdat: bool, z: Z, info: I, events: seq<Event>)

  datatype Verdict<Z, I> = Goes(v: View<Z, I>) | Fails(events: seq<Event>, z: Z, info: I)

  function Refuse<Z, I>(v: View<Z, I>): Verdict<Z, I> {
    Fails(v.events, v.z, v.info)
  }

  /** A chunk for its handler. */
  function Given<Z, I>(env: Env<Z, I>, v: View<Z, I>, ch: Chunk): Verdict<Z, I> {
    if ch.name == IHDR && |ch.data| != 13 then Refuse(v)
    else
      match env.handle(v.info, ch.name, ch.data + ch.crc)
      case None => Refuse(v)
      case Some(info) =>
        Goes(v.(info := info, events := v.events + Shown(ch), mode := if ch.name == IEND then Done else ReadChunk))
  }

  /** Image data: a broken stream or a refused CRC is an error. */
  function ImageData<Z, I>(env: Env<Z, I>, v: View<Z, I>, ch: Chunk): Verdict<Z, I> {
    var z := Inflate(env, v.z, ch.data);
    if !Unbroken(env, v.z, ch.data) || !env.crcAccepted(IDAT, IDAT + ch.data, ch.crc) then Fails(v.events, z, v.info)
    else Goes(v.(mode := ReadIdat, z := z, afterIdat := true))
  }

  /** What the reader makes of one chunk.  A name is checked unless the chunk stands right behind image data. */
  function OneChunk<Z, I>(env: Env<Z, I>, v: View<Z, I>, ch: Chunk): Verdict<Z, I> {
    if v.mode == ReadIdat then
      if ch.name == IDAT then ImageData(env, v, ch)
      else if env.status(v.z) != Ended then Refuse(v)
      else Given(env, v, ch)
    else if !Letters(ch.name) then Refuse(v)
    else if ch.name != IDAT then Given(env, v, ch)
    else if !env.haveIhdr(v.info) || env.missingPalette(v.info) then Refuse(v)
    else if !v.afterIdat && !v.chunkAfterIdat && ch.data == [] then ImageData(env, v, ch)
    else if v.afterIdat && !env.benignErrorsWarn then Refuse(v)
    else
      ImageData(env, v.(chunkAfterIdat := v.chunkAfterIdat || v.afterIdat, events := v.events + [HaveInfo]), ch)
  }

  /** All chunks up to the end of the datastream or the first error. */
  function AllChunks<Z, I>(env: Env<Z, I>, v: View<Z, I>, chunks: seq<Chunk>): Verdict<Z, I>
    decreases |chunks|
  {
    if chunks == [] || v.mode == Done then Goes(v)
    else
      match OneChunk(env, v, chunks[0])
      case Goes(next) => AllChunks(env, next, chunks[1..])
      case failure => failure
  }

  // ---- One chunk ---------------------------------------------------------------------------------------

  /** The header in front of the chunk has been read and the chunk is what it says. */
  predicate Headed<Z, I>(st: State<Z, I>, ch: Chunk) {
    st.core.name == ch.name && st.core.pushLength == |ch.data| && st.core.crc == ch.name
  }

  lemma RunStep<Z, I>(env: Env<Z, I>, st: State<Z, I>, st': State<Z, I>)
    requires Inv(st) && st.pending != [] && Step(env, st) == Next(st')
    ensures Inv(st') && Run(env, st) == Run(env, st')
  {
    hide Step;
    StepInv(env, st);
  }

  lemma ReadsHeader<Z, I>(st: State<Z, I>, ch: Chunk, rest: Bytes)
    requires Sized(ch) && st.pending == Encode(ch) + rest
    ensures |st.pending| >= 8 && !LengthTooBig(st) && st.pending[4..8] == ch.name
    ensures Headed(ReadHeader(st), ch)
    ensures ReadHeader(st) == State(ReadHeader(st).core, st.consumed + Encode(ch)[..8], st.dropped,
            ch.data + ch.crc + rest)
    ensures Encode(ch)[..8] + (ch.data + ch.crc) == Encode(ch)
  {
    hide BigEndian, Uint32;
    var b := BigEndian(|ch.data|);
    assert Encode(ch) == b + ch.name + ch.data + ch.crc;
    assert st.pending[..4] == b;
    assert st.pending[4..8] == ch.name;
    assert st.pending[8..] == ch.data + ch.crc + rest;
    assert st.pending[..8] == Encode(ch)[..8];
  }

  lemma HeaderKeeps<Z, I>(st: State<Z, I>)
    requires |st.pending| >= 8
    ensures var c, d := st.core, ReadHeader(st).core;
            d.z == c.z && d.info == c.info && d.events == c.events && d.afterIdat == c.afterIdat
                && d.chunkAfterIdat == c.chunkAfterIdat
  {
  }

  /** The reader between two chunks with what waits for it. */
  ghost predicate At<Z, I>(st: State<Z, I>, v: View<Z, I>, rest: Bytes) {
    && Inv(st) && st.core.sigBytes >= 8 && !st.core.header && st.pending == rest && st.dropped == []
    && v == View(st.core.mode, st.core.afterIdat, st.core.chunkAfterIdat, st.core.z, st.core.info, st.core.events)
    && v.mode in {ReadChunk, ReadIdat, Done}
  }

  /** The run from here goes on as the verdict says. */
  ghost predicate Continues<Z, I>(env: Env<Z, I>, st: State<Z, I>, st': State<Z, I>, verdict: Verdict<Z, I>,
      rest: Bytes)
    requires Inv(st)
  {
    match verdict
    case Fails(events, z, info) => Run(env, st) == Failed(events, z, info)
    case Goes(v) => At(st', v, rest) && Run(env, st) == Run(env, st') && st'.consumed + rest == st.consumed + st.pending
  }

  lemma RunRaises<Z, I>(env: Env<Z, I>, st: State<Z, I>)
    requires Inv(st) && st.pending != [] && Step(env, st).Error?
    ensures var o := Step(env, st); Run(env, st) == Failed(o.events, o.z, o.info)
  {
    hide Step;
    StepInv(env, st);
  }

  /** The image data behind a header. */
  lemma DataStep<Z, I>(env: Env<Z, I>, st: State<Z, I>, ch: Chunk, rest: Bytes)
    requires Sized(ch) && st.pending == ch.data + ch.crc + rest && st.dropped == []
    requires st.core.name == IDAT && st.core.crc == IDAT && st.core.idatSize == |ch.data|
    ensures var z := Inflate(env, st.core.z, ch.data);
            if !Unbroken(env, st.core.z, ch.data) || !env.crcAccepted(IDAT, IDAT + ch.data, ch.crc) then
              IdatBody(env, st) == Error(st.core.events, z, st.core.info)
            else
              && IdatBody(env, st).Next?
              && var s := IdatBody(env, st).st;
              && s.core == st.core.(idatSize := 0, crc := IDAT + ch.data, z := z, header := false, afterIdat := true)
              && s.pending == rest && s.dropped == [] && s.consumed == st.consumed + (ch.data + ch.crc)
  {
    hide Inflate;
    var n := |ch.data|;
    assert st.pending[..n] == ch.data && st.pending[n..] == ch.crc + rest;
    assert (ch.crc + rest)[..4] == ch.crc && (ch.crc + rest)[4..] == rest;
    assert st.consumed + ch.data + ch.crc == st.consumed + (ch.data + ch.crc);
  }

  /** The handler's part behind a header. */
  lemma GivenStep<Z, I>(env: Env<Z, I>, st: State<Z, I>, v: View<Z, I>, ch: Chunk, rest: Bytes)
    requires Sized(ch) && ch.name != IDAT && Headed(st, ch) && st.core.mode == ReadChunk
    requires st.pending == ch.data + ch.crc + rest && st.dropped == []
    requires v.(mode := ReadChunk)
             == View(ReadChunk, st.core.afterIdat, st.core.chunkAfterIdat, st.core.z, st.core.info, st.core.events)
    ensures match Given(env, v, ch)
            case Fails(events, z, info) => ChunkBody(env, st) == Error(events, z, info)
            case Goes(w) =>
              && ChunkBody(env, st).Next?
              && var s := ChunkBody(env, st).st;
              && w == View(s.core.mode, s.core.afterIdat, s.core.chunkAfterIdat, s.core.z, s.core.info, s.core.events)
              && !s.core.header && s.pending == rest && s.dropped == [] && s.core.sigBytes == st.core.sigBytes
              && s.consumed == st.consumed + (ch.data + ch.crc) && w.mode in {ReadChunk, Done}
  {
    var n := |ch.data| + 4;
    assert st.pending[..n] == ch.data + ch.crc && st.pending[n..] == rest;
    var handled := [Handled(ch.name, ch.data + ch.crc)];
    assert st.core.events + handled + [HaveEnd] == st.core.events + (handled + [HaveEnd]);
    assert st.core.events + handled == st.core.events + (handled + []);
  }

  /** The header of the chunk has been read: s is the state behind it. */
  ghost predicate Begun<Z, I>(st: State<Z, I>, s: State<Z, I>, v: View<Z, I>, ch: Chunk, rest: Bytes) {
    && Inv(st) && |st.pending| >= 8 && !LengthTooBig(st) && st.pending[4..8] == ch.name && s == ReadHeader(st)
    && Sized(ch) && Headed(s, ch) && s.pending == ch.data + ch.crc + rest && s.dropped == []
    && s.consumed + s.pending == st.consumed + st.pending
    && s.core.header && s.core.sigBytes >= 8 && !st.core.header && s.core.idatSize == 0 && s.core.mode == st.core.mode
    && v == View(s.core.mode, s.core.afterIdat, s.core.chunkAfterIdat, s.core.z, s.core.info, s.core.events)
  }

  lemma Begins<Z, I>(st: State<Z, I>, v: View<Z, I>, ch: Chunk, rest: Bytes)
    requires Sized(ch) && At(st, v, Encode(ch) + rest) && v.mode in {ReadChunk, ReadIdat}
    ensures Begun(st, ReadHeader(st), v, ch, rest)
  {
    hide Encode, LengthTooBig;
    ReadsHeader(st, ch, rest);
    HeaderFields(st);
    HeaderKeeps(st);
    assert st.core.idatSize == 0;
  }

  /** A step that goes on from s as the image data does. */
  lemma DataGoes<Z, I>(env: Env<Z, I>, st: State<Z, I>, s: State<Z, I>, v: View<Z, I>, ch: Chunk, rest: Bytes)
    returns (st': State<Z, I>)
    requires Inv(st) && st.pending != [] && Step(env, st) == IdatBody(env, s)
    requires Sized(ch) && s.pending == ch.data + ch.crc + rest && s.dropped == []
    requires s.consumed + s.pending == st.consumed + st.pending
    requires s.core.name == IDAT && s.core.crc == IDAT && s.core.idatSize == |ch.data|
    requires s.core.mode == ReadIdat && s.core.sigBytes >= 8
    requires v.(mode := ReadIdat)
             == View(ReadIdat, s.core.afterIdat, s.core.chunkAfterIdat, s.core.z, s.core.info, s.core.events)
    ensures Continues(env, st, st', ImageData(env, v, ch), rest)
  {
    hide IdatBody, Step, Run, Unbroken;
    DataStep(env, s, ch, rest);
    st' := st;
    if ImageData(env, v, ch).Goes? {
      st' := IdatBody(env, s).st;
      RunStep(env, st, st');
      assert s.pending == (ch.data + ch.crc) + rest;
      assert st'.consumed + rest == s.consumed + s.pending;
    } else {
      RunRaises(env, st);
    }
  }

  /** A step that goes on from s as the handler does. */
  lemma GivenGoes<Z, I>(env: Env<Z, I>, st: State<Z, I>, s: State<Z, I>, v: View<Z, I>, ch: Chunk, rest: Bytes)
    returns (st': State<Z, I>)
    requires Inv(st) && st.pending != [] && Step(env, st) == ChunkBody(env, s)
    requires Sized(ch) && ch.name != IDAT && Headed(s, ch) && s.pending == ch.data + ch.crc + rest && s.dropped == []
    requires s.consumed + s.pending == st.consumed + st.pending
    requires s.core.mode == ReadChunk && s.core.sigBytes >= 8
    requires v.(mode := ReadChunk)
             == View(ReadChunk, s.core.afterIdat, s.core.chunkAfterIdat, s.core.z, s.core.info, s.core.events)
    ensures Continues(env, st, st', Given(env, v, ch), rest)
  {
    hide ChunkBody, Step, Run, Given;
    GivenStep(env, s, v, ch, rest);
    st' := st;
    if Given(env, v, ch).Goes? {
      st' := ChunkBody(env, s).st;
      RunStep(env, st, st');
      assert s.pending == (ch.data + ch.crc) + rest;
      assert st'.consumed + rest == s.consumed + s.pending;
    } else {
      RunRaises(env, st);
    }
  }

  /** Behind image data; the name is not looked at. */
  lemma BehindImage<Z, I>(env: Env<Z, I>, st: State<Z, I>, s: State<Z, I>, v: View<Z, I>, ch: Chunk, rest: Bytes)
    returns (st': State<Z, I>)
    requires Begun(st, s, v, ch, rest) && v.mode == ReadIdat && ch.name != IDAT
    ensures Continues(env, st, st', OneChunk(env, v, ch), rest)
  {
    hide ChunkBody, Run, Given, IdatBody, LengthTooBig;
    st' := st;
    if env.status(v.z) != Ended {
      RunRaises(env, st);
    } else {
      var t := s.(core := s.core.(mode := ReadChunk));
      RunStep(env, st, t);
      st' := GivenGoes(env, t, t, v, ch, rest);
    }
  }

  /** The first IDAT chunk, or one behind other chunks. */
  lemma ImageBegins<Z, I>(env: Env<Z, I>, st: State<Z, I>, s: State<Z, I>, v: View<Z, I>, ch: Chunk, rest: Bytes)
    returns (st': State<Z, I>)
    requires Begun(st, s, v, ch, rest) && v.mode == ReadChunk && ch.name == IDAT
    ensures Continues(env, st, st', OneChunk(env, v, ch), rest)
  {
    hide Run, ImageData, LengthTooBig;
    st' := st;
    match StartIdat(env, s.core)
    case None => RunRaises(env, st);
    case Some(d) =>
      var t := s.(core := d);
      RunStep(env, st, t);
      var w := View(ReadChunk, d.afterIdat, d.chunkAfterIdat, d.z, d.info, d.events);
      assert OneChunk(env, v, ch) == ImageData(env, w, ch);
      st' := DataGoes(env, t, t, w, ch, rest);
  }

  /** From the length of a chunk to its CRC. */
  lemma ChunkGoes<Z, I>(env: Env<Z, I>, st: State<Z, I>, v: View<Z, I>, ch: Chunk, rest: Bytes)
    returns (st': State<Z, I>)
    requires Sized(ch) && At(st, v, Encode(ch) + rest) && v.mode != Done
    ensures Continues(env, st, st', OneChunk(env, v, ch), rest)
  {
    hide Encode, LengthTooBig, IdatBody, ChunkBody, Given, ImageData, Run;
    Begins(st, v, ch, rest);
    var s := ReadHeader(st);
    if v.mode == ReadIdat && ch.name == IDAT {
      st' := DataGoes(env, st, s.(core := s.core.(idatSize := s.core.pushLength)), v, ch, rest);
    } else if v.mode == ReadIdat {
      st' := BehindImage(env, st, s, v, ch, rest);
    } else if !Letters(ch.name) {
      st' := st;
      RunRaises(env, st);
    } else if ch.name != IDAT {
      st' := GivenGoes(env, st, s, v, ch, rest);
    } else {
      st' := ImageBegins(env, st, s, v, ch, rest);
    }
  }

  // ---- All chunks --------------------------------------------------------------------------------------

  /** The signature bytes that the application has left. */
  lemma SignatureRuns<Z, I>(env: Env<Z, I>, sigBytes: nat, z: Z, info: I, rest: Bytes) returns (st': State<Z, I>)
    requires sigBytes < 8
    ensures var st := Fed(Start(sigBytes, z, info), SIGNATURE[sigBytes..] + rest);
            Inv(st) && Inv(st') && Run(env, st) == Run(env, st')
    ensures At(st', View(ReadChunk, false, false, z, info, []), rest) && st'.consumed == SIGNATURE[sigBytes..]
  {
    var st := Fed(Start(sigBytes, z, info), SIGNATURE[sigBytes..] + rest);
    var n := 8 - sigBytes;
    assert st.pending == SIGNATURE[sigBytes..] + rest && st.pending[..n] == SIGNATURE[sigBytes..]
           && st.pending[n..] == rest;
    st' := StepSig(st).st;
    RunStep(env, st, st');
  }

  /** Behind the end everything is thrown away. */
  lemma DoneRuns<Z, I>(env: Env<Z, I>, st: State<Z, I>)
    requires Inv(st) && st.core.mode == Done
    ensures Run(env, st) == Ok(st.(dropped := st.dropped + st.pending, pending := []))
  {
    assert st.dropped + [] == st.dropped;
    if st.pending != [] {
      RunStep(env, st, st.(dropped := st.dropped + st.pending, pending := []));
    }
  }

  /** The chunks behind the end. */
  function Unread<Z, I>(env: Env<Z, I>, v: View<Z, I>, chunks: seq<Chunk>): (r: seq<Chunk>)
    requires AllSized(chunks)
    ensures AllSized(r)
    decreases |chunks|
  {
    if chunks == [] || v.mode == Done then chunks
    else
      match OneChunk(env, v, chunks[0])
      case Goes(next) => Unread(env, next, chunks[1..])
      case Fails(_, _, _) => []
  }

  /** What the reader has become, and what of `all` it has used up and thrown away. */
  ghost predicate Became<Z, I>(r: Reader<Z, I>, verdict: Verdict<Z, I>, all: Bytes, unread: Bytes) {
    match verdict
    case Fails(events, z, info) => r == Failed(events, z, info)
    case Goes(w) =>
      && r.Ok?
      && w == View(r.st.core.mode, r.st.core.afterIdat, r.st.core.chunkAfterIdat, r.st.core.z, r.st.core.info,
                   r.st.core.events)
      && r.st.pending == [] && r.st.dropped == unread && r.st.consumed + unread == all
  }

  lemma {:induction false} ChunksGo<Z, I>(env: Env<Z, I>, st: State<Z, I>, v: View<Z, I>, chunks: seq<Chunk>,
      tail: Bytes)
    requires AllSized(chunks) && At(st, v, EncodeAll(chunks) + tail)
    requires tail == [] || AllChunks(env, v, chunks).Fails? || AllChunks(env, v, chunks).v.mode == Done
    ensures Became(Run(env, st), AllChunks(env, v, chunks), st.consumed + st.pending,
                   EncodeAll(Unread(env, v, chunks)) + tail)
    decreases |chunks|
  {
    hide OneChunk, Encode, Inv;
    if v.mode == Done {
      DoneRuns(env, st);
      assert [] + st.pending == st.pending;
    } else if chunks == [] {
      assert EncodeAll(chunks) + tail == [] && st.consumed + [] == st.consumed;
    } else {
      var ch, more := chunks[0], chunks[1..];
      assert ch in chunks && forall c :: c in more ==> c in chunks;
      assert EncodeAll(chunks) + tail == Encode(ch) + (EncodeAll(more) + tail);
      var next := ChunkGoes(env, st, v, ch, EncodeAll(more) + tail);
      if OneChunk(env, v, ch).Goes? {
        ChunksGo(env, next, OneChunk(env, v, ch).v, more, tail);
      }
    }
  }

  function FirstView<Z, I>(z: Z, info: I): View<Z, I> {
    View(ReadChunk, false, false, z, info, [])
  }

  /** Every datastream that is a list of chunks, whatever their names, CRCs and order: the reader fails or goes on
      as the chunks say one by one; once it has failed or has seen the end, what follows does not matter. */
  lemma EveryDatastream<Z, I>(env: Env<Z, I>, sigBytes: nat, chunks: seq<Chunk>, z: Z, info: I, tail: Bytes)
    requires sigBytes < 8 && AllSized(chunks)
    requires var verdict := AllChunks(env, FirstView(z, info), chunks);
             tail == [] || verdict.Fails? || verdict.v.mode == Done
    ensures var all := SIGNATURE[sigBytes..] + (EncodeAll(chunks) + tail);
            Became(Feed(env, Ok(Start(sigBytes, z, info)), all), AllChunks(env, FirstView(z, info), chunks), all,
                   EncodeAll(Unread(env, FirstView(z, info), chunks)) + tail)
  {
    hide AllChunks, Run, EncodeAll, Inv, Unread;
    var st := SignatureRuns(env, sigBytes, z, info, EncodeAll(chunks) + tail);
    ChunksGo(env, st, FirstView(z, info), chunks, tail);
  }

  // ---- Where it fails ----------------------------------------------------------------------------------

  /** The verdict on a chunk is the verdict on the datastream from there on. */
  lemma {:induction false} UpTo<Z, I>(env: Env<Z, I>, v: View<Z, I>, front: seq<Chunk>, ch: Chunk, more: seq<Chunk>)
    requires AllChunks(env, v, front).Goes? && AllChunks(env, v, front).v.mode != Done
    ensures var w := AllChunks(env, v, front).v;
            AllChunks(env, v, front + [ch] + more)
            == match OneChunk(env, w, ch)
               case Goes(next) => AllChunks(env, next, more)
               case failure => failure
    decreases |front|
  {
    hide OneChunk;
    var all := front + [ch] + more;
    if front == [] {
      assert all[0] == ch && all[1..] == more;
    } else {
      assert all[0] == front[0] && all[1..] == front[1..] + [ch] + more;
      if v.mode != Done {
        UpTo(env, OneChunk(env, v, front[0]).v, front[1..], ch, more);
      }
    }
  }

  /** The reader behind the chunks, in front of anything that is not looked at yet. */
  lemma {:induction false} ChunksPass<Z, I>(env: Env<Z, I>, st: State<Z, I>, v: View<Z, I>, chunks: seq<Chunk>,
      rest: Bytes)
    returns (st': State<Z, I>)
    requires AllSized(chunks) && At(st, v, EncodeAll(chunks) + rest)
    requires AllChunks(env, v, chunks).Goes? && AllChunks(env, v, chunks).v.mode != Done
    ensures At(st', AllChunks(env, v, chunks).v, rest) && Run(env, st) == Run(env, st')
    decreases |chunks|
  {
    hide OneChunk, Encode, Inv;
    st' := st;
    if chunks == [] {
      assert EncodeAll(chunks) + rest == rest;
    } else {
      var ch, more := chunks[0], chunks[1..];
      assert ch in chunks && forall c :: c in more ==> c in chunks;
      assert EncodeAll(chunks) + rest == Encode(ch) + (EncodeAll(more) + rest);
      var next := ChunkGoes(env, st, v, ch, EncodeAll(more) + rest);
      st' := ChunksPass(env, next, OneChunk(env, v, ch).v, more, rest);
    }
  }

  /** A header between two chunks is refused by its length alone if that is 2^31 or more, whatever its name. */
  lemma LongHeaderFails<Z, I>(env: Env<Z, I>, st: State<Z, I>, n: nat, name: Bytes, rest: Bytes)
    requires 0x8000_0000 <= n < 0x1_0000_0000 && |name| == 4
    requires Inv(st) && st.core.mode in {ReadChunk, ReadIdat} && !st.core.header
    requires st.pending == BigEndian(n) + name + rest
    ensures Run(env, st) == Failed(st.core.events, st.core.z, st.core.info)
  {
    hide Run, BigEndian, Uint32;
    assert st.pending[..4] == BigEndian(n);
    RunRaises(env, st);
  }

  /** A chunk length of 2^31 or more fails with the events of the chunks in front of it. */
  lemma LongChunkFails<Z, I>(env: Env<Z, I>, sigBytes: nat, chunks: seq<Chunk>, z: Z, info: I, n: nat, name: Bytes,
      rest: Bytes)
    requires sigBytes < 8 && AllSized(chunks) && 0x8000_0000 <= n < 0x1_0000_0000 && |name| == 4
    requires var before := AllChunks(env, FirstView(z, info), chunks); before.Goes? && before.v.mode != Done
    ensures var w := AllChunks(env, FirstView(z, info), chunks).v;
            Feed(env, Ok(Start(sigBytes, z, info)),
                 SIGNATURE[sigBytes..] + (EncodeAll(chunks) + (BigEndian(n) + name + rest)))
            == Failed(w.events, w.z, w.info)
  {
    hide AllChunks, Run, EncodeAll, Inv, BigEndian;
    var tail := BigEndian(n) + name + rest;
    var st := SignatureRuns(env, sigBytes, z, info, EncodeAll(chunks) + tail);
    var next := ChunksPass(env, st, FirstView(z, info), chunks, tail);
    LongHeaderFails(env, next, n, name, rest);
  }

  // ---- What one chunk needs ----------------------------------------------------------------------------

  /** Image data in the first run of IDAT chunks, or behind other chunks. */
  predicate ImagePasses<Z, I>(env: Env<Z, I>, v: View<Z, I>, ch: Chunk) {
    && (v.mode != ReadIdat ==> env.haveIhdr(v.info) && !env.missingPalette(v.info))
    && (v.mode != ReadIdat && v.afterIdat ==> env.benignErrorsWarn)
    && (ch.data != [] ==> env.status(Inflate(env, v.z, ch.data)) != Broken)
    && env.crcAccepted(IDAT, IDAT + ch.data, ch.crc)
  }

  predicate HandlerPasses<Z, I>(env: Env<Z, I>, v: View<Z, I>, ch: Chunk) {
    && (if v.mode == ReadIdat then env.status(v.z) == Ended else forall c :: c in ch.name ==> IsLetter(c))
    && (ch.name == IHDR ==> |ch.data| == 13)
    && env.handle(v.info, ch.name, ch.data + ch.crc).Some?
  }

  /** Every condition under which a chunk is passed, and what the application then sees: image data behind other chunks
      makes the info callback again. */
  lemma PassesIff<Z, I>(env: Env<Z, I>, v: View<Z, I>, ch: Chunk)
    requires v.mode in {ReadChunk, ReadIdat}
    ensures OneChunk(env, v, ch).Goes?
            <==> if ch.name == IDAT then ImagePasses(env, v, ch) else HandlerPasses(env, v, ch)
    ensures OneChunk(env, v, ch).Goes? ==>
              OneChunk(env, v, ch).v.events
              == v.events + if ch.name != IDAT then Shown(ch)
                 else if v.mode == ReadChunk && (v.afterIdat || v.chunkAfterIdat || ch.data != []) then [HaveInfo]
                 else []
  {
  }

  /** A name is made of the ASCII letters. */
  lemma LetterIff(c: byte)
    ensures IsLetter(c) <==> 'A' <= c as char <= 'Z' || 'a' <= c as char <= 'z'
  {
  }

  /** A name that is no four letters is an error anywhere but right behind complete image data, where the chunk goes to
      its handler. */
  lemma BadNameIff<Z, I>(env: Env<Z, I>, v: View<Z, I>, ch: Chunk)
    requires !Letters(ch.name)
    ensures OneChunk(env, v, ch)
            == if v.mode == ReadIdat && env.status(v.z) == Ended then Given(env, v, ch) else Refuse(v)
  {
    assert Letters(IDAT);
  }

  /** Image data with a refused CRC is an error, after inflate has had it; the info callback may have been made. */
  lemma BadCrcFails<Z, I>(env: Env<Z, I>, v: View<Z, I>, ch: Chunk)
    requires ch.name == IDAT && !env.crcAccepted(IDAT, IDAT + ch.data, ch.crc)
    ensures OneChunk(env, v, ch).Fails?
    ensures OneChunk(env, v, ch).events in {v.events, v.events + [HaveInfo]} && OneChunk(env, v, ch).info == v.info
    ensures OneChunk(env, v, ch).z in {v.z, Inflate(env, v.z, ch.data)}
  {
  }

  /** "a.bc", an ancillary chunk by its first letter. */
  const ODD_NAME: Bytes := [97, 46, 98, 99]

  /** A chunk with this name is handed out when it follows the image data, and is an error in front of it. */
  lemma OddNameIsHandled<Z, I>(env: Env<Z, I>, v: View<Z, I>, data: Bytes, crc: Bytes)
    requires env.handle(v.info, ODD_NAME, data + crc).Some? && env.status(v.z) == Ended
    ensures var ch := Chunk(ODD_NAME, data, crc);
            && OneChunk(env, v.(mode := ReadChunk), ch).Fails?
            && OneChunk(env, v.(mode := ReadIdat), ch).Goes?
            && OneChunk(env, v.(mode := ReadIdat), ch).v.events == v.events + [Handled(ODD_NAME, data + crc)]
  {
    assert ODD_NAME[1] in ODD_NAME && IHDR[1] != ODD_NAME[1] && IEND[1] != ODD_NAME[1] && IDAT[1] != ODD_NAME[1];
    assert v.events + ([Handled(ODD_NAME, data + crc)] + []) == v.events + [Handled(ODD_NAME, data + crc)];
  }

  // ---- A chunk that is skipped -------------------------------------------------------------------------

  /** The rest of a chunk that is skipped is used up with its CRC, which covers what was there before and the rest. */
  lemma SkipGoes<Z, I>(env: Env<Z, I>, st: State<Z, I>, data: Bytes, crc: Bytes, rest: Bytes)
    returns (st': State<Z, I>)
    requires Inv(st) && st.core.mode == SkipData && |crc| == 4 && st.core.skipLength == |data|
    requires st.pending == data + crc + rest
    ensures if env.crcAccepted(st.core.name, st.core.crc + data, crc) then
              && Inv(st') && Run(env, st) == Run(env, st') && st'.pending == rest
              && st'.core == st.core.(mode := ReadChunk, skipLength := 0, crc := st.core.crc + data)
            else Run(env, st) == Failed(st.core.events, st.core.z, st.core.info)
  {
    hide Run;
    var n := |data|;
    assert st.pending[..n] == data && st.pending[n..] == crc + rest;
    assert (crc + rest)[..4] == crc && (crc + rest)[4..] == rest;
    st' := st;
    if env.crcAccepted(st.core.name, st.core.crc + data, crc) {
      st' := Step(env, st).st;
      RunStep(env, st, st');
    } else {
      RunRaises(env, st);
    }
  }
}
