/** The progressive PNG reader as a machine on the bytes that are fed and not yet consumed
    (android/jni/libpng/pngpread.c:30-246, 261-311, 556-826); PNG (Second Edition) sections 5.2, 5.3. */
module PushSpec {
  import opened Basics

  type byte = b: int | 0 <= b < 256
  type Bytes = seq<byte>

  const SIGNATURE: Bytes := [137, 80, 78, 71, 13, 10, 26, 10]
  const IHDR: Bytes := [73, 72, 68, 82]
  const IDAT: Bytes := [73, 68, 65, 84]
  const IEND: Bytes := [73, 69, 78, 68]

  /** The inflate state after some bytes: still running, at the end of the stream, or broken. */
  datatype ZStatus = Running | Ended | Broken

  /** Everything the reader calls: inflate as a byte-driven machine with states Z, the chunk handlers
      as a function on the image information I (`None` is an error raised inside), the two tests before
      the first IDAT, the CRC verdict, and whether benign errors are errors. */
  datatype Env<!Z, !I> = Env(
    inflate: (Z, byte) -> Z,
    status: Z -> ZStatus,
    handle: (I, Bytes, Bytes) -> Option<I>,
    haveIhdr: I -> bool,
    missingPalette: I -> bool,
    crcAccepted: (Bytes, Bytes, Bytes) -> bool,
    benignErrorsWarn: bool)

  /** The process modes that are reached; a failure is not a mode but the end of the machine. */
  datatype Mode = ReadSig | ReadChunk | ReadIdat | SkipData | Done

  /** What the application sees: a chunk with its data and CRC given to its handler, the info and the
      end callback. */
  datatype Event = Handled(name: Bytes, data: Bytes) | HaveInfo | HaveEnd

  /** The fields of the reader without its buffers. */
  datatype Core<Z, I> = Core(
    mode: Mode, sigBytes: nat,
    header: bool, haveIdat: bool, afterIdat: bool, chunkAfterIdat: bool,
    name: Bytes, pushLength: nat, idatSize: nat, skipLength: nat, crc: Bytes,
    z: Z, info: I, events: seq<Event>)

  /** The reader with the bytes it has used up, thrown away after the end, and not yet looked at. */
  datatype State<Z, I> = State(core: Core<Z, I>, consumed: Bytes, dropped: Bytes, pending: Bytes)

  /** One call of `png_process_some_data`: more may follow, or the rest was saved for later, or
      `png_error` was raised. */
  datatype Outcome<Z, I> =
    | Next(st: State<Z, I>)
    | Stall(st: State<Z, I>)
    | Error(events: seq<Event>, z: Z, info: I)

  /** The reader between calls. */
  datatype Reader<Z, I> = Ok(st: State<Z, I>) | Failed(events: seq<Event>, z: Z, info: I)

  function Fail<Z, I>(c: Core<Z, I>): Outcome<Z, I> {
    Error(c.events, c.z, c.info)
  }

  function Min(a: nat, b: nat): nat {
    if a < b then a else b
  }

  function Consume<Z, I>(st: State<Z, I>, n: nat): State<Z, I>
    requires n <= |st.pending|
  {
    st.(consumed := st.consumed + st.pending[..n], pending := st.pending[n..])
  }

  function Fed<Z, I>(st: State<Z, I>, more: Bytes): State<Z, I> {
    st.(pending := st.pending + more)
  }

  /** The sink: bytes go to inflate until it ends or breaks, the rest is ignored. */
  function Inflate<Z, I>(env: Env<Z, I>, z: Z, data: Bytes): Z {
    if data == [] || env.status(z) != Running then z else Inflate(env, env.inflate(z, data[0]), data[1..])
  }

  function Uint32(b: Bytes): nat
    requires |b| == 4
  {
    (b[0] as int) * 0x100_0000 + (b[1] as int) * 0x1_0000 + (b[2] as int) * 0x100 + b[3]
  }

  predicate IsLetter(c: byte) {
    65 <= c <= 90 || 97 <= c <= 122
  }

  /** `png_push_read_sig` */
  function StepSig<Z, I>(st: State<Z, I>): Outcome<Z, I>
    requires st.core.sigBytes < 8
  {
    var c := st.core;
    var n := Min(8 - c.sigBytes, |st.pending|);
    if st.pending[..n] != SIGNATURE[c.sigBytes..c.sigBytes + n] then Fail(c)
    else if c.sigBytes + n >= 8 then Next(Consume(st, n).(core := c.(sigBytes := 8, mode := ReadChunk)))
    else Next(Consume(st, n).(core := c.(sigBytes := c.sigBytes + n)))
  }

  /** Length and type of the next chunk; the CRC starts with the type. */
  function ReadHeader<Z, I>(st: State<Z, I>): State<Z, I>
    requires |st.pending| >= 8
  {
    var name := st.pending[4..8];
    Consume(st, 8).(core := st.core.(header := true, pushLength := Uint32(st.pending[..4]), name := name, crc := name))
  }

  predicate LengthTooBig<Z, I>(st: State<Z, I>)
    requires |st.pending| >= 8
  {
    Uint32(st.pending[..4]) > 0x7FFF_FFFF
  }

  /** The IDAT branch of `png_push_read_chunk`: checks, flags and the start of the image. */
  function StartIdat<Z, I>(env: Env<Z, I>, c0: Core<Z, I>): Option<Core<Z, I>> {
    var c := c0.(chunkAfterIdat := c0.chunkAfterIdat || c0.afterIdat);
    if !env.haveIhdr(c.info) || env.missingPalette(c.info) then None
    else
      var d := c.(haveIdat := true, mode := ReadIdat);
      if !d.chunkAfterIdat && d.pushLength == 0 then Some(d)
      else if d.afterIdat && !env.benignErrorsWarn then None
      else Some(d.(idatSize := d.pushLength, events := d.events + [HaveInfo]))
  }

  /** A chunk other than IDAT with all its data: its handler, and the end callback behind IEND. */
  function Dispatch<Z, I>(env: Env<Z, I>, c: Core<Z, I>, data: Bytes): Option<Core<Z, I>> {
    match env.handle(c.info, c.name, data)
    case None => None
    case Some(info) =>
      var d := c.(info := info, events := c.events + [Handled(c.name, data)], header := false);
      Some(if c.name == IEND then d.(mode := Done, events := d.events + [HaveEnd]) else d)
  }

  /** `png_push_read_chunk` behind the header. */
  function ChunkBody<Z, I>(env: Env<Z, I>, st: State<Z, I>): Outcome<Z, I> {
    var c := st.core;
    if c.name == IDAT then
      match StartIdat(env, c)
      case None => Fail(c)
      case Some(d) => Next(st.(core := d))
    else if c.name == IHDR && c.pushLength != 13 then Fail(c)
    else if c.pushLength + 4 > |st.pending| then Stall(st)
    else
      match Dispatch(env, c, st.pending[..c.pushLength + 4])
      case None => Fail(c)
      case Some(d) => Next(Consume(st, c.pushLength + 4).(core := d))
  }

  /** `png_push_read_chunk` */
  function StepChunk<Z, I>(env: Env<Z, I>, st: State<Z, I>): Outcome<Z, I> {
    if st.core.header then ChunkBody(env, st)
    else if |st.pending| < 8 then Stall(st)
    else if LengthTooBig(st) || !(forall c :: c in st.pending[4..8] ==> IsLetter(c)) then Fail(st.core)
    else ChunkBody(env, ReadHeader(st))
  }

  /** The fields after some image data went to the CRC and to inflate. */
  function TakeIdat<Z, I>(env: Env<Z, I>, c: Core<Z, I>, data: Bytes): Core<Z, I>
    requires |data| <= c.idatSize
  {
    c.(idatSize := c.idatSize - |data|, crc := c.crc + data, z := Inflate(env, c.z, data))
  }

  /** The CRC at the end of an IDAT chunk. */
  function EndIdat<Z, I>(env: Env<Z, I>, st: State<Z, I>): Outcome<Z, I> {
    if |st.pending| < 4 then Stall(st)
    else if !env.crcAccepted(st.core.name, st.core.crc, st.pending[..4]) then Fail(st.core)
    else Next(Consume(st, 4).(core := st.core.(header := false, afterIdat := true)))
  }

  /** `png_push_read_IDAT` behind the header. */
  function IdatBody<Z, I>(env: Env<Z, I>, st: State<Z, I>): Outcome<Z, I> {
    var n := Min(st.core.idatSize, |st.pending|);
    var c := TakeIdat(env, st.core, st.pending[..n]);
    var s := Consume(st, n).(core := c);
    if n > 0 && env.status(c.z) == Broken then Fail(c)
    else if c.idatSize > 0 then Next(s)
    else EndIdat(env, s)
  }

  /** `png_push_read_IDAT`.  The name of the chunk behind the image data is not checked here. */
  function StepIdat<Z, I>(env: Env<Z, I>, st: State<Z, I>): Outcome<Z, I> {
    if st.core.header then IdatBody(env, st)
    else if |st.pending| < 8 then Stall(st)
    else if LengthTooBig(st) then Fail(st.core)
    else
      var s := ReadHeader(st);
      if s.core.name != IDAT then
        if env.status(s.core.z) != Ended then Fail(s.core) else Next(s.(core := s.core.(mode := ReadChunk)))
      else IdatBody(env, s.(core := s.core.(idatSize := s.core.pushLength)))
  }

  /** The CRC at the end of a skipped chunk. */
  function EndSkip<Z, I>(env: Env<Z, I>, st: State<Z, I>): Outcome<Z, I> {
    if |st.pending| < 4 then Stall(st)
    else if !env.crcAccepted(st.core.name, st.core.crc, st.pending[..4]) then Fail(st.core)
    else Next(Consume(st, 4).(core := st.core.(mode := ReadChunk)))
  }

  /** `png_push_crc_finish` */
  function StepSkip<Z, I>(env: Env<Z, I>, st: State<Z, I>): Outcome<Z, I> {
    var n := Min(st.core.skipLength, |st.pending|);
    var c := st.core.(skipLength := st.core.skipLength - n, crc := st.core.crc + st.pending[..n]);
    var s := Consume(st, n).(core := c);
    if c.skipLength > 0 then Next(s) else EndSkip(env, s)
  }

  /** What the fields satisfy in every reachable state. */
  predicate CoreInv<Z, I>(c: Core<Z, I>) {
    && (c.mode == ReadSig <==> c.sigBytes < 8)
    && (c.mode == ReadChunk && c.header ==> c.name != IDAT)
    && (c.mode == ReadIdat && c.header ==> c.name == IDAT)
    && (c.mode != ReadIdat || !c.header ==> c.idatSize == 0)
    && (c.mode == ReadSig || c.mode == SkipData ==> !c.header)
  }

  predicate Inv<Z, I>(st: State<Z, I>) {
    CoreInv(st.core) && (st.core.mode != Done ==> st.dropped == [])
  }

  /** A new reader; `sigBytes` of the signature were checked by the application. */
  function Start<Z, I>(sigBytes: nat, z: Z, info: I): State<Z, I> {
    State(Core(ReadSig, sigBytes, false, false, false, false, [], 0, 0, 0, [], z, info, []), [], [], [])
  }

  /** `png_process_some_data` */
  function Step<Z, I>(env: Env<Z, I>, st: State<Z, I>): Outcome<Z, I>
    requires Inv(st)
  {
    match st.core.mode
    case ReadSig => StepSig(st)
    case ReadChunk => StepChunk(env, st)
    case ReadIdat => StepIdat(env, st)
    case SkipData => StepSkip(env, st)
    case Done => Next(st.(dropped := st.dropped + st.pending, pending := []))
  }

  /** No byte lost or invented. */
  predicate Keeps<Z, I>(st: State<Z, I>, st': State<Z, I>) {
    st'.consumed + st'.pending == st.consumed + st.pending && st'.dropped == st.dropped
  }

  lemma ConsumeKeeps<Z, I>(st: State<Z, I>, n: nat)
    requires n <= |st.pending|
    ensures Keeps(st, Consume(st, n)) && |Consume(st, n).pending| == |st.pending| - n
  {
    assert st.pending == st.pending[..n] + st.pending[n..];
  }

  /** A later state in the same file: sound fields, the same bytes, no more of them pending. */
  predicate Follows<Z, I>(st: State<Z, I>, o: Outcome<Z, I>) {
    !o.Error? ==> Inv(o.st) && Keeps(st, o.st) && |o.st.pending| <= |st.pending|
  }

  lemma SigInv<Z, I>(st: State<Z, I>)
    requires Inv(st) && st.core.mode == ReadSig && st.pending != []
    ensures Follows(st, StepSig(st)) && !StepSig(st).Stall?
    ensures StepSig(st).Next? ==> |StepSig(st).st.pending| < |st.pending|
  {
    ConsumeKeeps(st, Min(8 - st.core.sigBytes, |st.pending|));
  }

  lemma ChunkBodyInv<Z, I>(env: Env<Z, I>, st: State<Z, I>)
    requires st.core.sigBytes >= 8 && st.core.header && st.core.idatSize == 0 && st.core.mode == ReadChunk
             && st.dropped == []
    ensures Follows(st, ChunkBody(env, st))
    ensures ChunkBody(env, st).Next? ==> st.core.name == IDAT || |ChunkBody(env, st).st.pending| < |st.pending|
  {
    if st.core.pushLength + 4 <= |st.pending| {
      ConsumeKeeps(st, st.core.pushLength + 4);
    }
  }

  lemma EndIdatInv<Z, I>(env: Env<Z, I>, st: State<Z, I>)
    requires st.core.sigBytes >= 8 && st.core.mode == ReadIdat && st.core.header && st.core.name == IDAT
    requires st.core.idatSize == 0 && st.dropped == []
    ensures Follows(st, EndIdat(env, st))
    ensures EndIdat(env, st).Next? ==> |EndIdat(env, st).st.pending| < |st.pending|
  {
    if |st.pending| >= 4 {
      ConsumeKeeps(st, 4);
    }
  }

  lemma IdatBodyInv<Z, I>(env: Env<Z, I>, st: State<Z, I>)
    requires st.core.sigBytes >= 8 && st.core.header && st.core.mode == ReadIdat && st.core.name == IDAT
             && st.dropped == []
    ensures Follows(st, IdatBody(env, st))
    ensures IdatBody(env, st).Next? && st.pending != [] ==> |IdatBody(env, st).st.pending| < |st.pending|
  {
    hide EndIdat, Inflate;
    var n := Min(st.core.idatSize, |st.pending|);
    ConsumeKeeps(st, n);
    var s := Consume(st, n).(core := TakeIdat(env, st.core, st.pending[..n]));
    if s.core.idatSize == 0 {
      EndIdatInv(env, s);
    }
  }

  lemma EndSkipInv<Z, I>(env: Env<Z, I>, st: State<Z, I>)
    requires Inv(st) && st.core.mode == SkipData
    ensures Follows(st, EndSkip(env, st))
    ensures EndSkip(env, st).Next? ==> |EndSkip(env, st).st.pending| < |st.pending|
  {
    if |st.pending| >= 4 {
      ConsumeKeeps(st, 4);
    }
  }

  lemma SkipInv<Z, I>(env: Env<Z, I>, st: State<Z, I>)
    requires Inv(st) && st.core.mode == SkipData && st.pending != []
    ensures Follows(st, StepSkip(env, st))
    ensures StepSkip(env, st).Next? ==> |StepSkip(env, st).st.pending| < |st.pending|
  {
    var n := Min(st.core.skipLength, |st.pending|);
    ConsumeKeeps(st, n);
    var s := Consume(st, n).(core := st.core.(skipLength := st.core.skipLength - n, crc :=
        st.core.crc + st.pending[..n]));
    EndSkipInv(env, s);
  }

  lemma HeaderFields<Z, I>(st: State<Z, I>)
    requires |st.pending| >= 8
    ensures Keeps(st, ReadHeader(st)) && |ReadHeader(st).pending| == |st.pending| - 8
    ensures var c, d := st.core, ReadHeader(st).core;
            d.header && d.mode == c.mode && d.sigBytes == c.sigBytes && d.idatSize == c.idatSize && |d.name| == 4
  {
    ConsumeKeeps(st, 8);
  }

  /** The invariant holds after every step; a step that asks for another one has used up at least one
      byte; no byte is lost or invented. */
  lemma StepInv<Z, I>(env: Env<Z, I>, st: State<Z, I>)
    requires Inv(st) && st.pending != []
    ensures var o := Step(env, st);
            !o.Error? ==>
              && Inv(o.st)
              && o.st.consumed + o.st.dropped + o.st.pending == st.consumed + st.dropped + st.pending
    ensures var o := Step(env, st);
            o.Next? ==> |o.st.pending| < |st.pending|
    ensures var o := Step(env, st);
            o.Stall? ==> st.core.mode != Done && st.core.mode != ReadSig
  {
    hide ChunkBody, IdatBody, StepSig, StepSkip, ReadHeader;
    match st.core.mode {
      case ReadSig => SigInv(st);
      case ReadChunk =>
        if st.core.header {
          ChunkBodyInv(env, st);
        } else if |st.pending| >= 8 {
          HeaderFields(st);
          ChunkBodyInv(env, ReadHeader(st));
        }
      case ReadIdat =>
        if st.core.header {
          IdatBodyInv(env, st);
        } else if |st.pending| >= 8 {
          HeaderFields(st);
          if ReadHeader(st).core.name == IDAT {
            IdatBodyInv(env, ReadHeader(st).(core := ReadHeader(st).core.(idatSize := ReadHeader(st).core.pushLength)));
          }
        }
      case SkipData => SkipInv(env, st);
      case Done =>
        assert st.dropped + st.pending + [] == st.dropped + st.pending;
    }
    if !Step(env, st).Error? && st.core.mode != Done {
      assert Keeps(st, Step(env, st).st);
      assert st.consumed + [] == st.consumed;
    }
  }
}
