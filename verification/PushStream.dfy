/** Datastreams: signature, chunks, image data, end (PNG (Second Edition) sections 5.2, 5.3 and 5.6;
    android/jni/libpng/pngpread.c:145-485). */
module PushStream {
  import opened Basics
  import opened PushSpec

  datatype Chunk = Chunk(name: Bytes, data: Bytes, crc: Bytes)

  function BigEndian(n: nat): (b: Bytes)
    requires n < 0x1_0000_0000
    ensures |b| == 4 && Uint32(b) == n
  {
    FourDigits(n);
    [n / 0x100_0000, n / 0x1_0000 % 0x100, n / 0x100 % 0x100, n % 0x100]
  }

  lemma FourDigits(n: nat)
    requires n < 0x1_0000_0000
    ensures n / 0x100_0000 < 0x100
    ensures n / 0x100_0000 * 0x100_0000 + n / 0x1_0000 % 0x100 * 0x1_0000 + n / 0x100 % 0x100 * 0x100 + n % 0x100 == n
  {
    assert n / 0x100 / 0x100 == n / 0x1_0000 && n / 0x1_0000 / 0x100 == n / 0x100_0000;
  }

  /** Network order (section 7.1): numbers compare as their first different bytes. */
  lemma NetworkOrder(a: Bytes, b: Bytes, k: nat)
    requires |a| == |b| == 4 && k < 4 && a[..k] == b[..k] && a[k] < b[k]
    ensures Uint32(a) < Uint32(b)
    ensures Uint32([0, 0, 0, a[3]]) == a[3]
  {
    assert forall i :: 0 <= i < k ==> a[i] == a[..k][i] == b[..k][i] == b[i];
  }

  predicate Sized(ch: Chunk) {
    |ch.name| == 4 && |ch.data| <= 0x7FFF_FFFF && |ch.crc| == 4
  }

  predicate Letters(name: Bytes) {
    forall c :: c in name ==> IsLetter(c)
  }

  predicate WellFormed(ch: Chunk) {
    Sized(ch) && Letters(ch.name)
  }

  function Encode(ch: Chunk): (b: Bytes)
    requires Sized(ch)
  {
    BigEndian(|ch.data|) + ch.name + ch.data + ch.crc
  }

  predicate AllSized(chunks: seq<Chunk>) {
    forall ch :: ch in chunks ==> Sized(ch)
  }

  function EncodeAll(chunks: seq<Chunk>): Bytes
    requires AllSized(chunks)
  {
    if chunks == [] then [] else Encode(chunks[0]) + EncodeAll(chunks[1..])
  }

  /** A chunk for a handler: not image data, not the end, and an IHDR of the right length. */
  predicate Ordinary(ch: Chunk) {
    WellFormed(ch) && ch.name != IDAT && ch.name != IEND && (ch.name == IHDR ==> |ch.data| == 13)
  }

  predicate Image<Z, I>(env: Env<Z, I>, ch: Chunk) {
    WellFormed(ch) && ch.name == IDAT && env.crcAccepted(IDAT, IDAT + ch.data, ch.crc)
  }

  predicate AllImage<Z, I>(env: Env<Z, I>, chunks: seq<Chunk>) {
    forall ch :: ch in chunks ==> Image(env, ch)
  }

  predicate AllOrdinary(chunks: seq<Chunk>) {
    forall ch :: ch in chunks ==> Ordinary(ch)
  }

  /** The handlers called one after another; `None` if one of them raises an error. */
  function HandleAll<Z, I>(env: Env<Z, I>, info: I, chunks: seq<Chunk>): Option<I> {
    if chunks == [] then Some(info)
    else
      match env.handle(info, chunks[0].name, chunks[0].data + chunks[0].crc)
      case None => None
      case Some(next) => HandleAll(env, next, chunks[1..])
  }

  function HandledAll(chunks: seq<Chunk>): seq<Event> {
    if chunks == [] then [] else [Handled(chunks[0].name, chunks[0].data + chunks[0].crc)] + HandledAll(chunks[1..])
  }

  /** The image data of the IDAT chunks as one piece (section 10.1). */
  function Data(chunks: seq<Chunk>): Bytes {
    if chunks == [] then [] else chunks[0].data + Data(chunks[1..])
  }

  datatype File = File(before: seq<Chunk>, image: seq<Chunk>, after: seq<Chunk>, end: Chunk)

  predicate Regular<Z, I>(env: Env<Z, I>, file: File) {
    && AllOrdinary(file.before) && AllOrdinary(file.after)
    && AllImage(env, file.image) && file.image != []
    && WellFormed(file.end) && file.end.name == IEND
  }

  function Chunks(file: File): seq<Chunk> {
    file.before + file.image + (file.after + [file.end])
  }

  /** The part of the datastream that the application has not checked itself. */
  function Stream<Z, I>(env: Env<Z, I>, sigBytes: nat, file: File): Bytes
    requires Regular(env, file) && sigBytes < 8
  {
    SIGNATURE[sigBytes..] + EncodeAll(Chunks(file))
  }

  /** Every handler accepts its chunk, the tests before the image pass, and inflate comes to its end. */
  predicate Accepted<Z, I>(env: Env<Z, I>, file: File, z: Z, info: I) {
    && HandleAll(env, info, file.before).Some?
    && var start := HandleAll(env, info, file.before).value;
    && env.haveIhdr(start) && !env.missingPalette(start)
    && env.status(Inflate(env, z, Data(file.image))) == Ended
    && HandleAll(env, start, file.after + [file.end]).Some?
  }

  function BeginsWith(image: seq<Chunk>): seq<Event>
    requires image != []
  {
    if image[0].data == [] then [] else [HaveInfo]
  }

  function AllEvents(file: File): seq<Event>
    requires file.image != []
  {
    HandledAll(file.before) + BeginsWith(file.image) + HandledAll(file.after + [file.end]) + [HaveEnd]
  }
}
