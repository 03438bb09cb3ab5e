/** When the application hears of the image (android/jni/libpng/pngpread.c:220-245, 301-311). */
module PushInfo {
  import opened Basics
  import opened PushSpec
  import opened PushSplit
  import opened PushStream
  import opened PushVerdict

  lemma {:induction false} HandledOnly(chunks: seq<Chunk>)
    ensures HaveInfo !in HandledAll(chunks)
    decreases |chunks|
  {
    if chunks != [] {
      HandledOnly(chunks[1..]);
    }
  }

  /** The info callback is among the events of a file if and only if its first IDAT chunk has data. */
  lemma InfoShownIff(file: File)
    requires file.image != []
    ensures HaveInfo in AllEvents(file) <==> file.image[0].data != []
  {
    HandledOnly(file.before);
    HandledOnly(file.after + [file.end]);
  }

  /** Callees that accept everything; inflate ends with its first byte. */
  function Accepting(): Env<int, int> {
    Env((z, b) => z + 1, z => if z == 0 then Running else Ended,
        (info, name, data) => Some(info + 1), info => info > 0, info => false, (name, data, crc) => true, true)
  }

  const CRC: Bytes := [0, 0, 0, 0]
  const HEADER := Chunk(IHDR, [0, 0, 0, 1, 0, 0, 0, 1, 8, 0, 0, 0, 0], CRC)
  const SPLIT_IMAGE := File([HEADER], [Chunk(IDAT, [], CRC), Chunk(IDAT, [1], CRC)], [], Chunk(IEND, [], CRC))

  /** A file whose image data is complete, but begins with an empty IDAT chunk: it is read to its end without
      an info callback. */
  lemma EmptyFirstImage()
    ensures Regular(Accepting(), SPLIT_IMAGE) && Accepted(Accepting(), SPLIT_IMAGE, 0, 0)
    ensures var r := Feed(Accepting(), Ok(Start(0, 0, 0)), Stream(Accepting(), 0, SPLIT_IMAGE));
            r.Ok? && r.st.core.mode == Done && r.st.core.z == 1 && HaveInfo !in r.st.core.events
  {
    hide Run, Stream;
    SplitImageIsRegular();
    SplitImageIsAccepted();
    StreamIsRead(Accepting(), 0, SPLIT_IMAGE, 0, 0, []);
    assert Stream(Accepting(), 0, SPLIT_IMAGE) + [] == Stream(Accepting(), 0, SPLIT_IMAGE);
    InfoShownIff(SPLIT_IMAGE);
  }

  lemma SplitImageIsRegular()
    ensures Regular(Accepting(), SPLIT_IMAGE)
  {
    assert IHDR[1] != IDAT[1] && IHDR[1] != IEND[1];
    assert Ordinary(HEADER);
    assert Image(Accepting(), SPLIT_IMAGE.image[0]) && Image(Accepting(), SPLIT_IMAGE.image[1]);
  }

  lemma SplitImageIsAccepted()
    ensures Accepted(Accepting(), SPLIT_IMAGE, 0, 0) && Inflate(Accepting(), 0, Data(SPLIT_IMAGE.image)) == 1
  {
    var env, image := Accepting(), SPLIT_IMAGE.image;
    assert SPLIT_IMAGE.before[1..] == [] && HandleAll(env, 0, SPLIT_IMAGE.before) == Some(1);
    var last := SPLIT_IMAGE.after + [SPLIT_IMAGE.end];
    assert last[1..] == [] && HandleAll(env, 1, last) == Some(2);
    assert image[1..][1..] == [] && Data(image[1..]) == [1] && Data(image) == [1];
    assert [1 as byte][1..] == [];
  }
}
