/** Regular datastreams: exactly which of them the progressive reader reads to their end, and what comes out
    (android/jni/libpng/pngpread.c:145-485, 717-812). */
module PushVerdict {
  import opened Basics
  import opened PushSpec
  import opened PushSplit
  import opened PushStream
  import opened PushChunks

  /** Ordinary chunks go to their handlers one after the other. */
  lemma {:induction false} OrdinaryGo<Z, I>(env: Env<Z, I>, v: View<Z, I>, chunks: seq<Chunk>, rest: seq<Chunk>)
    requires v.mode == ReadChunk && AllOrdinary(chunks)
    ensures AllChunks(env, v, chunks + rest)
            == match HandleAll(env, v.info, chunks)
               case None => AllChunks(env, v, chunks)
               case Some(info) =>
                 AllChunks(env, v.(info := info, events := v.events + HandledAll(chunks)), rest)
    ensures HandleAll(env, v.info, chunks).None? ==> AllChunks(env, v, chunks).Fails?
    decreases |chunks|
  {
    if chunks == [] {
      assert chunks + rest == rest && v.events + [] == v.events;
    } else {
      var ch, more := chunks[0], chunks[1..];
      assert ch in chunks && forall c :: c in more ==> c in chunks;
      assert (chunks + rest)[0] == ch && (chunks + rest)[1..] == more + rest;
      var shown := [Handled(ch.name, ch.data + ch.crc)];
      assert v.events + (shown + []) == v.events + shown;
      assert v.events + shown + HandledAll(more) == v.events + (shown + HandledAll(more));
      match env.handle(v.info, ch.name, ch.data + ch.crc)
      case None =>
      case Some(info) => OrdinaryGo(env, v.(info := info, events := v.events + shown), more, rest);
    }
  }

  /** Image data goes to inflate as one piece, if it does not break. */
  lemma {:induction false} ImagesGo<Z, I>(env: Env<Z, I>, v: View<Z, I>, chunks: seq<Chunk>, rest: seq<Chunk>)
    requires v.mode == ReadIdat && v.afterIdat && AllImage(env, chunks)
    ensures var z := Inflate(env, v.z, Data(chunks));
            || AllChunks(env, v, chunks + rest) == AllChunks(env, v.(z := z), rest)
            || (AllChunks(env, v, chunks + rest).Fails? && env.status(z) == Broken)
    decreases |chunks|
  {
    if chunks == [] {
      assert chunks + rest == rest;
    } else {
      var ch, more := chunks[0], chunks[1..];
      assert ch in chunks && forall c :: c in more ==> c in chunks;
      assert (chunks + rest)[0] == ch && (chunks + rest)[1..] == more + rest;
      InflateAppend(env, v.z, ch.data, Data(more));
      var z := Inflate(env, v.z, ch.data);
      if Unbroken(env, v.z, ch.data) {
        ImagesGo(env, v.(z := z), more, rest);
      } else {
        InflateStuck(env, z, Data(more));
      }
    }
  }

  /** The first IDAT chunk opens the image, if the two tests pass. */
  lemma ImageOpens<Z, I>(env: Env<Z, I>, v: View<Z, I>, image: seq<Chunk>, rest: seq<Chunk>)
    requires v.mode == ReadChunk && !v.afterIdat && !v.chunkAfterIdat && AllImage(env, image) && image != []
    ensures var z := Inflate(env, v.z, Data(image));
            var begun := v.(mode := ReadIdat, afterIdat := true, events := v.events + BeginsWith(image), z := z);
            if !env.haveIhdr(v.info) || env.missingPalette(v.info) then AllChunks(env, v, image + rest).Fails?
            else
              || AllChunks(env, v, image + rest) == AllChunks(env, begun, rest)
              || (AllChunks(env, v, image + rest).Fails? && env.status(z) == Broken)
  {
    hide Inflate;
    var ch, more := image[0], image[1..];
    assert ch in image && forall c :: c in more ==> c in image;
    assert (image + rest)[0] == ch && (image + rest)[1..] == more + rest;
    assert v.events + [] == v.events;
    InflateAppend(env, v.z, ch.data, Data(more));
    var z := Inflate(env, v.z, ch.data);
    var first := v.(mode := ReadIdat, afterIdat := true, events := v.events + BeginsWith(image), z := z);
    if Unbroken(env, v.z, ch.data) {
      ImagesGo(env, first, more, rest);
    } else {
      InflateStuck(env, z, Data(more));
    }
  }

  /** Behind the image data: the stream must have ended, and the last chunk ends the file. */
  lemma EndsGo<Z, I>(env: Env<Z, I>, v: View<Z, I>, after: seq<Chunk>, end: Chunk)
    requires v.mode == ReadIdat && AllOrdinary(after) && WellFormed(end) && end.name == IEND
    ensures var verdict, handled := AllChunks(env, v, after + [end]), HandleAll(env, v.info, after + [end]);
            if env.status(v.z) != Ended || handled.None? then verdict.Fails?
            else verdict == Goes(v.(mode := Done, info := handled.value,
                                    events := v.events + HandledAll(after + [end]) + [HaveEnd]))
  {
    hide AllChunks, HandleAll, HandledAll, AllOrdinary;
    LeavesImage(env, v, after, end);
    var w := v.(mode := ReadChunk);
    HandleLast(env, v.info, after, end);
    OrdinaryGo(env, w, after, [end]);
    if HandleAll(env, v.info, after).Some? {
      var u := w.(info := HandleAll(env, v.info, after).value, events := w.events + HandledAll(after));
      EndGoes(env, u, end);
      assert w.events + HandledAll(after) + Shown(end) == w.events + (HandledAll(after) + Shown(end));
      assert w.events + HandledAll(after + [end]) + [HaveEnd] == w.events + (HandledAll(after + [end]) + [HaveEnd]);
    }
  }

  lemma LeavesImage<Z, I>(env: Env<Z, I>, v: View<Z, I>, after: seq<Chunk>, end: Chunk)
    requires v.mode == ReadIdat && AllOrdinary(after) && WellFormed(end) && end.name == IEND
    ensures if env.status(v.z) != Ended then AllChunks(env, v, after + [end]).Fails?
            else AllChunks(env, v, after + [end]) == AllChunks(env, v.(mode := ReadChunk), after + [end])
  {
    var all := after + [end];
    assert IDAT[1] != IEND[1];
    assert all[0] == if after == [] then end else after[0];
    assert after != [] ==> after[0] in after;
  }

  lemma EndGoes<Z, I>(env: Env<Z, I>, v: View<Z, I>, end: Chunk)
    requires v.mode == ReadChunk && WellFormed(end) && end.name == IEND
    ensures AllChunks(env, v, [end])
            == match env.handle(v.info, end.name, end.data + end.crc)
               case None => Refuse(v)
               case Some(info) => Goes(v.(mode := Done, info := info, events := v.events + Shown(end)))
  {
    assert [end][1..] == [] && IDAT[1] != IEND[1] && IHDR[1] != IEND[1];
  }

  lemma {:induction false} HandleLast<Z, I>(env: Env<Z, I>, info: I, chunks: seq<Chunk>, end: Chunk)
    requires end.name == IEND
    ensures HandleAll(env, info, chunks + [end])
            == match HandleAll(env, info, chunks)
               case None => None
               case Some(last) => env.handle(last, end.name, end.data + end.crc)
    ensures HandledAll(chunks + [end]) + [HaveEnd] == HandledAll(chunks) + Shown(end)
    decreases |chunks|
  {
    if chunks == [] {
      assert chunks + [end] == [end] && [end][1..] == [];
    } else {
      assert (chunks + [end])[1..] == chunks[1..] + [end];
      var handled := env.handle(info, chunks[0].name, chunks[0].data + chunks[0].crc);
      var here := [Handled(chunks[0].name, chunks[0].data + chunks[0].crc)];
      HandleLast(env, if handled.Some? then handled.value else info, chunks[1..], end);
      assert here + HandledAll(chunks[1..] + [end]) + [HaveEnd] == here + (HandledAll(chunks[1..] + [end]) + [HaveEnd]);
    }
  }

  /** Nothing of a file stands behind its end. */
  lemma {:induction false} AllRead<Z, I>(env: Env<Z, I>, v: View<Z, I>, chunks: seq<Chunk>)
    requires AllSized(chunks) && v.mode != Done && forall i :: 0 <= i < |chunks| - 1 ==> chunks[i].name != IEND
    ensures Unread(env, v, chunks) == []
    decreases |chunks|
  {
    hide Letters, Inflate;
    if |chunks| > 1 && OneChunk(env, v, chunks[0]).Goes? {
      AllRead(env, OneChunk(env, v, chunks[0]).v, chunks[1..]);
    }
  }

  /** The verdict on a regular file, chunk by chunk. */
  lemma FileVerdict<Z, I>(env: Env<Z, I>, file: File, z: Z, info: I)
    requires Regular(env, file)
    ensures var verdict := AllChunks(env, FirstView(z, info), Chunks(file));
            if !Accepted(env, file, z, info) then verdict.Fails?
            else
              var started := HandleAll(env, info, file.before).value;
              var last := HandleAll(env, started, file.after + [file.end]).value;
              verdict == Goes(View(Done, true, false, Inflate(env, z, Data(file.image)), last, AllEvents(file)))
  {
    hide AllChunks, HandleAll, HandledAll, AllOrdinary, AllImage, Inflate, BeginsWith;
    var v, ends := FirstView(z, info), file.after + [file.end];
    assert Chunks(file) == file.before + (file.image + ends);
    OrdinaryGo(env, v, file.before, file.image + ends);
    if HandleAll(env, info, file.before).Some? {
      assert [] + HandledAll(file.before) == HandledAll(file.before);
      var w := v.(info := HandleAll(env, info, file.before).value, events := HandledAll(file.before));
      ImageOpens(env, w, file.image, ends);
      var begun := w.(mode := ReadIdat, afterIdat := true, events := w.events + BeginsWith(file.image),
                       z := Inflate(env, z, Data(file.image)));
      EndsGo(env, begun, file.after, file.end);
    }
  }

  lemma FileChunks<Z, I>(env: Env<Z, I>, file: File)
    requires Regular(env, file)
    ensures AllSized(Chunks(file))
    ensures forall i :: 0 <= i < |Chunks(file)| - 1 ==> Chunks(file)[i].name != IEND
  {
    assert IDAT[1] != IEND[1];
    forall i | 0 <= i < |Chunks(file)| - 1
      ensures Chunks(file)[i].name != IEND
    {
      var ch := Chunks(file)[i];
      assert ch in file.before || ch in file.image || ch in file.after;
    }
  }

  /** A regular file is read to its end if and only if the callees accept it; otherwise the reader has
      failed, and no more input changes that. */
  lemma RegularIff<Z, I>(env: Env<Z, I>, sigBytes: nat, file: File, z: Z, info: I, tail: Bytes)
    requires sigBytes < 8 && Regular(env, file)
    ensures var r := Feed(env, Ok(Start(sigBytes, z, info)), Stream(env, sigBytes, file) + tail);
            && (Accepted(env, file, z, info) <==> r.Ok? && r.st.core.mode == Done)
            && (Accepted(env, file, z, info) <==> !r.Failed?)
  {
    hide Run, EncodeAll, Inv, AllOrdinary, AllImage, AllSized, AllChunks, Accepted, Unread;
    FileChunks(env, file);
    FileVerdict(env, file, z, info);
    EveryDatastream(env, sigBytes, Chunks(file), z, info, tail);
    assert Stream(env, sigBytes, file) + tail == SIGNATURE[sigBytes..] + (EncodeAll(Chunks(file)) + tail);
  }

  /** A regular file that the callees accept is read to its end, whatever follows it: every chunk goes
      to its handler once and in order, inflate gets exactly the image data, and the end callback comes
      last.  The info callback is made before the image if and only if the first IDAT chunk is not
      empty. */
  lemma StreamIsRead<Z, I>(env: Env<Z, I>, sigBytes: nat, file: File, z: Z, info: I, tail: Bytes)
    requires sigBytes < 8 && Regular(env, file) && Accepted(env, file, z, info)
    ensures var r := Feed(env, Ok(Start(sigBytes, z, info)), Stream(env, sigBytes, file) + tail);
            && r.Ok? && r.st.core.mode == Done
            && r.st.core.events == AllEvents(file)
            && r.st.core.z == Inflate(env, z, Data(file.image))
            && Some(r.st.core.info) == HandleAll(env, HandleAll(env, info, file.before).value, file.after + [file.end])
            && r.st.consumed == Stream(env, sigBytes, file) && r.st.dropped == tail && r.st.pending == []
  {
    hide Run, AllOrdinary, AllImage, AllSized, AllChunks, HandleAll, Unread, Inflate;
    FileChunks(env, file);
    FileVerdict(env, file, z, info);
    EveryDatastream(env, sigBytes, Chunks(file), z, info, tail);
    AllRead(env, FirstView(z, info), Chunks(file));
    var stream := Stream(env, sigBytes, file);
    assert stream + tail == SIGNATURE[sigBytes..] + (EncodeAll(Chunks(file)) + tail);
    assert [] + tail == tail;
    var r := Feed(env, Ok(Start(sigBytes, z, info)), stream + tail);
    SameFront(r.st.consumed, stream, tail);
  }

  lemma SameFront(a: Bytes, b: Bytes, tail: Bytes)
    requires a + tail == b + tail
    ensures a == b
  {
    assert |a + tail| == |b + tail|;
    assert a == (a + tail)[..|a|] && b == (b + tail)[..|b|];
  }

  /** The same however the datastream is cut. */
  lemma CutStreamIsRead<Z, I>(env: Env<Z, I>, sigBytes: nat, file: File, z: Z, info: I, pieces: seq<Bytes>)
    requires sigBytes < 8 && Regular(env, file) && Accepted(env, file, z, info)
    requires Concat(pieces) == Stream(env, sigBytes, file)
    ensures Sound(Ok(Start(sigBytes, z, info)))
    ensures var r := FeedAll(env, Ok(Start(sigBytes, z, info)), pieces);
            && r.Ok? && r.st.core.mode == Done && r.st.core.events == AllEvents(file)
            && r.st.core.z == Inflate(env, z, Data(file.image)) && r.st.consumed == Concat(pieces)
  {
    StreamIsRead(env, sigBytes, file, z, info, []);
    assert Stream(env, sigBytes, file) + [] == Stream(env, sigBytes, file);
    AnyCutting(env, Ok(Start(sigBytes, z, info)), pieces);
  }
}
