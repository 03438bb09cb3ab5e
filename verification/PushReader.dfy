/** The progressive reader with its fields and buffers, updated in place
    (android/jni/libpng/pngpread.c:30-246, 556-840). */
module PushReader {
  import opened PushSpec
  import opened PushSplit

  /** The front of two sequences taken in two pieces. */
  lemma TwoPieces(a: Bytes, b: Bytes, first: nat, length: nat)
    requires first == Min(length, |a|) && length <= |a| + |b|
    ensures a[..first] + b[..length - first] == (a + b)[..length]
    ensures a[first..] + b[length - first..] == (a + b)[length..]
    ensures first < |a| ==> length - first == 0
  {
  }

  class PngStruct<Z, I> {
    const env: Env<Z, I>
    /** The scalar fields of `png_struct`, kept in one record, with the callbacks made so far. */
    var core: Core<Z, I>
    /** Set by `png_error`. */
    var failed: bool

    var saveBuffer: array<byte>
    var saveBufferPtr: nat
    var saveBufferSize: nat
    var currentBuffer: array<byte>
    var currentBufferPtr: nat
    var currentBufferSize: nat
    var bufferSize: nat

    /** History: the bytes used up and those thrown away behind the end; whether the current buffer
        has been given up. */
    ghost var consumed: Bytes
    ghost var dropped: Bytes
    ghost var discarded: bool

    ghost predicate Buffers()
      reads this`saveBuffer, this`saveBufferPtr, this`saveBufferSize, this`currentBuffer, this`currentBufferPtr,
            this`currentBufferSize
    {
      && saveBuffer != currentBuffer
      && saveBufferPtr + saveBufferSize <= saveBuffer.Length
      && currentBufferPtr + currentBufferSize <= currentBuffer.Length
    }

    ghost function Saved(): Bytes
      requires Buffers()
      reads this`saveBuffer, this`saveBufferPtr, this`saveBufferSize, this`currentBuffer, this`currentBufferPtr,
            this`currentBufferSize, saveBuffer
    {
      saveBuffer[saveBufferPtr..saveBufferPtr + saveBufferSize]
    }

    ghost function Current(): Bytes
      requires Buffers()
      reads this`saveBuffer, this`saveBufferPtr, this`saveBufferSize, this`currentBuffer, this`currentBufferPtr,
            this`currentBufferSize, currentBuffer
    {
      currentBuffer[currentBufferPtr..currentBufferPtr + currentBufferSize]
    }

    /** The bytes that wait, the saved ones first; what came in behind the end of the file does not. */
    ghost function Pending(): Bytes
      requires Buffers()
      reads this`saveBuffer, this`saveBufferPtr, this`saveBufferSize, this`currentBuffer, this`currentBufferPtr,
            this`currentBufferSize, this`discarded, saveBuffer, currentBuffer
    {
      if discarded then [] else Saved() + Current()
    }

    ghost function Abs(): State<Z, I>
      requires Buffers()
      reads this, saveBuffer, currentBuffer
    {
      State(core, consumed, dropped, Pending())
    }

    ghost function Result(): Reader<Z, I>
      requires Buffers()
      reads this, saveBuffer, currentBuffer
    {
      if failed then Failed(core.events, core.z, core.info) else Ok(Abs())
    }

    /** The save buffer never holds as much as the operation that is due will take. */
    ghost predicate SavedIsShort()
      reads this
    {
      match core.mode
      case ReadSig => saveBufferSize == 0
      case ReadChunk => saveBufferSize < if core.header then core.pushLength + 4 else 8
      case ReadIdat => saveBufferSize < if !core.header then 8 else if core.idatSize == 0 then 4 else 1
      case SkipData => saveBufferSize < if core.skipLength == 0 then 4 else 1
      case Done => saveBufferSize == 0
    }

    /** Between calls of `png_process_data`. */
    ghost predicate Valid()
      reads this, saveBuffer, currentBuffer
    {
      Buffers() && (!failed ==> Inv(Abs()) && SavedIsShort() && (discarded ==> core.mode == Done))
    }

    /** The counter covers everything that waits. */
    ghost predicate Counted()
      reads this
    {
      !failed && !discarded && bufferSize == saveBufferSize + currentBufferSize
    }

    /** Inside the loop: all waiting bytes may be looked at. */
    ghost predicate Active()
      reads this, saveBuffer, currentBuffer
    {
      Valid() && Counted()
    }

    /** The state after one pass through `png_process_some_data`. */
    ghost predicate Reached(o: Outcome<Z, I>)
      reads this, saveBuffer, currentBuffer
    {
      && Valid()
      && match o
         case Error(ev, zz, ii) => failed && core.events == ev && core.z == zz && core.info == ii
         case Next(st) => !failed && Abs() == st && bufferSize == |st.pending|
         case Stall(st) => !failed && Abs() == st && bufferSize == 0 && currentBufferSize == 0
    }

    constructor (env: Env<Z, I>, sigBytes: nat, z: Z, info: I)
      requires sigBytes < 8
      ensures Idle() && !failed && this.env == env && fresh(saveBuffer)
      ensures Abs() == Start(sigBytes, z, info)
    {
      this.env := env;
      core := Start(sigBytes, z, info).core;
      failed := false;
      saveBuffer, saveBufferPtr, saveBufferSize := new byte[0], 0, 0;
      currentBuffer, currentBufferPtr, currentBufferSize := new byte[0], 0, 0;
      bufferSize := 0;
      consumed, dropped, discarded := [], [], false;
    }

    /** The five updates that take bytes from the save buffer. */
    method TakeSaved(saveSize: nat) returns (piece: Bytes)
      requires Buffers() && saveSize <= saveBufferSize <= bufferSize
      modifies this`bufferSize, this`saveBufferSize, this`saveBufferPtr, this`consumed
      ensures Buffers() && bufferSize == old(bufferSize) - saveSize && saveBufferSize == old(saveBufferSize) - saveSize
      ensures piece == old(Saved())[..saveSize] && Saved() == old(Saved())[saveSize..] && Current() == old(Current())
      ensures consumed == old(consumed) + piece
    {
      piece := saveBuffer[saveBufferPtr..saveBufferPtr + saveSize];
      bufferSize := bufferSize - saveSize;
      saveBufferSize := saveBufferSize - saveSize;
      saveBufferPtr := saveBufferPtr + saveSize;
      consumed := consumed + piece;
    }

    /** The same for the buffer of the current call. */
    method TakeCurrent(saveSize: nat) returns (piece: Bytes)
      requires Buffers() && saveSize <= currentBufferSize <= bufferSize
      modifies this`bufferSize, this`currentBufferSize, this`currentBufferPtr, this`consumed
      ensures Buffers() && bufferSize == old(bufferSize) - saveSize
              && currentBufferSize == old(currentBufferSize) - saveSize
      ensures piece == old(Current())[..saveSize] && Current() == old(Current())[saveSize..] && Saved() == old(Saved())
      ensures consumed == old(consumed) + piece
    {
      piece := currentBuffer[currentBufferPtr..currentBufferPtr + saveSize];
      bufferSize := bufferSize - saveSize;
      currentBufferSize := currentBufferSize - saveSize;
      currentBufferPtr := currentBufferPtr + saveSize;
      consumed := consumed + piece;
    }

    lemma SizesOf()
      requires Buffers()
      ensures |Saved()| == saveBufferSize && |Current()| == currentBufferSize
    {
    }

    /** `png_push_fill_buffer`: the first `length` waiting bytes, the saved ones first. */
    method FillBuffer(length: nat) returns (buffer: Bytes)
      requires Buffers() && length <= bufferSize == saveBufferSize + currentBufferSize
      modifies this`bufferSize, this`saveBufferSize, this`saveBufferPtr, this`currentBufferSize,
               this`currentBufferPtr, this`consumed
      ensures Buffers() && bufferSize == saveBufferSize + currentBufferSize == old(bufferSize) - length
      ensures buffer == old(Saved() + Current())[..length]
      ensures Saved() + Current() == old(Saved() + Current())[length..]
      ensures consumed == old(consumed) + buffer
      ensures saveBufferSize == if length < old(saveBufferSize) then old(saveBufferSize) - length else 0
    {
      hide Saved, Current;
      ghost var saved, current := Saved(), Current();
      SizesOf();
      buffer := [];
      var rest := length;
      if saveBufferSize > 0 {
        var saveSize := if rest < saveBufferSize then rest else saveBufferSize;
        buffer := TakeSaved(saveSize);
        rest := rest - saveSize;
      }
      ghost var first := length - rest;
      assert buffer == saved[..first] && Saved() == saved[first..];
      if rest > 0 && currentBufferSize > 0 {
        var saveSize := if rest < currentBufferSize then rest else currentBufferSize;
        var piece := TakeCurrent(saveSize);
        buffer := buffer + piece;
      }
      TwoPieces(saved, current, first, length);
    }

    /** `png_push_save_buffer`: everything waiting goes to the save buffer, in order. */
    method SaveBuffer()
      requires Buffers()
      modifies this`saveBuffer, this`saveBufferPtr, this`saveBufferSize, this`currentBufferSize, this`bufferSize,
               saveBuffer
      ensures Buffers() && saveBufferPtr == 0 && currentBufferSize == 0 && bufferSize == 0
      ensures Saved() == old(Saved() + Current()) && Current() == []
      ensures saveBuffer == old(saveBuffer) || fresh(saveBuffer)
    {
      hide Saved, Current;
      Compact();
      if saveBufferSize + currentBufferSize > saveBuffer.Length {
        Grow(saveBufferSize + currentBufferSize + 256);
      }
      AppendCurrent();
      bufferSize := 0;
    }

    method Compact()
      requires Buffers()
      modifies this`saveBufferPtr, saveBuffer
      ensures Buffers() && saveBufferPtr == 0 && Saved() == old(Saved()) && Current() == old(Current())
    {
      if saveBufferSize > 0 && saveBufferPtr != 0 {
        MoveDown();
      }
      saveBufferPtr := 0;
    }

    /** The copy of the current bytes behind the saved ones. */
    method AppendCurrent()
      requires Buffers() && saveBufferPtr == 0 && saveBufferSize + currentBufferSize <= saveBuffer.Length
      modifies this`saveBufferSize, this`currentBufferSize, saveBuffer
      ensures Buffers() && currentBufferSize == 0
      ensures Saved() == old(Saved() + Current()) && Current() == []
    {
      if currentBufferSize > 0 {
        CopyCurrent();
        saveBufferSize := saveBufferSize + currentBufferSize;
        currentBufferSize := 0;
      }
    }

    method CopyCurrent()
      requires Buffers() && saveBufferPtr == 0 && saveBufferSize + currentBufferSize <= saveBuffer.Length
      modifies saveBuffer
      ensures Buffers()
      ensures saveBuffer[..saveBufferSize + currentBufferSize] == old(Saved() + Current())
    {
      ghost var saved, current := Saved(), Current();
      var n, m, from := saveBufferSize, currentBufferSize, currentBufferPtr;
      forall i | 0 <= i < m {
        saveBuffer[n + i] := currentBuffer[from + i];
      }
      assert saveBuffer[..n] == saved;
      assert forall i :: n <= i < n + m ==> saveBuffer[i] == current[i - n];
      assert saveBuffer[n..n + m] == current;
      assert saveBuffer[..n + m] == saveBuffer[..n] + saveBuffer[n..n + m];
    }

    /** The overlapping copy to the start of the save buffer. */
    method MoveDown()
      requires Buffers()
      modifies saveBuffer
      ensures saveBuffer[..saveBufferSize] == old(Saved())
      ensures Buffers()
    {
      var i := 0;
      while i < saveBufferSize
        invariant i <= saveBufferSize
        invariant saveBuffer[..i] == old(Saved())[..i]
        invariant forall k :: saveBufferPtr + i <= k < saveBuffer.Length ==> saveBuffer[k] == old(saveBuffer[k])
      {
        saveBuffer[i] := saveBuffer[saveBufferPtr + i];
        i := i + 1;
      }
    }

    /** A larger save buffer with the same contents. */
    method Grow(newMax: nat)
      requires Buffers() && saveBufferPtr == 0 && saveBufferSize <= newMax
      modifies this`saveBuffer
      ensures Buffers() && fresh(saveBuffer) && saveBuffer.Length == newMax
      ensures Saved() == old(Saved()) && Current() == old(Current())
    {
      var smaller := saveBuffer;
      var bigger := new byte[newMax];
      forall i | 0 <= i < saveBufferSize {
        bigger[i] := smaller[i];
      }
      saveBuffer := bigger;
      assert bigger[..saveBufferSize] == smaller[..saveBufferSize];
    }

    /** `png_push_restore_buffer` */
    method RestoreBuffer(buffer: array<byte>, bufferLength: nat)
      requires Buffers() && buffer != saveBuffer && bufferLength <= buffer.Length
      modifies this`currentBuffer, this`currentBufferSize, this`bufferSize, this`currentBufferPtr, this`discarded
      ensures Buffers() && currentBuffer == buffer && !discarded
      ensures Saved() == old(Saved()) && Current() == buffer[..bufferLength]
      ensures bufferSize == saveBufferSize + currentBufferSize
    {
      currentBuffer := buffer;
      currentBufferSize := bufferLength;
      bufferSize := bufferLength + saveBufferSize;
      currentBufferPtr := 0;
      discarded := false;
    }

    /** Nothing but this object and its save buffer changes, and a new save buffer is a new one. */
    twostate predicate OwnBuffers()
      reads this
    {
      currentBuffer == old(currentBuffer) && (saveBuffer == old(saveBuffer) || fresh(saveBuffer))
    }

    /** `png_push_fill_buffer` seen from outside. */
    method Take(length: nat) returns (buffer: Bytes)
      requires Buffers() && Counted() && length <= bufferSize
      modifies this`bufferSize, this`saveBufferSize, this`saveBufferPtr, this`currentBufferSize,
               this`currentBufferPtr, this`consumed
      ensures Buffers() && Counted() && bufferSize == old(bufferSize) - length == |Pending()|
      ensures length <= |old(Pending())| && buffer == old(Pending())[..length]
      ensures Abs() == Consume(old(Abs()), length)
      ensures saveBufferSize == if length < old(saveBufferSize) then old(saveBufferSize) - length else 0
    {
      SizesOf();
      hide Saved, Current;
      buffer := FillBuffer(length);
    }

    /** `png_push_save_buffer` seen from outside. */
    method Save()
      requires Buffers() && Counted()
      modifies this`saveBuffer, this`saveBufferPtr, this`saveBufferSize, this`currentBufferSize, this`bufferSize,
               saveBuffer
      ensures Buffers() && bufferSize == 0 && currentBufferSize == 0 && Abs() == old(Abs())
              && saveBufferSize == old(bufferSize)
      ensures saveBuffer == old(saveBuffer) || fresh(saveBuffer)
    {
      SizesOf();
      SaveBuffer();
      SizesOf();
      hide Saved, Current;
      assert Saved() + [] == Saved();
    }

    lemma PendingSize()
      requires Buffers() && Counted()
      ensures |Pending()| == bufferSize
    {
    }

    /** `png_push_read_sig` */
    method ReadSignature()
      requires Active() && bufferSize > 0 && core.mode == ReadSig
      modifies this, saveBuffer
      ensures Reached(StepSig(old(Abs()))) && OwnBuffers()
    {
      hide Pending, Consume;
      ghost var st := Abs();
      PendingSize();
      SigInv(st);
      var numChecked, numToCheck := core.sigBytes, 8 - core.sigBytes;
      if bufferSize < numToCheck {
        numToCheck := bufferSize;
      }
      var bytes := Take(numToCheck);
      if bytes != SIGNATURE[numChecked..numChecked + numToCheck] {
        failed := true;
      } else if numChecked + numToCheck >= 8 {
        core := core.(sigBytes := 8, mode := ReadChunk);
      } else {
        core := core.(sigBytes := numChecked + numToCheck);
      }
    }

    /** The length and type bytes of the next chunk. */
    method PullHeader()
      requires Buffers() && Counted() && bufferSize >= 8
      modifies this
      ensures Buffers() && OwnBuffers() && saveBuffer == old(saveBuffer)
      ensures |old(Abs()).pending| >= 8 && (failed <==> LengthTooBig(old(Abs())))
      ensures failed ==> core == old(core)
      ensures !failed ==> Counted() && Abs() == ReadHeader(old(Abs())) && bufferSize == |Pending()|
      ensures !failed ==> saveBufferSize == if 8 < old(saveBufferSize) then old(saveBufferSize) - 8 else 0
    {
      hide Pending, Uint32, Consume;
      ghost var st := Abs();
      PendingSize();
      ConsumeHeader(st);
      var chunkLength := Take(4);
      var pushLength := Uint32(chunkLength);
      if pushLength > 0x7FFF_FFFF {
        failed := true;
        return;
      }
      var chunkTag := Take(4);
      core := core.(header := true, pushLength := pushLength, name := chunkTag, crc := chunkTag);
    }

    /** What every chunk needs: all its data and its CRC behind the header, with nothing saved that the
        operation will not take. */
    ghost predicate ChunkDue()
      reads this, saveBuffer, currentBuffer
    {
      && Buffers() && Counted() && dropped == []
      && core.sigBytes >= 8 && core.header && core.idatSize == 0 && core.mode == ReadChunk
      && saveBufferSize < core.pushLength + 4 && (core.name == IDAT ==> saveBufferSize == 0)
    }

    /** The IDAT branch of `png_push_read_chunk`. */
    method StartImageData()
      requires !failed
      modifies this`core, this`failed
      ensures failed <==> StartIdat(env, old(core)).None?
      ensures !failed ==> core == StartIdat(env, old(core)).value
      ensures core.z == old(core.z) && core.info == old(core.info) && (failed ==> core.events == old(core.events))
    {
      if core.afterIdat {
        core := core.(chunkAfterIdat := true);
      }
      if !env.haveIhdr(core.info) || env.missingPalette(core.info) {
        failed := true;
        return;
      }
      core := core.(haveIdat := true, mode := ReadIdat);
      if !core.chunkAfterIdat && core.pushLength == 0 {
        return;
      }
      if core.afterIdat && !env.benignErrorsWarn {
        failed := true;
        return;
      }
      core := core.(idatSize := core.pushLength, events := core.events + [HaveInfo]);
    }

    /** The handler of any other chunk, and the end of the file behind IEND. */
    method HandleChunk(data: Bytes)
      requires !failed
      modifies this`core, this`failed
      ensures failed <==> Dispatch(env, old(core), data).None?
      ensures if failed then core == old(core) else core == Dispatch(env, old(core), data).value
    {
      match env.handle(core.info, core.name, data) {
        case None =>
          failed := true;
        case Some(newInfo) =>
          core := core.(info := newInfo, events := core.events + [Handled(core.name, data)]);
          if core.name == IEND {
            core := core.(mode := Done, events := core.events + [HaveEnd]);
          }
          core := core.(header := false);
      }
    }

    /** `png_push_read_chunk` behind the header: the IDAT branch, or the branch of any other chunk. */
    method ReadChunkBody()
      requires ChunkDue()
      modifies this, saveBuffer
      ensures Reached(ChunkBody(env, old(Abs()))) && OwnBuffers()
    {
      hide Pending, Consume, StartIdat, Dispatch;
      ghost var st := Abs();
      ChunkBodyInv(env, st);
      PendingSize();
      if core.name == IDAT {
        StartIdatFields(env, core);
        StartImageData();
      } else if core.name == IHDR && core.pushLength != 13 {
        failed := true;
      } else if core.pushLength + 4 > bufferSize {
        Save();
      } else {
        var data := Take(core.pushLength + 4);
        DispatchFields(env, core, data);
        HandleChunk(data);
      }
    }

    /** `png_push_read_chunk` */
    method ReadChunkStep()
      requires Active() && bufferSize > 0 && core.mode == ReadChunk
      modifies this, saveBuffer
      ensures Reached(StepChunk(env, old(Abs()))) && OwnBuffers()
    {
      hide Pending, Consume, ChunkBody, ReadHeader, LengthTooBig;
      ghost var st := Abs();
      PendingSize();
      if !core.header {
        if bufferSize < 8 {
          Save();
          return;
        }
        HeaderFields(st);
        HeaderName(st);
        PullHeader();
        if failed {
          return;
        }
        if !(forall c :: c in core.name ==> IsLetter(c)) {
          failed := true;
          return;
        }
      }
      ReadChunkBody();
    }

    /** `png_process_IDAT_data`: bytes go to inflate until it stops; a broken stream is an error. */
    method ProcessIdatData(data: Bytes)
      requires !failed && data != [] && |data| <= core.idatSize
      modifies this`core, this`failed
      ensures core == TakeIdat(env, old(core), data)
      ensures failed <==> env.status(core.z) == Broken
    {
      var z, i := core.z, 0;
      while i < |data| && env.status(z) == Running
        invariant 0 <= i <= |data|
        invariant Inflate(env, z, data[i..]) == Inflate(env, core.z, data)
      {
        assert data[i..][1..] == data[i + 1..];
        z := env.inflate(z, data[i]);
        i := i + 1;
      }
      core := core.(idatSize := core.idatSize - |data|, crc := core.crc + data, z := z);
      if env.status(core.z) == Broken {
        failed := true;
      }
    }

    /** The data step has been done with n bytes of a state, or has raised an error. */
    ghost predicate ImageDataTaken(before: Core<Z, I>, st: State<Z, I>, n: nat)
      reads this, saveBuffer, currentBuffer
    {
      && Buffers() && n <= |st.pending| && n <= before.idatSize
      && var c := TakeIdat(env, before, st.pending[..n]);
      && (failed <==> n > 0 && env.status(c.z) == Broken)
      && if failed then core.events == c.events && core.z == c.z && core.info == c.info
         else Counted() && Abs() == Consume(st, n).(core := c) && bufferSize == |Pending()|
    }

    /** The two copies of the data step of `png_push_read_IDAT`: saved bytes, then current ones. */
    method TakeImageData()
      requires Buffers() && Counted()
      modifies this`core, this`failed, this`bufferSize, this`saveBufferSize, this`saveBufferPtr,
               this`currentBufferSize, this`currentBufferPtr, this`consumed
      ensures Buffers() && |old(Pending())| == old(bufferSize)
      ensures ImageDataTaken(old(core), old(Abs()), Min(old(core.idatSize), old(bufferSize)))
      ensures var n := Min(old(core.idatSize), old(bufferSize));
              !failed ==> saveBufferSize == if n < old(saveBufferSize) then old(saveBufferSize) - n else 0
    {
      hide Saved, Current, Inflate, TakeIdat, Consume;
      SizesOf();
      ghost var saved, current, c0, st := Saved(), Current(), core, Abs();
      ghost var n := Min(c0.idatSize, |saved| + |current|);
      ghost var f := Min(c0.idatSize, |saved|);
      ConsumePieces(st, saved, current, f, n);
      TwoTakes(env, c0, saved[..f], current[..n - f]);
      TakeSavedData();
      if failed {
        return;
      }
      NothingToTake(env, core);
      TakeCurrentData();
      SizesOf();
    }

    /** The data step on the save buffer. */
    method TakeSavedData()
      requires Buffers() && Counted()
      modifies this`core, this`failed, this`bufferSize, this`saveBufferSize, this`saveBufferPtr, this`consumed
      ensures var f := Min(old(core.idatSize), old(saveBufferSize));
              && Buffers() && f <= |old(Saved())|
              && core == TakeIdat(env, old(core), old(Saved())[..f]) && consumed == old(consumed) + old(Saved())[..f]
              && Saved() == old(Saved())[f..] && Current() == old(Current())
                  && saveBufferSize == old(saveBufferSize) - f
              && bufferSize == saveBufferSize + currentBufferSize
              && (failed <==> f > 0 && env.status(core.z) == Broken)
    {
      hide Saved, Current, Inflate, TakeIdat;
      SizesOf();
      NothingToTake(env, core);
      assert Saved()[..0] == [] && Saved()[0..] == Saved() && consumed + [] == consumed;
      if core.idatSize > 0 && saveBufferSize > 0 {
        var saveSize := if core.idatSize < saveBufferSize then core.idatSize else saveBufferSize;
        var piece := TakeSaved(saveSize);
        ProcessIdatData(piece);
      }
    }

    /** The data step on the current buffer. */
    method TakeCurrentData()
      requires Buffers() && Counted()
      modifies this`core, this`failed, this`bufferSize, this`currentBufferSize, this`currentBufferPtr, this`consumed
      ensures var g := Min(old(core.idatSize), old(currentBufferSize));
              && Buffers() && g <= |old(Current())|
              && core == TakeIdat(env, old(core), old(Current())[..g])
                  && consumed == old(consumed) + old(Current())[..g]
              && Current() == old(Current())[g..] && Saved() == old(Saved())
                  && currentBufferSize == old(currentBufferSize) - g
              && bufferSize == saveBufferSize + currentBufferSize
              && (failed <==> g > 0 && env.status(core.z) == Broken)
    {
      hide Saved, Current, Inflate, TakeIdat;
      SizesOf();
      NothingToTake(env, core);
      assert Current()[..0] == [] && Current()[0..] == Current() && consumed + [] == consumed;
      if core.idatSize > 0 && currentBufferSize > 0 {
        var saveSize := if core.idatSize < currentBufferSize then core.idatSize else currentBufferSize;
        var piece := TakeCurrent(saveSize);
        ProcessIdatData(piece);
      }
    }

    /** `png_push_read_IDAT` behind the header. */
    method ReadIdatBody()
      requires Buffers() && Counted() && dropped == []
      requires core.sigBytes >= 8 && core.header && core.mode == ReadIdat && core.name == IDAT
      requires saveBufferSize < if core.idatSize == 0 then 4 else 1
      modifies this, saveBuffer
      ensures Reached(IdatBody(env, old(Abs()))) && OwnBuffers()
    {
      hide Pending, Consume, TakeIdat, Inflate, Saved, Current, EndIdat;
      ghost var st, n := Abs(), Min(core.idatSize, bufferSize);
      PendingSize();
      IdatBodyInv(env, st);
      TakeIdatFields(env, core, Pending()[..n]);
      TakeImageData();
      if failed {
        return;
      }
      if core.idatSize == 0 {
        EndImageData();
      }
    }

    /** The CRC behind the data of an IDAT chunk. */
    method EndImageData()
      requires Buffers() && Counted() && dropped == [] && core.sigBytes >= 8
      requires core.header && core.mode == ReadIdat && core.name == IDAT && core.idatSize == 0 && saveBufferSize < 4
      modifies this, saveBuffer
      ensures Reached(EndIdat(env, old(Abs()))) && OwnBuffers()
    {
      hide Pending, Consume;
      ghost var st := Abs();
      PendingSize();
      EndIdatInv(env, st);
      if bufferSize < 4 {
        Save();
        return;
      }
      var crcBytes := Take(4);
      if !env.crcAccepted(core.name, core.crc, crcBytes) {
        failed := true;
        return;
      }
      core := core.(header := false, afterIdat := true);
    }

    /** `png_push_read_IDAT` */
    method ReadIdatStep()
      requires Active() && bufferSize > 0 && core.mode == ReadIdat
      modifies this, saveBuffer
      ensures Reached(StepIdat(env, old(Abs()))) && OwnBuffers()
    {
      hide Pending, Consume, IdatBody, ReadHeader, LengthTooBig;
      ghost var st := Abs();
      PendingSize();
      if !core.header {
        if bufferSize < 8 {
          Save();
          return;
        }
        HeaderFields(st);
        HeaderName(st);
        PullHeader();
        if failed {
          return;
        }
        if core.name != IDAT {
          core := core.(mode := ReadChunk);
          if env.status(core.z) != Ended {
            failed := true;
          }
          return;
        }
        core := core.(idatSize := core.pushLength);
      }
      ReadIdatBody();
    }

    /** `png_push_crc_finish` */
    method FinishCrc()
      requires Active() && bufferSize > 0 && core.mode == SkipData
      modifies this, saveBuffer
      ensures Reached(StepSkip(env, old(Abs()))) && OwnBuffers()
    {
      hide Pending, Consume, EndSkip, Saved, Current;
      ghost var st := Abs();
      PendingSize();
      SkipInv(env, st);
      SkipWaiting();
      if core.skipLength == 0 {
        EndSkipped();
      }
    }

    /** The two data steps of `png_push_crc_finish`: saved bytes, then current ones. */
    method SkipWaiting()
      requires Buffers() && Counted()
      modifies this`core, this`bufferSize, this`saveBufferSize, this`saveBufferPtr, this`currentBufferSize,
               this`currentBufferPtr, this`consumed
      ensures Buffers() && Counted() && bufferSize == |Pending()| && |old(Pending())| == old(bufferSize)
      ensures var n := Min(old(core.skipLength), old(bufferSize));
              && Abs() == Consume(old(Abs()), n).(core := Skipped(old(core), old(Pending())[..n]))
              && saveBufferSize == if n < old(saveBufferSize) then old(saveBufferSize) - n else 0
    {
      hide Saved, Current, Skipped, Consume;
      SizesOf();
      ghost var saved, current, c0, st := Saved(), Current(), core, Abs();
      ghost var n := Min(c0.skipLength, |saved| + |current|);
      ghost var f := Min(c0.skipLength, |saved|);
      ConsumePieces(st, saved, current, f, n);
      TwoSkips(c0, saved[..f], current[..n - f]);
      SkipSaved();
      SkipCurrent();
      SizesOf();
    }

    method SkipSaved()
      requires Buffers() && Counted()
      modifies this`core, this`bufferSize, this`saveBufferSize, this`saveBufferPtr, this`consumed
      ensures var f := Min(old(core.skipLength), old(saveBufferSize));
              && Buffers() && f <= |old(Saved())|
              && core == Skipped(old(core), old(Saved())[..f]) && consumed == old(consumed) + old(Saved())[..f]
              && Saved() == old(Saved())[f..] && Current() == old(Current())
                  && saveBufferSize == old(saveBufferSize) - f
              && bufferSize == saveBufferSize + currentBufferSize
    {
      hide Saved, Current;
      SizesOf();
      NothingSkipped(core);
      assert Saved()[..0] == [] && Saved()[0..] == Saved() && consumed + [] == consumed;
      if core.skipLength > 0 && saveBufferSize > 0 {
        var saveSize := if core.skipLength < saveBufferSize then core.skipLength else saveBufferSize;
        var piece := TakeSaved(saveSize);
        core := core.(skipLength := core.skipLength - saveSize, crc := core.crc + piece);
      }
    }

    method SkipCurrent()
      requires Buffers() && Counted()
      modifies this`core, this`bufferSize, this`currentBufferSize, this`currentBufferPtr, this`consumed
      ensures var g := Min(old(core.skipLength), old(currentBufferSize));
              && Buffers() && g <= |old(Current())|
              && core == Skipped(old(core), old(Current())[..g]) && consumed == old(consumed) + old(Current())[..g]
              && Current() == old(Current())[g..] && Saved() == old(Saved())
                  && currentBufferSize == old(currentBufferSize) - g
              && bufferSize == saveBufferSize + currentBufferSize
    {
      hide Saved, Current;
      SizesOf();
      NothingSkipped(core);
      assert Current()[..0] == [] && Current()[0..] == Current() && consumed + [] == consumed;
      if core.skipLength > 0 && currentBufferSize > 0 {
        var saveSize := if core.skipLength < currentBufferSize then core.skipLength else currentBufferSize;
        var piece := TakeCurrent(saveSize);
        core := core.(skipLength := core.skipLength - saveSize, crc := core.crc + piece);
      }
    }

    /** The CRC behind a skipped chunk. */
    method EndSkipped()
      requires Active() && core.mode == SkipData && core.skipLength == 0
      modifies this, saveBuffer
      ensures Reached(EndSkip(env, old(Abs()))) && OwnBuffers()
    {
      hide Pending, Consume;
      ghost var st := Abs();
      PendingSize();
      EndSkipInv(env, st);
      if bufferSize < 4 {
        Save();
        return;
      }
      var crcBytes := Take(4);
      if !env.crcAccepted(core.name, core.crc, crcBytes) {
        failed := true;
        return;
      }
      core := core.(mode := ReadChunk);
    }

    /** `png_process_some_data` */
    method ProcessSomeData()
      requires Active() && bufferSize > 0
      modifies this, saveBuffer
      ensures Reached(Step(env, old(Abs()))) && OwnBuffers()
    {
      hide StepSig, StepChunk, StepIdat, StepSkip;
      match core.mode {
        case ReadSig => ReadSignature();
        case ReadChunk => ReadChunkStep();
        case ReadIdat => ReadIdatStep();
        case SkipData => FinishCrc();
        case Done =>
          dropped := dropped + Pending();
          discarded := true;
          bufferSize := 0;
      }
    }

    /** Between calls of `png_process_data`: whatever waits is in the save buffer. */
    ghost predicate Idle()
      reads this, saveBuffer, currentBuffer
    {
      Valid() && (!failed ==> bufferSize == 0 && (discarded || currentBufferSize == 0))
    }

    lemma SoundNow()
      requires Valid() && !failed
      ensures Inv(Abs())
    {
    }

    /** `png_push_restore_buffer` seen from outside. */
    method Restore(buffer: array<byte>, size: nat)
      requires Idle() && !failed && buffer != saveBuffer && size <= buffer.Length
      modifies this`currentBuffer, this`currentBufferSize, this`bufferSize, this`currentBufferPtr, this`discarded
      ensures Active() && Abs() == Fed(old(Abs()), buffer[..size]) && bufferSize == |Pending()|
    {
      hide Saved, Current;
      SizesOf();
      assert discarded ==> Saved() == [];
      assert Saved() + [] == Saved();
      RestoreBuffer(buffer, size);
      SizesOf();
    }

    /** What the abstract loop gives from here is what the whole call has to give. */
    ghost predicate OnTheWay(result: Reader<Z, I>)
      reads this, saveBuffer, currentBuffer
    {
      && Valid()
      && if failed then result == Result()
         else if bufferSize == 0 then result == Result() && (discarded || currentBufferSize == 0)
         else Counted() && bufferSize == |Pending()| && result == Run(env, Abs())
    }

    /** One pass through the loop is one step of `Run`. */
    method Pass(ghost result: Reader<Z, I>)
      requires Active() && bufferSize > 0 && OnTheWay(result)
      modifies this, saveBuffer
      ensures OnTheWay(result) && OwnBuffers()
      ensures !failed ==> bufferSize < old(bufferSize)
    {
      hide Step, Saved, Current, Inv, SavedIsShort;
      SoundNow();
      ghost var st := Abs();
      StepInv(env, st);
      ProcessSomeData();
      SizesOf();
      if !failed {
        SoundNow();
        assert Step(env, st).Next? ==> result == Run(env, Abs());
      }
    }

    /** `png_process_data`: the reader after the call is the abstract reader fed with the buffer. */
    method ProcessData(buffer: array<byte>, size: nat)
      requires Idle() && buffer != saveBuffer && size <= buffer.Length
      modifies this, saveBuffer
      ensures Idle() && Result() == Feed(env, old(Result()), buffer[..size])
      ensures saveBuffer == old(saveBuffer) || fresh(saveBuffer)
    {
      hide Pending, Inv, SavedIsShort;
      if failed {
        return;
      }
      SoundNow();
      FedSound(Abs(), buffer[..size]);
      ghost var result := Run(env, Fed(Abs(), buffer[..size]));
      Restore(buffer, size);
      while bufferSize > 0 && !failed
        invariant OnTheWay(result) && (saveBuffer == old(saveBuffer) || fresh(saveBuffer))
        decreases if failed then 0 else bufferSize + 1
      {
        Pass(result);
      }
    }
  }

  /** An application: a new reader, given the datastream in pieces, each in a buffer of its own.  The reader
      ends up as if all the pieces had been one. */
  method ReadPieces<Z, I>(env: Env<Z, I>, sigBytes: nat, z: Z, info: I, pieces: seq<Bytes>)
      returns (png: PngStruct<Z, I>)
    requires sigBytes < 8
    ensures fresh(png) && png.Idle() && Sound(Ok(Start(sigBytes, z, info)))
    ensures png.Result() == FeedAll(env, Ok(Start(sigBytes, z, info)), pieces)
    ensures png.Result() == Feed(env, Ok(Start(sigBytes, z, info)), Concat(pieces))
  {
    hide Run, Feed, Concat;
    ghost var start: Reader<Z, I> := Ok(Start(sigBytes, z, info));
    png := new PngStruct(env, sigBytes, z, info);
    SoundResult(png);
    var i := 0;
    while i < |pieces|
      invariant 0 <= i <= |pieces|
      invariant fresh(png) && fresh(png.saveBuffer) && png.env == env && png.Idle() && Sound(png.Result())
      invariant FeedAll(env, png.Result(), pieces[i..]) == FeedAll(env, start, pieces)
    {
      var piece := pieces[i];
      assert pieces[i..][0] == piece && pieces[i..][1..] == pieces[i + 1..];
      var buffer := new byte[|piece|](k requires 0 <= k < |piece| => piece[k]);
      assert buffer[..|piece|] == piece;
      png.ProcessData(buffer, |piece|);
      i := i + 1;
    }
    AnyCutting(env, start, pieces);
    NoPieces(env, sigBytes, z, info);
  }

  lemma SoundResult<Z, I>(png: PngStruct<Z, I>)
    requires png.Idle()
    ensures Sound(png.Result())
  {
  }

  lemma NoPieces<Z, I>(env: Env<Z, I>, sigBytes: nat, z: Z, info: I)
    requires sigBytes < 8
    ensures Sound(Ok(Start(sigBytes, z, info)))
    ensures Feed(env, Ok(Start(sigBytes, z, info)), Concat([])) == Ok(Start(sigBytes, z, info))
  {
  }

  lemma NothingSkipped<Z, I>(c: Core<Z, I>)
    ensures Skipped(c, []) == c
  {
    assert c.crc + [] == c.crc;
  }

  /** Bytes skipped in two pieces. */
  lemma TwoSkips<Z, I>(c: Core<Z, I>, a: Bytes, b: Bytes)
    requires |a| + |b| <= c.skipLength
    ensures Skipped(Skipped(c, a), b) == Skipped(c, a + b) && Skipped(c, a).skipLength == c.skipLength - |a|
  {
    assert c.crc + a + b == c.crc + (a + b);
  }

  lemma FedSound<Z, I>(st: State<Z, I>, more: Bytes)
    requires Inv(st)
    ensures Inv(Fed(st, more))
  {
  }

  /** Image data handed over in two pieces; a stream broken by the first one stays broken. */
  lemma TwoTakes<Z, I>(env: Env<Z, I>, c: Core<Z, I>, a: Bytes, b: Bytes)
    requires |a| + |b| <= c.idatSize
    ensures TakeIdat(env, TakeIdat(env, c, a), b) == TakeIdat(env, c, a + b)
    ensures env.status(TakeIdat(env, c, a).z) == Broken ==> TakeIdat(env, c, a + b).z == TakeIdat(env, c, a).z
    ensures TakeIdat(env, c, a).idatSize == c.idatSize - |a|
    ensures TakeIdat(env, c, a).events == c.events == TakeIdat(env, c, a + b).events
    ensures TakeIdat(env, c, a).info == c.info == TakeIdat(env, c, a + b).info
  {
    TakeTwice(env, c, a, b);
    InflateStuck(env, TakeIdat(env, c, a).z, b);
  }

  lemma ConsumePieces<Z, I>(st: State<Z, I>, a: Bytes, b: Bytes, first: nat, length: nat)
    requires st.pending == a + b && first == Min(length, |a|) && length <= |a| + |b|
    ensures Consume(st, length) == st.(consumed := st.consumed + a[..first] + b[..length - first], pending :=
            a[first..] + b[length - first..])
    ensures st.pending[..length] == a[..first] + b[..length - first]
    ensures b[..0] == [] && st.consumed + a[..first] + [] == st.consumed + a[..first]
  {
    TwoPieces(a, b, first, length);
    assert st.consumed + a[..first] + b[..length - first] == st.consumed + (a[..first] + b[..length - first]);
  }

  lemma TakeIdatFields<Z, I>(env: Env<Z, I>, c: Core<Z, I>, data: Bytes)
    requires |data| <= c.idatSize
    ensures var d := TakeIdat(env, c, data);
            d.idatSize == c.idatSize - |data| && d.header == c.header && d.mode == c.mode && d.name == c.name
                && d.sigBytes == c.sigBytes
            && d.events == c.events && d.info == c.info
  {
  }

  lemma StartIdatFields<Z, I>(env: Env<Z, I>, c: Core<Z, I>)
    ensures StartIdat(env, c).Some? ==>
              StartIdat(env, c).value.mode == ReadIdat && StartIdat(env, c).value.header == c.header
  {
  }

  lemma DispatchFields<Z, I>(env: Env<Z, I>, c: Core<Z, I>, data: Bytes)
    ensures Dispatch(env, c, data).Some? ==>
              !Dispatch(env, c, data).value.header && Dispatch(env, c, data).value.mode in {c.mode, Done}
  {
  }

  lemma HeaderName<Z, I>(st: State<Z, I>)
    requires |st.pending| >= 8
    ensures ReadHeader(st).core.name == st.pending[4..8]
    ensures ReadHeader(st).core.events == st.core.events && ReadHeader(st).core.z == st.core.z
            && ReadHeader(st).core.info == st.core.info
  {
  }

  lemma ConsumeHeader<Z, I>(st: State<Z, I>)
    requires |st.pending| >= 8
    ensures |Consume(st, 4).pending| >= 4 && Consume(Consume(st, 4), 4) == Consume(st, 8)
    ensures Consume(st, 4).pending[..4] == st.pending[4..8] && Consume(st, 4).core == st.core == Consume(st, 8).core
  {
    assert st.pending[4..][4..] == st.pending[8..];
    assert st.consumed + st.pending[..4] + st.pending[4..8] == st.consumed + st.pending[..8];
  }
}
