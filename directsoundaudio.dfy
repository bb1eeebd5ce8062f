/** `DirectSoundAudio::LoadWavFile` as the source runs it: a cursor over
    the file's bytes, a `while (true)` loop over chunk headers, the format
    record and the wave data filled in place by `CopyMemory`, and the
    hand-off of the data to a sound buffer of exactly its size. The loop
    and its passes are proved equal to the functions of `WavParser`, the
    copies to what `WaveFormat.ApplyFmt` and a sequence slice describe. */
module DirectSoundAudio {

  import opened Riff
  import opened WaveFormat
  import opened WavParser

  /** The header check and the chunk walk of `LoadWavFile`, on the bytes
      `fread_s` left in `pBuffer`. */
  method ParseRiffWave(pBuffer: array<byte>) returns (r: Result<WaveFile>)
    ensures r == ParseWave(pBuffer[..])
  {
    ghost var file := pBuffer[..];
    if pBuffer.Length < 1 {
      return Failure(EmptyFile);
    }
    if pBuffer.Length < 8 {
      return Failure(Truncated);
    }
    var pos: nat := 0;
    var typ := U32At(pBuffer[..], pos);
    pos := pos + 4;
    var length := U32At(pBuffer[..], pos);  // the RIFF size: read, never used
    pos := pos + 4;
    if typ != RIFF {
      return Failure(NotRiff);
    }
    if pBuffer.Length < CHUNK_START {
      return Failure(Truncated);
    }
    typ := U32At(pBuffer[..], pos);
    pos := pos + 4;
    if typ != WAVE {
      return Failure(NotWave);
    }

    var waveformat := new byte[RECORD_SIZE](_ => 0);
    assert waveformat[..] == ZeroRecord();
    while true
      invariant ValidCursor(pos)
      invariant fresh(waveformat) && waveformat.Length == RECORD_SIZE
      invariant pBuffer[..] == file
      invariant Walk(file, pos, waveformat[..]) == ParseWave(file)
      decreases TWO_32 - pos
    {
      ghost var before := waveformat[..];
      var step := ReadChunk(pBuffer, pos, waveformat);
      match step
      case Stop(result) =>
        WalkOnStop(file, pos, before, result);
        return result;
      case Next(next, rec) =>
        WalkOnNext(file, pos, before, next, rec);
        pos := next;
    }
  }

  /** One pass of the body of the `while (true)` loop: read the chunk
      header at `pos`, copy a `fmt ` body over `waveformat` and set its
      `cbSize`, or copy a `data` body into a new buffer of its length and
      stop; then move `pos` past the body and its pad byte. The bounds
      and wrap-around checks are the model's, where the source reads on. */
  method ReadChunk(pBuffer: array<byte>, pos: nat, waveformat: array<byte>) returns (step: Step)
    requires ValidCursor(pos) && waveformat.Length == RECORD_SIZE && waveformat != pBuffer
    modifies waveformat
    ensures step == ChunkStep(pBuffer[..], pos, old(waveformat[..]))
    ensures step.Next? ==> waveformat[..] == step.rec
    ensures step.Stop? && step.result != Failure(CursorWrap) ==> waveformat[..] == old(waveformat[..])
    ensures step == Stop(Failure(CursorWrap)) ==>
              if pos + HEADER_SIZE < TWO_32 && U32At(pBuffer[..], pos) == FMT
              then FmtCopiedAt(pBuffer[..], pos, old(waveformat[..]), waveformat[..])
              else waveformat[..] == old(waveformat[..])
  {
    ghost var file, before := pBuffer[..], waveformat[..];
    if pBuffer.Length < pos + HEADER_SIZE {
      return Stop(Failure(Truncated));
    }
    if TWO_32 <= pos + HEADER_SIZE {
      return Stop(Failure(CursorWrap));
    }
    var typ := U32At(pBuffer[..], pos);
    var length := U32At(pBuffer[..], pos + 4);
    var body := pos + HEADER_SIZE;
    assert typ == U32At(file, pos) && length == U32At(file, pos + 4);

    ghost var after: seq<byte>;  // the record once this chunk is handled
    if typ == FMT {
      if RECORD_SIZE < length {
        return Stop(Failure(FormatOverrun));
      }
      if pBuffer.Length < body + length {
        return Stop(Failure(Truncated));
      }
      CopyFormat(waveformat, pBuffer, body, length);
      after := ApplyFmt(before, file[body..body + length]);
      StepOnFmtChunk(file, pos, before, length, after);
    } else if typ == DATA {
      if pBuffer.Length < body + length {
        return Stop(Failure(Truncated));
      }
      var pWaveData := new byte[length];
      CopyMemory(pWaveData, pBuffer, body, length);
      ghost var data := file[body..body + length];
      assert pWaveData[..] == data;
      assert waveformat[..] == before && pBuffer[..] == file;
      StepOnDataChunk(file, pos, before, length, data);
      // copiedWavData: the loop ends after this chunk
      return Stop(Success(WaveFile(waveformat[..], pWaveData[..])));
    } else {
      after := before;
      StepOnOtherChunk(file, pos, before, length);
    }
    assert ChunkStep(file, pos, before) == Advance(pos, length, after);
    assert waveformat[..] == after && pBuffer[..] == file;

    var next := body + length;
    if length % 2 == 1 {
      next := next + 1;
    }
    assert next == NextCursor(pos, length);
    if TWO_32 <= next {
      return Stop(Failure(CursorWrap));
    }
    return Next(next, waveformat[..]);
  }

  /** The `fmt ` case: `CopyMemory(&waveformat, pBuffer + from, length)`
      then `waveformat.cbSize = (WORD)length`. */
  method CopyFormat(waveformat: array<byte>, pBuffer: array<byte>, from: nat, length: nat)
    requires waveformat.Length == RECORD_SIZE && length <= RECORD_SIZE
    requires from + length <= pBuffer.Length && waveformat != pBuffer
    modifies waveformat
    ensures waveformat[..] == ApplyFmt(old(waveformat[..]), pBuffer[from..from + length])
  {
    ghost var after := ApplyFmt(waveformat[..], pBuffer[from..from + length]);
    CopyMemory(waveformat, pBuffer, from, length);
    var cbSize := LE16(length % TWO_16);
    waveformat[CB_SIZE_OFFSET] := cbSize[0];
    waveformat[CB_SIZE_OFFSET + 1] := cbSize[1];
    forall i | 0 <= i < RECORD_SIZE ensures waveformat[i] == after[i] {
      if CB_SIZE_OFFSET <= i {
        assert after[i] == after[CB_SIZE_OFFSET..][i - CB_SIZE_OFFSET];
      }
    }
  }

  /** `CopyMemory(dst, src + from, length)`: the first `length` bytes of
      `dst` become bytes `from..from + length` of `src`; the rest of `dst`
      is left as it was. */
  method CopyMemory(dst: array<byte>, src: array<byte>, from: nat, length: nat)
    requires length <= dst.Length && from + length <= src.Length && dst != src
    modifies dst
    ensures dst[..] == src[from..from + length] + old(dst[..])[length..]
  {
    forall i | 0 <= i < length {
      dst[i] := src[from + i];
    }
  }

  /** The sound buffer `LoadWavFile` creates: `dwBufferBytes`, the format
      `lpwfxFormat` points at, and what was copied into its locked memory. */
  datatype SoundBuffer = SoundBuffer(bufferBytes: nat, format: seq<byte>, samples: seq<byte>)

  /** `LoadWavFile` from the bytes of the file on: parse, then create a
      buffer of `waveDataSize` bytes and copy exactly that many bytes of
      wave data into it. */
  method LoadWavFile(pBuffer: array<byte>) returns (r: Result<SoundBuffer>)
    ensures r.Failure? <==> ParseWave(pBuffer[..]).Failure?
    ensures r.Failure? ==> r.error == ParseWave(pBuffer[..]).error
    ensures r.Success? ==>
              r.value.bufferBytes == |ParseWave(pBuffer[..]).value.data| &&
              r.value.bufferBytes < TWO_32 &&
              r.value.format == ParseWave(pBuffer[..]).value.format &&
              |r.value.format| == RECORD_SIZE &&
              r.value.samples == ParseWave(pBuffer[..]).value.data
  {
    ghost var file := pBuffer[..];
    var parsed := ParseRiffWave(pBuffer);
    if parsed.Failure? {
      return Failure(parsed.error);
    }
    var wave := parsed.value;
    var waveDataSize := |wave.data|;
    var lockedSoundBuffer := new byte[waveDataSize];
    forall i | 0 <= i < waveDataSize {
      lockedSoundBuffer[i] := wave.data[i];
    }
    assert lockedSoundBuffer[..] == wave.data;
    assert pBuffer[..] == file;
    r := Success(SoundBuffer(waveDataSize, wave.format, lockedSoundBuffer[..]));
  }
}
