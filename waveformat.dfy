/** The `WAVEFORMATEX` record that `DirectSoundAudio` fills twice: field by
    field for the primary buffer in `Initialize`, and byte by byte from a
    `fmt ` chunk in `LoadWavFile`. The record is 18 bytes laid out as
    wFormatTag(2) nChannels(2) nSamplesPerSec(4) nAvgBytesPerSec(4)
    nBlockAlign(2) wBitsPerSample(2) cbSize(2), all little-endian. */
module WaveFormat {

  import opened Riff

  /** `sizeof(WAVEFORMATEX)`. */
  const RECORD_SIZE: nat := 18
  /** Offset of `cbSize`, the last field. */
  const CB_SIZE_OFFSET: nat := 16
  const WAVE_FORMAT_PCM: nat := 1

  /** The typed view of the record. */
  datatype WaveFormatEx = WaveFormatEx(
    formatTag: nat,
    channels: nat,
    samplesPerSec: nat,
    avgBytesPerSec: nat,
    blockAlign: nat,
    bitsPerSample: nat,
    cbSize: nat)
  {
    /** Every field fits its declared width (WORD or DWORD). */
    predicate Valid() {
      formatTag < TWO_16 && channels < TWO_16 && samplesPerSec < TWO_32 &&
      avgBytesPerSec < TWO_32 && blockAlign < TWO_16 && bitsPerSample < TWO_16 &&
      cbSize < TWO_16
    }
  }

  /** Reads the fields out of the 18 bytes of the record. */
  function Fields(rec: seq<byte>): (w: WaveFormatEx)
    requires |rec| == RECORD_SIZE
    ensures w.Valid()
  {
    WaveFormatEx(U16At(rec, 0), U16At(rec, 2), U32At(rec, 4), U32At(rec, 8),
                 U16At(rec, 12), U16At(rec, 14), U16At(rec, 16))
  }

  /** The 18 bytes that store the fields of `w`. */
  function Bytes(w: WaveFormatEx): (rec: seq<byte>)
    requires w.Valid()
    ensures |rec| == RECORD_SIZE
  {
    LE16(w.formatTag) + LE16(w.channels) + LE32(w.samplesPerSec) +
    LE32(w.avgBytesPerSec) + LE16(w.blockAlign) + LE16(w.bitsPerSample) +
    LE16(w.cbSize)
  }

  /** Reading the fields of an encoded record gives the fields back. */
  lemma FieldsOfBytes(w: WaveFormatEx)
    requires w.Valid()
    ensures Fields(Bytes(w)) == w
  {
    var rec := Bytes(w);
    LE16RoundTrip(w.formatTag);
    LE16RoundTrip(w.channels);
    LE32RoundTrip(w.samplesPerSec);
    LE32RoundTrip(w.avgBytesPerSec);
    LE16RoundTrip(w.blockAlign);
    LE16RoundTrip(w.bitsPerSample);
    LE16RoundTrip(w.cbSize);
    assert rec[0..2] == LE16(w.formatTag);
    assert rec[2..4] == LE16(w.channels);
    assert rec[4..8] == LE32(w.samplesPerSec);
    assert rec[8..12] == LE32(w.avgBytesPerSec);
    assert rec[12..14] == LE16(w.blockAlign);
    assert rec[14..16] == LE16(w.bitsPerSample);
    assert rec[16..18] == LE16(w.cbSize);
  }

  /** Every 18-byte record is the encoding of its own fields: the typed
      view loses nothing. */
  lemma BytesOfFields(rec: seq<byte>)
    requires |rec| == RECORD_SIZE
    ensures Bytes(Fields(rec)) == rec
  {
    U16Bytes(rec, 0);
    U16Bytes(rec, 2);
    U32Bytes(rec, 4);
    U32Bytes(rec, 8);
    U16Bytes(rec, 12);
    U16Bytes(rec, 14);
    U16Bytes(rec, 16);
    assert rec == rec[0..2] + rec[2..4] + rec[4..8] + rec[8..12] + rec[12..14] +
                  rec[14..16] + rec[16..18];
  }

  /** The record after `ZeroMemory(&waveformat, sizeof(WAVEFORMATEX))`. */
  function ZeroRecord(): (rec: seq<byte>)
    ensures |rec| == RECORD_SIZE
    ensures forall i :: 0 <= i < RECORD_SIZE ==> rec[i] == 0
  {
    seq(RECORD_SIZE, _ => 0)
  }

  /** Every field of the zeroed record reads as zero. */
  lemma ZeroRecordFields()
    ensures Fields(ZeroRecord()) == WaveFormatEx(0, 0, 0, 0, 0, 0, 0)
  {
  }

  /** The record after a `fmt ` chunk with body `body` is copied over
      `rec`: `CopyMemory(&waveformat, body, length)` then
      `waveformat.cbSize = (WORD)length`. Bytes of `rec` past the body
      survive; `cbSize` always ends up holding the body's length. */
  function ApplyFmt(rec: seq<byte>, body: seq<byte>): (r: seq<byte>)
    requires |rec| == RECORD_SIZE && |body| <= RECORD_SIZE
    ensures |r| == RECORD_SIZE
    ensures forall i :: 0 <= i < CB_SIZE_OFFSET ==>
              r[i] == if i < |body| then body[i] else rec[i]
    ensures r[CB_SIZE_OFFSET..] == LE16(|body|)
  {
    var copied := body + rec[|body|..];
    copied[..CB_SIZE_OFFSET] + LE16(|body| % TWO_16)
  }

  /** After a `fmt ` chunk the `cbSize` field holds the body's length. */
  lemma FmtSetsCbSize(rec: seq<byte>, body: seq<byte>)
    requires |rec| == RECORD_SIZE && |body| <= RECORD_SIZE
    ensures Fields(ApplyFmt(rec, body)).cbSize == |body|
  {
    var r := ApplyFmt(rec, body);
    LE16RoundTrip(|body|);
    assert r[16] == r[CB_SIZE_OFFSET..][0] && r[17] == r[CB_SIZE_OFFSET..][1];
  }

  /** A later `fmt ` chunk whose body covers the 16 bytes before `cbSize`
      (every PCM `fmt ` chunk does) leaves nothing of what an earlier one
      wrote: the record no longer depends on its previous contents. */
  lemma LaterFmtWins(earlier: seq<byte>, other: seq<byte>, body: seq<byte>)
    requires |earlier| == RECORD_SIZE && |other| == RECORD_SIZE
    requires CB_SIZE_OFFSET <= |body| <= RECORD_SIZE
    ensures ApplyFmt(earlier, body) == ApplyFmt(other, body)
  {
    var a, b := ApplyFmt(earlier, body), ApplyFmt(other, body);
    assert a[16..18] == LE16(|body| % TWO_16) == b[16..18];
    forall i | 0 <= i < RECORD_SIZE ensures a[i] == b[i] {
      if i >= CB_SIZE_OFFSET {
        assert a[i] == a[16..18][i - 16];
        assert b[i] == b[16..18][i - 16];
      }
    }
  }

  /** A `fmt ` chunk shorter than 16 bytes overwrites only its own length:
      the fields it does not reach keep the earlier chunk's values. */
  lemma ShortFmtKeepsTail(earlier: seq<byte>, body: seq<byte>, i: nat)
    requires |earlier| == RECORD_SIZE && |body| <= i < CB_SIZE_OFFSET
    ensures ApplyFmt(earlier, body)[i] == earlier[i]
  {
  }

  /** A 16-byte PCM `fmt ` body holding the fields of `w` yields exactly
      those fields, with `cbSize` set to 16. */
  lemma PcmFmtChunkFields(rec: seq<byte>, w: WaveFormatEx)
    requires |rec| == RECORD_SIZE && w.Valid()
    ensures Fields(ApplyFmt(rec, Bytes(w)[..CB_SIZE_OFFSET])) == w.(cbSize := 16)
  {
    var body := Bytes(w)[..CB_SIZE_OFFSET];
    var w16 := w.(cbSize := 16);
    var r := ApplyFmt(rec, body);
    assert Bytes(w16)[..CB_SIZE_OFFSET] == body;
    LE16RoundTrip(16);
    assert r[16..18] == LE16(16) == Bytes(w16)[16..18];
    assert r == Bytes(w16) by {
      forall i | 0 <= i < RECORD_SIZE ensures r[i] == Bytes(w16)[i] {
        if i >= CB_SIZE_OFFSET {
          assert r[i] == r[16..18][i - 16];
          assert Bytes(w16)[i] == Bytes(w16)[16..18][i - 16];
        } else {
          assert Bytes(w16)[i] == Bytes(w16)[..CB_SIZE_OFFSET][i];
        }
      }
    }
    FieldsOfBytes(w16);
  }

  /** The PCM record `Initialize` builds: `nBlockAlign` is computed in
      `int` and stored in a WORD, `nAvgBytesPerSec` is a DWORD product;
      both truncations are written out. The other fields stay as
      `ZeroMemory` left them. */
  function PcmFormat(channels: nat, samplesPerSec: nat, bitsPerSample: nat): (w: WaveFormatEx)
    requires channels < TWO_16 && samplesPerSec < TWO_32 && bitsPerSample < TWO_16
    ensures w.Valid()
    ensures w.formatTag == WAVE_FORMAT_PCM && w.cbSize == 0
    ensures w.channels == channels && w.samplesPerSec == samplesPerSec
    ensures w.bitsPerSample == bitsPerSample
  {
    var blockAlign := (bitsPerSample / 8) * channels % TWO_16;
    WaveFormatEx(WAVE_FORMAT_PCM, channels, samplesPerSec,
                 samplesPerSec * blockAlign % TWO_32, blockAlign, bitsPerSample, 0)
  }

  /** Whenever the products fit their fields, a PCM frame holds one
      sample of every channel and the byte rate is one frame per sample
      period. */
  lemma PcmArithmetic(channels: nat, samplesPerSec: nat, bitsPerSample: nat)
    requires channels < TWO_16 && samplesPerSec < TWO_32 && bitsPerSample < TWO_16
    requires (bitsPerSample / 8) * channels < TWO_16
    requires samplesPerSec * ((bitsPerSample / 8) * channels) < TWO_32
    ensures PcmFormat(channels, samplesPerSec, bitsPerSample).blockAlign ==
              (bitsPerSample / 8) * channels
    ensures PcmFormat(channels, samplesPerSec, bitsPerSample).avgBytesPerSec ==
              samplesPerSec * PcmFormat(channels, samplesPerSec, bitsPerSample).blockAlign
  {
  }

  /** The primary buffer's format: 16-bit stereo PCM at 44100 Hz. */
  function PrimaryFormat(): (w: WaveFormatEx)
    ensures w.Valid() && w.formatTag == WAVE_FORMAT_PCM
    ensures w.channels == 2 && w.samplesPerSec == 44100 && w.bitsPerSample == 16
    ensures w.blockAlign == 4 && w.avgBytesPerSec == 176400
  {
    PcmFormat(2, 44100, 16)
  }
}
