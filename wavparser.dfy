/** What `DirectSoundAudio::LoadWavFile` makes of the bytes of a file:
    the RIFF header check and the chunk walk, as functions on the file's
    bytes. The source reads past the end of its buffer, overruns the
    18-byte format record and lets its 32-bit cursor wrap around without
    checking; at each of those points this model stops with an error
    instead (`Truncated`, `FormatOverrun`, `CursorWrap`). What the
    source's wrapping cursor does is kept as `SourceNextCursor`. */
module WavParser {

  import opened Riff
  import opened WaveFormat

  datatype ParseError =
    | EmptyFile      // the file has no bytes; the source returns false
    | NotRiff        // bytes 0-3 are not the FOURCC `RIFF`; the source returns false
    | NotWave        // bytes 8-11 are not the form type `WAVE`; the source returns false
    | Truncated      // the source would read past the end of its buffer
    | FormatOverrun  // the source would copy more than 18 bytes into the format record
    | CursorWrap     // the source's 32-bit cursor would wrap around and the loop go on from there
  {
    /** An error that only the chunk walk produces. */
    predicate InWalk() {
      Truncated? || FormatOverrun? || CursorWrap?
    }
  }

  datatype Result<T> = Success(value: T) | Failure(error: ParseError)

  /** What the walk hands on: the format record as the `fmt ` chunks left
      it, and the body of the first `data` chunk (`pWaveData`). */
  datatype WaveFile = WaveFile(format: seq<byte>, data: seq<byte>)

  /** Offset of the first chunk header, after `RIFF`, the size and `WAVE`. */
  const CHUNK_START: nat := 12
  /** A chunk header: a FOURCC id and a 32-bit body length. */
  const HEADER_SIZE: nat := 8

  /** The offsets the cursor `pos` takes at the top of the loop: even (the
      walk starts at 12 and every step is even) and held in 32 bits. */
  predicate ValidCursor(pos: nat) {
    CHUNK_START <= pos < TWO_32 && pos % 2 == 0
  }

  /** Where the next header starts after the chunk whose header is at
      `pos` and whose body is `length` bytes: after the body and, when the
      length is odd, one pad byte. */
  function NextCursor(pos: nat, length: nat): (next: nat)
    ensures pos + HEADER_SIZE + length <= next <= pos + HEADER_SIZE + length + 1
    ensures (next - pos) % 2 == 0
  {
    pos + HEADER_SIZE + length + if length % 2 == 1 then 1 else 0
  }

  /** The outcome of one pass of the loop body: the walk stops with a
      result, or moves on to the next header with an updated record. */
  datatype Step = Stop(result: Result<WaveFile>) | Next(pos: nat, rec: seq<byte>)

  /** One chunk: read the header at `pos`, copy a `fmt ` body over the
      record, keep a `data` body and stop, step over anything else
      without reading its body. */
  function ChunkStep(s: seq<byte>, pos: nat, rec: seq<byte>): (st: Step)
    requires ValidCursor(pos) && |rec| == RECORD_SIZE
    ensures st.Next? ==> ValidCursor(st.pos) && pos + HEADER_SIZE <= st.pos && |st.rec| == RECORD_SIZE
  {
    if |s| < pos + HEADER_SIZE then Stop(Failure(Truncated))
    else if TWO_32 <= pos + HEADER_SIZE then Stop(Failure(CursorWrap))
    else
      var id, length, body := U32At(s, pos), U32At(s, pos + 4), pos + HEADER_SIZE;
      if id == DATA then
        if |s| < body + length then Stop(Failure(Truncated))
        else Stop(Success(WaveFile(rec, s[body..body + length])))
      else if id == FMT && RECORD_SIZE < length then Stop(Failure(FormatOverrun))
      else if id == FMT && |s| < body + length then Stop(Failure(Truncated))
      else
        Advance(pos, length, if id == FMT then ApplyFmt(rec, s[body..body + length]) else rec)
  }

  /** What one step can do: fail only with an error of the walk, stop
      at a `data` header with the record unchanged and exactly the
      `length` bytes after the header as the data,
      or move past a header that is not `data` to the next even offset,
      with the record changed only by a `fmt ` chunk. */
  lemma StepOutcome(s: seq<byte>, pos: nat, rec: seq<byte>)
    requires ValidCursor(pos) && |rec| == RECORD_SIZE
    ensures var st := ChunkStep(s, pos, rec);
            (st.Stop? && st.result.Failure? ==> st.result.error.InWalk()) &&
            (st.Stop? && st.result.Success? ==>
               st.result.value.format == rec && |st.result.value.data| < TWO_32 &&
               pos + HEADER_SIZE + |st.result.value.data| <= |s| &&
               U32At(s, pos) == DATA && U32At(s, pos + 4) == |st.result.value.data| &&
               st.result.value.data == s[pos + HEADER_SIZE..pos + HEADER_SIZE + |st.result.value.data|]) &&
            (st.Next? ==>
               pos + HEADER_SIZE <= |s| && U32At(s, pos) != DATA &&
               st.pos == NextCursor(pos, U32At(s, pos + 4)) &&
               (U32At(s, pos) != FMT ==> st.rec == rec))
  {
  }

  /** Moves the cursor past a chunk's body and pad byte, or stops where the
      source's 32-bit `pos` would wrap around. */
  function Advance(pos: nat, length: nat, rec: seq<byte>): (st: Step)
    requires ValidCursor(pos)
    ensures st.Stop? ==> st.result == Failure(CursorWrap)
    ensures st.Next? ==> ValidCursor(st.pos) && st.pos == NextCursor(pos, length) && st.rec == rec
  {
    var next := NextCursor(pos, length);
    if TWO_32 <= next then Stop(Failure(CursorWrap)) else Next(next, rec)
  }

  /** `Advance` moves on exactly when the next header's offset fits in
      32 bits. */
  lemma AdvanceFits(pos: nat, length: nat, rec: seq<byte>)
    requires ValidCursor(pos)
    ensures Advance(pos, length, rec).Next? <==> NextCursor(pos, length) < TWO_32
  {
  }

  /** Where the source's `unsigned int pos` lands after the chunk at `pos`:
      the same sum as `NextCursor`, taken modulo 2^32. Past 2^32 it lands
      at most one header after `pos`, so the loop revisits the file. */
  function SourceNextCursor(pos: nat, length: nat): (next: nat)
    requires pos < TWO_32 && length < TWO_32
    ensures next < TWO_32
    ensures NextCursor(pos, length) < TWO_32 ==> next == NextCursor(pos, length)
    ensures TWO_32 <= NextCursor(pos, length) && pos + HEADER_SIZE < TWO_32 ==>
              next == NextCursor(pos, length) - TWO_32 && next <= pos + HEADER_SIZE
  {
    WrapOnce(NextCursor(pos, length));
    NextCursor(pos, length) % TWO_32
  }

  /** Below 2^33, reducing modulo 2^32 takes off 2^32 at most once. */
  lemma WrapOnce(n: nat)
    ensures n < TWO_32 ==> n % TWO_32 == n
    ensures TWO_32 <= n < 2 * TWO_32 ==> n % TWO_32 == n - TWO_32
  {
    if TWO_32 <= n < 2 * TWO_32 {
      assert n == (n - TWO_32) + TWO_32 * 1;
    }
  }

  /** A 20-byte file: `RIFF`, a size, `WAVE`, and one `JUNK` header whose
      length is 0xFFFFFFF8, with no body. */
  function LoopingFile(): (s: seq<byte>)
    ensures |s| == CHUNK_START + HEADER_SIZE
  {
    [0x52, 0x49, 0x46, 0x46, 12, 0, 0, 0, 0x57, 0x41, 0x56, 0x45,
     0x4a, 0x55, 0x4e, 0x4b, 0xf8, 0xff, 0xff, 0xff]
  }

  /** On `LoopingFile` the source's loop never ends: its header checks
      pass, the only chunk is neither `fmt ` nor `data`, and the wrapped
      cursor lands back on that same header, so every pass starts from the
      state the previous one started from. The model stops instead. */
  lemma LoopingFileNeverEnds()
    ensures var s := LoopingFile();
            U32At(s, 0) == RIFF && U32At(s, 8) == WAVE &&
            U32At(s, CHUNK_START) != FMT && U32At(s, CHUNK_START) != DATA &&
            SourceNextCursor(CHUNK_START, U32At(s, CHUNK_START + 4)) == CHUNK_START &&
            ParseWave(s) == Failure(CursorWrap)
  {
    var s := LoopingFile();
    assert U32At(s, CHUNK_START + 4) == 0xFFFF_FFF8;
    assert ChunkStep(s, CHUNK_START, ZeroRecord()) == Stop(Failure(CursorWrap));
  }

  /** `r` is `rec` after the `fmt ` chunk whose header is at `pos` has been
      copied over it: the header says `fmt `, and its body fits the file
      and the record. */
  predicate FmtCopiedAt(s: seq<byte>, pos: nat, rec: seq<byte>, r: seq<byte>) {
    pos + HEADER_SIZE <= |s| && U32At(s, pos) == FMT &&
    U32At(s, pos + 4) <= RECORD_SIZE && pos + HEADER_SIZE + U32At(s, pos + 4) <= |s| &&
    |rec| == RECORD_SIZE &&
    r == ApplyFmt(rec, s[pos + HEADER_SIZE..pos + HEADER_SIZE + U32At(s, pos + 4)])
  }

  /** The step at a `data` chunk whose body is in bounds keeps the body. */
  lemma StepOnDataChunk(s: seq<byte>, pos: nat, rec: seq<byte>, length: nat, data: seq<byte>)
    requires ValidCursor(pos) && |rec| == RECORD_SIZE
    requires pos + HEADER_SIZE <= |s| && pos + HEADER_SIZE < TWO_32 && U32At(s, pos) == DATA
    requires length == U32At(s, pos + 4) && pos + HEADER_SIZE + length <= |s|
    requires data == s[pos + HEADER_SIZE..pos + HEADER_SIZE + length]
    ensures ChunkStep(s, pos, rec) == Stop(Success(WaveFile(rec, data)))
  {
  }

  /** The step at a `fmt ` chunk whose body fits copies it over the record. */
  lemma StepOnFmtChunk(s: seq<byte>, pos: nat, rec: seq<byte>, length: nat, after: seq<byte>)
    requires ValidCursor(pos) && |rec| == RECORD_SIZE
    requires pos + HEADER_SIZE <= |s| && pos + HEADER_SIZE < TWO_32 && U32At(s, pos) == FMT
    requires length == U32At(s, pos + 4) && length <= RECORD_SIZE
    requires pos + HEADER_SIZE + length <= |s|
    requires after == ApplyFmt(rec, s[pos + HEADER_SIZE..pos + HEADER_SIZE + length])
    ensures ChunkStep(s, pos, rec) == Advance(pos, length, after)
  {
    assert FMT != DATA;
  }

  /** The step at any other chunk leaves the record as it was. */
  lemma StepOnOtherChunk(s: seq<byte>, pos: nat, rec: seq<byte>, length: nat)
    requires ValidCursor(pos) && |rec| == RECORD_SIZE
    requires pos + HEADER_SIZE <= |s| && pos + HEADER_SIZE < TWO_32
    requires U32At(s, pos) != FMT && U32At(s, pos) != DATA && length == U32At(s, pos + 4)
    ensures ChunkStep(s, pos, rec) == Advance(pos, length, rec)
  {
  }

  /** The chunk walk from the header at `pos`, with the format record
      `rec` as the chunks so far have left it: steps until one stops. */
  function Walk(s: seq<byte>, pos: nat, rec: seq<byte>): (r: Result<WaveFile>)
    requires ValidCursor(pos) && |rec| == RECORD_SIZE
    ensures r.Failure? ==> r.error.InWalk()
    ensures r.Success? ==> |r.value.format| == RECORD_SIZE
    ensures r.Success? ==> |r.value.data| < TWO_32
    ensures r.Success? ==> pos + HEADER_SIZE + |r.value.data| <= |s|
    decreases TWO_32 - pos
  {
    StepOutcome(s, pos, rec);
    match ChunkStep(s, pos, rec)
    case Stop(r) => r
    case Next(next, rec') => Walk(s, next, rec')
  }

  /** The `data` chunk with body `data` has its header at `p`, a cursor
      the walk can reach. */
  predicate DataChunkAt(s: seq<byte>, p: nat, data: seq<byte>) {
    ValidCursor(p) && p + HEADER_SIZE + |data| <= |s| &&
    U32At(s, p) == DATA && U32At(s, p + 4) == |data| &&
    data == s[p + HEADER_SIZE..p + HEADER_SIZE + |data|]
  }

  /** What a successful walk returns as data is the body of a `data`
      chunk of the file, at or after the cursor it started from. */
  lemma {:induction false} WalkFindsData(s: seq<byte>, pos: nat, rec: seq<byte>)
    requires ValidCursor(pos) && |rec| == RECORD_SIZE
    requires Walk(s, pos, rec).Success?
    ensures exists p :: pos <= p && DataChunkAt(s, p, Walk(s, pos, rec).value.data)
    decreases TWO_32 - pos
  {
    StepOutcome(s, pos, rec);
    match ChunkStep(s, pos, rec)
    case Stop(r) =>
      assert DataChunkAt(s, pos, r.value.data);
    case Next(next, rec') =>
      WalkFindsData(s, next, rec');
      var p :| next <= p && DataChunkAt(s, p, Walk(s, next, rec').value.data);
      assert pos <= p;
  }

  /** Where a step moves on, the walk continues from where it lands. */
  lemma WalkOnNext(s: seq<byte>, pos: nat, rec: seq<byte>, next: nat, rec': seq<byte>)
    requires ValidCursor(pos) && |rec| == RECORD_SIZE
    requires ChunkStep(s, pos, rec) == Next(next, rec')
    ensures ValidCursor(next) && |rec'| == RECORD_SIZE
    ensures Walk(s, pos, rec) == Walk(s, next, rec')
  {
  }

  /** Where a step stops, its outcome is the walk's. */
  lemma WalkOnStop(s: seq<byte>, pos: nat, rec: seq<byte>, r: Result<WaveFile>)
    requires ValidCursor(pos) && |rec| == RECORD_SIZE
    requires ChunkStep(s, pos, rec) == Stop(r)
    ensures Walk(s, pos, rec) == r
  {
  }

  /** The whole parse: the header checks in the order the source makes
      them (the tag and the size are both read before the tag is
      compared), then the walk from offset 12 over a zeroed record. */
  function ParseWave(s: seq<byte>): (r: Result<WaveFile>)
    ensures r == Failure(EmptyFile) <==> |s| == 0
    ensures r == Failure(NotRiff) <==> 8 <= |s| && U32At(s, 0) != RIFF
    ensures r == Failure(NotWave) <==> 12 <= |s| && U32At(s, 0) == RIFF && U32At(s, 8) != WAVE
    ensures r.Success? ==> CHUNK_START + HEADER_SIZE + |r.value.data| <= |s|
    ensures r.Success? ==> U32At(s, 0) == RIFF && U32At(s, 8) == WAVE
    ensures r.Success? ==> |r.value.format| == RECORD_SIZE && |r.value.data| < TWO_32
  {
    if |s| == 0 then Failure(EmptyFile)
    else if |s| < 8 then Failure(Truncated)
    else if U32At(s, 0) != RIFF then Failure(NotRiff)
    else if |s| < CHUNK_START then Failure(Truncated)
    else if U32At(s, 8) != WAVE then Failure(NotWave)
    else Walk(s, CHUNK_START, ZeroRecord())
  }

  /** Past the two tags, the parse is the walk from offset 12 over the
      zeroed record. */
  lemma ParseIsWalk(s: seq<byte>)
    requires CHUNK_START <= |s| && U32At(s, 0) == RIFF && U32At(s, 8) == WAVE
    ensures ParseWave(s) == Walk(s, CHUNK_START, ZeroRecord())
  {
  }

  /** What a successful parse returns as data is the body of a `data`
      chunk of the file. */
  lemma ParseFindsData(s: seq<byte>)
    requires ParseWave(s).Success?
    ensures exists p :: CHUNK_START <= p && DataChunkAt(s, p, ParseWave(s).value.data)
  {
    ParseIsWalk(s);
    WalkFindsData(s, CHUNK_START, ZeroRecord());
    var data := Walk(s, CHUNK_START, ZeroRecord()).value.data;
    var p :| CHUNK_START <= p && DataChunkAt(s, p, data);
    assert DataChunkAt(s, p, ParseWave(s).value.data);
  }

  /** A chunk step that does not fail reads nothing past the chunk's
      body: appending bytes leaves it unchanged. */
  lemma StepIgnoresSuffix(s: seq<byte>, t: seq<byte>, pos: nat, rec: seq<byte>)
    requires ValidCursor(pos) && |rec| == RECORD_SIZE
    requires !ChunkStep(s, pos, rec).Stop? || ChunkStep(s, pos, rec).result.Success?
    ensures ChunkStep(s + t, pos, rec) == ChunkStep(s, pos, rec)
  {
    var u := s + t;
    assert pos + HEADER_SIZE <= |s|;
    var length, body := U32At(s, pos + 4), pos + HEADER_SIZE;
    assert U32At(u, pos) == U32At(s, pos) && U32At(u, pos + 4) == length by {
      assert forall i | pos <= i < pos + HEADER_SIZE :: u[i] == s[i];
    }
    if body + length <= |s| {
      assert u[body..body + length] == s[body..body + length];
    }
  }

  /** A successful walk never looks past the `data` chunk it stops at. */
  lemma {:induction false} WalkIgnoresSuffix(s: seq<byte>, t: seq<byte>, pos: nat, rec: seq<byte>)
    requires ValidCursor(pos) && |rec| == RECORD_SIZE
    requires Walk(s, pos, rec).Success?
    ensures Walk(s + t, pos, rec) == Walk(s, pos, rec)
    decreases TWO_32 - pos
  {
    StepIgnoresSuffix(s, t, pos, rec);
    match ChunkStep(s, pos, rec)
    case Stop(r) =>
    case Next(next, rec') => WalkIgnoresSuffix(s, t, next, rec');
  }

  /** Chunks after the first `data` chunk, and anything else after it,
      are never examined. */
  lemma ParseIgnoresSuffix(s: seq<byte>, t: seq<byte>)
    requires ParseWave(s).Success?
    ensures ParseWave(s + t) == ParseWave(s)
  {
    var u := s + t;
    assert U32At(u, 0) == U32At(s, 0) && U32At(u, 8) == U32At(s, 8);
    ParseIsWalk(s);
    ParseIsWalk(u);
    WalkIgnoresSuffix(s, t, CHUNK_START, ZeroRecord());
  }

  /** The header the walk from `pos` stops at: the offset of its last
      pass. */
  function StopCursor(s: seq<byte>, pos: nat, rec: seq<byte>): (p: nat)
    requires ValidCursor(pos) && |rec| == RECORD_SIZE
    ensures pos <= p && ValidCursor(p)
    decreases TWO_32 - pos
  {
    match ChunkStep(s, pos, rec)
    case Stop(_) => pos
    case Next(next, rec') => StopCursor(s, next, rec')
  }

  /** A successful walk stops at a `data` header, and what it returns as
      data is that chunk's body. */
  lemma {:induction false} WalkStopsAtData(s: seq<byte>, pos: nat, rec: seq<byte>)
    requires ValidCursor(pos) && |rec| == RECORD_SIZE
    requires Walk(s, pos, rec).Success?
    ensures DataChunkAt(s, StopCursor(s, pos, rec), Walk(s, pos, rec).value.data)
    decreases TWO_32 - pos
  {
    StepOutcome(s, pos, rec);
    match ChunkStep(s, pos, rec)
    case Stop(r) =>
      WalkOnStop(s, pos, rec, r);
    case Next(next, rec') =>
      WalkOnNext(s, pos, rec, next, rec');
      WalkStopsAtData(s, next, rec');
  }

  /** A step reads the header at `pos` and, at a `fmt ` or `data` header,
      the body after it; a file `t` that agrees with `s` on all of that
      steps alike. */
  lemma StepAgrees(s: seq<byte>, t: seq<byte>, pos: nat, rec: seq<byte>, n: nat)
    requires ValidCursor(pos) && |rec| == RECORD_SIZE
    requires pos + HEADER_SIZE <= n <= |s| && n <= |t| && s[..n] == t[..n]
    requires U32At(s, pos) == DATA || U32At(s, pos) == FMT ==>
               pos + HEADER_SIZE + U32At(s, pos + 4) <= n
    ensures ChunkStep(t, pos, rec) == ChunkStep(s, pos, rec)
  {
    forall i | 0 <= i < n ensures s[i] == t[i] {
      assert s[..n][i] == t[..n][i];
    }
    var length, body := U32At(s, pos + 4), pos + HEADER_SIZE;
    assert U32At(t, pos) == U32At(s, pos) && U32At(t, pos + 4) == length;
    if body + length <= n {
      assert t[body..body + length] == s[body..body + length];
    }
  }

  /** A file that agrees with `s` up to the end of the `data` chunk a
      successful walk stops at is walked alike. */
  lemma {:induction false} WalkAgrees(s: seq<byte>, t: seq<byte>, pos: nat, rec: seq<byte>, n: nat)
    requires ValidCursor(pos) && |rec| == RECORD_SIZE
    requires Walk(s, pos, rec).Success?
    requires n <= |s| && n <= |t| && s[..n] == t[..n]
    requires StopCursor(s, pos, rec) + HEADER_SIZE + |Walk(s, pos, rec).value.data| <= n
    ensures Walk(t, pos, rec) == Walk(s, pos, rec)
    decreases TWO_32 - pos
  {
    StepOutcome(s, pos, rec);
    match ChunkStep(s, pos, rec)
    case Stop(r) =>
      WalkOnStop(s, pos, rec, r);
      StepAgrees(s, t, pos, rec, n);
      WalkOnStop(t, pos, rec, r);
    case Next(next, rec') =>
      WalkOnNext(s, pos, rec, next, rec');
      assert StopCursor(s, pos, rec) == StopCursor(s, next, rec');
      StepAgrees(s, t, pos, rec, n);
      WalkOnNext(t, pos, rec, next, rec');
      WalkAgrees(s, t, next, rec', n);
  }

  /** Two files that agree on a prefix holding both tags, and whose walks
      agree, parse alike. */
  lemma ParseAgrees(s: seq<byte>, t: seq<byte>, n: nat)
    requires ParseWave(s).Success?
    requires CHUNK_START <= n <= |s| && n <= |t| && s[..n] == t[..n]
    requires Walk(t, CHUNK_START, ZeroRecord()) == Walk(s, CHUNK_START, ZeroRecord())
    ensures ParseWave(t) == ParseWave(s)
  {
    assert t[..CHUNK_START] == s[..CHUNK_START] by {
      assert t[..CHUNK_START] == t[..n][..CHUNK_START];
      assert s[..CHUNK_START] == s[..n][..CHUNK_START];
    }
    assert U32At(t, 0) == U32At(s, 0) && U32At(t, 8) == U32At(s, 8) by {
      assert forall i | 0 <= i < CHUNK_START :: t[i] == t[..CHUNK_START][i] == s[i];
    }
    ParseIsWalk(s);
    ParseIsWalk(t);
  }

  /** The bytes after the `data` chunk where a successful parse stops,
      more chunks included, are never examined: a file that agrees with
      `s` up to any offset `n` past the end of that chunk, whatever
      follows, parses alike. */
  lemma ParseIgnoresAfterData(s: seq<byte>, t: seq<byte>, n: nat)
    requires ParseWave(s).Success?
    requires StopCursor(s, CHUNK_START, ZeroRecord()) + HEADER_SIZE + |ParseWave(s).value.data| <= n
    requires n <= |s| && n <= |t| && s[..n] == t[..n]
    ensures ParseWave(t) == ParseWave(s)
  {
    ParseIsWalk(s);
    WalkAgrees(s, t, CHUNK_START, ZeroRecord(), n);
    ParseAgrees(s, t, n);
  }

  /** A chunk step depends only on the bytes from the cursor on. */
  lemma StepReadsFrom(s: seq<byte>, t: seq<byte>, lo: nat, pos: nat, rec: seq<byte>)
    requires ValidCursor(pos) && |rec| == RECORD_SIZE
    requires |s| == |t| && lo <= pos && lo <= |s| && s[lo..] == t[lo..]
    ensures ChunkStep(s, pos, rec) == ChunkStep(t, pos, rec)
  {
    if pos + HEADER_SIZE <= |s| {
      forall i | pos <= i < |s| ensures s[i] == t[i] {
        assert s[i] == s[lo..][i - lo];
        assert t[i] == t[lo..][i - lo];
      }
      var length, body := U32At(s, pos + 4), pos + HEADER_SIZE;
      assert U32At(t, pos) == U32At(s, pos) && U32At(t, pos + 4) == length;
      if body + length <= |s| {
        assert s[body..body + length] == t[body..body + length];
      }
    }
  }

  /** The walk from `pos` depends only on the bytes from `lo` on, for any
      `lo` at or before the cursor. */
  lemma {:induction false} WalkReadsFrom(s: seq<byte>, t: seq<byte>, lo: nat, pos: nat, rec: seq<byte>)
    requires ValidCursor(pos) && |rec| == RECORD_SIZE
    requires |s| == |t| && lo <= pos && lo <= |s| && s[lo..] == t[lo..]
    ensures Walk(s, pos, rec) == Walk(t, pos, rec)
    decreases TWO_32 - pos
  {
    StepReadsFrom(s, t, lo, pos, rec);
    match ChunkStep(s, pos, rec)
    case Stop(r) =>
    case Next(next, rec') => WalkReadsFrom(s, t, lo, next, rec');
  }

  /** The RIFF size field (bytes 4-7) is read but never used: it bounds
      nothing, so two files differing only there parse alike. */
  lemma RiffSizeIgnored(s: seq<byte>, t: seq<byte>)
    requires |s| == |t| && 8 <= |s|
    requires s[..4] == t[..4] && s[8..] == t[8..]
    ensures ParseWave(s) == ParseWave(t)
  {
    assert s[0..4] == s[..4] && t[0..4] == t[..4];
    U32AtInjective(s, 0, t, 0);
    if CHUNK_START <= |s| {
      assert s[8..12] == s[8..][0..4] && t[8..12] == t[8..][0..4];
      U32AtInjective(s, 8, t, 8);
      WalkReadsFrom(s, t, 8, CHUNK_START, ZeroRecord());
    }
  }

  /** Parsing succeeds only on files that start with the ASCII bytes
      `RIFF` and carry `WAVE` at offset 8. */
  lemma AcceptedFilesAreRiffWave(s: seq<byte>)
    requires ParseWave(s).Success?
    ensures s[0..4] == Ascii('R', 'I', 'F', 'F') && s[8..12] == Ascii('W', 'A', 'V', 'E')
  {
    TagsAreFourCC();
    FourCCBytes(s, 0, 'R', 'I', 'F', 'F');
    FourCCBytes(s, 8, 'W', 'A', 'V', 'E');
  }
}
