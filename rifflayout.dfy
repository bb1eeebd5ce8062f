/** The RIFF/WAVE layout written out: chunks as a writer lays them down
    (FOURCC id, 32-bit length, body, a pad byte after an odd body), and
    the theorem that the parser reads such a file back. This is the
    independent reference the chunk walk is checked against. */
module RiffLayout {

  import opened Riff
  import opened WaveFormat
  import opened WavParser

  /** One chunk of a RIFF file. */
  datatype Chunk = Chunk(id: nat, body: seq<byte>)
  {
    /** The id and the length fit their 32-bit fields. */
    predicate Valid() {
      id < TWO_32 && |body| < TWO_32
    }
  }

  /** The pad byte that keeps every chunk at an even offset. */
  function Pad(length: nat): (p: seq<byte>)
    ensures (length + |p|) % 2 == 0
  {
    if length % 2 == 1 then [0] else []
  }

  /** The bytes of one chunk. */
  function ChunkBytes(c: Chunk): (s: seq<byte>)
    ensures |s| == NextCursor(0, |c.body|) && |s| % 2 == 0
  {
    LE32(c.id) + LE32(|c.body|) + c.body + Pad(|c.body|)
  }

  /** The bytes of a run of chunks, one after the other. */
  function ChunkListBytes(cs: seq<Chunk>): (s: seq<byte>)
    ensures |s| % 2 == 0
    decreases |cs|
  {
    if cs == [] then []
    else
      EvenSum(|ChunkBytes(cs[0])|, |ChunkListBytes(cs[1..])|);
      ChunkBytes(cs[0]) + ChunkListBytes(cs[1..])
  }

  /** A whole file: `RIFF`, the size field, `WAVE`, then the chunks. */
  function WaveBytes(riffSize: nat, cs: seq<Chunk>): (s: seq<byte>)
    ensures |s| == CHUNK_START + |ChunkListBytes(cs)|
  {
    LE32(RIFF) + LE32(riffSize) + LE32(WAVE) + ChunkListBytes(cs)
  }

  /** A chunk the source steps over on its way to `data`: it is not a
      `data` chunk, and a `fmt ` body fits the record. */
  predicate Skippable(c: Chunk) {
    c.Valid() && c.id != DATA && (c.id == FMT ==> |c.body| <= RECORD_SIZE)
  }

  /** Chunks the source can step through before its first `data` chunk. */
  predicate BeforeData(cs: seq<Chunk>)
    decreases |cs|
  {
    cs == [] || (Skippable(cs[0]) && BeforeData(cs[1..]))
  }

  /** The record after stepping over `c`: only a `fmt ` chunk changes it. */
  function RecordAfter(rec: seq<byte>, c: Chunk): (r: seq<byte>)
    requires |rec| == RECORD_SIZE && Skippable(c)
    ensures |r| == RECORD_SIZE
  {
    if c.id == FMT then ApplyFmt(rec, c.body) else rec
  }

  /** The format record after the `fmt ` chunks among `cs`, in order,
      have been copied over `rec`; other chunks leave it alone. */
  function FormatAfter(rec: seq<byte>, cs: seq<Chunk>): (r: seq<byte>)
    requires |rec| == RECORD_SIZE && BeforeData(cs)
    ensures |r| == RECORD_SIZE
    decreases |cs|
  {
    if cs == [] then rec else FormatAfter(RecordAfter(rec, cs[0]), cs[1..])
  }

  lemma EvenSum(a: nat, b: nat)
    requires a % 2 == 0 && b % 2 == 0
    ensures (a + b) % 2 == 0
  {
  }

  /** Laying out chunk lists one after the other is concatenation. */
  lemma {:induction false} ChunkListAppend(a: seq<Chunk>, b: seq<Chunk>)
    ensures ChunkListBytes(a + b) == ChunkListBytes(a) + ChunkListBytes(b)
    decreases |a|
  {
    if a == [] {
      assert a + b == b;
    } else {
      assert (a + b)[1..] == a[1..] + b;
      ChunkListAppend(a[1..], b);
    }
  }

  /** A run of chunks can be stepped over exactly when both halves can. */
  lemma {:induction false} BeforeDataAppend(a: seq<Chunk>, b: seq<Chunk>)
    ensures BeforeData(a + b) <==> BeforeData(a) && BeforeData(b)
    decreases |a|
  {
    if a == [] {
      assert a + b == b;
    } else {
      assert (a + b)[0] == a[0] && (a + b)[1..] == a[1..] + b;
      BeforeDataAppend(a[1..], b);
    }
  }

  /** `bytes` sit in `s` starting at offset `pos`. */
  predicate LaidAt(s: seq<byte>, pos: nat, bytes: seq<byte>) {
    pos + |bytes| <= |s| && s[pos..pos + |bytes|] == bytes
  }

  /** Two runs laid one after the other: the first sits at `pos`, the
      second right after it. */
  lemma SplitLaid(s: seq<byte>, pos: nat, a: seq<byte>, b: seq<byte>)
    requires LaidAt(s, pos, a + b)
    ensures LaidAt(s, pos, a) && LaidAt(s, pos + |a|, b)
  {
    forall k | 0 <= k < |a| + |b| ensures s[pos + k] == (a + b)[k] {
      assert s[pos..pos + |a + b|][k] == (a + b)[k];
    }
    assert s[pos..pos + |a|] == a by {
      forall k | 0 <= k < |a| ensures s[pos..pos + |a|][k] == a[k] {
        assert (a + b)[k] == a[k];
      }
    }
    assert s[pos + |a|..pos + |a| + |b|] == b by {
      forall k | 0 <= k < |b| ensures s[pos + |a|..pos + |a| + |b|][k] == b[k] {
        assert (a + b)[|a| + k] == b[k];
      }
    }
  }

  /** Any piece of a run laid at `pos` sits at the matching offset. */
  lemma SliceOfLaid(s: seq<byte>, pos: nat, bytes: seq<byte>, i: nat, j: nat)
    requires LaidAt(s, pos, bytes) && i <= j <= |bytes|
    ensures s[pos + i..pos + j] == bytes[i..j]
  {
    forall k | 0 <= k < j - i ensures s[pos + i..pos + j][k] == bytes[i..j][k] {
      assert s[pos..pos + |bytes|][i + k] == bytes[i + k];
    }
  }

  /** What the walk reads of chunk `c` at `pos`: its id, its length and
      its body, all within the file. */
  predicate FoundAt(s: seq<byte>, pos: nat, c: Chunk) {
    pos + HEADER_SIZE + |c.body| <= |s| &&
    U32At(s, pos) == c.id && U32At(s, pos + 4) == |c.body| &&
    s[pos + HEADER_SIZE..pos + HEADER_SIZE + |c.body|] == c.body
  }

  /** Reading back the header and body of a chunk laid at `pos`. */
  lemma ReadLaidChunk(s: seq<byte>, pos: nat, c: Chunk)
    requires c.Valid() && LaidAt(s, pos, ChunkBytes(c))
    ensures FoundAt(s, pos, c)
  {
    var cb := ChunkBytes(c);
    var idBytes, lenBytes := LE32(c.id), LE32(|c.body|);
    SliceOfLaid(s, pos, cb, 0, 4);
    SliceOfLaid(s, pos, cb, 4, HEADER_SIZE);
    SliceOfLaid(s, pos, cb, HEADER_SIZE, HEADER_SIZE + |c.body|);
    assert cb[0..4] == idBytes && cb[4..HEADER_SIZE] == lenBytes;
    assert cb[HEADER_SIZE..HEADER_SIZE + |c.body|] == c.body;
    LE32RoundTrip(c.id);
    LE32RoundTrip(|c.body|);
    U32AtInjective(s, pos, idBytes, 0);
    U32AtInjective(s, pos + 4, lenBytes, 0);
    assert idBytes[0..4] == idBytes && lenBytes[0..4] == lenBytes;
  }

  /** The chunks of `cs` are found one after the other from `pos`, and
      the `data` chunk `d` right after them. */
  predicate RunTo(s: seq<byte>, pos: nat, cs: seq<Chunk>, d: Chunk)
    decreases |cs|
  {
    if cs == [] then FoundAt(s, pos, d)
    else FoundAt(s, pos, cs[0]) && RunTo(s, pos + |ChunkBytes(cs[0])|, cs[1..], d)
  }

  /** Laid-out bytes are read back chunk by chunk. */
  lemma {:induction false} LaidRun(s: seq<byte>, pos: nat, cs: seq<Chunk>, d: Chunk)
    requires BeforeData(cs) && d.Valid() && LaidAt(s, pos, ChunkListBytes(cs + [d]))
    ensures RunTo(s, pos, cs, d)
    decreases |cs|
  {
    if cs == [] {
      assert cs + [d] == [d] && [d][1..] == [];
      assert ChunkListBytes(cs + [d]) == ChunkBytes(d) + [];
      assert ChunkBytes(d) + [] == ChunkBytes(d);
      ReadLaidChunk(s, pos, d);
    } else {
      var c := cs[0];
      assert (cs + [d])[0] == c && (cs + [d])[1..] == cs[1..] + [d];
      assert ChunkListBytes(cs + [d]) == ChunkBytes(c) + ChunkListBytes(cs[1..] + [d]);
      SplitLaid(s, pos, ChunkBytes(c), ChunkListBytes(cs[1..] + [d]));
      ReadLaidChunk(s, pos, c);
      LaidRun(s, pos + |ChunkBytes(c)|, cs[1..], d);
    }
  }

  /** One step of the walk over a chunk that is not `data`: the cursor
      moves to the next chunk, and only a `fmt ` chunk changes the
      record. */
  lemma StepOverChunk(s: seq<byte>, pos: nat, rec: seq<byte>, c: Chunk)
    requires ValidCursor(pos) && |rec| == RECORD_SIZE && Skippable(c)
    requires FoundAt(s, pos, c) && pos + |ChunkBytes(c)| < TWO_32
    ensures ChunkStep(s, pos, rec) == Next(pos + |ChunkBytes(c)|, RecordAfter(rec, c))
  {
    if c.id == FMT {
      StepOnFmtChunk(s, pos, rec, |c.body|, ApplyFmt(rec, c.body));
    } else {
      StepOnOtherChunk(s, pos, rec, |c.body|);
    }
  }

  /** Stepping from `pos` passes over the chunks of `cs` one by one, each
      landing right after the previous, and then stops on the `data`
      chunk `d`. */
  predicate Chain(s: seq<byte>, pos: nat, rec: seq<byte>, cs: seq<Chunk>, d: Chunk)
    requires ValidCursor(pos) && |rec| == RECORD_SIZE && BeforeData(cs)
    decreases |cs|
  {
    if cs == [] then ChunkStep(s, pos, rec) == Stop(Success(WaveFile(rec, d.body)))
    else
      ChunkStep(s, pos, rec) == Next(pos + |ChunkBytes(cs[0])|, RecordAfter(rec, cs[0])) &&
      Chain(s, pos + |ChunkBytes(cs[0])|, RecordAfter(rec, cs[0]), cs[1..], d)
  }

  /** Chunks found one after the other are stepped over one by one. */
  lemma {:induction false} RunChain(s: seq<byte>, pos: nat, rec: seq<byte>, cs: seq<Chunk>, d: Chunk)
    requires ValidCursor(pos) && |rec| == RECORD_SIZE
    requires BeforeData(cs) && d.id == DATA
    requires pos + |ChunkListBytes(cs)| + HEADER_SIZE < TWO_32
    requires RunTo(s, pos, cs, d)
    ensures Chain(s, pos, rec, cs, d)
    decreases |cs|
  {
    if cs == [] {
      StepOnDataChunk(s, pos, rec, |d.body|, d.body);
    } else {
      var c := cs[0];
      EvenSum(pos, |ChunkBytes(c)|);
      StepOverChunk(s, pos, rec, c);
      RunChain(s, pos + |ChunkBytes(c)|, RecordAfter(rec, c), cs[1..], d);
    }
  }

  /** The walk along a chain ends on its `data` chunk and returns its
      body, with the record the `fmt ` chunks of the chain left. */
  lemma {:induction false} WalkWritten(s: seq<byte>, pos: nat, rec: seq<byte>, cs: seq<Chunk>, d: Chunk)
    requires ValidCursor(pos) && |rec| == RECORD_SIZE && BeforeData(cs)
    requires Chain(s, pos, rec, cs, d)
    ensures Walk(s, pos, rec) == Success(WaveFile(FormatAfter(rec, cs), d.body))
    decreases |cs|
  {
    if cs == [] {
      WalkOnStop(s, pos, rec, Success(WaveFile(rec, d.body)));
    } else {
      var next, rec' := pos + |ChunkBytes(cs[0])|, RecordAfter(rec, cs[0]);
      WalkOnNext(s, pos, rec, next, rec');
      WalkWritten(s, next, rec', cs[1..], d);
    }
  }

  /** The header of a laid-out file reads back as `RIFF` and `WAVE`, and
      its chunks sit right after it, whatever follows them. */
  lemma HeaderLaid(riffSize: nat, cs: seq<Chunk>, tail: seq<byte>)
    ensures U32At(WaveBytes(riffSize, cs) + tail, 0) == RIFF
    ensures U32At(WaveBytes(riffSize, cs) + tail, 8) == WAVE
    ensures LaidAt(WaveBytes(riffSize, cs) + tail, CHUNK_START, ChunkListBytes(cs))
  {
    var s := WaveBytes(riffSize, cs) + tail;
    var r, w, run := LE32(RIFF), LE32(WAVE), ChunkListBytes(cs);
    assert s == r + LE32(riffSize) + w + run + tail;
    LE32RoundTrip(RIFF);
    LE32RoundTrip(WAVE);
    assert U32At(s, 0) == U32At(r, 0) by {
      assert s[0] == r[0] && s[1] == r[1] && s[2] == r[2] && s[3] == r[3];
    }
    assert U32At(s, 8) == U32At(w, 0) by {
      assert s[8] == w[0] && s[9] == w[1] && s[10] == w[2] && s[11] == w[3];
    }
    assert s[CHUNK_START..CHUNK_START + |run|] == run;
  }

  /** Round trip: a file laid out as `RIFF`, any size field, `WAVE`, chunks
      that are not `data`, then a `data` chunk and anything at all parses
      to the body of that `data` chunk and the record its `fmt ` chunks
      produce from a zeroed one. */
  lemma ParseWritten(riffSize: nat, cs: seq<Chunk>, d: Chunk, tail: seq<byte>)
    requires BeforeData(cs) && d.Valid() && d.id == DATA
    requires CHUNK_START + |ChunkListBytes(cs)| + HEADER_SIZE < TWO_32
    ensures ParseWave(WaveBytes(riffSize, cs + [d]) + tail) ==
              Success(WaveFile(FormatAfter(ZeroRecord(), cs), d.body))
  {
    var s := WaveBytes(riffSize, cs + [d]) + tail;
    HeaderLaid(riffSize, cs + [d], tail);
    LaidRun(s, CHUNK_START, cs, d);
    RunChain(s, CHUNK_START, ZeroRecord(), cs, d);
    WalkWritten(s, CHUNK_START, ZeroRecord(), cs, d);
  }

  /** A chunk that is neither `fmt ` nor `data` leaves the record alone. */
  lemma {:induction false} FormatAfterSkipsOther(rec: seq<byte>, a: seq<Chunk>, u: Chunk, b: seq<Chunk>)
    requires |rec| == RECORD_SIZE && BeforeData(a) && Skippable(u) && BeforeData(b) && u.id != FMT
    ensures BeforeData(a + [u] + b) && BeforeData(a + b)
    ensures FormatAfter(rec, a + [u] + b) == FormatAfter(rec, a + b)
    decreases |a|
  {
    BeforeDataAppend(a, b);
    BeforeDataAppend(a, [u] + b);
    assert ([u] + b)[0] == u && ([u] + b)[1..] == b;
    assert a + [u] + b == a + ([u] + b);
    if a == [] {
      assert a + ([u] + b) == [u] + b && a + b == b;
    } else {
      var all := a + ([u] + b);
      assert all[0] == a[0] && all[1..] == a[1..] + [u] + b;
      assert (a + b)[0] == a[0] && (a + b)[1..] == a[1..] + b;
      FormatAfterSkipsOther(RecordAfter(rec, a[0]), a[1..], u, b);
    }
  }

  /** Inserting a chunk of any other kind before the `data` chunk changes
      neither the record nor the data the parser returns. */
  lemma OtherChunkIgnored(riffSize: nat, a: seq<Chunk>, u: Chunk, b: seq<Chunk>, d: Chunk, tail: seq<byte>)
    requires BeforeData(a) && Skippable(u) && BeforeData(b) && u.id != FMT
    requires d.Valid() && d.id == DATA
    requires CHUNK_START + |ChunkListBytes(a + [u] + b)| + HEADER_SIZE < TWO_32
    ensures ParseWave(WaveBytes(riffSize, a + [u] + b + [d]) + tail) ==
              ParseWave(WaveBytes(riffSize, a + b + [d]) + tail)
  {
    FormatAfterSkipsOther(ZeroRecord(), a, u, b);
    InsertedLength(a, u, b);
    ParseWritten(riffSize, a + [u] + b, d, tail);
    ParseWritten(riffSize, a + b, d, tail);
  }

  /** Inserting a chunk adds exactly its own bytes to the layout. */
  lemma InsertedLength(a: seq<Chunk>, u: Chunk, b: seq<Chunk>)
    ensures |ChunkListBytes(a + [u] + b)| == |ChunkListBytes(a + b)| + |ChunkBytes(u)|
  {
    ChunkListAppend(a, [u] + b);
    ChunkListAppend(a, b);
    assert a + [u] + b == a + ([u] + b);
    assert ChunkListBytes([u] + b) == ChunkBytes(u) + ChunkListBytes(b) by {
      assert ([u] + b)[0] == u && ([u] + b)[1..] == b;
    }
  }
}
