# RIFF/WAVE loading in Pong's `DirectSoundAudio`

This project models, in Dafny, how Pong's `DirectSoundAudio` turns the
bytes of a `.wav` file into a DirectSound buffer. It also models the PCM
format it gives the primary buffer.

- `LoadWavFile` parses the file in three steps:
  - it checks the `RIFF` tag at offset 0 and the `WAVE` form type at offset 8;
  - it walks the chunks from offset 12 (a FOURCC id, a 32-bit little-endian length, the body, and a pad byte after an odd body);
  - it copies each `fmt ` body over an 18-byte `WAVEFORMATEX` and sets `cbSize` to the body length;
  - it keeps the body of the first `data` chunk and stops there.
- It then creates a sound buffer exactly as large as that body and copies the body into it.
- `Initialize` builds a 16-bit stereo 44100 Hz PCM format. Its block alignment and byte rate are computed from the other fields.

The project has five modules:

- `Riff`: bytes, little-endian 16- and 32-bit fields, and FOURCC codes.
- `WaveFormat`: the 18-byte `WAVEFORMATEX` record, and what a `fmt ` chunk does to it. It also has the PCM arithmetic of `Initialize`.
- `WavParser`: the parse as functions on the file's bytes. `ChunkStep` is one pass of the loop body, `Walk` is the loop, and `ParseWave` is the header checks followed by the walk.
- `DirectSoundAudio`: the source's imperative form, over arrays. It has the `while (true)` loop with its cursor, the in-place `CopyMemory` into the format record and into a new data buffer, and the hand-off to a sound buffer. The loop and each of its passes are proved equal to the `WavParser` functions; the two copies are proved to leave what `WaveFormat.ApplyFmt` and a slice of the file describe.
- `RiffLayout`: an independent writer of RIFF files, used as a reference for the parser. The round-trip theorem says the parser reads back what the writer lays down.

The source's 32-bit `unsigned int` cursor and lengths are modelled as `nat` with explicit bounds:

- The cursor is kept below 2^32.
- `(WORD)length` is written as `length % 2^16`.
- The encoders `LE16` and `LE32` keep the low 16 or 32 bits, as a store into a field of that width does.

## Model

| member | source | states |
|---|---|---|
| Riff.U32At | Source/Pong/DirectSoundAudio.cpp:146-149 | the `unsigned int` read at an offset is a value below 2^32 (its four bytes are pinned down by `Riff.U32Bytes`) |
| Riff.FourCC | Source/Pong/DirectSoundAudio.cpp:153-158 | `mmioFOURCC` of four 8-bit characters is a 32-bit value (`Riff.FourCCBytes` ties it to the bytes) |
| Riff.LE32RoundTrip | Source/Pong/DirectSoundAudio.cpp:119-122 | reading the four little-endian bytes that encode a 32-bit value gives that value back |
| Riff.U32Bytes | Source/Pong/DirectSoundAudio.cpp:146-149 | the 32-bit value read at an offset re-encodes to exactly the four bytes stored there |
| Riff.U32AtInjective | Source/Pong/DirectSoundAudio.cpp:151-158 | two 32-bit reads are equal exactly when the four bytes under them are equal (both directions) |
| Riff.FourCCBytes | Source/Pong/DirectSoundAudio.cpp:123-131 | a field equals `mmioFOURCC(a, b, c, d)` exactly when its bytes are the characters a, b, c, d in file order |
| Riff.TagsAreFourCC | Source/Pong/DirectSoundAudio.cpp:153-158 | the four tag constants are the FOURCCs of `RIFF`, `WAVE`, `fmt ` and `data` |
| WaveFormat.Fields | Source/Pong/DirectSoundAudio.cpp:153-155 | the typed view of the 18 bytes `CopyMemory` writes: every field fits its WORD or DWORD width |
| WaveFormat.Bytes | Source/Pong/DirectSoundAudio.cpp:153-155 | the packed `WAVEFORMATEX` of some fields is 18 bytes long |
| WaveFormat.ZeroRecord | Source/Pong/DirectSoundAudio.cpp:137-138 | the record after `ZeroMemory` is 18 bytes, every one zero |
| WaveFormat.FieldsOfBytes | Source/Pong/DirectSoundAudio.cpp:153-155 | encoding the fields of a `WAVEFORMATEX` into 18 bytes and reading them back gives the same fields |
| WaveFormat.BytesOfFields | Source/Pong/DirectSoundAudio.cpp:153-155 | every 18-byte record is the encoding of its own fields, so the typed view loses nothing |
| WaveFormat.ZeroRecordFields | Source/Pong/DirectSoundAudio.cpp:137-138 | after `ZeroMemory` every field of the record reads as zero |
| WaveFormat.ApplyFmt | Source/Pong/DirectSoundAudio.cpp:153-155 | after a `fmt ` chunk the record is still 18 bytes; each byte before `cbSize` comes from the body where the body reaches and from the old record past it; `cbSize` holds the body length |
| WaveFormat.FmtSetsCbSize | Source/Pong/DirectSoundAudio.cpp:155 | the `cbSize` field of the record reads back as the `fmt ` body's length |
| WaveFormat.LaterFmtWins | Source/Pong/DirectSoundAudio.cpp:153-156 | a later `fmt ` chunk of at least 16 bytes gives the same record whatever earlier chunks wrote |
| WaveFormat.ShortFmtKeepsTail | Source/Pong/DirectSoundAudio.cpp:154 | a `fmt ` body shorter than 16 bytes leaves the record's bytes past its length unchanged |
| WaveFormat.PcmFmtChunkFields | Source/Pong/DirectSoundAudio.cpp:153-155 | a 16-byte PCM `fmt ` body holding some fields yields exactly those fields, with `cbSize` 16 |
| WaveFormat.PcmFormat | Source/Pong/DirectSoundAudio.cpp:37-44 | the PCM record has the PCM tag, the given channels, rate and sample width, and `cbSize` 0; every field fits its width |
| WaveFormat.PcmArithmetic | Source/Pong/DirectSoundAudio.cpp:43-44 | when nothing is truncated, the block alignment is (bits / 8) × channels and the byte rate is rate × block alignment |
| WaveFormat.PrimaryFormat | Source/Pong/DirectSoundAudio.cpp:39-44 | the primary buffer's format is 2 channels, 44100 Hz, 16 bits, block alignment 4, 176400 bytes per second |
| WavParser.NextCursor | Source/Pong/DirectSoundAudio.cpp:170-172 | the next header is 8 + length bytes on, or one more for an odd length, and the step is even |
| WavParser.ChunkStep | Source/Pong/DirectSoundAudio.cpp:146-172 | a step that moves on lands on an even cursor below 2^32, at least one header further on, with an 18-byte record, so the walk always ends |
| WavParser.StepOutcome | Source/Pong/DirectSoundAudio.cpp:146-175 | a step fails only with a walk error; or it stops at a `data` header with the record unchanged and exactly the `length` bytes after the header as data; or it passes a header that is not `data`, lands on `NextCursor`, and changes the record only at `fmt ` |
| WavParser.Advance | Source/Pong/DirectSoundAudio.cpp:170-172 | the cursor moves to `NextCursor` with the record kept, or the step fails with `CursorWrap` where the source's `pos` would wrap |
| WavParser.AdvanceFits | Source/Pong/DirectSoundAudio.cpp:170-172 | the cursor moves on exactly when the next header's offset fits in 32 bits |
| WavParser.SourceNextCursor | Source/Pong/DirectSoundAudio.cpp:170-172 | the source's cursor as written: below 2^32, equal to `NextCursor` when that fits, and otherwise `NextCursor` less 2^32, at most one header past the chunk it left |
| WavParser.LoopingFileNeverEnds | Source/Pong/DirectSoundAudio.cpp:144-176 | on a 20-byte file with a `JUNK` header of length 0xFFFFFFF8 the header checks pass and the source's wrapped cursor lands back on the same header, so its loop never ends; the model stops with `CursorWrap` |
| WavParser.StepOnDataChunk | Source/Pong/DirectSoundAudio.cpp:158-167 | at an in-bounds `data` chunk the walk stops and returns the record and the chunk's body |
| WavParser.StepOnFmtChunk | Source/Pong/DirectSoundAudio.cpp:153-156 | at a `fmt ` chunk that fits, the step copies the body over the record and moves past the chunk |
| WavParser.StepOnOtherChunk | Source/Pong/DirectSoundAudio.cpp:151-172 | any other chunk is skipped without reading its body and leaves the record unchanged |
| WavParser.Walk | Source/Pong/DirectSoundAudio.cpp:144-176 | the walk fails only with a walk error; on success the record has 18 bytes and the data lies in the file, shorter than 2^32 |
| WavParser.WalkFindsData | Source/Pong/DirectSoundAudio.cpp:144-167 | the data a successful walk returns is the body of a `data` chunk of the file: a header at an even offset at or after the start, with that id and that length, followed by exactly those bytes |
| WavParser.WalkOnNext | Source/Pong/DirectSoundAudio.cpp:144-172 | an unfolding step of `Walk`'s definition, used by the loop proof of `DirectSoundAudio.ParseRiffWave`: where a pass of the loop moves on, the rest of the walk goes on from the new cursor and record |
| WavParser.WalkOnStop | Source/Pong/DirectSoundAudio.cpp:174-175 | an unfolding step of `Walk`'s definition, used by the loop proof of `DirectSoundAudio.ParseRiffWave`: where a pass of the loop stops, its outcome is the walk's |
| WavParser.ParseWave | Source/Pong/DirectSoundAudio.cpp:114-135 | `EmptyFile` exactly for an empty file; `NotRiff` exactly when bytes 0-3 are not `RIFF`; `NotWave` exactly when they are but bytes 8-11 are not `WAVE`; a success has both tags and data that fit inside the file (`WavParser.ParseFindsData` shows the data is a `data` chunk's body) |
| WavParser.ParseIsWalk | Source/Pong/DirectSoundAudio.cpp:119-144 | an unfolding step of `ParseWave`'s definition, used by the lemmas about the parse: once both tags match, the parse is the walk from offset 12 over the zeroed record |
| WavParser.ParseFindsData | Source/Pong/DirectSoundAudio.cpp:114-167 | the data a successful parse returns is the body of a `data` chunk of the file, at offset 12 or later |
| WavParser.StopCursor | Source/Pong/DirectSoundAudio.cpp:144-176 | the header offset of the walk's last pass: a cursor the walk reaches, at or after where it started |
| WavParser.WalkStopsAtData | Source/Pong/DirectSoundAudio.cpp:144-167 | a successful walk stops at a `data` header, and the data it returns is exactly the `length` bytes after that header |
| WavParser.StepAgrees | Source/Pong/DirectSoundAudio.cpp:146-163 | a pass reads only the header and, at `fmt ` or `data`, the body: a file that agrees on those bytes steps alike |
| WavParser.WalkAgrees | Source/Pong/DirectSoundAudio.cpp:144-176 | any file that agrees with an accepted one up to the end of the `data` chunk its walk stops at is walked alike |
| WavParser.ParseAgrees | Source/Pong/DirectSoundAudio.cpp:119-135 | two files that agree on their first 12 bytes or more, and whose walks agree, parse alike |
| WavParser.ParseIgnoresAfterData | Source/Pong/DirectSoundAudio.cpp:114-176 | whatever follows the `data` chunk where a successful parse stops (the chunk at `StopCursor`), more chunks and other pad bytes included, is never examined: any file agreeing up to the end of that chunk parses alike |
| WavParser.StepIgnoresSuffix | Source/Pong/DirectSoundAudio.cpp:146-172 | a step that does not fail reads nothing past the chunk it handles |
| WavParser.WalkIgnoresSuffix | Source/Pong/DirectSoundAudio.cpp:174-175 | a successful walk is unchanged by appending any bytes to the file |
| WavParser.ParseIgnoresSuffix | Source/Pong/DirectSoundAudio.cpp:174-175 | bytes appended to an accepted file are never examined: the parse of the longer file is the same |
| WavParser.StepReadsFrom | Source/Pong/DirectSoundAudio.cpp:146-149 | a step depends only on the bytes at and after its cursor |
| WavParser.WalkReadsFrom | Source/Pong/DirectSoundAudio.cpp:144-176 | the walk from a cursor depends only on the bytes from any offset at or before it |
| WavParser.RiffSizeIgnored | Source/Pong/DirectSoundAudio.cpp:121 | two files that differ only in the RIFF size field (bytes 4-7) parse alike |
| WavParser.AcceptedFilesAreRiffWave | Source/Pong/DirectSoundAudio.cpp:119-135 | an accepted file starts with the ASCII bytes `RIFF` and has `WAVE` at offset 8 |
| RiffLayout.ChunkBytes | Source/Pong/DirectSoundAudio.cpp:170-172 | a written chunk takes exactly the bytes the cursor steps over, an even number |
| RiffLayout.ReadLaidChunk | Source/Pong/DirectSoundAudio.cpp:146-149 | a chunk written at an offset reads back with its id, its length and its body |
| RiffLayout.LaidRun | Source/Pong/DirectSoundAudio.cpp:144-149 | written chunks followed by a `data` chunk read back one after another, each where the previous ends |
| RiffLayout.StepOverChunk | Source/Pong/DirectSoundAudio.cpp:151-172 | the step over a written chunk other than `data` lands right after it, and only a `fmt ` chunk changes the record |
| RiffLayout.RunChain | Source/Pong/DirectSoundAudio.cpp:144-172 | over chunks found one after another, the loop steps through them one by one and stops on the `data` chunk |
| RiffLayout.WalkWritten | Source/Pong/DirectSoundAudio.cpp:144-176 | the walk along such chunks returns the `data` body and the record the `fmt ` chunks left |
| RiffLayout.HeaderLaid | Source/Pong/DirectSoundAudio.cpp:119-131 | a written file's header reads back as `RIFF` and `WAVE`, with the chunks right after it |
| RiffLayout.ParseWritten | Source/Pong/DirectSoundAudio.cpp:114-176 | round trip: for any size field and any trailing bytes, parsing a written file gives the body of its first `data` chunk and the record its `fmt ` chunks make from a zeroed one |
| RiffLayout.FormatAfterSkipsOther | Source/Pong/DirectSoundAudio.cpp:151-168 | a chunk that is neither `fmt ` nor `data` leaves the record as it was |
| RiffLayout.OtherChunkIgnored | Source/Pong/DirectSoundAudio.cpp:151-168 | inserting such a chunk anywhere before `data` changes nothing the parser returns |
| DirectSoundAudio.ParseRiffWave | Source/Pong/DirectSoundAudio.cpp:114-176 | the header checks and the `while (true)` loop over the file's array return exactly `ParseWave` of its bytes; the loop keeps the cursor even and below 2^32 |
| DirectSoundAudio.ReadChunk | Source/Pong/DirectSoundAudio.cpp:146-172 | one pass of the loop body returns `ChunkStep` of the bytes; when it moves on, the format record array holds the step's record; when it stops at `data` or with any error but `CursorWrap`, the record is untouched; a `CursorWrap` stop at a `fmt ` header whose header fits below 2^32 leaves the `fmt ` body copied over it, and any other `CursorWrap` stop leaves it untouched |
| DirectSoundAudio.CopyFormat | Source/Pong/DirectSoundAudio.cpp:154-155 | `CopyMemory` of a `fmt ` body onto the record, then the `cbSize` store, leave the record as `ApplyFmt` describes |
| DirectSoundAudio.CopyMemory | Source/Pong/DirectSoundAudio.cpp:163 | the first `length` bytes of the destination become the source bytes; the rest is untouched |
| DirectSoundAudio.LoadWavFile | Source/Pong/DirectSoundAudio.cpp:179-213 | it fails exactly when the parse fails, with the same error; otherwise the buffer is sized to the data length (below 2^32), has the parsed format, and holds exactly the data bytes |

## Left out

- File input (Source/Pong/DirectSoundAudio.cpp:86-112): `fopen_s`, `ftell` and `fread_s` are I/O, so the model starts from the file's bytes in an array. Their failures are not modelled. The empty-file check at lines 92-96 becomes the `EmptyFile` error.
- Allocation failure: the `new (std::nothrow)` check at line 99 and the `assert` at line 161 are not modelled. Dafny allocation does not fail.
- DirectSound calls are foreign OS/audio calls and are not part of this model:
  - device creation and the primary buffer in `Initialize` (lines 16-36 and 45-66);
  - `CreateSoundBuffer`, `GetStatus`, the `Restore`/`Sleep` retry loop, `Lock`, `Unlock` and `SetCurrentPosition` in `LoadWavFile` (lines 179-222);
  - `Uninitialize`, `PlayWallHit` and `PlayPaddleHit`.
- DirectSoundAudio.LoadWavFile: the `SoundBuffer` result stands for the created buffer. Its creation and locking are taken to succeed, and `lockedSoundBufferSize` is taken to equal the requested size.
- WavParser.ChunkStep: stricter than the source, because the source never bounds its reads. It stops with `Truncated` where the source would read a header or a body past the end of its buffer. It stops with `FormatOverrun` where the source would copy a `fmt ` body longer than 18 bytes over the 18-byte record. It stops with `CursorWrap` where the source's 32-bit `pos` would wrap around; the source then goes on from the wrapped offset (see Findings).
- WavParser.Advance: fails with `CursorWrap` where the source's `pos += length` wraps modulo 2^32. The source's loop carries on from the wrapped offset, given as `SourceNextCursor`, and can revisit a header forever (see Findings).
- WavParser.Walk: inherits the three failures of `ChunkStep`. A file with no `data` chunk ends in `Truncated`, `FormatOverrun` or `CursorWrap`, where the source reads past its buffer, overruns the record or loops on from a wrapped offset, possibly forever.
- WavParser.ParseWave: returns `Truncated` for files of 1 to 7 bytes, where the source reads the `RIFF` tag (1 to 3 bytes) or the size field (4 to 7 bytes) past the end of its buffer. It also returns `Truncated` for files of 8 to 11 bytes that start with `RIFF`, where the source reads the `WAVE` tag past the end. An 8 to 11 byte file without `RIFF` gets `NotRiff`, as in the source.
- DirectSoundAudio.ReadChunk: has the same three extra failures as `ChunkStep`. At a `data` chunk it returns at once rather than advancing `pos` and leaving through `copiedWavData`. `pos` is never read after the loop, so nothing observable differs.
- DirectSoundAudio.ParseRiffWave: has the extra failures of `ReadChunk` and `ParseWave`.
- The `WAVEFORMATEX` record is modelled as its 18 bytes, in the little-endian layout of the Windows headers. Struct padding and the host's byte order are taken as those of the x86 targets the game builds for.
- The rest of the repository is not part of this model:
  - Source/Pong/Renderer.cpp and Renderer.h are Direct3D plumbing and float text layout;
  - Source/Pong/Pong.cpp and GameApp.cpp are Win32 window setup and the message loop;
  - Source/Pong/Debugging/Logger.cpp is a wrapper over debug output.
- The game simulation declared in Source/Pong/GameApp.h (`BoundingBox::Intersects`, `UpdatePaddle`, `UpdateBall`, `ChangeState`) has no bodies in the repository's files. It is not part of this model.

## Findings

| source | as written | input that shows it | evidently intended | confidence | as-written member | corrected member |
|---|---|---|---|---|---|---|
| Source/Pong/DirectSoundAudio.cpp:170-172 | `pos += length` on an `unsigned int` wraps modulo 2^32, and the `while (true)` loop goes on from the wrapped offset | the 20-byte file `RIFF`, any size, `WAVE`, `JUNK`, `F8 FF FF FF`: `pos` goes 12, 20, then (20 + 0xFFFFFFF8) mod 2^32 = 12, and the game hangs while loading | every pass moves the cursor forward, so the loop ends; a chunk whose end would pass 2^32 is an error | not executed | WavParser.LoopingFileNeverEnds | WavParser.ChunkStep |
