/** Byte-level vocabulary of the RIFF container: little-endian 16- and
    32-bit fields and FOURCC chunk identifiers, as read by
    `DirectSoundAudio::LoadWavFile` through `unsigned int` casts on a
    little-endian machine. */
module Riff {

  /** One byte of the file, as the source's `unsigned char`. */
  newtype byte = b: int | 0 <= b < 256

  const TWO_16: nat := 0x1_0000
  const TWO_32: nat := 0x1_0000_0000

  /** The unsigned value of two bytes, least significant first. */
  function U16(b0: byte, b1: byte): (v: nat)
    ensures v < TWO_16
  {
    (b0 as nat) + 256 * (b1 as nat)
  }

  /** The unsigned value of four bytes, least significant first. */
  function U32(b0: byte, b1: byte, b2: byte, b3: byte): (v: nat)
    ensures v < TWO_32
    ensures v % 256 == b0 as nat && v / 256 == U32Tail(b1, b2, b3)
  {
    DigitSplit(b0 as nat, U32Tail(b1, b2, b3));
    (b0 as nat) + 256 * U32Tail(b1, b2, b3)
  }

  /** The upper three bytes of a 32-bit field, as a 24-bit value. */
  function U32Tail(b1: byte, b2: byte, b3: byte): (v: nat)
    ensures v < 0x100_0000
  {
    (b1 as nat) + 256 * ((b2 as nat) + 256 * (b3 as nat))
  }

  /** The 16-bit field stored at offset `i` of `s`. */
  function U16At(s: seq<byte>, i: nat): (v: nat)
    requires i + 2 <= |s|
    ensures v < TWO_16
  {
    U16(s[i], s[i + 1])
  }

  /** The 32-bit field stored at offset `i` of `s` (what the source reads
      with `*((unsigned int*)(pBuffer + pos))`). */
  function U32At(s: seq<byte>, i: nat): (v: nat)
    requires i + 4 <= |s|
    ensures v < TWO_32
  {
    U32(s[i], s[i + 1], s[i + 2], s[i + 3])
  }

  /** The two bytes that store `x` as a 16-bit little-endian field (its
      low 16 bits, as a store through a WORD keeps them). */
  function LE16(x: nat): (s: seq<byte>)
    ensures |s| == 2
  {
    [(x % 256) as byte, (x / 256 % 256) as byte]
  }

  /** The four bytes that store `x` as a 32-bit little-endian field (its
      low 32 bits). */
  function LE32(x: nat): (s: seq<byte>)
    ensures |s| == 4
  {
    [(x % 256) as byte, (x / 256 % 256) as byte,
     (x / 0x1_0000 % 256) as byte, (x / 0x100_0000 % 256) as byte]
  }

  /** Splitting a number into its lowest base-256 digit and the rest. */
  lemma DigitSplit(d: nat, q: nat)
    requires d < 256
    ensures (d + 256 * q) % 256 == d && (d + 256 * q) / 256 == q
  {
  }

  lemma LE16RoundTrip(x: nat)
    requires x < TWO_16
    ensures U16At(LE16(x), 0) == x
  {
  }

  /** Decoding the encoding of a 32-bit value gives the value back. */
  lemma LE32RoundTrip(x: nat)
    requires x < TWO_32
    ensures U32At(LE32(x), 0) == x
  {
    var s := LE32(x);
    assert s[0] as nat == x % 256 && s[1] as nat == x / 256 % 256;
    assert s[2] as nat == x / 0x1_0000 % 256 && s[3] as nat == x / 0x100_0000;
    assert x / 256 / 256 == x / 0x1_0000;
    assert x / 0x1_0000 / 256 == x / 0x100_0000;
    assert x / 0x1_0000 == x / 0x1_0000 % 256 + 256 * (x / 0x100_0000);
    assert x / 256 == x / 256 % 256 + 256 * (x / 0x1_0000);
  }

  lemma U16Bytes(s: seq<byte>, i: nat)
    requires i + 2 <= |s|
    ensures LE16(U16At(s, i)) == s[i..i + 2]
  {
    DigitSplit(s[i] as nat, s[i + 1] as nat);
  }

  /** Encoding the value read at offset `i` gives back the four bytes
      there: a 32-bit field determines its bytes. */
  lemma U32Bytes(s: seq<byte>, i: nat)
    requires i + 4 <= |s|
    ensures LE32(U32At(s, i)) == s[i..i + 4]
  {
    var v := U32At(s, i);
    var t := U32Tail(s[i + 1], s[i + 2], s[i + 3]);
    var u := (s[i + 2] as nat) + 256 * (s[i + 3] as nat);
    DigitSplit(s[i] as nat, t);
    DigitSplit(s[i + 1] as nat, u);
    DigitSplit(s[i + 2] as nat, s[i + 3] as nat);
    assert v / 256 == t && t / 256 == u;
    assert v / 0x1_0000 == u by {
      assert v / 256 / 256 == v / 0x1_0000;
    }
    assert v / 0x100_0000 == s[i + 3] as nat by {
      assert v / 0x1_0000 / 256 == v / 0x100_0000;
    }
  }

  /** Two 32-bit fields are equal exactly when their bytes are. */
  lemma U32AtInjective(s: seq<byte>, i: nat, t: seq<byte>, j: nat)
    requires i + 4 <= |s| && j + 4 <= |t|
    ensures U32At(s, i) == U32At(t, j) <==> s[i..i + 4] == t[j..j + 4]
  {
    U32Bytes(s, i);
    U32Bytes(t, j);
    if s[i..i + 4] == t[j..j + 4] {
      assert s[i] == t[j] && s[i + 1] == t[j + 1];
      assert s[i + 2] == t[j + 2] && s[i + 3] == t[j + 3];
    }
  }

  /** `mmioFOURCC(a, b, c, d)`: four ASCII characters packed into a 32-bit
      code, first character in the lowest byte. */
  function FourCC(a: char, b: char, c: char, d: char): (v: nat)
    requires a as int < 256 && b as int < 256 && c as int < 256 && d as int < 256
    ensures v < TWO_32
  {
    (a as nat) + 256 * (b as nat) + 0x1_0000 * (c as nat) + 0x100_0000 * (d as nat)
  }

  /** The bytes of a FOURCC in file order. */
  function Ascii(a: char, b: char, c: char, d: char): (s: seq<byte>)
    requires a as int < 256 && b as int < 256 && c as int < 256 && d as int < 256
    ensures |s| == 4
  {
    [(a as int) as byte, (b as int) as byte, (c as int) as byte, (d as int) as byte]
  }

  /** A 32-bit field equals a FOURCC exactly when its four bytes spell the
      code's characters in order: the comparisons with `mmioFOURCC` in
      the source are tag comparisons on the raw bytes. */
  lemma FourCCBytes(s: seq<byte>, i: nat, a: char, b: char, c: char, d: char)
    requires i + 4 <= |s|
    requires a as int < 256 && b as int < 256 && c as int < 256 && d as int < 256
    ensures U32At(s, i) == FourCC(a, b, c, d) <==> s[i..i + 4] == Ascii(a, b, c, d)
  {
    var tag := Ascii(a, b, c, d);
    assert FourCC(a, b, c, d) == U32At(tag, 0);
    U32AtInjective(s, i, tag, 0);
    assert tag[0..4] == tag;
  }

  /** The four identifiers the parser compares against, as the values
      `mmioFOURCC` packs; `TagsAreFourCC` ties each to its characters. */
  const RIFF: nat := 0x4646_4952
  const WAVE: nat := 0x4556_4157
  const FMT: nat := 0x2074_6d66
  const DATA: nat := 0x6174_6164

  /** Each identifier is the FOURCC of its name. */
  lemma TagsAreFourCC()
    ensures RIFF == FourCC('R', 'I', 'F', 'F') && WAVE == FourCC('W', 'A', 'V', 'E')
    ensures FMT == FourCC('f', 'm', 't', ' ') && DATA == FourCC('d', 'a', 't', 'a')
  {
  }
}
