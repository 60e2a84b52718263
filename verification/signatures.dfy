/** Byte buffers and the format sniffer of `extractFrames` (splitGif.ts):
    a buffer is a GIF when it starts with the ASCII text `GIF89a` or `GIF87a`
    (the header of section 17 of the GIF89a specification) and a PNG/APNG when
    it starts with the eight-byte PNG signature (section 5.2 of the PNG
    specification, ISO/IEC 15948). */
module Signatures {
  import opened Results

  newtype byte = x: int | 0 <= x < 256

  type Bytes = seq<byte>

  /** `GIF89a` in ASCII. */
  const Gif89a: Bytes := [0x47, 0x49, 0x46, 0x38, 0x39, 0x61]

  /** `GIF87a` in ASCII. */
  const Gif87a: Bytes := [0x47, 0x49, 0x46, 0x38, 0x37, 0x61]

  const PngSignature: Bytes := [0x89, 0x50, 0x4E, 0x47, 0x0D, 0x0A, 0x1A, 0x0A]

  /** The number of leading bytes the sniffer ever looks at. */
  const SniffLength := 8

  datatype Format = Gif | Png

  predicate StartsWith(b: Bytes, signature: Bytes) {
    |signature| <= |b| && b[..|signature|] == signature
  }

  /** `buffer.slice(0, 6).toString()` compared with an ASCII string: the
      UTF-8 decoding of six bytes equals six ASCII characters exactly when the
      six bytes are those characters, and a shorter slice never does. */
  predicate IsGif(b: Bytes) {
    StartsWith(b, Gif89a) || StartsWith(b, Gif87a)
  }

  /** `buffer.slice(0, 8).equals(signature)`. */
  predicate IsPng(b: Bytes) {
    StartsWith(b, PngSignature)
  }

  /** The format `extractFrames` routes a buffer to, or `None` where it throws
      "Unsupported image format". The GIF test is made first. */
  function Sniff(b: Bytes): (r: Option<Format>)
    ensures r == Some(Gif) <==>
              |b| >= 6 && b[0] == 0x47 && b[1] == 0x49 && b[2] == 0x46
              && b[3] == 0x38 && (b[4] == 0x39 || b[4] == 0x37) && b[5] == 0x61
    ensures r == Some(Png) <==>
              |b| >= 8 && forall i :: 0 <= i < 8 ==> b[i] == PngSignature[i]
  {
    if IsGif(b) then Some(Gif)
    else if IsPng(b) then Some(Png)
    else None
  }

  function Min(a: int, b: int): int {
    if a <= b then a else b
  }

  /** The sniffer reads nothing past the eighth byte. */
  lemma SniffReadsEightBytes(b: Bytes)
    ensures Sniff(b) == Sniff(b[..Min(SniffLength, |b|)])
  {
  }

  /** Two buffers that agree on their first eight bytes are classified alike. */
  lemma SniffSharedPrefix(a: Bytes, b: Bytes)
    requires |a| >= SniffLength && |b| >= SniffLength
    requires a[..SniffLength] == b[..SniffLength]
    ensures Sniff(a) == Sniff(b)
  {
  }

  /** No buffer carries both signatures: they differ in the first byte. */
  lemma SignaturesExclusive(b: Bytes)
    ensures !(IsGif(b) && IsPng(b))
  {
    if IsPng(b) {
      assert b[0] == b[..8][0] == 0x89;
      assert b[0] != b[..6][0] || b[..6] != Gif89a;
    }
  }

  /** A buffer of fewer than six bytes matches neither signature, and a buffer
      that is exactly one of the GIF headers is already a GIF. */
  lemma ShortBuffers(b: Bytes)
    ensures |b| < 6 ==> Sniff(b) == None
    ensures (b == Gif89a || b == Gif87a) ==> Sniff(b) == Some(Gif)
  {
  }
}
