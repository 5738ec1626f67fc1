/**
 * Format sniffing: the magic-byte tests the loader applies to the first
 * bytes of a buffer or file, and the filename-suffix classifier.
 */
module Sniff {
  import opened Base

  /** The image kinds the loader can tell apart. */
  datatype ImageType = Unknown | Jpeg | Gif | Png

  /** JPEG start-of-image marker: bytes 0 and 1 are FF D8. */
  predicate IsJPEG(data: seq<byte>)
    requires |data| >= 2
  {
    data[0] == 0xFF && data[1] == 0xD8
  }

  /** GIF: bytes 0..2 spell "GIF". */
  predicate IsGIF(data: seq<byte>)
    requires |data| >= 3
  {
    data[0] == 'G' as int && data[1] == 'I' as int && data[2] == 'F' as int
  }

  /** PNG: bytes 1..3 spell "PNG"; byte 0 of the signature is not looked at. */
  predicate IsPNG(data: seq<byte>)
    requires |data| >= 4
  {
    data[1] == 'P' as int && data[2] == 'N' as int && data[3] == 'G' as int
  }

  /** No prefix passes two of the three tests, so the order they are tried in never matters. */
  lemma SignaturesDisjoint(data: seq<byte>)
    requires |data| >= 4
    ensures !(IsPNG(data) && IsGIF(data))
    ensures !(IsPNG(data) && IsJPEG(data))
    ensures !(IsGIF(data) && IsJPEG(data))
  {
  }

  /** The PNG test gives the same answer whatever byte 0 holds. */
  lemma PngSniffIgnoresFirstByte(data: seq<byte>, b: byte)
    requires |data| >= 4
    ensures |[b] + data[1..]| == |data|
    ensures IsPNG([b] + data[1..]) == IsPNG(data)
  {
  }

  /** The leading bytes of the three real signatures pass their tests. */
  lemma RealSignaturesRecognised()
    ensures IsPNG([0x89, 0x50, 0x4E, 0x47, 0x0D, 0x0A, 0x1A, 0x0A])
    ensures IsGIF([0x47, 0x49, 0x46, 0x38, 0x39, 0x61])
    ensures IsJPEG([0xFF, 0xD8, 0xFF, 0xE0])
    ensures !IsPNG([0, 0, 0, 0]) && !IsGIF([0, 0, 0, 0]) && !IsJPEG([0, 0, 0, 0])
  {
  }

  predicate HasSuffix(name: string, suffix: string)
  {
    |name| >= |suffix| && name[|name| - |suffix|..] == suffix
  }

  /**
   * Classify a filename by a case-sensitive suffix, testing ".jpeg",
   * ".gif", ".jpg" and ".png" in that order.
   */
  function Extension(filename: string): ImageType
  {
    var len := |filename|;
    if len >= 5 && filename[len - 5..] == ".jpeg" then Jpeg
    else if len >= 4 && filename[len - 4..] == ".gif" then Gif
    else if len >= 4 && filename[len - 4..] == ".jpg" then Jpeg
    else if len >= 4 && filename[len - 4..] == ".png" then Png
    else Unknown
  }

  /** The four suffixes exclude each other, so each one alone decides the answer. */
  lemma ExtensionBySuffix(name: string)
    ensures Extension(name) == Jpeg <==> HasSuffix(name, ".jpeg") || HasSuffix(name, ".jpg")
    ensures Extension(name) == Gif <==> HasSuffix(name, ".gif")
    ensures Extension(name) == Png <==> HasSuffix(name, ".png")
    ensures Extension(name) == Unknown <==>
      !HasSuffix(name, ".jpeg") && !HasSuffix(name, ".gif") && !HasSuffix(name, ".jpg") && !HasSuffix(name, ".png")
  {
    var n := |name|;
    if n >= 4 {
      assert HasSuffix(name, ".png") ==> name[n - 3] == 'p' && name[n - 1] == 'g';
      assert HasSuffix(name, ".jpg") ==> name[n - 3] == 'j' && name[n - 2] == 'p';
      assert HasSuffix(name, ".gif") ==> name[n - 1] == 'f';
    }
    if n >= 5 {
      assert HasSuffix(name, ".jpeg") ==> name[n - 2] == 'e' && name[n - 1] == 'g';
    }
  }

  /** Upper-case suffixes and names shorter than every suffix are not recognised. */
  lemma ExtensionCaseSensitiveAndShortNames(name: string)
    ensures Extension("photo.PNG") == Unknown && Extension("photo.JPG") == Unknown
    ensures |name| < 4 ==> Extension(name) == Unknown
  {
  }
}
