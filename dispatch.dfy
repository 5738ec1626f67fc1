/**
 * Which decoder a load ends up in: the build configuration (GIF support,
 * JPEG support, cairo new enough for MIME data), the image's data mode,
 * and the sniffed leading bytes of a buffer or file.
 */
module Dispatch {
  import opened Base
  import opened Sniff

  /** What decoded JPEG sources are kept as: pixels, the original bytes, or both. */
  datatype DataMode = ImageMode | MimeMode | ImageAndMime

  /** Compile-time configuration: optional GIF and JPEG decoders; MIME data needs cairo 1.10 or later. */
  datatype Build = Build(hasGif: bool, hasJpeg: bool, mimeSupport: bool)

  /** A script function; `throws` is the exception it raises when it is called, if any. */
  datatype Callback = Callback(id: nat, throws: Option<string>)

  /** A JavaScript value assigned to one of the image's properties. */
  datatype HostValue =
    | StringValue(text: string)
    | BufferValue(bytes: seq<byte>)
    | NumberValue(number: int)
    | FunctionValue(callback: Callback)
    | OtherValue

  /** The numeric data-mode constants exposed to scripts. */
  const MODE_IMAGE: int := 1
  const MODE_MIME: int := 2
  const MODE_IMAGE_AND_MIME: int := 3

  /** ECMAScript ToUint32 of an integral number: reduction modulo 2^32. */
  function ToUint32(n: int): (r: nat)
    ensures r < 0x1_0000_0000
    ensures 0 <= n < 0x1_0000_0000 ==> r == n
  {
    n % 0x1_0000_0000
  }

  /**
   * The data mode after assigning `val` to `dataMode`: a number whose
   * ToUint32 is 1, 2 or 3 selects that mode; any other number or value
   * leaves the mode as it was. Without MIME support the property is not
   * an accessor and the mode never changes.
   */
  function NextDataMode(current: DataMode, val: HostValue, build: Build): (mode: DataMode)
  {
    if !build.mimeSupport || !val.NumberValue? then current
    else
      var m := ToUint32(val.number);
      if m == MODE_IMAGE then ImageMode
      else if m == MODE_MIME then MimeMode
      else if m == MODE_IMAGE_AND_MIME then ImageAndMime
      else current
  }

  /** The mode changes only to the one its number names, and only for 1, 2 and 3 modulo 2^32. */
  lemma DataModeAssignment(current: DataMode, val: HostValue, build: Build)
    ensures NextDataMode(current, val, build) != current ==>
      build.mimeSupport && val.NumberValue? && 1 <= ToUint32(val.number) <= 3
    ensures build.mimeSupport && val.NumberValue? ==>
      (ToUint32(val.number) == 1 ==> NextDataMode(current, val, build) == ImageMode)
      && (ToUint32(val.number) == 2 ==> NextDataMode(current, val, build) == MimeMode)
      && (ToUint32(val.number) == 3 ==> NextDataMode(current, val, build) == ImageAndMime)
    ensures build.mimeSupport ==> NextDataMode(current, NumberValue(0x1_0000_0002), build) == MimeMode
    ensures build.mimeSupport ==> NextDataMode(current, NumberValue(-1), build) == current
  {
  }

  /** The decoding routes a load can take. */
  datatype Decoder =
    | PngDecoder
    | GifDecoder
    | JpegImage          // decode to pixels
    | JpegMime           // keep the bytes on a 1-bit placeholder surface
    | JpegImageThenMime  // decode to pixels, then attach the bytes
    | NoDecoder          // a read error

  /** The JPEG route for a data mode; without MIME support only pixels are decoded. */
  function JpegRoute(mode: DataMode, build: Build): (d: Decoder)
    ensures d == JpegImage || d == JpegMime || d == JpegImageThenMime
    ensures !build.mimeSupport ==> d == JpegImage
  {
    if !build.mimeSupport then JpegImage
    else match mode
      case ImageMode => JpegImage
      case MimeMode => JpegMime
      case ImageAndMime => JpegImageThenMime
  }

  /** Route of a buffer: PNG, then GIF, then JPEG signature, each only when compiled in. */
  function BufferRoute(buf: seq<byte>, mode: DataMode, build: Build): Decoder
    requires |buf| >= 4
  {
    if IsPNG(buf) then PngDecoder
    else if build.hasGif && IsGIF(buf) then GifDecoder
    else if build.hasJpeg && IsJPEG(buf) then JpegRoute(mode, build)
    else NoDecoder
  }

  /** Route of a file: its first five bytes are sniffed; a file shorter than that is a read error. */
  function FileRoute(contents: seq<byte>, mode: DataMode, build: Build): Decoder
  {
    if |contents| < 5 then NoDecoder
    else
      var head := contents[..5];
      if IsPNG(head) then PngDecoder
      else if build.hasGif && IsGIF(head) then GifDecoder
      else if build.hasJpeg && IsJPEG(head) then JpegRoute(mode, build)
      else NoDecoder
  }

  /** A file of five or more bytes takes the same route as a buffer holding the same bytes. */
  lemma FileAndBufferAgree(contents: seq<byte>, mode: DataMode, build: Build)
    requires |contents| >= 5
    ensures FileRoute(contents, mode, build) == BufferRoute(contents, mode, build)
  {
    var head := contents[..5];
    assert head[0] == contents[0] && head[1] == contents[1] && head[2] == contents[2] && head[3] == contents[3];
  }

  /** A buffer is refused exactly when no compiled-in signature matches it. */
  lemma NoRouteIffNoSignature(buf: seq<byte>, mode: DataMode, build: Build)
    requires |buf| >= 4
    ensures BufferRoute(buf, mode, build) == NoDecoder <==>
      !IsPNG(buf) && !(build.hasGif && IsGIF(buf)) && !(build.hasJpeg && IsJPEG(buf))
    ensures BufferRoute(buf, mode, build) == PngDecoder <==> IsPNG(buf)
    ensures BufferRoute(buf, mode, build) == GifDecoder <==> build.hasGif && IsGIF(buf)
  {
    SignaturesDisjoint(buf);
  }

  /** Without GIF support a GIF buffer is a read error, whatever the data mode. */
  lemma GifNeedsGifSupport(buf: seq<byte>, mode: DataMode, build: Build)
    requires |buf| >= 4 && IsGIF(buf) && !build.hasGif
    ensures BufferRoute(buf, mode, build) == NoDecoder
  {
    SignaturesDisjoint(buf);
  }
}
