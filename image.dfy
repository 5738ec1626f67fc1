/**
 * The Image entity: its fields, the load pipeline that `src` assignment
 * runs (clear, sniff, decode, then `loaded` or `error`), the one-shot
 * onload/onerror slots, the data-mode property and the 1x1 fallback that a
 * JPEG decoder error leaves behind.
 *
 * The codec libraries, the file system and the allocator are not modelled:
 * a `Host` value supplies what they would answer. What a load produces is
 * first described by pure functions on values (`LoadOutcome` and the
 * functions it is built from); the methods of `Image` are proved to leave
 * exactly that outcome in their fields.
 */
module ImageEntity {
  import opened Base
  import opened Cairo
  import opened Pixels
  import opened Dispatch
  import Sniff
  import Gif
  import Jpeg
  import Readers

  datatype State = Default | Loading | Complete | Invalid

  /** The value handed to onerror. */
  datatype ErrorValue =
    | StatusError(status: Status)      // a failed load's status
    | DecoderError(message: string)    // the JPEG library's message for the error it raised
    | Thrown(exception: string)        // the exception an onload handler threw

  /** Calls into script code, in the order they happen. */
  datatype Event =
    | OnloadCalled(onload: nat)
    | OnerrorCalled(onerror: nat, err: ErrorValue)
    | FatalException(exception: string)   // an onerror handler threw; the host reports it

  /** What the image holds in its own pixel buffer. */
  datatype PixelData =
    | NoData                       // nothing, or the surface library owns the pixels (PNG)
    | Decoded(pixels: seq<Pixel>)  // ARGB pixels composited by the decoder, row-major
    | MimePlaceholder(size: nat)   // the unused bytes behind a 1-bit placeholder surface

  /** The answer of the PNG decoder of the surface library. */
  datatype PngOutcome = PngImage(format: Format, width: nat, height: nat) | PngFailed(status: Status)

  /** The answer of the GIF library: open failed, reading the frames failed, or the parsed file. */
  datatype GifOutcome = GifOpenFailed | GifSlurpFailed | GifSlurped(file: Gif.GifFile)

  /**
   * Everything outside the decoder: the files that exist, the reads the PNG
   * and GIF decoders issue against a memory source, what each codec answers
   * for the bytes it is given, and whether allocations succeed. The JPEG
   * library answers separately for bytes it reads through its own stdio
   * source (`jpegFile`) and through the memory source (`jpeg`), because
   * the two source managers treat a truncated stream differently.
   */
  datatype Host = Host(
    files: map<string, seq<byte>>,
    pngReads: seq<nat>,
    png: seq<byte> -> PngOutcome,
    gifReads: seq<nat>,
    gif: seq<byte> -> GifOutcome,
    jpeg: seq<byte> -> Jpeg.Stream,
    jpegFile: seq<byte> -> Jpeg.Stream,
    memory: bool)

  /** What the codecs guarantee: failures carry a failure status, parsed GIFs and JPEG streams are readable. */
  ghost predicate HostShaped(host: Host)
  {
    (forall b :: PngAnswerShaped(host.png(b)))
    && (forall b :: GifAnswerShaped(host.gif(b)))
    && (forall b :: Jpeg.StreamShaped(host.jpeg(b)))
    && (forall b :: Jpeg.StreamShaped(host.jpegFile(b)))
  }

  predicate PngAnswerShaped(p: PngOutcome)
  {
    p.PngFailed? ==> p.status != Success
  }

  predicate GifAnswerShaped(a: GifOutcome)
  {
    a.GifSlurped? ==> Gif.GifReadable(a.file)
  }

  /**
   * A buffer has at least the four bytes the sniffers read, and when it is
   * sniffed as PNG the decoder's reads stay inside it (the PNG reader does
   * no bounds check).
   */
  predicate BufferReadable(buf: seq<byte>, host: Host)
  {
    |buf| >= 4 && (Sniff.IsPNG(buf) ==> Readers.Total(host.pngReads) <= |buf|)
  }

  predicate SourceReadable(val: HostValue, host: Host)
  {
    val.BufferValue? ==> BufferReadable(val.bytes, host)
  }

  predicate IsImage(s: Option<Surface>)
  {
    s.Some? && s.value.ImageSurface?
  }

  /** The 1x1 ARGB surface created after a decoder error (it may carry MIME data). */
  predicate FallbackSurface(s: Option<Surface>)
  {
    IsImage(s) && s.value.format == Argb32 && s.value.width == 1 && s.value.height == 1
  }

  /**
   * What a load leaves behind before `loaded` or `error` run: its status, the
   * decoder error it reported (if any), the dimensions the decoder recorded,
   * the surface and the pixel buffer.
   */
  datatype Outcome = Outcome(
    status: Status,
    fault: Option<string>,
    width: nat,
    height: nat,
    surface: Option<Surface>,
    data: PixelData)

  /** The properties every load outcome has. */
  predicate WellFormed(o: Outcome)
  {
    (o.status == Success ==> IsImage(o.surface))
    && (o.fault.Some? ==>
          FallbackSurface(o.surface) && o.width == 1 && o.height == 1 && o.data == NoData
          && (o.status == Success || o.status == NoMemory))
  }

  /** A failure that recorded nothing. */
  function Empty(status: Status): (o: Outcome)
    ensures o.status == status && o.fault.None? && o.surface.None? && o.data == NoData
    ensures o.width == 0 && o.height == 0
    ensures WellFormed(o) <==> status != Success
  {
    Outcome(status, None, 0, 0, None, NoData)
  }

  /** A decoder error: reported, then replaced by a 1x1 surface; the load itself succeeds. */
  function Fallback(message: string): (o: Outcome)
    ensures WellFormed(o) && o.fault == Some(message) && o.status == Success
  {
    Outcome(Success, Some(message), 1, 1, Some(NewSurface(Argb32, 1, 1)), NoData)
  }

  /** Attaching the source bytes as JPEG MIME data to the outcome's surface. */
  function Attach(o: Outcome, buf: seq<byte>, memory: bool): (r: Outcome)
    requires WellFormed(o) && IsImage(o.surface)
    ensures WellFormed(r)
    ensures memory ==> r.status == Success && r.surface.value.mime == Some(Mime(MIME_TYPE_JPEG, buf))
    ensures !memory ==> r.status == NoMemory && r.surface == o.surface
    ensures r.fault == o.fault && r.data == o.data && r.width == o.width && r.height == o.height
  {
    if !memory then o.(status := NoMemory)
    else o.(status := Success, surface := Some(o.surface.value.(mime := Some(Mime(MIME_TYPE_JPEG, buf)))))
  }

  /** Decoding a JPEG stream to ARGB pixels. */
  function JpegPixels(s: Jpeg.Stream, memory: bool): (o: Outcome)
    requires Jpeg.StreamShaped(s)
    ensures WellFormed(o)
    ensures o.fault == (if s.header.HeaderOk? && !memory then None else Jpeg.StreamFault(s))
  {
    match s.header
    case HeaderFault(m) => Fallback(m)
    case HeaderOk(info) =>
      if !memory then Outcome(NoMemory, None, info.outputWidth, info.outputHeight, None, NoData)
      else match Jpeg.StreamFault(s)
        case Some(m) => Fallback(m)
        case None =>
          Outcome(Success, None, info.outputWidth, info.outputHeight,
                  Some(NewSurface(Argb32, info.outputWidth, info.outputHeight)),
                  Decoded(Jpeg.DecodedImage(s)))
  }

  /** Reading only a JPEG header and keeping the bytes as MIME data on a 1-bit placeholder surface. */
  function JpegMimeOutcome(buf: seq<byte>, s: Jpeg.Stream, memory: bool): (o: Outcome)
    ensures WellFormed(o)
    ensures o.fault == (if s.header.HeaderFault? then Some(s.header.message) else None)
  {
    match s.header
    case HeaderFault(m) => Fallback(m)
    case HeaderOk(info) =>
      var w, h := info.outputWidth, info.outputHeight;
      if !memory then Outcome(NoMemory, None, w, h, None, NoData)
      else Attach(Outcome(Success, None, w, h, Some(NewSurface(A1, w, h)), MimePlaceholder(h * Stride(A1, w))), buf, memory)
  }

  predicate IsJpegRoute(d: Decoder)
  {
    d == JpegImage || d == JpegMime || d == JpegImageThenMime
  }

  /** The three JPEG routes over bytes already in memory. */
  function JpegOutcome(buf: seq<byte>, host: Host, d: Decoder): (o: Outcome)
    requires HostShaped(host) && IsJpegRoute(d)
    ensures WellFormed(o)
  {
    var s := host.jpeg(buf);
    if d == JpegMime then JpegMimeOutcome(buf, s, host.memory)
    else
      var o := JpegPixels(s, host.memory);
      if d == JpegImageThenMime && o.status == Success then Attach(o, buf, host.memory) else o
  }

  /**
   * A JPEG file: plain decoding reads the file through the library's stdio
   * source; every other route first reads the whole file into memory.
   */
  function JpegFileOutcome(contents: seq<byte>, host: Host, d: Decoder): (o: Outcome)
    requires HostShaped(host) && IsJpegRoute(d)
    ensures WellFormed(o)
  {
    if d == JpegImage then JpegPixels(host.jpegFile(contents), host.memory)
    else if !host.memory then Empty(NoMemory)
    else JpegOutcome(contents, host, d)
  }

  /** The bytes the GIF library reads from a memory source over `buf`. */
  function GifStream(buf: seq<byte>, host: Host): seq<byte>
  {
    buf[..Readers.Min(Readers.Total(host.gifReads), |buf|)]
  }

  /** The first frame of a parsed GIF, composited to screen-sized ARGB pixels. */
  function FrameImage(g: Gif.GifFile): (pixels: seq<Pixel>)
    requires Gif.GifReadable(g)
    ensures |pixels| == g.sWidth * g.sHeight
  {
    seq(g.sWidth * g.sHeight, i requires 0 <= i < g.sWidth * g.sHeight => Gif.FramePixel(g, i))
  }

  /** Decoding a GIF held in memory. */
  function GifBufferOutcome(buf: seq<byte>, host: Host): (o: Outcome)
    requires HostShaped(host)
    ensures WellFormed(o) && o.fault.None?
  {
    match host.gif(GifStream(buf, host))
    case GifSlurped(g) =>
      if !host.memory then Outcome(NoMemory, None, g.sWidth, g.sHeight, None, NoData)
      else Outcome(Success, None, g.sWidth, g.sHeight, Some(NewSurface(Argb32, g.sWidth, g.sHeight)), Decoded(FrameImage(g)))
    case _ => Empty(ReadError)
  }

  /** A GIF file is read into memory first. */
  function GifFileOutcome(contents: seq<byte>, host: Host): (o: Outcome)
    requires HostShaped(host)
    ensures WellFormed(o) && o.fault.None?
  {
    if !host.memory then Empty(NoMemory) else GifBufferOutcome(contents, host)
  }

  /** The surface the PNG decoder hands back; the pixels stay with the surface library. */
  function PngResult(p: PngOutcome): (o: Outcome)
    requires p.PngFailed? ==> p.status != Success
    ensures WellFormed(o) && o.fault.None? && o.data == NoData
    ensures o.status == Success <==> p.PngImage?
  {
    match p
    case PngImage(format, w, h) => Outcome(Success, None, 0, 0, Some(NewSurface(format, w, h)), NoData)
    case PngFailed(st) => Outcome(st, None, 0, 0, Some(ErrorSurface(st)), NoData)
  }

  /** Decoding a PNG held in memory, through the reads the decoder issues. */
  function PngBufferOutcome(buf: seq<byte>, host: Host): (o: Outcome)
    requires HostShaped(host) && Readers.Total(host.pngReads) <= |buf|
    ensures WellFormed(o) && o.fault.None?
  {
    PngResult(host.png(buf[..Readers.Total(host.pngReads)]))
  }

  /** Loading from a buffer: the route its leading bytes select. */
  function BufferOutcome(buf: seq<byte>, host: Host, mode: DataMode, build: Build): (o: Outcome)
    requires HostShaped(host) && BufferReadable(buf, host)
    ensures WellFormed(o)
  {
    match BufferRoute(buf, mode, build)
    case PngDecoder => PngBufferOutcome(buf, host)
    case GifDecoder => GifBufferOutcome(buf, host)
    case JpegImage => JpegOutcome(buf, host, JpegImage)
    case JpegMime => JpegOutcome(buf, host, JpegMime)
    case JpegImageThenMime => JpegOutcome(buf, host, JpegImageThenMime)
    case NoDecoder => Empty(ReadError)
  }

  /** Loading from a file's contents: the route its first five bytes select. */
  function FileOutcome(contents: seq<byte>, host: Host, mode: DataMode, build: Build): (o: Outcome)
    requires HostShaped(host)
    ensures WellFormed(o)
  {
    match FileRoute(contents, mode, build)
    case PngDecoder => PngResult(host.png(contents))
    case GifDecoder => GifFileOutcome(contents, host)
    case JpegImage => JpegFileOutcome(contents, host, JpegImage)
    case JpegMime => JpegFileOutcome(contents, host, JpegMime)
    case JpegImageThenMime => JpegFileOutcome(contents, host, JpegImageThenMime)
    case NoDecoder => Empty(ReadError)
  }

  /** Loading a named file; a file that cannot be opened is a read error. */
  function FileNamed(name: string, host: Host, mode: DataMode, build: Build): (o: Outcome)
    requires HostShaped(host)
    ensures WellFormed(o)
    ensures name !in host.files ==> o == Empty(ReadError)
    ensures name in host.files && |host.files[name]| < 5 ==> o == Empty(ReadError)
  {
    if name in host.files then FileOutcome(host.files[name], host, mode, build) else Empty(ReadError)
  }

  /** What assigning `val` to `src` loads: a path, a buffer, or (for any other value) a read error. */
  function LoadOutcome(val: HostValue, host: Host, mode: DataMode, build: Build): (o: Outcome)
    requires HostShaped(host) && SourceReadable(val, host)
    ensures WellFormed(o)
  {
    match val
    case StringValue(name) => FileNamed(name, host, mode, build)
    case BufferValue(bytes) => BufferOutcome(bytes, host, mode, build)
    case _ => Empty(ReadError)
  }

  /** The onerror call, if a handler is set, and the fatal report of what it throws. */
  function OnerrorEvents(onerror: Option<Callback>, err: ErrorValue): seq<Event>
  {
    match onerror
    case None => []
    case Some(cb) => [OnerrorCalled(cb.id, err)] + (if cb.throws.Some? then [FatalException(cb.throws.value)] else [])
  }

  /** The onload call, if a handler is set; what it throws goes to onerror. */
  function OnloadEvents(onload: Option<Callback>, onerror: Option<Callback>): seq<Event>
  {
    match onload
    case None => []
    case Some(cb) => [OnloadCalled(cb.id)] + (if cb.throws.Some? then OnerrorEvents(onerror, Thrown(cb.throws.value)) else [])
  }

  /**
   * The script calls that follow a load: a decoder error was already
   * reported (and disposed of onerror); otherwise success runs onload and
   * failure runs onerror with the status.
   */
  function Notifications(o: Outcome, onload: Option<Callback>, onerror: Option<Callback>): seq<Event>
  {
    if o.fault.Some? then OnerrorEvents(onerror, DecoderError(o.fault.value))
    else if o.status == Success then OnloadEvents(onload, onerror)
    else OnerrorEvents(onerror, StatusError(o.status))
  }

  function Onloads(events: seq<Event>): nat
  {
    if events == [] then 0 else (if events[0].OnloadCalled? then 1 else 0) + Onloads(events[1..])
  }

  function Onerrors(events: seq<Event>): nat
  {
    if events == [] then 0 else (if events[0].OnerrorCalled? then 1 else 0) + Onerrors(events[1..])
  }

  lemma {:induction false} CountsAppend(a: seq<Event>, b: seq<Event>)
    ensures Onloads(a + b) == Onloads(a) + Onloads(b)
    ensures Onerrors(a + b) == Onerrors(a) + Onerrors(b)
    decreases |a|
  {
    if a == [] {
      assert a + b == b;
    } else {
      assert (a + b)[1..] == a[1..] + b;
      CountsAppend(a[1..], b);
    }
  }

  lemma OnerrorCounts(onerror: Option<Callback>, err: ErrorValue)
    ensures Onloads(OnerrorEvents(onerror, err)) == 0
    ensures Onerrors(OnerrorEvents(onerror, err)) == if onerror.Some? then 1 else 0
  {
    if onerror.Some? {
      var cb := onerror.value;
      var tail := if cb.throws.Some? then [FatalException(cb.throws.value)] else [];
      CountsAppend([OnerrorCalled(cb.id, err)], tail);
      assert Onloads(tail) == 0 && Onerrors(tail) == 0;
    }
  }

  /**
   * One load calls each handler at most once. onload runs exactly when the
   * load succeeded without a decoder error and a handler was set; onerror
   * runs for every failure and decoder error when a handler was set, and
   * after a success only when onload threw.
   */
  lemma NotificationsOfOneLoad(o: Outcome, onload: Option<Callback>, onerror: Option<Callback>)
    ensures Onloads(Notifications(o, onload, onerror)) ==
      if o.fault.None? && o.status == Success && onload.Some? then 1 else 0
    ensures Onerrors(Notifications(o, onload, onerror)) ==
      if onerror.None? then 0
      else if o.fault.Some? || o.status != Success then 1
      else if onload.Some? && onload.value.throws.Some? then 1
      else 0
  {
    if o.fault.Some? {
      OnerrorCounts(onerror, DecoderError(o.fault.value));
    } else if o.status != Success {
      OnerrorCounts(onerror, StatusError(o.status));
    } else if onload.Some? {
      var cb := onload.value;
      var tail := if cb.throws.Some? then OnerrorEvents(onerror, Thrown(cb.throws.value)) else [];
      if cb.throws.Some? {
        OnerrorCounts(onerror, Thrown(cb.throws.value));
      }
      CountsAppend([OnloadCalled(cb.id)], tail);
    }
  }

  /**
   * Apart from PNG, which the surface library reads from the file itself,
   * a file of five or more bytes loads exactly like a buffer holding the
   * same bytes once allocations succeed, provided that, when the file is
   * decoded straight to pixels, the stdio source yields the same stream as
   * the memory source.
   */
  lemma FileLoadsLikeBuffer(contents: seq<byte>, host: Host, mode: DataMode, build: Build)
    requires HostShaped(host) && |contents| >= 5 && !Sniff.IsPNG(contents) && host.memory
    ensures BufferReadable(contents, host)
    ensures FileRoute(contents, mode, build) != JpegImage || host.jpegFile(contents) == host.jpeg(contents)
      ==> FileOutcome(contents, host, mode, build) == BufferOutcome(contents, host, mode, build)
  {
    FileAndBufferAgree(contents, mode, build);
  }

  /**
   * A JPEG file decoded straight to pixels is decided by what the library
   * reads through its stdio source, whatever the memory source would give
   * for the same bytes.
   */
  lemma JpegFileImageReadsStdioSource(contents: seq<byte>, host: Host, mode: DataMode, build: Build)
    requires HostShaped(host) && FileRoute(contents, mode, build) == JpegImage
    ensures FileOutcome(contents, host, mode, build) == JpegPixels(host.jpegFile(contents), host.memory)
  {
  }

  /**
   * A GIF buffer whose file parses decodes to its first frame at screen
   * size on an ARGB surface; without memory it fails with NO_MEMORY but
   * keeps the screen dimensions it had already recorded.
   */
  lemma GifBufferDecodesFirstFrame(buf: seq<byte>, host: Host, mode: DataMode, build: Build, g: Gif.GifFile)
    requires HostShaped(host) && BufferReadable(buf, host)
    requires BufferRoute(buf, mode, build) == GifDecoder && host.gif(GifStream(buf, host)) == GifSlurped(g)
    ensures var o := BufferOutcome(buf, host, mode, build);
      o.width == g.sWidth && o.height == g.sHeight && o.fault.None?
      && (host.memory ==>
            o.status == Success && o.surface == Some(NewSurface(Argb32, g.sWidth, g.sHeight))
            && o.data.Decoded? && |o.data.pixels| == g.sWidth * g.sHeight
            && forall i :: 0 <= i < |o.data.pixels| ==> o.data.pixels[i] == Gif.FramePixel(g, i))
      && (!host.memory ==> o.status == NoMemory && o.surface.None?)
  {
  }

  /**
   * A JPEG buffer decoded to pixels without a decoder error holds, at row y
   * and column x, the conversion of sample x of scanline y, fully opaque.
   */
  lemma JpegBufferDecodesScanlines(buf: seq<byte>, host: Host, mode: DataMode, build: Build, y: nat, x: nat)
    requires HostShaped(host) && BufferReadable(buf, host)
    requires BufferRoute(buf, mode, build) == JpegImage && host.memory
    requires host.jpeg(buf).header.HeaderOk? && Jpeg.StreamFault(host.jpeg(buf)).None?
    requires y < host.jpeg(buf).header.info.outputHeight && x < host.jpeg(buf).header.info.outputWidth
    ensures var o := BufferOutcome(buf, host, mode, build);
      var s := host.jpeg(buf);
      var info := s.header.info;
      o.status == Success && o.fault.None? && o.width == info.outputWidth && o.height == info.outputHeight
      && o.surface == Some(NewSurface(Argb32, info.outputWidth, info.outputHeight))
      && o.data.Decoded? && Offset(info.outputWidth, y, x) < |o.data.pixels|
      && s.scans[y].Row? && Jpeg.ScanShaped(info, s.scans[y])
      && o.data.pixels[Offset(info.outputWidth, y, x)] == Jpeg.ConvertPixel(info, s.scans[y].samples, x)
      && AlphaOf(o.data.pixels[Offset(info.outputWidth, y, x)]) == OPAQUE
  {
    Jpeg.DecodedImageAt(host.jpeg(buf), y, x);
  }

  /**
   * In MIME mode only the header is read: the surface is a 1-bit
   * placeholder of the image's size, its buffer has one bit per pixel, and
   * the source bytes are attached as JPEG MIME data.
   */
  lemma MimeModeKeepsSourceBytes(buf: seq<byte>, host: Host, mode: DataMode, build: Build)
    requires HostShaped(host) && BufferReadable(buf, host)
    requires BufferRoute(buf, mode, build) == JpegMime && host.memory && host.jpeg(buf).header.HeaderOk?
    ensures var o := BufferOutcome(buf, host, mode, build);
      var info := host.jpeg(buf).header.info;
      o.status == Success && o.fault.None? && o.width == info.outputWidth && o.height == info.outputHeight
      && IsImage(o.surface) && o.surface.value.format == A1
      && o.surface.value.width == info.outputWidth && o.surface.value.height == info.outputHeight
      && o.surface.value.mime == Some(Mime(MIME_TYPE_JPEG, buf))
      && o.data.MimePlaceholder? && o.data.size * 8 >= info.outputHeight * info.outputWidth
  {
    var info := host.jpeg(buf).header.info;
    var w, h := info.outputWidth, info.outputHeight;
    MulMonotone(w, Stride(A1, w) * 8, h);
  }

  /**
   * In image-and-MIME mode a decoder error still leaves a successful load:
   * the source bytes are attached to the 1x1 fallback surface, or the
   * attachment fails for lack of memory.
   */
  lemma ImageAndMimeAfterDecoderError(buf: seq<byte>, host: Host, mode: DataMode, build: Build)
    requires HostShaped(host) && BufferReadable(buf, host)
    requires BufferRoute(buf, mode, build) == JpegImageThenMime && host.jpeg(buf).header.HeaderFault?
    ensures var o := BufferOutcome(buf, host, mode, build);
      o.fault == Some(host.jpeg(buf).header.message) && FallbackSurface(o.surface)
      && (host.memory ==> o.status == Success && o.surface.value.mime == Some(Mime(MIME_TYPE_JPEG, buf)))
      && (!host.memory ==> o.status == NoMemory && o.surface.value.mime.None?)
  {
  }

  /**
   * In image-and-MIME mode a JPEG that decodes without error keeps both:
   * the decoded pixels, and the source bytes attached as JPEG MIME data to
   * the ARGB surface of the image's size.
   */
  lemma ImageAndMimeKeepsPixelsAndBytes(buf: seq<byte>, host: Host, mode: DataMode, build: Build)
    requires HostShaped(host) && BufferReadable(buf, host)
    requires BufferRoute(buf, mode, build) == JpegImageThenMime && host.memory
    requires host.jpeg(buf).header.HeaderOk? && Jpeg.StreamFault(host.jpeg(buf)).None?
    ensures var o := BufferOutcome(buf, host, mode, build);
      var info := host.jpeg(buf).header.info;
      o.status == Success && o.fault.None? && o.width == info.outputWidth && o.height == info.outputHeight
      && o.data == Decoded(Jpeg.DecodedImage(host.jpeg(buf)))
      && IsImage(o.surface) && o.surface.value.format == Argb32
      && o.surface.value.width == info.outputWidth && o.surface.value.height == info.outputHeight
      && o.surface.value.mime == Some(Mime(MIME_TYPE_JPEG, buf))
  {
  }

  /**
   * In image-and-MIME mode a decode that fails is returned as it is: the
   * source bytes are not attached, and the load is exactly the pixel decode.
   */
  lemma ImageAndMimeFailedDecodeUnattached(buf: seq<byte>, host: Host, mode: DataMode, build: Build)
    requires HostShaped(host) && BufferReadable(buf, host)
    requires BufferRoute(buf, mode, build) == JpegImageThenMime
    requires JpegPixels(host.jpeg(buf), host.memory).status != Success
    ensures var o := BufferOutcome(buf, host, mode, build);
      o == JpegPixels(host.jpeg(buf), host.memory)
      && o.status == NoMemory && o.fault.None? && o.surface.None?
  {
  }

  class Image {
    const build: Build
    var state: State
    var width: nat
    var height: nat
    var data: PixelData
    var dataLen: nat
    var surface: Option<Surface>
    var filename: Option<string>
    var dataMode: DataMode
    var onload: Option<Callback>
    var onerror: Option<Callback>
    var log: seq<Event>
    /** Bytes reported to the script engine as held outside its heap. */
    ghost var external: int

    ghost predicate Valid()
      reads this
    {
      (surface.None? ==> dataLen == 0)
      && external == dataLen + MimeBytes(surface)
      && (!build.mimeSupport ==> dataMode == ImageMode)
      && (state == Complete ==>
            IsImage(surface) && width == surface.value.width && height == surface.value.height
            && dataLen == height * surface.value.stride)
      && (state == Invalid ==> FallbackSurface(surface) && width == 1 && height == 1)
    }

    /** The state every load starts from: nothing held, nothing recorded. */
    ghost predicate Cleared()
      reads this
    {
      Valid() && surface.None? && data == NoData && width == 0 && height == 0
      && (state == Default || state == Loading)
    }

    /** What a load left in the fields, as an outcome. */
    function Result(status: Status, fault: Option<string>): Outcome
      reads this
    {
      Outcome(status, fault, width, height, surface, data)
    }

    /** A decoder error is reported through onerror and makes the image INVALID; otherwise the state is `idle`. */
    twostate predicate Reported(new fault: Option<string>, idle: State)
      reads this
    {
      if fault.Some? then
        state == Invalid && onerror.None?
        && log == old(log) + OnerrorEvents(old(onerror), DecoderError(fault.value))
      else
        state == idle && log == old(log) && onerror == old(onerror)
    }

    constructor (build: Build)
      ensures Valid() && this.build == build
      ensures state == Default && width == 0 && height == 0 && data == NoData && dataLen == 0
      ensures surface.None? && filename.None? && dataMode == ImageMode
      ensures onload.None? && onerror.None? && log == [] && external == 0
    {
      this.build := build;
      state := Default;
      width, height := 0, 0;
      data := NoData;
      dataLen := 0;
      surface := None;
      filename := None;
      dataMode := ImageMode;
      onload, onerror := None, None;
      log := [];
      external := 0;
    }

    /** Assigning `dataMode`: only the numbers 1, 2 and 3 (after ToUint32) change it. */
    method SetDataMode(val: HostValue)
      requires Valid()
      modifies this`dataMode
      ensures Valid()
      ensures dataMode == NextDataMode(old(dataMode), val, build)
    {
      if build.mimeSupport && val.NumberValue? {
        var mode := ToUint32(val.number);
        if mode == MODE_IMAGE {
          dataMode := ImageMode;
        } else if mode == MODE_MIME {
          dataMode := MimeMode;
        } else if mode == MODE_IMAGE_AND_MIME {
          dataMode := ImageAndMime;
        }
      }
    }

    /** Assigning `onload`: only a function replaces the handler. */
    method SetOnload(val: HostValue)
      requires Valid()
      modifies this`onload
      ensures Valid()
      ensures onload == if val.FunctionValue? then Some(val.callback) else old(onload)
    {
      if val.FunctionValue? {
        onload := Some(val.callback);
      }
    }

    /** Assigning `onerror`: only a function replaces the handler. */
    method SetOnerror(val: HostValue)
      requires Valid()
      modifies this`onerror
      ensures Valid()
      ensures onerror == if val.FunctionValue? then Some(val.callback) else old(onerror)
    {
      if val.FunctionValue? {
        onerror := Some(val.callback);
      }
    }

    /** Release the surface (and any MIME data on it) and the pixels, and reset to DEFAULT. */
    method ClearData()
      requires Valid()
      modifies this`surface, this`external, this`dataLen, this`data, this`width, this`height,
               this`filename, this`state
      ensures Cleared() && state == Default && filename.None? && dataLen == 0 && external == 0
    {
      if surface.Some? {
        external := external - MimeBytes(surface);  // destroying the surface releases its MIME copy
        external := external - dataLen;
        dataLen := 0;
        surface := None;
      }
      data := NoData;
      width, height := 0, 0;
      filename := None;
      state := Default;
    }

    /** Call onerror with `err` if it is set, then dispose of it; what it throws is reported as fatal. */
    method Error(err: ErrorValue)
      requires Valid()
      modifies this`onerror, this`log
      ensures Valid()
      ensures log == old(log) + OnerrorEvents(old(onerror), err)
      ensures onerror.None?
    {
      if onerror.Some? {
        var cb := onerror.value;
        log := log + [OnerrorCalled(cb.id, err)];
        onerror := None;
        if cb.throws.Some? {
          log := log + [FatalException(cb.throws.value)];
        }
      }
    }

    /**
     * Take the dimensions from the surface and account its pixel bytes;
     * unless a decoder error made the image INVALID, become COMPLETE and
     * call onload once (what it throws goes to onerror).
     */
    method Loaded()
      requires Valid() && IsImage(surface) && dataLen == 0
      modifies this`width, this`height, this`dataLen, this`external, this`state,
               this`onload, this`onerror, this`log
      ensures Valid()
      ensures width == surface.value.width && height == surface.value.height
      ensures dataLen == height * surface.value.stride && external == old(external) + dataLen
      ensures old(state) == Invalid ==>
        state == Invalid && onload == old(onload) && onerror == old(onerror) && log == old(log)
      ensures old(state) != Invalid ==>
        state == Complete && onload.None? && log == old(log) + OnloadEvents(old(onload), old(onerror))
      ensures old(state) != Invalid ==>
        onerror == if old(onload).Some? && old(onload).value.throws.Some? then None else old(onerror)
    {
      width := surface.value.width;
      height := surface.value.height;
      dataLen := height * surface.value.stride;
      external := external + dataLen;
      if state != Invalid {
        state := Complete;
        if onload.Some? {
          var cb := onload.value;
          log := log + [OnloadCalled(cb.id)];
          onload := None;
          if cb.throws.Some? {
            Error(Thrown(cb.throws.value));
          }
        }
      }
    }

    /** A 1x1 ARGB surface in place of the image that could not be decoded. */
    method CreateEmptyImageFallback() returns (status: Status)
      modifies this`width, this`height, this`surface
      ensures width == 1 && height == 1 && surface == Some(NewSurface(Argb32, 1, 1))
      ensures status == Success
    {
      width, height := 1, 1;
      surface := Some(NewSurface(Argb32, width, height));
      status := Success;
    }

    /** The JPEG library raised an error: report it, become INVALID, fall back to a 1x1 surface. */
    method JpegFault(message: string) returns (status: Status)
      requires Valid() && surface.None?
      modifies this`onerror, this`log, this`state, this`width, this`height, this`surface
      ensures Valid() && status == Success && state == Invalid
      ensures width == 1 && height == 1 && surface == Some(NewSurface(Argb32, 1, 1))
      ensures log == old(log) + OnerrorEvents(old(onerror), DecoderError(message)) && onerror.None?
    {
      Error(DecoderError(message));
      state := Invalid;
      status := CreateEmptyImageFallback();
    }

    /** Attach a copy of `buf` to the surface as JPEG MIME data, replacing what was attached. */
    method AssignDataAsMime(buf: seq<byte>, memory: bool) returns (status: Status)
      requires Valid() && IsImage(surface)
      modifies this`surface, this`external
      ensures Valid()
      ensures !memory ==> status == NoMemory && surface == old(surface) && external == old(external)
      ensures memory ==> status == Success
      ensures memory ==> surface == Some(old(surface).value.(mime := Some(Mime(MIME_TYPE_JPEG, buf))))
      ensures memory ==> external == old(external) - MimeBytes(old(surface)) + |buf|
    {
      if !memory {
        return NoMemory;
      }
      external := external + |buf|;
      external := external - MimeBytes(surface);  // the surface releases the data it replaces
      surface := Some(surface.value.(mime := Some(Mime(MIME_TYPE_JPEG, buf))));
      status := Success;
    }

    /** Decode a JPEG stream into an ARGB surface holding the converted scanlines. */
    method DecodeJpegIntoSurface(stream: Jpeg.Stream, memory: bool) returns (status: Status, ghost fault: Option<string>)
      requires Cleared() && Jpeg.StreamShaped(stream)
      modifies this`onerror, this`log, this`state, this`width, this`height, this`surface, this`data
      ensures Valid() && Reported(fault, old(state))
      ensures Result(status, fault) == JpegPixels(stream, memory)
    {
      match stream.header
      case HeaderFault(m) =>
        status := JpegFault(m);
        fault := Some(m);
      case HeaderOk(info) =>
        width := info.outputWidth;
        height := info.outputHeight;
        if !memory {
          status, fault := NoMemory, None;
          return;
        }
        var pixels, scanFault := Jpeg.DecodeScanlines(info, stream.scans);
        if scanFault.Some? {
          status := JpegFault(scanFault.value);
          fault := scanFault;
          return;
        }
        surface := Some(NewSurface(Argb32, width, height));
        data := Decoded(pixels[..]);
        status, fault := Success, None;
    }

    /** Read only the JPEG header and keep `buf` as MIME data on a 1-bit placeholder surface. */
    method DecodeJpegBufferIntoMimeSurface(buf: seq<byte>, host: Host) returns (status: Status, ghost fault: Option<string>)
      requires Cleared()
      modifies this`onerror, this`log, this`state, this`width, this`height, this`surface, this`data,
               this`external
      ensures Valid() && Reported(fault, old(state))
      ensures Result(status, fault) == JpegMimeOutcome(buf, host.jpeg(buf), host.memory)
    {
      var stream := host.jpeg(buf);
      match stream.header
      case HeaderFault(m) =>
        status := JpegFault(m);
        fault := Some(m);
      case HeaderOk(info) =>
        width := info.outputWidth;
        height := info.outputHeight;
        fault := None;
        if !host.memory {
          status := NoMemory;
          return;
        }
        surface := Some(NewSurface(A1, width, height));
        data := MimePlaceholder(height * Stride(A1, width));
        status := AssignDataAsMime(buf, host.memory);
    }

    /** Decode a PNG through the memory reader over `buf`. */
    method LoadPngFromBuffer(buf: seq<byte>, host: Host) returns (status: Status)
      requires Cleared() && Readers.Total(host.pngReads) <= |buf|
      requires host.png(buf[..Readers.Total(host.pngReads)]).PngFailed? ==>
        host.png(buf[..Readers.Total(host.pngReads)]).status != Success
      modifies this`surface
      ensures Valid()
      ensures Result(status, None) == PngResult(host.png(buf[..Readers.Total(host.pngReads)]))
    {
      var stream := Readers.FeedPng(buf, host.pngReads);
      match host.png(stream)
      case PngImage(format, w, h) =>
        surface := Some(NewSurface(format, w, h));
        status := Success;
      case PngFailed(st) =>
        surface := Some(ErrorSurface(st));
        status := st;
    }

    /** Decode a PNG file (the surface library reads it itself). */
    method LoadPng(contents: seq<byte>, host: Host) returns (status: Status)
      requires Cleared() && (host.png(contents).PngFailed? ==> host.png(contents).status != Success)
      modifies this`surface
      ensures Valid()
      ensures Result(status, None) == PngResult(host.png(contents))
    {
      match host.png(contents)
      case PngImage(format, w, h) =>
        surface := Some(NewSurface(format, w, h));
        status := Success;
      case PngFailed(st) =>
        surface := Some(ErrorSurface(st));
        status := st;
    }

    /** Decode a GIF held in memory and composite its first frame. */
    method LoadGifFromBuffer(buf: seq<byte>, host: Host) returns (status: Status)
      requires Cleared() && HostShaped(host)
      modifies this`width, this`height, this`surface, this`data
      ensures Valid()
      ensures Result(status, None) == GifBufferOutcome(buf, host)
    {
      var stream := Readers.FeedGif(buf, host.gifReads);
      match host.gif(stream)
      case GifOpenFailed =>
        status := ReadError;
      case GifSlurpFailed =>
        status := ReadError;
      case GifSlurped(g) =>
        width := g.sWidth;
        height := g.sHeight;
        if !host.memory {
          status := NoMemory;
          return;
        }
        var pixels := Gif.DecodeFirstFrame(g);
        assert pixels[..] == FrameImage(g);
        surface := Some(NewSurface(Argb32, width, height));
        data := Decoded(pixels[..]);
        status := Success;
    }

    /** A GIF file is read whole into memory, then decoded from there. */
    method LoadGif(contents: seq<byte>, host: Host) returns (status: Status)
      requires Cleared() && HostShaped(host)
      modifies this`width, this`height, this`surface, this`data
      ensures Valid()
      ensures Result(status, None) == GifFileOutcome(contents, host)
    {
      if !host.memory {
        return NoMemory;
      }
      status := LoadGifFromBuffer(contents, host);
    }

    /**
     * A JPEG file: decoded straight from the file in image mode, otherwise
     * read whole into memory and handled like a buffer in that mode.
     */
    method LoadJpeg(contents: seq<byte>, host: Host) returns (status: Status, ghost fault: Option<string>)
      requires Cleared() && HostShaped(host)
      modifies this`onerror, this`log, this`state, this`width, this`height, this`surface, this`data,
               this`external
      ensures Valid() && Reported(fault, old(state))
      ensures Result(status, fault) == JpegFileOutcome(contents, host, JpegRoute(dataMode, build))
    {
      if dataMode == ImageMode {
        status, fault := DecodeJpegIntoSurface(host.jpegFile(contents), host.memory);
        return;
      }
      if !host.memory {
        status, fault := NoMemory, None;
        return;
      }
      status, fault := LoadJpegBuffer(contents, host);
    }

    /**
     * A JPEG in memory, by data mode: decoded to pixels, kept as MIME data
     * on a placeholder, or decoded and then attached as MIME data (a failed
     * decode is returned without attaching). Without MIME support only
     * pixels are decoded.
     */
    method LoadJpegBuffer(buf: seq<byte>, host: Host) returns (status: Status, ghost fault: Option<string>)
      requires Cleared() && HostShaped(host)
      modifies this`onerror, this`log, this`state, this`width, this`height, this`surface, this`data,
               this`external
      ensures Valid() && Reported(fault, old(state))
      ensures Result(status, fault) == JpegOutcome(buf, host, JpegRoute(dataMode, build))
    {
      var stream := host.jpeg(buf);
      if !build.mimeSupport {
        status, fault := DecodeJpegIntoSurface(stream, host.memory);
        return;
      }
      match dataMode {
        case ImageMode =>
          status, fault := DecodeJpegIntoSurface(stream, host.memory);
        case MimeMode =>
          status, fault := DecodeJpegBufferIntoMimeSurface(buf, host);
        case ImageAndMime =>
          status, fault := DecodeJpegIntoSurface(stream, host.memory);
          ghost var decoded := Result(status, fault);
          assert decoded == JpegPixels(stream, host.memory);
          if status == Success {
            status := AssignDataAsMime(buf, host.memory);
            assert Result(status, fault) == Attach(decoded, buf, host.memory);
          }
      }
    }

    /** Pick a decoder for a buffer by its leading bytes and the data mode. */
    method LoadFromBuffer(buf: seq<byte>, host: Host) returns (status: Status, ghost fault: Option<string>)
      requires Cleared() && HostShaped(host) && BufferReadable(buf, host)
      modifies this`onerror, this`log, this`state, this`width, this`height, this`surface, this`data,
               this`external
      ensures Valid() && Reported(fault, old(state))
      ensures Result(status, fault) == BufferOutcome(buf, host, dataMode, build)
    {
      fault := None;
      if Sniff.IsPNG(buf) {
        status := LoadPngFromBuffer(buf, host);
        return;
      }
      if build.hasGif && Sniff.IsGIF(buf) {
        status := LoadGifFromBuffer(buf, host);
        return;
      }
      if build.hasJpeg && Sniff.IsJPEG(buf) {
        status, fault := LoadJpegBuffer(buf, host);
        return;
      }
      status := ReadError;
    }

    /** Open the file named by `filename`, sniff its first five bytes and decode it. */
    method LoadSurface(host: Host) returns (status: Status, ghost fault: Option<string>)
      requires Cleared() && HostShaped(host) && filename.Some?
      modifies this`onerror, this`log, this`state, this`width, this`height, this`surface, this`data,
               this`external
      ensures Valid() && Reported(fault, old(state))
      ensures Result(status, fault) == FileNamed(filename.value, host, dataMode, build)
    {
      fault := None;
      if filename.value !in host.files {
        return ReadError, None;
      }
      var contents := host.files[filename.value];
      if |contents| < 5 {
        return ReadError, None;
      }
      var head := contents[..5];
      if Sniff.IsPNG(head) {
        status := LoadPng(contents, host);
        return;
      }
      if build.hasGif && Sniff.IsGIF(head) {
        status := LoadGif(contents, host);
        return;
      }
      if build.hasJpeg && Sniff.IsJPEG(head) {
        status, fault := LoadJpeg(contents, host);
        return;
      }
      status := ReadError;
    }

    /** Enter LOADING and load the file; a load already in progress is a read error. */
    method Load(host: Host) returns (status: Status, ghost fault: Option<string>)
      requires Cleared() && HostShaped(host) && filename.Some?
      modifies this`onerror, this`log, this`state, this`width, this`height, this`surface, this`data,
               this`external
      ensures Valid()
      ensures old(state) == Loading ==> status == ReadError && fault.None? && unchanged(this)
      ensures old(state) != Loading ==> Reported(fault, Loading)
      ensures old(state) != Loading ==> Result(status, fault) == FileNamed(filename.value, host, dataMode, build)
    {
      if state != Loading {
        state := Loading;
        status, fault := LoadSurface(host);
        return;
      }
      status, fault := ReadError, None;
    }

    /**
     * The end of a `src` assignment: `loaded` after a successful load,
     * `error` with the status after a failed one. A decoder error has
     * already disposed of onerror, so it adds no further call.
     */
    method Settle(status: Status, ghost fault: Option<string>)
      requires Valid() && dataLen == 0 && WellFormed(Result(status, fault))
      requires fault.Some? <==> state == Invalid
      requires fault.Some? ==> onerror.None?
      modifies this`width, this`height, this`dataLen, this`external, this`state,
               this`onload, this`onerror, this`log
      ensures Valid()
      ensures state == if fault.None? && status == Success then Complete else old(state)
      ensures status == Success ==>
        width == surface.value.width && height == surface.value.height && dataLen == height * surface.value.stride
      ensures status != Success ==> width == old(width) && height == old(height) && dataLen == 0
      ensures log == old(log) + if fault.Some? then []
                                else if status == Success then OnloadEvents(old(onload), old(onerror))
                                else OnerrorEvents(old(onerror), StatusError(status))
      ensures onload == if fault.None? && status == Success then None else old(onload)
      ensures onerror == if fault.Some? || status != Success || (old(onload).Some? && old(onload).value.throws.Some?)
                         then None else old(onerror)
    {
      if status != Success {
        Error(StatusError(status));
      } else {
        Loaded();
      }
    }

    /** The load a `src` assignment starts: a path is remembered and loaded, a buffer is loaded, anything else is a read error. */
    method LoadSource(val: HostValue, host: Host) returns (status: Status, ghost fault: Option<string>)
      requires Cleared() && state == Default && filename.None? && HostShaped(host) && SourceReadable(val, host)
      modifies this`onerror, this`log, this`state, this`width, this`height, this`surface, this`data,
               this`external, this`filename
      ensures Valid() && dataLen == 0
      ensures filename == if val.StringValue? then Some(val.text) else None
      ensures Reported(fault, if val.StringValue? then Loading else Default)
      ensures Result(status, fault) == LoadOutcome(val, host, dataMode, build)
    {
      status, fault := ReadError, None;
      if val.StringValue? {
        filename := Some(val.text);
        status, fault := Load(host);
      } else if val.BufferValue? {
        status, fault := LoadFromBuffer(val.bytes, host);
      }
    }

    /**
     * Assigning `src`: clear the image, load from a path or a buffer (any
     * other value is a read error), then run `loaded` on success or `error`
     * with the status on failure.
     */
    method SetSource(val: HostValue, host: Host)
      requires Valid() && HostShaped(host) && SourceReadable(val, host)
      modifies this`state, this`width, this`height, this`data, this`dataLen, this`surface,
               this`filename, this`onload, this`onerror, this`log, this`external
      ensures Valid()
      ensures filename == if val.StringValue? then Some(val.text) else None
      ensures var o := LoadOutcome(val, host, dataMode, build);
        surface == o.surface && data == o.data
        && state == if o.fault.Some? then Invalid
                    else if o.status == Success then Complete
                    else if val.StringValue? then Loading
                    else Default
      ensures var o := LoadOutcome(val, host, dataMode, build);
        if o.status == Success then
          width == o.surface.value.width && height == o.surface.value.height
          && dataLen == height * o.surface.value.stride
        else
          width == o.width && height == o.height && dataLen == 0
      ensures var o := LoadOutcome(val, host, dataMode, build);
        log == old(log) + Notifications(o, old(onload), old(onerror))
      ensures var o := LoadOutcome(val, host, dataMode, build);
        onload == if o.fault.None? && o.status == Success then None else old(onload)
      ensures var o := LoadOutcome(val, host, dataMode, build);
        onerror == if o.fault.Some? || o.status != Success || (old(onload).Some? && old(onload).value.throws.Some?)
                   then None else old(onerror)
    {
      ClearData();
      var status, fault := LoadSource(val, host);
      Settle(status, fault);
    }
  }
}
