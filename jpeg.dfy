/**
 * JPEG decoding into 32-bit ARGB: the decompressor (an outside library) is
 * modelled by what it hands back — a header with the output geometry and
 * colour space, then one scanline per output row, any of which may instead
 * be a fatal decoder error — and the per-pixel colour conversion the
 * decoder applies to each scanline.
 */
module Jpeg {
  import opened Base
  import opened Pixels

  /** The decompressor's output colour spaces. */
  datatype ColorSpace = Unknown | Grayscale | Rgb | YCbCr | Cmyk | Ycck

  /** Output geometry after the decompressor has started. */
  datatype Info = Info(outputWidth: nat, outputHeight: nat, outputComponents: nat, outColorSpace: ColorSpace)

  /** Reading the header and starting decompression either succeeds or raises a decoder error. */
  datatype Header = HeaderOk(info: Info) | HeaderFault(message: string)

  /** One scanline of `outputWidth * outputComponents` samples, or a decoder error raised while reading it. */
  datatype Scan = Row(samples: seq<byte>) | Fault(message: string)

  /** Everything the decompressor produces for one input. */
  datatype Stream = Stream(header: Header, scans: seq<Scan>)

  /** The sample offsets the conversion reads for one pixel exist for this colour space. */
  predicate ComponentsReadable(info: Info)
  {
    match info.outColorSpace
    case Cmyk => info.outputComponents >= 4
    case Rgb => info.outputComponents == 1 || info.outputComponents >= 3
    case Grayscale => info.outputComponents == 1 || info.outputComponents >= 3
    case _ => true
  }

  /** A scanline holds a sample for every component of every pixel of the row. */
  predicate ScanShaped(info: Info, scan: Scan)
  {
    scan.Row? ==> |scan.samples| >= info.outputWidth * info.outputComponents
  }

  /** What the decompressor guarantees: one scanline per output row, each full length. */
  predicate StreamShaped(s: Stream)
  {
    s.header.HeaderOk? ==>
      var info := s.header.info;
      ComponentsReadable(info)
      && |s.scans| >= info.outputHeight
      && forall y :: 0 <= y < info.outputHeight ==> ScanShaped(info, s.scans[y])
  }

  lemma DivBound(m: nat, k: nat)
    requires m <= k * 255
    ensures m / 255 <= k
  {
  }

  /** k * c / 255 in integer division never exceeds either factor when both are bytes. */
  function ScaleByKey(k: nat, c: nat): (v: nat)
    requires k <= 255 && c <= 255
    ensures v <= k && v <= c
  {
    MulMonotone(c, 255, k);
    MulMonotone(k, 255, c);
    DivBound(k * c, k);
    DivBound(k * c, c);
    k * c / 255
  }

  /** Inverted CMYK: a colour sample scaled by the key sample. */
  function CmykChannel(k: byte, c: byte): (v: byte)
    ensures v <= k && v <= c
  {
    ScaleByKey(k, c)
  }

  /** Index of the first sample of pixel x in a scanline. */
  function SampleIndex(info: Info, x: nat, j: nat): (i: nat)
    requires x < info.outputWidth && j < info.outputComponents
    ensures i < info.outputWidth * info.outputComponents
  {
    OffsetInGrid(info.outputComponents, info.outputWidth, x, j);
    Offset(info.outputComponents, x, j)
  }

  /**
   * The ARGB pixel of column x of a scanline: always opaque; CMYK scaled by
   * the key sample; grey or RGB copied (one component replicated to all
   * three channels); every other colour space left black.
   */
  function ConvertPixel(info: Info, samples: seq<byte>, x: nat): Pixel
    requires ComponentsReadable(info) && x < info.outputWidth
    requires |samples| >= info.outputWidth * info.outputComponents
  {
    match info.outColorSpace
    case Cmyk =>
      var k := samples[SampleIndex(info, x, 3)];
      Pack(OPAQUE, CmykChannel(k, samples[SampleIndex(info, x, 0)]),
           CmykChannel(k, samples[SampleIndex(info, x, 1)]),
           CmykChannel(k, samples[SampleIndex(info, x, 2)]))
    case Rgb => ConvertRgb(info, samples, x)
    case Grayscale => ConvertRgb(info, samples, x)
    case _ => Pack(OPAQUE, 0, 0, 0)
  }

  /** The shared RGB / greyscale case of ConvertPixel. */
  function ConvertRgb(info: Info, samples: seq<byte>, x: nat): Pixel
    requires info.outputComponents == 1 || info.outputComponents >= 3
    requires x < info.outputWidth && |samples| >= info.outputWidth * info.outputComponents
  {
    if info.outputComponents == 1 then
      var v := samples[SampleIndex(info, x, 0)];
      Pack(OPAQUE, v, v, v)
    else
      Pack(OPAQUE, samples[SampleIndex(info, x, 0)], samples[SampleIndex(info, x, 1)], samples[SampleIndex(info, x, 2)])
  }

  /** One-component greyscale or RGB output gives a grey pixel holding the sample. */
  lemma SingleComponentIsGrey(info: Info, samples: seq<byte>, x: nat)
    requires info.outColorSpace == Grayscale || info.outColorSpace == Rgb
    requires info.outputComponents == 1 && x < info.outputWidth
    requires |samples| >= info.outputWidth * info.outputComponents
    ensures x < |samples|
    ensures RedOf(ConvertPixel(info, samples, x)) == samples[x]
    ensures GreenOf(ConvertPixel(info, samples, x)) == samples[x]
    ensures BlueOf(ConvertPixel(info, samples, x)) == samples[x]
  {
    assert SampleIndex(info, x, 0) == x;
    PackChannels(OPAQUE, samples[x], samples[x], samples[x]);
  }

  /** Three or more components: red, green and blue are the first three samples of the pixel. */
  lemma MultiComponentCopied(info: Info, samples: seq<byte>, x: nat)
    requires info.outColorSpace == Grayscale || info.outColorSpace == Rgb
    requires info.outputComponents >= 3 && x < info.outputWidth
    requires |samples| >= info.outputWidth * info.outputComponents
    ensures info.outputComponents * x + 2 < |samples|
    ensures RedOf(ConvertPixel(info, samples, x)) == samples[info.outputComponents * x]
    ensures GreenOf(ConvertPixel(info, samples, x)) == samples[info.outputComponents * x + 1]
    ensures BlueOf(ConvertPixel(info, samples, x)) == samples[info.outputComponents * x + 2]
  {
    var n := info.outputComponents;
    assert SampleIndex(info, x, 2) == n * x + 2;
    assert SampleIndex(info, x, 1) == n * x + 1;
    assert SampleIndex(info, x, 0) == n * x;
    PackChannels(OPAQUE, samples[n * x], samples[n * x + 1], samples[n * x + 2]);
  }

  /**
   * CMYK: no channel exceeds the key sample; a key of 255 copies the colour
   * samples and a key of 0 gives black.
   */
  lemma CmykScaledByKey(info: Info, samples: seq<byte>, x: nat)
    requires info.outColorSpace == Cmyk && ComponentsReadable(info) && x < info.outputWidth
    requires |samples| >= info.outputWidth * info.outputComponents
    ensures RedOf(ConvertPixel(info, samples, x)) <= samples[SampleIndex(info, x, 3)]
    ensures GreenOf(ConvertPixel(info, samples, x)) <= samples[SampleIndex(info, x, 3)]
    ensures BlueOf(ConvertPixel(info, samples, x)) <= samples[SampleIndex(info, x, 3)]
    ensures samples[SampleIndex(info, x, 3)] == 255 ==>
      RedOf(ConvertPixel(info, samples, x)) == samples[SampleIndex(info, x, 0)]
      && GreenOf(ConvertPixel(info, samples, x)) == samples[SampleIndex(info, x, 1)]
      && BlueOf(ConvertPixel(info, samples, x)) == samples[SampleIndex(info, x, 2)]
    ensures samples[SampleIndex(info, x, 3)] == 0 ==>
      RedOf(ConvertPixel(info, samples, x)) == 0 && GreenOf(ConvertPixel(info, samples, x)) == 0
      && BlueOf(ConvertPixel(info, samples, x)) == 0
  {
    var k := samples[SampleIndex(info, x, 3)];
    PackChannels(OPAQUE, CmykChannel(k, samples[SampleIndex(info, x, 0)]),
                 CmykChannel(k, samples[SampleIndex(info, x, 1)]),
                 CmykChannel(k, samples[SampleIndex(info, x, 2)]));
  }

  /** Colour spaces without a conversion give opaque black. */
  lemma UnconvertedSpacesAreBlack(info: Info, samples: seq<byte>, x: nat)
    requires (info.outColorSpace == Unknown || info.outColorSpace == YCbCr || info.outColorSpace == Ycck) && x < info.outputWidth
    requires |samples| >= info.outputWidth * info.outputComponents
    ensures RedOf(ConvertPixel(info, samples, x)) == 0
    ensures GreenOf(ConvertPixel(info, samples, x)) == 0
    ensures BlueOf(ConvertPixel(info, samples, x)) == 0
  {
    assert ConvertPixel(info, samples, x) == Pack(OPAQUE, 0, 0, 0);
    PackChannels(OPAQUE, 0, 0, 0);
  }

  /** Every converted pixel is opaque, whatever the colour space. */
  lemma ConvertedPixelIsOpaque(info: Info, samples: seq<byte>, x: nat)
    requires ComponentsReadable(info) && x < info.outputWidth
    requires |samples| >= info.outputWidth * info.outputComponents
    ensures AlphaOf(ConvertPixel(info, samples, x)) == OPAQUE
  {
    var p := ConvertPixel(info, samples, x);
    PackChannels(OPAQUE, RedOf(p), GreenOf(p), BlueOf(p));
    Unpack(p);
  }

  /** Index of the first faulting scanline among the first `height`, or `height` when none faults. */
  function FirstFault(scans: seq<Scan>, height: nat): (y: nat)
    requires |scans| >= height
    ensures y <= height
    ensures y < height ==> scans[y].Fault?
    ensures forall j :: 0 <= j < y ==> scans[j].Row?
  {
    if height == 0 then 0
    else if scans[0].Fault? then 0
    else 1 + FirstFault(scans[1..], height - 1)
  }

  /** The pixels of the first n columns of a scanline, left to right. */
  function ConvertRow(info: Info, samples: seq<byte>, n: nat): (row: seq<Pixel>)
    requires ComponentsReadable(info) && n <= info.outputWidth
    requires |samples| >= info.outputWidth * info.outputComponents
    ensures |row| == n
  {
    if n == 0 then [] else ConvertRow(info, samples, n - 1) + [ConvertPixel(info, samples, n - 1)]
  }

  /** Column x of a converted row is the conversion of pixel x. */
  lemma {:induction false} ConvertRowAt(info: Info, samples: seq<byte>, n: nat, x: nat)
    requires ComponentsReadable(info) && x < n <= info.outputWidth
    requires |samples| >= info.outputWidth * info.outputComponents
    ensures ConvertRow(info, samples, n)[x] == ConvertPixel(info, samples, x)
  {
    if x < n - 1 {
      ConvertRowAt(info, samples, n - 1, x);
    }
  }

  /** The first n scanlines are rows of full length. */
  predicate RowsReadable(info: Info, scans: seq<Scan>, n: nat)
  {
    n <= |scans| && forall y :: 0 <= y < n ==> scans[y].Row? && ScanShaped(info, scans[y])
  }

  /** The converted rows of the first n scanlines, one after the other. */
  function DecodedRows(info: Info, scans: seq<Scan>, n: nat): (pixels: seq<Pixel>)
    requires ComponentsReadable(info) && RowsReadable(info, scans, n)
    ensures |pixels| == Offset(info.outputWidth, n, 0)
  {
    if n == 0 then []
    else
      assert ScanShaped(info, scans[n - 1]);
      OffsetNextRow(info.outputWidth, n - 1);
      DecodedRows(info, scans, n - 1) + ConvertRow(info, scans[n - 1].samples, info.outputWidth)
  }

  /** Pixel (y, x) of the decoded rows is column x of scanline y, converted. */
  lemma {:induction false} DecodedRowsAt(info: Info, scans: seq<Scan>, n: nat, y: nat, x: nat)
    requires ComponentsReadable(info) && RowsReadable(info, scans, n)
    requires y < n && x < info.outputWidth
    ensures Offset(info.outputWidth, y, x) < |DecodedRows(info, scans, n)|
    ensures DecodedRows(info, scans, n)[Offset(info.outputWidth, y, x)] == ConvertPixel(info, scans[y].samples, x)
  {
    OffsetInGrid(info.outputWidth, n, y, x);
    var w := info.outputWidth;
    var prev := DecodedRows(info, scans, n - 1);
    if y < n - 1 {
      DecodedRowsAt(info, scans, n - 1, y, x);
      assert DecodedRows(info, scans, n)[Offset(w, y, x)] == prev[Offset(w, y, x)];
    } else {
      assert Offset(w, y, x) == |prev| + x;
      ConvertRowAt(info, scans[y].samples, w, x);
    }
  }

  /**
   * Read the scanlines in order and convert each into its row of a fresh
   * width x height buffer. A decoder error on a scanline abandons the loop
   * and is reported; otherwise the buffer holds every converted row.
   */
  method DecodeScanlines(info: Info, scans: seq<Scan>) returns (data: array<Pixel>, fault: Option<string>)
    requires ComponentsReadable(info) && |scans| >= info.outputHeight
    requires forall y :: 0 <= y < info.outputHeight ==> ScanShaped(info, scans[y])
    ensures var y := FirstFault(scans, info.outputHeight);
      fault == if y < info.outputHeight then Some(scans[y].message) else None
    ensures fault.None? ==> RowsReadable(info, scans, info.outputHeight)
    ensures fault.None? ==> data[..] == DecodedRows(info, scans, info.outputHeight)
  {
    var width, height := info.outputWidth, info.outputHeight;
    data := new Pixel[width * height];
    OffsetEnd(width, height);
    var p := 0;  // first pixel of row y
    for y := 0 to height
      invariant RowsReadable(info, scans, y)
      invariant p == Offset(width, y, 0) <= width * height
      invariant data[..p] == DecodedRows(info, scans, y)
    {
      if scans[y].Fault? {
        FaultAt(scans, height, y);
        return data, Some(scans[y].message);
      }
      assert RowsReadable(info, scans, y + 1);
      MulMonotone(y + 1, height, width);
      OffsetNextRow(width, y);
      ConvertScanline(info, scans[y].samples, data, p);
      assert data[..p + width] == data[..p] + data[p..p + width];
      p := p + width;
    }
    NoFault(scans, height);
    assert data[..] == data[..p];
    fault := None;
  }

  /** The decoder error a stream raises, if any: at the header, or at its first faulting scanline. */
  function StreamFault(s: Stream): (fault: Option<string>)
    requires StreamShaped(s)
    ensures s.header.HeaderFault? ==> fault == Some(s.header.message)
    ensures s.header.HeaderOk? ==>
      (fault.None? <==> forall y :: 0 <= y < s.header.info.outputHeight ==> s.scans[y].Row?)
  {
    match s.header
    case HeaderFault(m) => Some(m)
    case HeaderOk(info) =>
      var y := FirstFault(s.scans, info.outputHeight);
      if y < info.outputHeight then Some(s.scans[y].message) else None
  }

  /** The decoded pixels of a stream without decoder errors, row after row. */
  function DecodedImage(s: Stream): (pixels: seq<Pixel>)
    requires StreamShaped(s) && s.header.HeaderOk? && StreamFault(s).None?
    ensures |pixels| == s.header.info.outputWidth * s.header.info.outputHeight
  {
    var info := s.header.info;
    OffsetEnd(info.outputWidth, info.outputHeight);
    DecodedRows(info, s.scans, info.outputHeight)
  }

  /**
   * Pixel (y, x) of a decoded image is the conversion of column x of
   * scanline y, and it is opaque.
   */
  lemma DecodedImageAt(s: Stream, y: nat, x: nat)
    requires StreamShaped(s) && s.header.HeaderOk? && StreamFault(s).None?
    requires y < s.header.info.outputHeight && x < s.header.info.outputWidth
    ensures Offset(s.header.info.outputWidth, y, x) < |DecodedImage(s)|
    ensures s.scans[y].Row? && ScanShaped(s.header.info, s.scans[y])
    ensures DecodedImage(s)[Offset(s.header.info.outputWidth, y, x)] == ConvertPixel(s.header.info, s.scans[y].samples, x)
    ensures AlphaOf(DecodedImage(s)[Offset(s.header.info.outputWidth, y, x)]) == OPAQUE
  {
    var info := s.header.info;
    DecodedRowsAt(info, s.scans, info.outputHeight, y, x);
    ConvertedPixelIsOpaque(info, s.scans[y].samples, x);
  }

  /** Convert one scanline into the `outputWidth` cells starting at `start`, leaving the cells before it alone. */
  method ConvertScanline(info: Info, src: seq<byte>, data: array<Pixel>, start: nat)
    requires ComponentsReadable(info) && |src| >= info.outputWidth * info.outputComponents
    requires start + info.outputWidth <= data.Length
    modifies data
    ensures data[..start] == old(data[..start])
    ensures data[start..start + info.outputWidth] == ConvertRow(info, src, info.outputWidth)
  {
    for x := 0 to info.outputWidth
      invariant data[..start] == old(data[..start])
      invariant data[start..start + x] == ConvertRow(info, src, x)
    {
      data[start + x] := ConvertPixel(info, src, x);
      assert data[start..start + x + 1] == data[start..start + x] + [data[start + x]];
    }
  }

  lemma {:induction false} FaultAt(scans: seq<Scan>, height: nat, y: nat)
    requires |scans| >= height && y < height && scans[y].Fault?
    requires forall j :: 0 <= j < y ==> scans[j].Row?
    ensures FirstFault(scans, height) == y
  {
    if y > 0 {
      assert scans[0].Row?;
      assert forall j :: 0 <= j < y - 1 ==> scans[1..][j] == scans[j + 1];
      FaultAt(scans[1..], height - 1, y - 1);
    }
  }

  lemma {:induction false} NoFault(scans: seq<Scan>, height: nat)
    requires |scans| >= height
    requires forall j :: 0 <= j < height ==> scans[j].Row?
    ensures FirstFault(scans, height) == height
  {
    if height > 0 {
      assert forall j :: 0 <= j < height - 1 ==> scans[1..][j] == scans[j + 1];
      NoFault(scans[1..], height - 1);
    }
  }
}
