/**
 * GIF decoding into 32-bit ARGB: what the decoder reads from the parsed
 * container (the parser itself is an outside library), the transparent
 * colour search of the Graphic Control Extension (section 23 of the GIF89a
 * specification), and the three compositing loops for the first frame:
 * full-screen copy, sub-image with background fill, and interlaced rows.
 */
module Gif {
  import opened Base
  import opened Pixels
  import Interlace

  /** One colour-map entry. */
  datatype Rgb = Rgb(red: byte, green: byte, blue: byte)

  /** Extension label of a Graphic Control Extension. */
  const GRAPHICS_EXT_FUNC_CODE: int := 0xF9

  datatype ExtensionBlock = ExtensionBlock(functionCode: int, bytes: seq<byte>)

  /** Position, size, interlace flag and optional local colour map of an image. */
  datatype ImageDesc = ImageDesc(
    left: nat, top: nat, width: nat, height: nat,
    interlace: bool, colorMap: Option<seq<Rgb>>)

  datatype SavedImage = SavedImage(
    imageDesc: ImageDesc, rasterBits: seq<byte>, extensionBlocks: seq<ExtensionBlock>)

  /**
   * A parsed GIF as the parser leaves it: logical-screen size, background
   * index, global colour map, the descriptor of the image read last, and
   * every image with its raster and extension blocks.
   */
  datatype GifFile = GifFile(
    sWidth: nat, sHeight: nat, sBackGroundColor: int, sColorMap: Option<seq<Rgb>>,
    image: ImageDesc, savedImages: seq<SavedImage>)

  // ---------------------------------------------------------------------
  // Transparent colour

  /** A Graphic Control Extension whose transparency flag (bit 0 of byte 0) is set. */
  predicate IsTransparencyBlock(b: ExtensionBlock)
  {
    b.functionCode == GRAPHICS_EXT_FUNC_CODE && |b.bytes| >= 1 && b.bytes[0] % 2 == 1
  }

  /** The bytes the search reads from a block are present. */
  predicate BlockReadable(b: ExtensionBlock)
  {
    (b.functionCode == GRAPHICS_EXT_FUNC_CODE ==> |b.bytes| >= 1)
    && (IsTransparencyBlock(b) ==> |b.bytes| >= 4)
  }

  /** Index of the first transparency block, or |blocks| when there is none. */
  function FirstTransparencyBlock(blocks: seq<ExtensionBlock>): (i: nat)
    ensures i <= |blocks|
    ensures i < |blocks| ==> IsTransparencyBlock(blocks[i])
    ensures forall j :: 0 <= j < i ==> !IsTransparencyBlock(blocks[j])
  {
    if blocks == [] then 0
    else if IsTransparencyBlock(blocks[0]) then 0
    else 1 + FirstTransparencyBlock(blocks[1..])
  }

  /** The search reads every block up to and including the first transparency block. */
  predicate TransparencyReadable(blocks: seq<ExtensionBlock>)
  {
    forall j :: 0 <= j < |blocks| && j <= FirstTransparencyBlock(blocks) ==> BlockReadable(blocks[j])
  }

  /**
   * The transparent palette index: byte 3 of the first Graphic Control
   * Extension with its transparency flag set, or -1 when there is none.
   */
  function TransparentIndex(blocks: seq<ExtensionBlock>): (r: int)
    requires TransparencyReadable(blocks)
    ensures -1 <= r < 256
    ensures r == -1 <==> forall j :: 0 <= j < |blocks| ==> !IsTransparencyBlock(blocks[j])
    ensures r >= 0 ==>
      var i := FirstTransparencyBlock(blocks);
      i < |blocks| && IsTransparencyBlock(blocks[i]) && |blocks[i].bytes| >= 4 && r == blocks[i].bytes[3]
  {
    var i := FirstTransparencyBlock(blocks);
    if i == |blocks| then -1
    else
      assert BlockReadable(blocks[i]);
      blocks[i].bytes[3]
  }

  /** The search loop over the extension blocks of one image. */
  method GetTransparentColor(blocks: seq<ExtensionBlock>) returns (alpha: int)
    requires TransparencyReadable(blocks)
    ensures alpha == TransparentIndex(blocks)
  {
    var x := 0;
    while x < |blocks|
      invariant 0 <= x <= |blocks|
      invariant forall j :: 0 <= j < x ==> !IsTransparencyBlock(blocks[j])
    {
      var ext := blocks[x];
      assert x <= FirstTransparencyBlock(blocks);
      assert BlockReadable(ext);
      if ext.functionCode == GRAPHICS_EXT_FUNC_CODE && ext.bytes[0] % 2 == 1 {
        return ext.bytes[3];
      }
      x := x + 1;
    }
    return -1;
  }

  // ---------------------------------------------------------------------
  // Colour map, background and the pixel of one palette index

  /** The first image's local colour map if it has one, else the global one. */
  function ActiveColorMap(g: GifFile): Option<seq<Rgb>>
    requires |g.savedImages| >= 1
  {
    var local := g.savedImages[0].imageDesc.colorMap;
    if local.Some? then local else g.sColorMap
  }

  /**
   * The palette index used outside the first image: the screen's
   * background index (truncated to a byte) when there is a global colour
   * map, else the transparent index when there is one, else 0.
   */
  function BackgroundIndex(g: GifFile, alphaColor: int): (bg: int)
    requires alphaColor < 256
    ensures 0 <= bg < 256
    ensures g.sColorMap.Some? ==> bg == g.sBackGroundColor % 256
    ensures g.sColorMap.None? ==> (bg == alphaColor <==> alphaColor >= 0)
    ensures g.sColorMap.None? && bg != alphaColor ==> bg == 0
  {
    if g.sColorMap.Some? then g.sBackGroundColor % 256
    else if alphaColor >= 0 then alphaColor
    else 0
  }

  /** ARGB pixel of palette entry `index`: transparent exactly when it is the transparent index. */
  function ColorPixel(colors: seq<Rgb>, alphaColor: int, index: int): Pixel
    requires 0 <= index < |colors|
  {
    Pack(if index == alphaColor then TRANSPARENT else OPAQUE,
         colors[index].red, colors[index].green, colors[index].blue)
  }

  /**
   * Alpha is 0 exactly for the transparent index (never for -1, "no
   * transparency") and 255 otherwise; red, green and blue are the entry's.
   */
  lemma ColorPixelChannels(colors: seq<Rgb>, alphaColor: int, index: int)
    requires 0 <= index < |colors|
    ensures AlphaOf(ColorPixel(colors, alphaColor, index)) == (if index == alphaColor then 0 else 255)
    ensures alphaColor < 0 ==> AlphaOf(ColorPixel(colors, alphaColor, index)) == 255
    ensures RedOf(ColorPixel(colors, alphaColor, index)) == colors[index].red
    ensures GreenOf(ColorPixel(colors, alphaColor, index)) == colors[index].green
    ensures BlueOf(ColorPixel(colors, alphaColor, index)) == colors[index].blue
  {
    PackChannels(if index == alphaColor then TRANSPARENT else OPAQUE,
                 colors[index].red, colors[index].green, colors[index].blue);
  }

  /** Every palette index read from `raster[..n]` names a colour-map entry. */
  predicate RasterReadable(raster: seq<byte>, colors: seq<Rgb>, n: nat)
  {
    n <= |raster| && forall j :: 0 <= j < n ==> raster[j] < |colors|
  }

  // ---------------------------------------------------------------------
  // Full-screen first image

  /** Without interlacing and with a full-screen image, pixel i takes raster byte i. */
  method CompositeFullFrame(raster: seq<byte>, colors: seq<Rgb>, alphaColor: int, width: nat, height: nat)
    returns (data: array<Pixel>)
    requires RasterReadable(raster, colors, width * height)
    ensures data.Length == width * height
    ensures forall i :: 0 <= i < width * height ==> data[i] == ColorPixel(colors, alphaColor, raster[i])
  {
    data := new Pixel[width * height];
    var p := 0;  // src_data and dst_data advance together: both are at p
    for y := 0 to height
      invariant p == Offset(width, y, 0) <= width * height
      invariant forall i :: 0 <= i < p ==> data[i] == ColorPixel(colors, alphaColor, raster[i])
    {
      for x := 0 to width
        invariant p == Offset(width, y, x) <= width * height
        invariant forall i :: 0 <= i < p ==> data[i] == ColorPixel(colors, alphaColor, raster[i])
      {
        OffsetInGrid(width, height, y, x);
        data[p] := ColorPixel(colors, alphaColor, raster[p]);
        p := p + 1;
      }
      OffsetNextRow(width, y);
    }
    OffsetEnd(width, height);
  }

  // ---------------------------------------------------------------------
  // Smaller first image on a background

  /** Cell i of a `width`-wide screen lies in the image rectangle [top, top+height) x [left, left+width). */
  predicate InsideImage(d: ImageDesc, width: nat, i: nat)
    requires width > 0
  {
    var y, x := i / width, i % width;
    d.top <= y < d.top + d.height && d.left <= x < d.left + d.width
  }

  /**
   * The palette index of cell i: the background index outside the image,
   * and raster byte i inside it. The raster pointer advances on every cell,
   * background cells included, so the byte read is y * width + x and not
   * an offset within the image rectangle.
   */
  function SubImageIndex(d: ImageDesc, raster: seq<byte>, bg: int, width: nat, i: nat): int
    requires width > 0
    requires InsideImage(d, width, i) ==> i < |raster|
  {
    if InsideImage(d, width, i) then raster[i] else bg
  }

  /** Every index the sub-image loop reads names a colour-map entry. */
  predicate SubImageReadable(d: ImageDesc, raster: seq<byte>, colors: seq<Rgb>, bg: int, width: nat, height: nat)
  {
    width * height > 0 ==>
      forall i :: 0 <= i < width * height ==>
        (InsideImage(d, width, i) ==> i < |raster|)
        && 0 <= SubImageIndex(d, raster, bg, width, i) < |colors|
  }

  method CompositeSubImage(d: ImageDesc, raster: seq<byte>, colors: seq<Rgb>, alphaColor: int, bg: int,
                           width: nat, height: nat)
    returns (data: array<Pixel>)
    requires SubImageReadable(d, raster, colors, bg, width, height)
    ensures data.Length == width * height
    ensures forall i :: 0 <= i < width * height ==>
      data[i] == ColorPixel(colors, alphaColor, SubImageIndex(d, raster, bg, width, i))
  {
    data := new Pixel[width * height];
    var bottom := d.top + d.height;
    var right := d.left + d.width;
    var p := 0;  // src_data and dst_data advance together: both are at p
    for y := 0 to height
      invariant p == Offset(width, y, 0) <= width * height
      invariant forall i :: 0 <= i < p ==> data[i] == ColorPixel(colors, alphaColor, SubImageIndex(d, raster, bg, width, i))
    {
      for x := 0 to width
        invariant p == Offset(width, y, x) <= width * height
        invariant forall i :: 0 <= i < p ==> data[i] == ColorPixel(colors, alphaColor, SubImageIndex(d, raster, bg, width, i))
      {
        OffsetInGrid(width, height, y, x);
        OffsetDivMod(width, y, x);
        if y < d.top || y >= bottom || x < d.left || x >= right {
          assert !InsideImage(d, width, p);
          data[p] := ColorPixel(colors, alphaColor, bg);
        } else {
          assert InsideImage(d, width, p);
          data[p] := ColorPixel(colors, alphaColor, raster[p]);
        }
        p := p + 1;
      }
      OffsetNextRow(width, y);
    }
    OffsetEnd(width, height);
  }

  // ---------------------------------------------------------------------
  // Interlaced first image

  /** Rank of the row of cell i: which stored raster row fills it. */
  function CellRank(width: nat, height: nat, i: nat): (k: nat)
    requires i < width * height
    ensures width > 0 && k < height
  {
    OffsetCovers(width, height, i);
    Interlace.RankBijection(height, i / width);
    Interlace.Rank(height, i / width)
  }

  /**
   * The raster byte that fills cell (y, x) of an interlaced image: column x
   * of the raster row stored at position Rank(height, y). It lies inside
   * the raster and in the same column as the cell.
   */
  function InterlacedSource(width: nat, height: nat, i: nat): (j: nat)
    requires i < width * height
    ensures j < width * height && j % width == i % width
  {
    var k := CellRank(width, height, i);
    OffsetCovers(width, height, i);
    OffsetInGrid(width, height, k, i % width);
    OffsetDivMod(width, k, i % width);
    Offset(width, k, i % width)
  }

  /** The cells whose row has rank Rank(height, y) are exactly the cells of row y. */
  lemma CellsOfRank(width: nat, height: nat, y: nat, i: nat)
    requires y < height && i < width * height
    requires CellRank(width, height, i) == Interlace.Rank(height, y)
    ensures Offset(width, y, 0) <= i < Offset(width, y + 1, 0)
  {
    OffsetCovers(width, height, i);
    var r, c := i / width, i % width;
    Interlace.RankBijection(height, r);
    Interlace.RankBijection(height, y);
    assert r == y;
    assert i == Offset(width, y, c);
    OffsetNextRow(width, y);
  }

  /** The row the interlace loop visits while k rows are consumed is the one of rank k. */
  lemma RowAtRank(z: nat, k: nat, y: nat, height: nat)
    requires z < 4 && y < height
    requires Interlace.PassStart(z, height) <= k <= Interlace.PassStart(z, height) + |Interlace.Pass(z, height)|
    requires Interlace.Pass(z, height)[k - Interlace.PassStart(z, height)..] == Interlace.PassRows(y, Interlace.PassJump(z), height)
    ensures k < height && Interlace.Rank(height, y) == k
  {
    var i := k - Interlace.PassStart(z, height);
    Interlace.PassRowsStep(y, Interlace.PassJump(z), height);
    assert Interlace.Pass(z, height)[i] == y;
    Interlace.OrderAtPass(height, z, i);
    Interlace.OrderLength(height);
    Interlace.RankAtOrder(height, k);
  }

  /** Pixel i of an interlaced image: the colour of the raster byte that fills it. */
  function InterlacedPixel(raster: seq<byte>, colors: seq<Rgb>, alphaColor: int, width: nat, height: nat, i: nat): Pixel
    requires RasterReadable(raster, colors, width * height) && i < width * height
  {
    ColorPixel(colors, alphaColor, raster[InterlacedSource(width, height, i)])
  }

  /**
   * The four interlace passes: raster rows are read strictly in order and
   * written to destination rows 0, 8, 16, ..., then 4, 12, ..., then
   * 2, 6, ..., then 1, 3, ....
   */
  method CompositeInterlaced(raster: seq<byte>, colors: seq<Rgb>, alphaColor: int, width: nat, height: nat)
    returns (data: array<Pixel>)
    requires RasterReadable(raster, colors, width * height)
    ensures data.Length == width * height
    ensures forall i :: 0 <= i < width * height ==>
      data[i] == InterlacedPixel(raster, colors, alphaColor, width, height, i)
  {
    data := new Pixel[width * height];
    var srcPtr := 0;
    ghost var k := 0;  // raster rows consumed so far
    for z := 0 to 4
      invariant k == Interlace.PassStart(z, height)
      invariant srcPtr == Offset(width, k, 0)
      invariant forall i :: 0 <= i < width * height && CellRank(width, height, i) < k ==>
        data[i] == InterlacedPixel(raster, colors, alphaColor, width, height, i)
    {
      var jump := Interlace.PassJump(z);
      var y := Interlace.PassOffset(z);
      while y < height
        invariant Interlace.PassStart(z, height) <= k <= Interlace.PassStart(z, height) + |Interlace.Pass(z, height)|
        invariant Interlace.Pass(z, height)[k - Interlace.PassStart(z, height)..] == Interlace.PassRows(y, jump, height)
        invariant srcPtr == Offset(width, k, 0)
        invariant forall i :: 0 <= i < width * height && CellRank(width, height, i) < k ==>
          data[i] == InterlacedPixel(raster, colors, alphaColor, width, height, i)
        decreases height - y
      {
        RowAtRank(z, k, y, height);
        srcPtr := CopyInterlacedRow(raster, colors, alphaColor, width, height, data, y, k, srcPtr);
        ghost var rest := Interlace.Pass(z, height)[k - Interlace.PassStart(z, height)..];
        Interlace.PassRowsStep(y, jump, height);
        assert Interlace.Pass(z, height)[k + 1 - Interlace.PassStart(z, height)..] == rest[1..];
        k := k + 1;
        y := y + jump;
      }
      Interlace.PassStartNext(z, height);
    }
    Interlace.OrderLength(height);
    Interlace.OrderLengthIsPassStart(height);
  }

  /**
   * One step of a pass: copy raster row k, starting at srcPtr, into
   * destination row y, the row of rank k; return the advanced raster pointer.
   */
  method CopyInterlacedRow(raster: seq<byte>, colors: seq<Rgb>, alphaColor: int, width: nat, height: nat,
                           data: array<Pixel>, y: nat, ghost k: nat, srcPtr: nat)
    returns (nextPtr: nat)
    requires RasterReadable(raster, colors, width * height) && data.Length == width * height
    requires y < height && Interlace.Rank(height, y) == k && k < height
    requires srcPtr == Offset(width, k, 0)
    modifies data
    ensures nextPtr == Offset(width, k + 1, 0)
    ensures forall i :: 0 <= i < width * height && CellRank(width, height, i) != k ==> data[i] == old(data[i])
    ensures forall i :: 0 <= i < width * height && CellRank(width, height, i) == k ==>
      data[i] == InterlacedPixel(raster, colors, alphaColor, width, height, i)
  {
    nextPtr := srcPtr;
    var dstPtr := width * y;
    for x := 0 to width
      invariant dstPtr == Offset(width, y, x) && nextPtr == Offset(width, k, x)
      invariant forall i :: 0 <= i < width * height && CellRank(width, height, i) != k ==> data[i] == old(data[i])
      invariant forall i :: 0 <= i < width * height && Offset(width, y, 0) <= i < dstPtr ==>
        data[i] == InterlacedPixel(raster, colors, alphaColor, width, height, i)
    {
      OffsetInGrid(width, height, y, x);
      OffsetInGrid(width, height, k, x);
      OffsetDivMod(width, y, x);
      assert InterlacedSource(width, height, dstPtr) == nextPtr;
      data[dstPtr] := ColorPixel(colors, alphaColor, raster[nextPtr]);
      dstPtr := dstPtr + 1;
      nextPtr := nextPtr + 1;
    }
    OffsetNextRow(width, y);
    OffsetNextRow(width, k);
    forall i | 0 <= i < width * height && CellRank(width, height, i) == k
      ensures Offset(width, y, 0) <= i < dstPtr
    {
      CellsOfRank(width, height, y, i);
    }
  }

  /**
   * Stored raster row k lands in destination row StoredRow(height, k)
   * (rows 0, 8, 16, ... first), column for column.
   */
  lemma StoredRowLandsInPlace(width: nat, height: nat, k: nat, x: nat)
    requires k < height && x < width
    ensures Offset(width, Interlace.StoredRow(height, k), x) < width * height
    ensures InterlacedSource(width, height, Offset(width, Interlace.StoredRow(height, k), x)) == Offset(width, k, x)
  {
    var y := Interlace.StoredRow(height, k);
    OffsetInGrid(width, height, y, x);
    OffsetDivMod(width, y, x);
  }

  /** With one or two rows the passes store the rows in screen order, so nothing moves. */
  lemma ShortImagesAreNotReordered(width: nat, height: nat, i: nat)
    requires height <= 2 && i < width * height
    ensures InterlacedSource(width, height, i) == i
  {
    OffsetCovers(width, height, i);
    var y := i / width;
    assert Interlace.PassRows(8, 8, height) == [];
    assert Interlace.Pass(0, height) == [0];
    assert Interlace.Pass(1, height) == [];
    if height == 2 {
      assert Interlace.Pass(2, height) == [];
      assert Interlace.PassRows(3, 2, height) == [];
      assert Interlace.Pass(3, height) == [1];
    }
    assert Interlace.Rank(height, y) == y;
  }

  /**
   * An image at the origin that fills the screen composites the same way on
   * the background path as on the full-screen path.
   */
  lemma SubImageAtOriginIsFullFrame(d: ImageDesc, raster: seq<byte>, bg: int, width: nat, height: nat, i: nat)
    requires d.left == 0 && d.top == 0 && d.width == width && d.height == height
    requires i < width * height <= |raster|
    ensures width > 0 && InsideImage(d, width, i)
    ensures SubImageIndex(d, raster, bg, width, i) == raster[i]
  {
    OffsetCovers(width, height, i);
  }

  /**
   * On the background path the raster pointer advances on every screen
   * cell, so an image narrower than the screen reads its second row from
   * raster byte `width` (the screen width) rather than `d.width`.
   */
  lemma SubImageReadsAtScreenOffset(d: ImageDesc, raster: seq<byte>, bg: int, width: nat, height: nat)
    requires d.left == 0 && d.top == 0 && 0 < d.width < width && 2 <= d.height <= height
    requires width * height <= |raster|
    ensures width < width * height
    ensures SubImageIndex(d, raster, bg, width, width) == raster[width]
  {
    OffsetDivMod(width, 1, 0);
    OffsetInGrid(width, height, 1, 0);
  }

  // ---------------------------------------------------------------------
  // The first frame of a parsed GIF

  /**
   * The parser's result holds at least one image. The decoder reads image 0
   * without checking, so the model assumes it exists.
   */
  predicate HasFirstImage(g: GifFile)
  {
    |g.savedImages| >= 1
  }

  /** Transparent index of the first image. */
  function FirstAlpha(g: GifFile): (alpha: int)
    requires HasFirstImage(g) && TransparencyReadable(g.savedImages[0].extensionBlocks)
    ensures -1 <= alpha < 256
  {
    TransparentIndex(g.savedImages[0].extensionBlocks)
  }

  /** Interlacing is decided by the descriptor of the image the parser read last. */
  predicate UsesInterlacedPath(g: GifFile)
  {
    g.image.interlace
  }

  predicate UsesFullFramePath(g: GifFile)
    requires HasFirstImage(g)
  {
    var d := g.savedImages[0].imageDesc;
    !g.image.interlace && g.sWidth == d.width && g.sHeight == d.height
  }

  /** Every read the compositor makes of the first image is in bounds. */
  predicate GifReadable(g: GifFile)
  {
    HasFirstImage(g)
    && ActiveColorMap(g).Some?
    && TransparencyReadable(g.savedImages[0].extensionBlocks)
    && var colors := ActiveColorMap(g).value;
       var raster := g.savedImages[0].rasterBits;
       var n := g.sWidth * g.sHeight;
       if UsesInterlacedPath(g) || UsesFullFramePath(g) then RasterReadable(raster, colors, n)
       else SubImageReadable(g.savedImages[0].imageDesc, raster, colors,
                             BackgroundIndex(g, FirstAlpha(g)), g.sWidth, g.sHeight)
  }

  /** Pixel i of the decoded first frame, by the path the decoder takes. */
  function FramePixel(g: GifFile, i: nat): Pixel
    requires GifReadable(g) && i < g.sWidth * g.sHeight
  {
    var colors := ActiveColorMap(g).value;
    var alpha := FirstAlpha(g);
    var raster := g.savedImages[0].rasterBits;
    var w, h := g.sWidth, g.sHeight;
    if UsesInterlacedPath(g) then InterlacedPixel(raster, colors, alpha, w, h, i)
    else if UsesFullFramePath(g) then ColorPixel(colors, alpha, raster[i])
    else
      OffsetCovers(w, h, i);
      ColorPixel(colors, alpha, SubImageIndex(g.savedImages[0].imageDesc, raster, BackgroundIndex(g, alpha), w, i))
  }

  /**
   * Decode the first frame into a fresh sWidth x sHeight ARGB buffer: pick
   * the colour map, the transparent and background indexes, then one of
   * the three compositing loops.
   */
  method DecodeFirstFrame(g: GifFile) returns (data: array<Pixel>)
    requires GifReadable(g)
    ensures data.Length == g.sWidth * g.sHeight
    ensures forall i :: 0 <= i < data.Length ==> data[i] == FramePixel(g, i)
  {
    var img := g.savedImages[0].imageDesc;
    var colors := ActiveColorMap(g).value;
    var alphaColor := GetTransparentColor(g.savedImages[0].extensionBlocks);
    var bgColor := BackgroundIndex(g, alphaColor);
    var raster := g.savedImages[0].rasterBits;
    if !g.image.interlace {
      if g.sWidth == img.width && g.sHeight == img.height {
        data := CompositeFullFrame(raster, colors, alphaColor, g.sWidth, g.sHeight);
      } else {
        data := CompositeSubImage(img, raster, colors, alphaColor, bgColor, g.sWidth, g.sHeight);
      }
    } else {
      data := CompositeInterlaced(raster, colors, alphaColor, g.sWidth, g.sHeight);
    }
  }

  /** Pixels outside the first image take the background entry; its alpha is 0 exactly when it is the transparent index. */
  lemma BackgroundPixel(g: GifFile, i: nat)
    requires GifReadable(g) && i < g.sWidth * g.sHeight
    requires !UsesInterlacedPath(g) && !UsesFullFramePath(g)
    requires g.sWidth > 0 && !InsideImage(g.savedImages[0].imageDesc, g.sWidth, i)
    ensures AlphaOf(FramePixel(g, i)) == if BackgroundIndex(g, FirstAlpha(g)) == FirstAlpha(g) then 0 else 255
    ensures g.sColorMap.None? && FirstAlpha(g) >= 0 ==> AlphaOf(FramePixel(g, i)) == 0
  {
    var colors := ActiveColorMap(g).value;
    var bg := BackgroundIndex(g, FirstAlpha(g));
    ColorPixelChannels(colors, FirstAlpha(g), bg);
  }
}
