# node-canvas `Image`: loading and decoding, modelled in Dafny

This project models the image loader of node-canvas (`src/Image.cc`). An
`Image` is fed through its `src` property, either as a file path or as a
buffer of bytes. The loader then:

- sniffs the leading bytes to tell PNG, GIF and JPEG apart;
- hands the bytes to the matching decoder;
- composites GIF and JPEG pixels into a 32-bit ARGB buffer;
- in MIME data modes, keeps the original JPEG bytes attached to the surface;
- replaces an image the JPEG library fails on with a 1x1 fallback surface;
- finally runs `loaded` (which calls `onload` once) or `error` (which calls
  `onerror` once).

The modules follow the structure of the source file:

| module | file | what it holds |
|---|---|---|
| `Base` | base.dfy | bytes, `Option`, row-major offset arithmetic |
| `Cairo` | cairo.dfy | statuses, pixel formats, the stride rule, image surfaces with an optional MIME attachment |
| `Sniff` | sniff.dfy | `isJPEG` / `isGIF` / `isPNG` and the filename classifier `extension` |
| `Pixels` | pixels.dfy | packing of `alpha << 24 \| r << 16 \| g << 8 \| b` into an unsigned 32-bit word |
| `Readers` | readers.dfy | the PNG stream reader `readPNG` and the GIF memory reader `read_gif_from_memory` as classes with a cursor |
| `Interlace` | interlace.dfy | the four interlace passes (offsets 0, 4, 2, 1 and jumps 8, 8, 4, 2) as a permutation of rows |
| `Gif` | gif.dfy | the transparent-index search and the three compositing loops over arrays: full frame, sub-image with background, interlaced |
| `Jpeg` | jpeg.dfy | the per-scanline colour conversion (CMYK, RGB, greyscale, other) and the scanline loop, which stops at the first decoder error |
| `Dispatch` | dispatch.dfy | the data mode, the build configuration and the choice of decoder for a buffer or a file |
| `ImageEntity` | image.dfy | the `Image` class with its fields and the load pipeline, plus the pure outcome functions it is proved against |

The codec libraries (libpng inside cairo, giflib, libjpeg), the file system
and the allocator are not modelled. A `Host` value stands in for them. It
supplies:

- the files that exist and their contents;
- the read requests the PNG and GIF decoders issue;
- what each codec answers for the bytes it receives (the JPEG library answers
  separately for a file read through its stdio source and for bytes read
  through the memory source);
- whether allocations succeed.

A JPEG decoder error, which the source recovers from with
`setjmp`/`longjmp`, is part of that answer: a fault at the header or at
some scanline, with the library's message.

What a load produces is first defined on values: `LoadOutcome` gives the
status, the decoder error, the dimensions, the surface and the pixel data.
The `Image` methods are proved to leave exactly that outcome in their
fields. `SetSource` is proved to append exactly the script calls that
`Notifications` lists to the image's call log.

Where the behaviour differs from the prose description of the library, the
model follows the code:

- An exception thrown by `onload` is passed to `onerror`, and the image
  stays COMPLETE (src/Image.cc:411-416).
- A buffer load never enters LOADING. A failed file load stays in LOADING
  (src/Image.cc:226-252, 384-390).
- A GIF or JPEG load that runs out of memory keeps the dimensions it had
  already recorded (src/Image.cc:566-574, 749-760).
- A PNG that fails to decode leaves the library's error surface in place
  (src/Image.cc:292-300, 478-481).
- In image-and-MIME mode a JPEG decoder error still returns success from
  the fallback, so the source bytes are attached to the 1x1 fallback surface
  (src/Image.cc:275-279, 975-978).

## Model

| member | source | states |
|---|---|---|
| Cairo.Stride | src/Image.cc:657-662 | the row stride is a multiple of 4 bytes, holds every pixel's bits, and wastes less than one alignment unit |
| Cairo.Argb32StrideIsFourBytesPerPixel | src/Image.cc:751 | for ARGB32 the library's stride equals the `width * 4` the decoders use when they fill rows |
| Cairo.NewSurface | src/Image.cc:803-808 | a created surface has the requested format and size and no MIME data; its rows are word-aligned and hold every pixel's bits, and an ARGB32 row is exactly `4 * width` bytes, the size the decoders write |
| Sniff.IsJPEG | src/Image.cc:1013-1015 | bytes 0 and 1 are FF D8 |
| Sniff.IsGIF | src/Image.cc:1022-1024 | bytes 0 to 2 spell "GIF" |
| Sniff.IsPNG | src/Image.cc:1031-1033 | bytes 1 to 3 spell "PNG"; byte 0 is not examined |
| Sniff.Extension | src/Image.cc:998-1006 | tests the suffixes ".jpeg", ".gif", ".jpg" and ".png" in that order, each only when the name is long enough |
| Sniff.SignaturesDisjoint | src/Image.cc:1013-1033 | no byte prefix passes two of the PNG, GIF and JPEG tests, so the order they are tried in does not matter |
| Sniff.PngSniffIgnoresFirstByte | src/Image.cc:1031-1033 | the PNG test answers the same whatever byte 0 holds |
| Sniff.RealSignaturesRecognised | src/Image.cc:1013-1033 | the real PNG, GIF89a and JPEG signatures pass their tests, and four zero bytes pass none |
| Sniff.ExtensionBySuffix | src/Image.cc:998-1006 | the result is JPEG iff the name ends in ".jpeg" or ".jpg", GIF iff ".gif", PNG iff ".png", UNKNOWN iff none of them |
| Sniff.ExtensionCaseSensitiveAndShortNames | src/Image.cc:998-1006 | upper-case suffixes are not recognised, and a name shorter than four characters is UNKNOWN |
| Pixels.PackChannels | src/Image.cc:595-598 | alpha, red, green and blue each read back unchanged from the packed word |
| Pixels.ChannelsDeterminePixel | src/Image.cc:595-598 | two words with the same four channels are equal |
| Readers.ReadClosure.Read | src/Image.cc:307-312 | copies exactly the next `n` bytes and advances the cursor by `n`; the caller must keep it inside the buffer |
| Readers.FeedPng | src/Image.cc:292-312 | the requests of a PNG decode receive the buffer's prefix of their total length, in order |
| Readers.GifMemory.Read | src/Image.cc:508-514 | clamps the request to the bytes left, copies them from the cursor, advances by the same count and keeps `pos <= len` |
| Readers.FeedGif | src/Image.cc:508-514 | the requests of a GIF decode receive the buffer's prefix of their total, never past its end |
| Interlace.PassLengths | src/Image.cc:632-639 | the four passes visit ceil(h/8), ceil((h-4)/8), ceil((h-2)/4) and floor(h/2) rows |
| Interlace.OrderLength | src/Image.cc:638-651 | the passes together store exactly `height` rows |
| Interlace.OrderAtRank | src/Image.cc:638-651 | row `y` is stored at position `Rank(height, y)` |
| Interlace.RankAtOrder | src/Image.cc:638-651 | every stored row is below `height`, and its rank is its position |
| Interlace.EveryRowStoredOnce | src/Image.cc:638-651 | every destination row is written by exactly one stored row |
| Interlace.StoredRow | src/Image.cc:638-651 | the destination row of stored position `k` is a row whose rank is `k` |
| Interlace.RankBijection | src/Image.cc:638-651 | `Rank` is a bijection on the rows and `StoredRow` is its inverse |
| Gif.FirstTransparencyBlock | src/Image.cc:492-497 | the first Graphic Control Extension with its transparency flag set, with none before it |
| Gif.TransparentIndex | src/Image.cc:492-501 | -1 iff no block has the flag; otherwise byte 3 of the first such block, in 0..255 |
| Gif.GetTransparentColor | src/Image.cc:492-501 | the search loop returns `TransparentIndex` |
| Gif.ActiveColorMap | src/Image.cc:578-581 | the first image's local colour map takes precedence over the global one |
| Gif.ColorPixel | src/Image.cc:595-598 | the packed pixel of one palette index: alpha 0 at the transparent index, else 255, and the entry's colour |
| Gif.SubImageIndex | src/Image.cc:609-624 | the palette index of a cell: the background index outside the image rectangle, raster byte `y*width+x` inside it |
| Gif.BackgroundIndex | src/Image.cc:583-586 | a byte; the screen's background index truncated to a byte when a global map exists; without one, the background is the transparent colour exactly when the image has a transparent index, and index 0 otherwise |
| Gif.ColorPixelChannels | src/Image.cc:595-598 | alpha is 0 exactly at the transparent index and 255 otherwise; red, green and blue come from the colour-map entry |
| Gif.CompositeFullFrame | src/Image.cc:592-602 | cell `i` holds the colour of raster byte `i` |
| Gif.CompositeSubImage | src/Image.cc:603-627 | cells outside the image rectangle hold the background colour; cells inside it hold raster byte `y*width+x` |
| Gif.SubImageAtOriginIsFullFrame | src/Image.cc:592-627 | an image at the origin that fills the screen composites the same on both non-interlaced paths |
| Gif.SubImageReadsAtScreenOffset | src/Image.cc:621-624 | the source pointer advances on background cells too, so a narrow image's second row is read from raster byte `width` |
| Gif.CellRank | src/Image.cc:638-651 | the stored row that fills a cell is below `height` |
| Gif.InterlacedSource | src/Image.cc:638-651 | the raster byte for a cell is inside the raster and in the cell's column |
| Gif.CopyInterlacedRow | src/Image.cc:639-650 | writes one stored row into its destination row, consumes exactly `width` raster bytes and leaves every other row alone |
| Gif.CompositeInterlaced | src/Image.cc:628-652 | cell (y, x) holds the colour of column x of the raster row stored at `Rank(height, y)` |
| Gif.StoredRowLandsInPlace | src/Image.cc:638-651 | stored row `k` lands in destination row `StoredRow(height, k)`, column for column |
| Gif.ShortImagesAreNotReordered | src/Image.cc:638-651 | with one or two rows the interlaced path reads the raster in screen order |
| Gif.FirstAlpha | src/Image.cc:584 | the transparent index of the first image is -1 or a byte |
| Gif.DecodeFirstFrame | src/Image.cc:576-652 | picks the colour map, the transparent and background indexes and one of the three loops; every cell is `FramePixel` |
| Gif.BackgroundPixel | src/Image.cc:583-615 | a background cell is transparent iff the background index is the transparent one, which it always is without a global map when a transparent index exists |
| Jpeg.ScaleByKey | src/Image.cc:769-774 | `k * c / 255` in integer division never exceeds either byte |
| Jpeg.CmykChannel | src/Image.cc:769-774 | a CMYK channel is at most the key and at most the colour sample |
| Jpeg.SampleIndex | src/Image.cc:767 | sample `components * x + j` lies inside the scanline |
| Jpeg.ConvertPixel | src/Image.cc:765-797 | the pixel of column x: CMYK scaled by the key, grey or RGB copied, other colour spaces black, always opaque |
| Jpeg.SingleComponentIsGrey | src/Image.cc:776-779 | with one component, red, green and blue all hold the sample |
| Jpeg.MultiComponentCopied | src/Image.cc:780-784 | with three or more components, red, green and blue are copied from the first three samples |
| Jpeg.CmykScaledByKey | src/Image.cc:769-775 | no channel exceeds the key; a key of 255 copies the samples and a key of 0 gives black |
| Jpeg.UnconvertedSpacesAreBlack | src/Image.cc:786-790 | UNKNOWN, YCbCr and YCCK output black |
| Jpeg.ConvertedPixelIsOpaque | src/Image.cc:792-796 | every converted pixel has alpha 255 |
| Jpeg.FirstFault | src/Image.cc:737-763 | the first scanline that raises a decoder error, with every earlier scanline read |
| Jpeg.ConvertRow | src/Image.cc:765-797 | a converted row has one pixel per column |
| Jpeg.ConvertRowAt | src/Image.cc:765-797 | column x of a converted row is `ConvertPixel` of sample group x |
| Jpeg.ConvertScanline | src/Image.cc:764-797 | fills the row's cells with the converted row and leaves earlier rows alone |
| Jpeg.DecodedRows | src/Image.cc:762-798 | the pixels of `n` rows number `n * width` |
| Jpeg.DecodedRowsAt | src/Image.cc:762-798 | pixel (y, x) is the conversion of column x of scanline y |
| Jpeg.DecodeScanlines | src/Image.cc:737-798 | reports the message of the first faulting scanline; without a fault, the buffer holds every row converted in order |
| Jpeg.FaultAt | src/Image.cc:737-744 | a faulting scanline preceded only by good ones is the first fault |
| Jpeg.NoFault | src/Image.cc:762-798 | without faulting scanlines the loop reaches the last row |
| Jpeg.StreamFault | src/Image.cc:737-763 | a header fault gives its message; after a good header there is no fault iff every scanline reads |
| Jpeg.DecodedImage | src/Image.cc:752-798 | a decoded image has `width * height` pixels |
| Jpeg.DecodedImageAt | src/Image.cc:762-798 | pixel (y, x) of a decoded image is the conversion of column x of scanline y, and it is opaque |
| Dispatch.ToUint32 | src/Image.cc:148 | the conversion is below 2^32 and is the identity on 0..2^32-1 |
| Dispatch.NextDataMode | src/Image.cc:145-161 | a number whose 32-bit conversion is 1, 2 or 3 selects that mode; anything else keeps the mode |
| Dispatch.BufferRoute | src/Image.cc:260-285 | PNG, then GIF when compiled in, then JPEG when compiled in by data mode, else no decoder |
| Dispatch.FileRoute | src/Image.cc:447-471 | a file shorter than five bytes has no decoder; otherwise its first five bytes are sniffed in the buffer order |
| Dispatch.DataModeAssignment | src/Image.cc:145-161 | only numbers whose 32-bit conversion is 1, 2 or 3 change the mode, each to its own mode; 2^32+2 selects MIME and -1 changes nothing |
| Dispatch.JpegRoute | src/Image.cc:266-280 | a JPEG takes one of the three JPEG routes, and only the pixel route without MIME support |
| Dispatch.FileAndBufferAgree | src/Image.cc:447-471 | a file of five or more bytes takes the same route as a buffer holding those bytes |
| Dispatch.NoRouteIffNoSignature | src/Image.cc:260-285 | a buffer is refused iff no compiled-in test passes; PNG iff the PNG test passes; GIF iff GIF is compiled in and the GIF test passes |
| Dispatch.GifNeedsGifSupport | src/Image.cc:262-264 | without GIF support a GIF buffer is a read error in every data mode |
| ImageEntity.Empty | src/Image.cc:447-451 | a failure that records nothing keeps its status, has zero dimensions and no surface, data or decoder error, and is a well-formed outcome exactly when its status is a failure |
| ImageEntity.Fallback | src/Image.cc:933-942 | a decoder error yields success, the error's message and a 1x1 ARGB surface |
| ImageEntity.Attach | src/Image.cc:895-913 | with memory the source bytes are attached under the JPEG MIME type and the load succeeds; without it NO_MEMORY and the surface is unchanged |
| ImageEntity.JpegPixels | src/Image.cc:731-819 | the outcome is well formed; its decoder error is the header's or the first faulting scanline's, and none when allocation fails after the header |
| ImageEntity.JpegMimeOutcome | src/Image.cc:829-875 | the outcome is well formed and carries a decoder error exactly when the header faults |
| ImageEntity.JpegOutcome | src/Image.cc:266-280 | every JPEG route over bytes in memory yields a well-formed outcome |
| ImageEntity.JpegFileOutcome | src/Image.cc:949-989 | every JPEG route over a file yields a well-formed outcome; plain decoding reads through the stdio source, the other routes through a memory copy |
| ImageEntity.FrameImage | src/Image.cc:570-652 | the first frame has `sWidth * sHeight` pixels |
| ImageEntity.GifBufferOutcome | src/Image.cc:553-674 | a GIF in memory yields a well-formed outcome without decoder error |
| ImageEntity.GifFileOutcome | src/Image.cc:521-546 | a GIF file yields a well-formed outcome without decoder error |
| ImageEntity.PngResult | src/Image.cc:292-300 | the PNG load succeeds iff the library hands back an image; no pixel buffer is kept |
| ImageEntity.PngBufferOutcome | src/Image.cc:292-300 | a PNG buffer yields a well-formed outcome without decoder error |
| ImageEntity.BufferOutcome | src/Image.cc:260-285 | every buffer load yields a well-formed outcome |
| ImageEntity.FileOutcome | src/Image.cc:447-471 | every file load yields a well-formed outcome |
| ImageEntity.FileNamed | src/Image.cc:447-451 | loading a named file yields a well-formed outcome; a missing file or one shorter than five bytes is a read error with nothing recorded |
| ImageEntity.LoadOutcome | src/Image.cc:226-245 | every `src` value yields a well-formed outcome: success has an image surface; a decoder error has the 1x1 fallback |
| ImageEntity.CountsAppend | src/Image.cc:397-437 | the onload and onerror counts of two call sequences add up |
| ImageEntity.OnerrorCounts | src/Image.cc:426-437 | `error` calls onerror once when it is set and never calls onload |
| ImageEntity.NotificationsOfOneLoad | src/Image.cc:397-437 | one load calls onload exactly when it succeeded without a decoder error and a handler is set; it calls onerror at most once, for a failure, a decoder error or a throwing onload |
| ImageEntity.FileLoadsLikeBuffer | src/Image.cc:447-471 | with memory, a non-PNG file of five or more bytes loads exactly like the same bytes as a buffer, except that a JPEG decoded straight to pixels agrees only when the stdio source yields the same stream as the memory source |
| ImageEntity.JpegFileImageReadsStdioSource | src/Image.cc:952-956 | a JPEG file in image mode is decoded from the stream the stdio source yields, not from the memory source |
| ImageEntity.GifBufferDecodesFirstFrame | src/Image.cc:553-674 | a parsed GIF yields its first frame at screen size on an ARGB surface; without memory NO_MEMORY with the screen size kept |
| ImageEntity.JpegBufferDecodesScanlines | src/Image.cc:731-819 | a JPEG decoded without error has, at (y, x), the opaque conversion of column x of scanline y |
| ImageEntity.MimeModeKeepsSourceBytes | src/Image.cc:829-875 | MIME mode gives a 1-bit surface of the image's size with one bit per pixel and the source bytes attached |
| ImageEntity.ImageAndMimeAfterDecoderError | src/Image.cc:275-279 | after a decoder error in image-and-MIME mode the bytes are attached to the 1x1 fallback and the load succeeds, or fails with NO_MEMORY |
| ImageEntity.ImageAndMimeKeepsPixelsAndBytes | src/Image.cc:275-279 | in image-and-MIME mode a clean decode succeeds with the decoded pixels on an ARGB surface of the image's size and the source bytes attached as JPEG MIME data |
| ImageEntity.ImageAndMimeFailedDecodeUnattached | src/Image.cc:275-279 | in image-and-MIME mode a decode that fails is returned unchanged: NO_MEMORY, no surface, nothing attached |
| ImageEntity.Image.constructor | src/Image.cc:362-369 | a new image is DEFAULT with no surface, data, name, dimensions or handlers |
| ImageEntity.Image.SetDataMode | src/Image.cc:145-161 | the new mode is `NextDataMode` of the old mode and the value |
| ImageEntity.Image.SetOnload | src/Image.cc:329-334 | only a function replaces the onload handler |
| ImageEntity.Image.SetOnerror | src/Image.cc:351-356 | only a function replaces the onerror handler |
| ImageEntity.Image.ClearData | src/Image.cc:202-219 | no surface, no data, zero width, height and data length, no filename, DEFAULT, and the external memory returns to zero |
| ImageEntity.Image.Error | src/Image.cc:426-437 | appends the onerror call (and a fatal report if it throws) and disposes of onerror |
| ImageEntity.Image.Loaded | src/Image.cc:397-419 | dimensions and data length come from the surface; unless INVALID, the image becomes COMPLETE and onload is called once and disposed |
| ImageEntity.Image.CreateEmptyImageFallback | src/Image.cc:933-942 | a 1x1 ARGB surface and success |
| ImageEntity.Image.JpegFault | src/Image.cc:737-744 | reports the message through onerror, makes the image INVALID and installs the 1x1 fallback |
| ImageEntity.Image.AssignDataAsMime | src/Image.cc:895-913 | attaches a copy of the bytes as JPEG MIME data, replacing the old copy in the memory account, or fails with NO_MEMORY and changes nothing |
| ImageEntity.Image.DecodeJpegIntoSurface | src/Image.cc:731-819 | leaves exactly the outcome `JpegPixels` in the fields and reports a decoder error |
| ImageEntity.Image.DecodeJpegBufferIntoMimeSurface | src/Image.cc:829-875 | leaves exactly the outcome `JpegMimeOutcome` in the fields |
| ImageEntity.Image.LoadPngFromBuffer | src/Image.cc:292-300 | leaves the PNG result for the bytes the reader handed out |
| ImageEntity.Image.LoadPng | src/Image.cc:478-481 | leaves the PNG result for the file's bytes |
| ImageEntity.Image.LoadGifFromBuffer | src/Image.cc:553-674 | leaves exactly the outcome `GifBufferOutcome` in the fields |
| ImageEntity.Image.LoadGif | src/Image.cc:521-546 | leaves exactly the outcome `GifFileOutcome` in the fields |
| ImageEntity.Image.LoadJpeg | src/Image.cc:949-989 | leaves exactly the outcome `JpegFileOutcome` for the image's data mode |
| ImageEntity.Image.LoadJpegBuffer | src/Image.cc:266-280 | leaves exactly the outcome `JpegOutcome` for the image's data mode; a failed decode is not attached |
| ImageEntity.Image.LoadFromBuffer | src/Image.cc:260-285 | leaves exactly the outcome `BufferOutcome` in the fields |
| ImageEntity.Image.LoadSurface | src/Image.cc:447-471 | leaves exactly the outcome `FileNamed` in the fields |
| ImageEntity.Image.Load | src/Image.cc:384-390 | a load in progress is a read error that changes nothing; otherwise LOADING and the file's outcome |
| ImageEntity.Image.Settle | src/Image.cc:246-251 | calls `loaded` after success and `error` with the status after failure, with their effects on state, log and handlers |
| ImageEntity.Image.LoadSource | src/Image.cc:232-245 | remembers a path and loads it, loads a buffer, or yields a read error; leaves `LoadOutcome` in the fields |
| ImageEntity.Image.SetSource | src/Image.cc:226-252 | the fields hold `LoadOutcome`'s surface and data; the state is INVALID, COMPLETE, LOADING or DEFAULT as the outcome and the value dictate; the log grows by exactly `Notifications` |

## Left out

- The script-engine binding layer: `Initialize`, `New`, the getters, persistent handles and exception objects. Script callbacks appear as entries in a call log; an exception thrown by onerror becomes a `FatalException` entry.
- The codecs are not modelled. PNG decoding inside cairo, giflib's `DGifOpen`/`DGifSlurp` and libjpeg's header, decompression and source manager (src/Image.cc:683-723) are answers supplied by the `Host` value.
- ImageEntity.FileLoadsLikeBuffer: libjpeg's stdio source (src/Image.cc:954) and the memory source (src/Image.cc:683-691) are two independent `Host` answers, `jpegFile` and `jpeg`. How they relate is not modelled. On a stream truncated mid-scan the memory source raises `JERR_INPUT_EMPTY`, while the stdio source, by libjpeg's own behaviour, warns and inserts an end-of-image marker. So a plain JPEG decode is claimed to agree between file and buffer only when the two answers coincide.
- The `src` string is used as the file name unchanged. Its conversion by `String::AsciiValue` (src/Image.cc:235-237) to an 8-bit C string is not modelled, so names with characters outside ASCII are not distinguished the way the engine converts them.
- File I/O: `fopen`, `fread`, `fstat`, `fseek` and `ftell`. A file is either absent or a byte sequence, and the five-byte sniff read fails exactly when the file is shorter.
- Allocation: only the pixel buffers, the MIME placeholder buffer, the in-memory copy of a GIF or JPEG file and the MIME copy of the source bytes depend on the single `Host.memory` flag, and all of them in one load succeed or fail together. The JPEG decompressor (src/Image.cc:59-60, whose allocations the source never checks) and the 1x1 fallback surface of a decoder error (src/Image.cc:936) are always allocated in the model.
- Cairo surface creation and `cairo_surface_set_mime_data` are assumed to succeed once memory is available. Their own failure statuses are not modelled.
- The fallback surface's fill colour (floating-point painting) is not modelled; only its 1x1 ARGB size is.
- Unsigned 32-bit arithmetic in `read_gif_from_memory` and in the `malloc` sizes is not modelled. Sizes are unbounded integers.
- `external` (the memory reported to the script engine's garbage collector) is kept as a ghost counter.
- Re-entrant callbacks are left out: an onload or onerror handler cannot assign `src` or handlers while it runs.
- A data-mode value that is not an integer (NaN, fractions, infinities) is left out. Only integral numbers are modelled, through ToUint32.
- ImageEntity.Image.LoadFromBuffer: requires at least four bytes, because the sniffers read bytes 0..3 of whatever memory follows a shorter buffer.
- ImageEntity.Image.LoadPngFromBuffer: requires the decoder's reads to stay inside the buffer, because `readPNG` has no bounds check and reads past the end otherwise.
- Gif.DecodeFirstFrame: requires what `Gif.GifReadable` states, because the source checks none of it: at least one saved image exists (src/Image.cc:576 reads image 0); the first image or the screen has a colour map (src/Image.cc:579-581 may leave it NULL, and 596-598 dereference it); every Graphic Control Extension the search reaches has at least one byte, and the first one with the transparency flag at least four (src/Image.cc:496-497 read bytes 0 and 3); every palette index read is inside the colour map; on the full-screen and interlaced paths the raster holds `sWidth * sHeight` bytes, so an interlaced image smaller than the screen, whose raster the source reads past the end of (src/Image.cc:638-651), is not modelled; on the background path the raster covers every cell inside the image rectangle.
- Cairo.Stride: the stride formula of the surface library is written out rather than taken from the library.
