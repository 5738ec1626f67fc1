/**
 * The part of the 2D surface library that the image decoder talks to:
 * status codes, pixel formats, the row-stride rule and image surfaces with
 * an optional mime attachment. Only what the decoder reads back is kept.
 */
module Cairo {
  import opened Base

  /** The library's status codes as far as the decoder distinguishes them. */
  datatype Status =
    | Success
    | NoMemory
    | ReadError
    | LibraryError   // any other failure a codec or the library reports

  /** 32-bit pixels with alpha, 32-bit pixels without alpha, 1-bit masks. */
  datatype Format = Argb32 | Rgb24 | A1

  function BitsPerPixel(format: Format): nat
  {
    match format
    case Argb32 => 32
    case Rgb24 => 32
    case A1 => 1
  }

  /** Rows are aligned to this many bytes (the size of a 32-bit word). */
  const STRIDE_ALIGNMENT: nat := 4

  /**
   * Row stride in bytes for `width` pixels: the bytes the pixels need,
   * rounded up to a multiple of STRIDE_ALIGNMENT.
   */
  function Stride(format: Format, width: nat): (stride: nat)
    ensures stride % STRIDE_ALIGNMENT == 0
    ensures stride * 8 >= BitsPerPixel(format) * width
    ensures stride < (BitsPerPixel(format) * width + 7) / 8 + STRIDE_ALIGNMENT
  {
    ((BitsPerPixel(format) * width + 7) / 8 + STRIDE_ALIGNMENT - 1) / STRIDE_ALIGNMENT * STRIDE_ALIGNMENT
  }

  lemma Argb32StrideIsFourBytesPerPixel(width: nat)
    ensures Stride(Argb32, width) == 4 * width
  {
  }

  /** Mime tag under which the original JPEG bytes are attached. */
  const MIME_TYPE_JPEG: string := "image/jpeg"

  datatype Mime = Mime(mimeType: string, bytes: seq<byte>)

  /**
   * An image surface, or the inert surface the library hands back when it
   * could not create one (it carries only the failure status).
   */
  datatype Surface =
    | ImageSurface(format: Format, width: nat, height: nat, stride: nat, mime: Option<Mime>)
    | ErrorSurface(status: Status)

  /**
   * A freshly created image surface of the requested size and format, with
   * no attachment: its rows are word-aligned and hold every pixel, and an
   * ARGB32 row is exactly four bytes per pixel.
   */
  function NewSurface(format: Format, width: nat, height: nat): (s: Surface)
    ensures s.ImageSurface? && s.format == format && s.width == width && s.height == height && s.mime.None?
    ensures s.stride == Stride(format, width)
    ensures s.stride % STRIDE_ALIGNMENT == 0 && s.stride * 8 >= BitsPerPixel(format) * width
    ensures format == Argb32 ==> s.stride == 4 * width
  {
    ImageSurface(format, width, height, Stride(format, width), None)
  }

  /** Bytes of attached mime data that the surface keeps alive. */
  function MimeBytes(s: Option<Surface>): nat
  {
    if s.Some? && s.value.ImageSurface? && s.value.mime.Some? then |s.value.mime.value.bytes| else 0
  }
}
