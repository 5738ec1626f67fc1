/**
 * 32-bit ARGB pixels as the decoders store them: one native-endian word per
 * pixel holding alpha in the top byte, then red, green and blue.
 */
module Pixels {
  import opened Base

  /** An unsigned 32-bit word. */
  type Pixel = x: int | 0 <= x < 0x1_0000_0000

  function AlphaOf(p: Pixel): byte { p / 0x100 / 0x100 / 0x100 }
  function RedOf(p: Pixel): byte { p / 0x100 / 0x100 % 0x100 }
  function GreenOf(p: Pixel): byte { p / 0x100 % 0x100 }
  function BlueOf(p: Pixel): byte { p % 0x100 }

  /**
   * The word `alpha << 24 | red << 16 | green << 8 | blue`; each channel can
   * be read back unchanged from its own byte.
   */
  function Pack(alpha: byte, red: byte, green: byte, blue: byte): Pixel
  {
    alpha * 0x100_0000 + red * 0x1_0000 + green * 0x100 + blue
  }

  /** Each channel of a packed word reads back unchanged. */
  lemma PackChannels(alpha: byte, red: byte, green: byte, blue: byte)
    ensures AlphaOf(Pack(alpha, red, green, blue)) == alpha
    ensures RedOf(Pack(alpha, red, green, blue)) == red
    ensures GreenOf(Pack(alpha, red, green, blue)) == green
    ensures BlueOf(Pack(alpha, red, green, blue)) == blue
  {
  }

  /** A pixel is determined by its four channels. */
  lemma ChannelsDeterminePixel(p: Pixel, q: Pixel)
    requires AlphaOf(p) == AlphaOf(q) && RedOf(p) == RedOf(q)
    requires GreenOf(p) == GreenOf(q) && BlueOf(p) == BlueOf(q)
    ensures p == q
  {
    Unpack(p);
    Unpack(q);
    assert p == Pack(AlphaOf(q), RedOf(q), GreenOf(q), BlueOf(q));
  }

  /** Every word is the packing of its own four channels. */
  lemma Unpack(p: Pixel)
    ensures p == Pack(AlphaOf(p), RedOf(p), GreenOf(p), BlueOf(p))
  {
    var q1 := p / 0x100;
    var q2 := q1 / 0x100;
    assert p == q1 * 0x100 + BlueOf(p);
    assert q1 == q2 * 0x100 + GreenOf(p);
    assert q2 == AlphaOf(p) * 0x100 + RedOf(p);
  }

  const OPAQUE: byte := 255
  const TRANSPARENT: byte := 0
}
