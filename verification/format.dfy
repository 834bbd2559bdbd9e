/** The framebuffer descriptor (`dazzle_framebuffer_t`) and the pixel-format
    converter (`__convert_color`) of the framebuffer backend. The framebuffer
    itself is the byte sequence at the descriptor's address, `height * pitch`
    bytes long; pixel `(x, y)` occupies the `bpp / 8` bytes starting at
    `y * pitch + x * (bpp / 8)`. */
module Format {

  import opened CInt

  datatype Descriptor = Descriptor(
    width: u32, height: u32, pitch: u32, bpp: u32,
    redMask: bv8, greenMask: bv8, blueMask: bv8, alphaMask: bv8,
    redShift: bv8, greenShift: bv8, blueShift: bv8, alphaShift: bv8)
  {
    /** Bytes per pixel, `bpp / 8` (integer division, as in C). */
    function Bypp(): nat
    {
      bpp / 8
    }

    /** Bytes of the framebuffer: `height` rows of `pitch` bytes. */
    function Size(): nat
    {
      height * pitch
    }

    /** Shifting a `uint64_t` by 64 or more is undefined in C. */
    predicate ShiftsValid()
    {
      redShift < 64 && greenShift < 64 && blueShift < 64 && alphaShift < 64
    }

    /** What the backend assumes of the descriptor it is given: a pixel is
        1 to 8 bytes (the colour is copied out of a `uint64_t`), a row fits
        in the pitch, byte offsets fit the `uint32_t` arithmetic that computes
        them, and the `int` counters of the fill loops (`2 * width` pixels of
        the clear pattern, row numbers) do not overflow. */
    predicate Valid()
    {
      && 1 <= Bypp() <= 8
      && width * Bypp() <= pitch
      && height * pitch < TWO32
      && 2 * width < TWO31
      && height < TWO31
      && ShiftsValid()
    }

    /** Byte offset of pixel `(x, y)`. */
    function Offset(x: int, y: int): int
    {
      y * pitch + x * Bypp()
    }
  }

  // ---------------------------------------------------------------------
  // Pixel-format conversion

  /** `__convert_color`: each channel byte of the packed colour (red in bits
      0-7, green 8-15, blue 16-23, alpha 24-31) is ANDed with the channel's
      mask and shifted left by the channel's shift; the four results are ORed. */
  function Convert(d: Descriptor, color: bv64): bv64
    requires d.ShiftsValid()
  {
    (((color & 0xFF) & (d.redMask as bv64)) << d.redShift)
    | ((((color & 0xFF00) >> 8) & (d.greenMask as bv64)) << d.greenShift)
    | ((((color & 0xFF_0000) >> 16) & (d.blueMask as bv64)) << d.blueShift)
    | ((((color & 0xFF00_0000) >> 24) & (d.alphaMask as bv64)) << d.alphaShift)
  }

  /** Colour bits above bit 31 never reach the device pixel. */
  lemma ConvertIgnoresHighBits(d: Descriptor, color: bv64)
    requires d.ShiftsValid()
    ensures Convert(d, color) == Convert(d, color & 0xFFFF_FFFF)
  {
  }

  /** All four channel masks pass a whole byte. */
  predicate FullMasks(d: Descriptor)
  {
    d.redMask == 0xFF && d.greenMask == 0xFF && d.blueMask == 0xFF && d.alphaMask == 0xFF
  }

  /** The XRGB8888 layout (red at 16, green at 8, blue at 0, alpha at 24):
      the little-endian pixel bytes are blue, green, red, alpha, and nothing
      lands above the low 32 bits. */
  lemma ConvertXrgb(d: Descriptor, color: bv64)
    requires FullMasks(d)
    requires d.redShift == 16 && d.greenShift == 8 && d.blueShift == 0 && d.alphaShift == 24
    ensures Byte64(Convert(d, color), 0) == Byte64(color, 2)
    ensures Byte64(Convert(d, color), 1) == Byte64(color, 1)
    ensures Byte64(Convert(d, color), 2) == Byte64(color, 0)
    ensures Byte64(Convert(d, color), 3) == Byte64(color, 3)
    ensures Convert(d, color) >> 32 == 0
  {
  }

  /** The RGBA8888 layout (red at 24, green at 16, blue at 8, alpha at 0):
      the little-endian pixel bytes are alpha, blue, green, red. */
  lemma ConvertRgba(d: Descriptor, color: bv64)
    requires FullMasks(d)
    requires d.redShift == 24 && d.greenShift == 16 && d.blueShift == 8 && d.alphaShift == 0
    ensures Byte64(Convert(d, color), 0) == Byte64(color, 3)
    ensures Byte64(Convert(d, color), 1) == Byte64(color, 2)
    ensures Byte64(Convert(d, color), 2) == Byte64(color, 1)
    ensures Byte64(Convert(d, color), 3) == Byte64(color, 0)
    ensures Convert(d, color) >> 32 == 0
  {
  }
}
