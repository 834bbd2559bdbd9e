/** The bitmap font loader of betterm: `load_font` recognises a PC Screen
    Font (PSF1 or PSF2) by its magic number and copies its glyph bitmaps,
    and `render_glyph` expands one glyph into a buffer of 32-bit pixels.
    Font files are byte strings; multi-byte header fields are read
    little-endian, as the packed header structs are on the targets. */
module Fonts {

  import opened CInt
  import opened Alloc
  import opened Optional
  import opened Arith
  import opened Seqs

  const Psf1Magic: nat := 0x0436
  const Psf2Magic: nat := 0x864A_B572

  /** Sizes of the packed `psf1_header` and `psf2_header`: the glyph
      bitmaps start right after them. */
  const Psf1HeaderSize: nat := 4
  const Psf2HeaderSize: nat := 32

  // ---------------------------------------------------------------------
  // Little-endian fields

  function Le16(data: seq<u8>, at: nat): (v: nat)
    requires at + 2 <= |data|
    ensures v < 0x1_0000
  {
    data[at] as int + 0x100 * (data[at + 1] as int)
  }

  function Le32(data: seq<u8>, at: nat): (v: u32)
    requires at + 4 <= |data|
  {
    data[at] as int + 0x100 * (data[at + 1] as int) + 0x1_0000 * (data[at + 2] as int) + 0x100_0000 * (data[at + 3] as int)
  }

  /** The four bytes a `uint32_t` field occupies in a file; reading them
      back gives the value. */
  function LeBytes32(v: u32): (b: seq<u8>)
    ensures |b| == 4 && Le32(b, 0) == v
  {
    var q1 := v / 0x100;
    var q2 := q1 / 0x100;
    DivSplit(v, 0x100);
    DivSplit(q1, 0x100);
    DivSplit(q2, 0x100);
    [v % 0x100, q1 % 0x100, q2 % 0x100, q2 / 0x100]
  }

  // ---------------------------------------------------------------------
  // Loading

  datatype Version = Psf1 | Psf2

  /** The format-independent fields of `font_t`. */
  datatype Header = Header(version: Version, glyphCount: u32, width: u32, height: u32, bytesPerGlyph: u32)
  {
    /** Where the glyph bitmaps start: right after the fixed-size header
        (the PSF2 `header_size` field is not consulted). */
    function DataOffset(): nat
    {
      if version == Psf1 then Psf1HeaderSize else Psf2HeaderSize
    }

    /** `glyph_count * psfx_bytes_per_glyph` in `uint32_t` arithmetic. */
    function DataSize(): u32
    {
      U32(glyphCount * bytesPerGlyph)
    }
  }

  /** `font_t`: an unrecognised file leaves every field but the format
      unset, so the model keeps nothing for it. */
  datatype Font = Invalid | Psf(header: Header, glyphData: seq<u8>)

  /** `load_font` reads the 2-byte PSF1 magic and the PSF1 mode and size
      bytes or the 4-byte PSF2 magic, and for PSF2 the whole 32-byte header. */
  predicate HeaderReadable(data: seq<u8>)
  {
    |data| >= Psf1HeaderSize
    && (Le16(data, 0) != Psf1Magic && Le32(data, 0) == Psf2Magic ==> |data| >= Psf2HeaderSize)
  }

  /** The header `load_font` extracts, `None` when neither magic matches.
      The PSF1 magic is tested first. */
  function ReadHeader(data: seq<u8>): (h: Option<Header>)
    requires HeaderReadable(data)
    ensures h.Some? && h.value.version == Psf1 <==> Le16(data, 0) == Psf1Magic
    ensures h.Some? && h.value.version == Psf2 <==> Le16(data, 0) != Psf1Magic && Le32(data, 0) == Psf2Magic
    ensures h.Some? && h.value.version == Psf1 ==>
      && h.value.glyphCount == (if data[2] % 2 == 1 then 512 else 256)
      && h.value.width == 8
      && h.value.height == h.value.bytesPerGlyph == data[3]
    ensures h.Some? && h.value.version == Psf2 ==>
      && h.value.glyphCount == Le32(data, 16)
      && h.value.bytesPerGlyph == Le32(data, 20)
      && h.value.height == Le32(data, 24)
      && h.value.width == Le32(data, 28)
  {
    if Le16(data, 0) == Psf1Magic then
      Some(Header(Psf1, if data[2] % 2 == 1 then 512 else 256, 8, data[3], data[3]))
    else if Le32(data, 0) == Psf2Magic then
      Some(Header(Psf2, Le32(data, 16), Le32(data, 28), Le32(data, 24), Le32(data, 20)))
    else
      None
  }

  /** What `load_font` needs of its input: a readable header, glyph bytes
      present for the copy, and (the allocation being unchecked) a buffer
      for them. */
  predicate Loadable(alloc: Allocator, data: seq<u8>)
  {
    && HeaderReadable(data)
    && (ReadHeader(data).Some? ==>
          var h := ReadHeader(data).value;
          && h.DataOffset() + h.DataSize() <= |data|
          && (h.DataSize() > 0 ==> alloc.NextSucceeds()))
  }

  /** `load_font`. The `size` argument is not consulted. */
  function LoadFont(alloc: Allocator, data: seq<u8>, size: u32): (r: (Font, Allocator))
    requires Loadable(alloc, data)
    ensures r.0.Invalid? <==> ReadHeader(data).None?
    ensures r.0.Psf? ==>
      && r.0.header == ReadHeader(data).value
      && |r.0.glyphData| == r.0.header.DataSize()
      && forall k | 0 <= k < |r.0.glyphData| :: r.0.glyphData[k] == data[r.0.header.DataOffset() + k]
    ensures r.1.failing == alloc.failing
    ensures r.1.calls == alloc.calls + (if r.0.Psf? then 1 else 0)
  {
    match ReadHeader(data)
    case None => (Invalid, alloc)
    case Some(h) => (Psf(h, data[h.DataOffset()..h.DataOffset() + h.DataSize()]), Malloc(alloc).next)
  }

  // ---------------------------------------------------------------------
  // Font files, the loader's partner

  /** The glyph count a PSF1 mode byte announces. */
  function Psf1GlyphCount(mode: u8): (n: u32)
    ensures n == 256 || n == 512
  {
    if mode % 2 == 1 then 512 else 256
  }

  /** A PSF1 file: magic, mode, glyph height, then the glyph bitmaps. */
  function EncodePsf1(mode: u8, charSize: u8, glyphs: seq<u8>): (data: seq<u8>)
    ensures |data| == Psf1HeaderSize + |glyphs|
  {
    [0x36, 0x04, mode, charSize] + glyphs
  }

  /** Loading a PSF1 file gives back its header fields and the glyph bytes
      its mode and height announce. */
  lemma LoadPsf1RoundTrip(alloc: Allocator, mode: u8, charSize: u8, glyphs: seq<u8>, size: u32)
    requires |glyphs| >= Psf1GlyphCount(mode) * charSize
    requires Psf1GlyphCount(mode) * charSize > 0 ==> alloc.NextSucceeds()
    ensures Loadable(alloc, EncodePsf1(mode, charSize, glyphs))
    ensures LoadFont(alloc, EncodePsf1(mode, charSize, glyphs), size).0
         == Psf(Header(Psf1, Psf1GlyphCount(mode), 8, charSize, charSize), glyphs[..Psf1GlyphCount(mode) * charSize])
  {
    var data := EncodePsf1(mode, charSize, glyphs);
    var n := Psf1GlyphCount(mode) * charSize;
    assert n < TWO32;
    assert Le16(data, 0) == Psf1Magic;
    assert data[4..4 + n] == glyphs[..n];
  }

  /** A PSF2 file: the 32-byte header (magic, version, header size, flags,
      then the fields of `h`), then the glyph bitmaps. */
  function EncodePsf2(h: Header, version: u32, flags: u32, glyphs: seq<u8>): (data: seq<u8>)
    ensures |data| == Psf2HeaderSize + |glyphs|
  {
    LeBytes32(Psf2Magic) + LeBytes32(version) + LeBytes32(Psf2HeaderSize) + LeBytes32(flags)
    + LeBytes32(h.glyphCount) + LeBytes32(h.bytesPerGlyph) + LeBytes32(h.height) + LeBytes32(h.width)
    + glyphs
  }

  /** Loading a PSF2 file gives back its header fields and the glyph bytes
      its count and glyph size announce. */
  lemma LoadPsf2RoundTrip(alloc: Allocator, h: Header, version: u32, flags: u32, glyphs: seq<u8>, size: u32)
    requires h.version == Psf2
    requires |glyphs| >= h.DataSize()
    requires h.DataSize() > 0 ==> alloc.NextSucceeds()
    ensures Loadable(alloc, EncodePsf2(h, version, flags, glyphs))
    ensures LoadFont(alloc, EncodePsf2(h, version, flags, glyphs), size).0 == Psf(h, glyphs[..h.DataSize()])
  {
    var data := EncodePsf2(h, version, flags, glyphs);
    assert data[0..4] == LeBytes32(Psf2Magic);
    assert data[16..20] == LeBytes32(h.glyphCount);
    assert data[20..24] == LeBytes32(h.bytesPerGlyph);
    assert data[24..28] == LeBytes32(h.height);
    assert data[28..32] == LeBytes32(h.width);
    assert Le32(data, 0) == Le32(data[0..4], 0);
    assert Le32(data, 16) == Le32(data[16..20], 0);
    assert Le32(data, 20) == Le32(data[20..24], 0);
    assert Le32(data, 24) == Le32(data[24..28], 0);
    assert Le32(data, 28) == Le32(data[28..32], 0);
    assert Le16(data, 0) != Psf1Magic;
    assert data[32..32 + h.DataSize()] == glyphs[..h.DataSize()];
  }

  // ---------------------------------------------------------------------
  // Rendering

  /** `glyph_t`: `buffer` is `None` for a NULL buffer. */
  datatype Glyph = Glyph(buffer: Option<seq<u32>>, width: u32, height: u32)

  function Pow2(n: nat): (p: nat)
    ensures p >= 1
  {
    if n == 0 then 1 else 2 * Pow2(n - 1)
  }

  /** `(b >> (7 - k)) & 1`: bit `k` of a byte counted from the most
      significant end. */
  predicate BitFromLeft(b: nat, k: nat)
    requires k < 8
  {
    b / Pow2(7 - k) % 2 == 1
  }

  /** `width_bytes`: bytes per bitmap row, `ceil(width / 8)`, stored in a
      `uint8_t`. */
  function WidthBytes(w: u32): (wb: u8)
    ensures w <= 2040 ==> wb == (w + 7) / 8
  {
    U8(if w % 8 == 0 then w / 8 else w / 8 + 1)
  }

  /** Where the byte holding pixel `(i, j)` of glyph `c` lies in the glyph
      data: `c * psfx_bytes_per_glyph` and `i * width_bytes + j / 8` are
      both `uint32_t` expressions. */
  function BitmapIndex(h: Header, c: u32, i: nat, j: nat): nat
  {
    U32(c * h.bytesPerGlyph) + U32(i * WidthBytes(h.width) + j / 8)
  }

  /** What `render_glyph` needs: the pixel buffer's size and indices fit
      `uint32_t`, and every bitmap byte it reads is inside the glyph data. */
  predicate Renderable(f: Font, c: u32)
  {
    f.Psf? ==>
      && f.header.width * f.header.height < TWO32
      && forall i, j | 0 <= i < f.header.height && 0 <= j < f.header.width ::
           BitmapIndex(f.header, c, i, j) < |f.glyphData|
  }

  /** Pixel `(i, j)` of glyph `c`: the colour when its bitmap bit is set, 0
      otherwise. */
  function GlyphPixel(f: Font, c: u32, color: u32, i: nat, j: nat): u32
    requires f.Psf? && Renderable(f, c)
    requires i < f.header.height && j < f.header.width
  {
    if BitFromLeft(f.glyphData[BitmapIndex(f.header, c, i, j)], j % 8) then color else 0
  }

  /** Row `i` of glyph `c` as rendered. */
  function GlyphRow(f: Font, c: u32, color: u32, i: nat): (r: seq<u32>)
    requires f.Psf? && Renderable(f, c) && i < f.header.height
    ensures |r| == f.header.width
  {
    seq(f.header.width, j requires 0 <= j < f.header.width => GlyphPixel(f, c, color, i, j))
  }

  /** All rows of glyph `c` as rendered. */
  function GlyphRows(f: Font, c: u32, color: u32): (rows: seq<seq<u32>>)
    requires f.Psf? && Renderable(f, c)
    ensures |rows| == f.header.height && Uniform(rows, f.header.width)
  {
    seq(f.header.height, i requires 0 <= i < f.header.height => GlyphRow(f, c, color, i))
  }

  /** A pixel buffer holding glyph `c`: `width * height` pixels, pixel
      `(i, j)` at index `i * width + j`. */
  predicate Rendered(f: Font, c: u32, color: u32, buf: seq<u32>)
    requires f.Psf? && Renderable(f, c)
  {
    && |buf| == f.header.width * f.header.height
    && forall i, j | 0 <= i < f.header.height && 0 <= j < f.header.width ::
         i * f.header.width + j < |buf| && buf[i * f.header.width + j] == GlyphPixel(f, c, color, i, j)
  }

  /** The rows laid end to end hold the glyph: `width * height` pixels,
      pixel `(i, j)` at index `i * width + j`. */
  lemma RowsRendered(f: Font, c: u32, color: u32)
    requires f.Psf? && Renderable(f, c)
    ensures Rendered(f, c, color, Concat(GlyphRows(f, c, color)))
  {
    var w, h := f.header.width, f.header.height;
    assert |Concat(GlyphRows(f, c, color))| == w * h by {
      ConcatLength(GlyphRows(f, c, color), w);
    }
    forall i, j | 0 <= i < h && 0 <= j < w
      ensures i * w + j < |Concat(GlyphRows(f, c, color))|
      ensures Concat(GlyphRows(f, c, color))[i * w + j] == GlyphPixel(f, c, color, i, j)
    {
      RowPixel(f, c, color, i, j);
    }
  }

  lemma RowPixel(f: Font, c: u32, color: u32, i: nat, j: nat)
    requires f.Psf? && Renderable(f, c)
    requires i < f.header.height && j < f.header.width
    ensures i * f.header.width + j < |Concat(GlyphRows(f, c, color))|
    ensures Concat(GlyphRows(f, c, color))[i * f.header.width + j] == GlyphPixel(f, c, color, i, j)
  {
    var rows := GlyphRows(f, c, color);
    ConcatAt(rows, f.header.width, i, j);
    assert rows[i] == GlyphRow(f, c, color, i);
  }

  /** `render_glyph`: for an unrecognised font, `{NULL, 0, 0}` and no
      allocation; for a PSF font, a `width * height` buffer filled row by
      row, pixel `(i, j)` at index `i * width + j`. The `size` argument is
      not consulted. */
  method RenderGlyph(font: Font, alloc: Allocator, c: u32, size: u32, color: u32)
    returns (g: Glyph, next: Allocator)
    requires Renderable(font, c)
    requires font.Psf? && font.header.width * font.header.height > 0 ==> alloc.NextSucceeds()
    ensures font.Invalid? ==> g == Glyph(None, 0, 0) && next == alloc
    ensures font.Psf? ==>
      && g.width == font.header.width && g.height == font.header.height
      && next == Malloc(alloc).next
      && (g.buffer.Some? <==> alloc.NextSucceeds())
    ensures font.Psf? && g.buffer.Some? ==> Rendered(font, c, color, g.buffer.value)
  {
    if font.Invalid? {
      return Glyph(None, 0, 0), alloc;
    }
    var w: nat := font.header.width;
    var h: nat := font.header.height;
    var a := Malloc(alloc);
    next := a.next;
    if !a.ok {
      return Glyph(None, w, h), next;
    }
    ghost var rows := GlyphRows(font, c, color);
    var buf: seq<u32> := [];
    var i: nat := 0;
    while i < h
      invariant i <= h
      invariant buf == Concat(rows[..i])
    {
      var row := RenderRow(font, c, color, i);
      ConcatStep(rows, i);
      buf := buf + row;
      i := i + 1;
    }
    assert rows[..h] == rows;
    RowsRendered(font, c, color);
    g := Glyph(Some(buf), w, h);
  }

  /** The inner loop of `render_glyph`: row `i`, pixel by pixel. */
  method RenderRow(font: Font, c: u32, color: u32, i: nat) returns (row: seq<u32>)
    requires font.Psf? && Renderable(font, c) && i < font.header.height
    ensures row == GlyphRow(font, c, color, i)
  {
    ghost var want := GlyphRow(font, c, color, i);
    row := [];
    var j: nat := 0;
    while j < font.header.width
      invariant j <= font.header.width
      invariant row == want[..j]
    {
      var px := if BitFromLeft(font.glyphData[BitmapIndex(font.header, c, i, j)], j % 8) then color else 0;
      assert want[..j + 1] == want[..j] + [px];
      row := row + [px];
      j := j + 1;
    }
    assert want[..font.header.width] == want;
  }

  // ---------------------------------------------------------------------
  // Glyph bitmaps, the renderer's partner

  /** The value of a string of bits, most significant first. */
  function PackBits(bits: seq<bool>): (v: nat)
    ensures v < Pow2(|bits|)
  {
    if bits == [] then 0
    else 2 * PackBits(bits[..|bits| - 1]) + (if bits[|bits| - 1] then 1 else 0)
  }

  lemma {:induction false} PackBitsSplit(p: seq<bool>, s: seq<bool>)
    ensures PackBits(p + s) == PackBits(p) * Pow2(|s|) + PackBits(s)
    decreases |s|
  {
    if s == [] {
      assert p + s == p;
    } else {
      var s' := s[..|s| - 1];
      var bit := if s[|s| - 1] then 1 else 0;
      assert (p + s)[..|p + s| - 1] == p + s';
      PackBitsSplit(p, s');
      assert PackBits(p + s) == 2 * PackBits(p + s') + bit;
      assert PackBits(s) == 2 * PackBits(s') + bit;
      Horner(PackBits(p), Pow2(|s'|), PackBits(s'), bit);
    }
  }

  lemma Horner(a: int, m: int, x: int, bit: int)
    ensures 2 * (a * m + x) + bit == a * (2 * m) + (2 * x + bit)
  {
  }

  /** Bit `k` from the left of a packed string of bits is the `k`-th bit. */
  lemma {:induction false} PackBitsBit(bits: seq<bool>, k: nat)
    requires k < |bits|
    ensures PackBits(bits) / Pow2(|bits| - 1 - k) % 2 == (if bits[k] then 1 else 0)
  {
    var init := bits[..|bits| - 1];
    if k == |bits| - 1 {
      PackBitsLast(bits);
    } else {
      PackBitsBit(init, k);
      PackBitsShift(bits, k);
    }
  }

  /** The last bit is the lowest. */
  lemma PackBitsLast(bits: seq<bool>)
    requires |bits| > 0
    ensures PackBits(bits) / Pow2(0) % 2 == (if bits[|bits| - 1] then 1 else 0)
  {
    var last := if bits[|bits| - 1] then 1 else 0;
    var v := PackBits(bits);
    assert v / Pow2(0) == v;
    assert v == PackBits(bits[..|bits| - 1]) * 2 + last;
    DivModOf(PackBits(bits[..|bits| - 1]), 2, last);
  }

  /** Below the last bit, bit `k` of a string is bit `k` of the string
      without its last bit. */
  lemma PackBitsShift(bits: seq<bool>, k: nat)
    requires k < |bits| - 1
    ensures PackBits(bits) / Pow2(|bits| - 1 - k) == PackBits(bits[..|bits| - 1]) / Pow2(|bits| - 2 - k)
  {
    var init := bits[..|bits| - 1];
    var last := if bits[|bits| - 1] then 1 else 0;
    var m := Pow2(|init| - 1 - k);
    assert PackBits(bits) == PackBits(init) * 2 + last;
    assert Pow2(|bits| - 1 - k) == 2 * m;
    HalveDiv(PackBits(init), last, m);
  }

  /** Dropping the low bit and halving the divisor keep the quotient. */
  lemma HalveDiv(a: nat, b: nat, m: nat)
    requires b < 2 && m >= 1
    ensures (a * 2 + b) / (2 * m) == a / m
  {
    var q, r := a / m, a % m;
    assert a * 2 + b == q * (2 * m) + (2 * r + b);
    DivModOf(q, 2 * m, 2 * r + b);
  }

  /** Byte `t` of a bitmap row: pixels `8t .. 8t+7`, the leftmost in the
      most significant bit, pixels past the row's end clear. */
  function PackByte(row: seq<bool>, t: nat): (b: u8)
  {
    PackBits(seq(8, k requires 0 <= k < 8 => 8 * t + k < |row| && row[8 * t + k]))
  }

  /** A row of pixels as `wb` bitmap bytes. */
  function PackRow(row: seq<bool>, wb: nat): (r: seq<u8>)
    ensures |r| == wb
  {
    seq(wb, t requires 0 <= t < wb => PackByte(row, t))
  }

  /** A glyph's bitmap: its rows one after the other, `wb` bytes each. */
  function PackGlyph(bitmap: seq<seq<bool>>, wb: nat): (g: seq<u8>)
  {
    Concat(seq(|bitmap|, i requires 0 <= i < |bitmap| => PackRow(bitmap[i], wb)))
  }

  lemma PackGlyphAt(bitmap: seq<seq<bool>>, wb: nat, i: nat, t: nat)
    requires i < |bitmap| && t < wb
    ensures |PackGlyph(bitmap, wb)| == |bitmap| * wb
    ensures i * wb + t < |bitmap| * wb
    ensures PackGlyph(bitmap, wb)[i * wb + t] == PackByte(bitmap[i], t)
  {
    ConcatAt(seq(|bitmap|, i requires 0 <= i < |bitmap| => PackRow(bitmap[i], wb)), wb, i, t);
  }

  /** The number of bitmap bytes of one glyph: `height` rows of
      `width_bytes` bytes. */
  function GlyphBytes(h: Header): nat
  {
    h.height * WidthBytes(h.width)
  }

  /** The byte `render_glyph` reads for pixel `(i, j)` is byte `j / 8` of
      the packed row `i`. */
  lemma GlyphByteOf(f: Font, c: u32, bitmap: seq<seq<bool>>, i: nat, j: nat)
    requires f.Psf?
    requires f.header.width <= 2040 && GlyphBytes(f.header) < TWO32
    requires |bitmap| == f.header.height
    requires var base := U32(c * f.header.bytesPerGlyph);
      && base + GlyphBytes(f.header) <= |f.glyphData|
      && f.glyphData[base..base + GlyphBytes(f.header)] == PackGlyph(bitmap, WidthBytes(f.header.width))
    requires i < f.header.height && j < f.header.width
    ensures BitmapIndex(f.header, c, i, j) < |f.glyphData|
    ensures f.glyphData[BitmapIndex(f.header, c, i, j)] == PackByte(bitmap[i], j / 8)
  {
    var wb: nat := WidthBytes(f.header.width);
    var base := U32(c * f.header.bytesPerGlyph);
    var t := j / 8;
    var k := i * wb + t;
    PackGlyphAt(bitmap, wb, i, t);
    RowByteInGlyph(f.header, i, j);
    assert f.glyphData[base..base + GlyphBytes(f.header)][k] == f.glyphData[base + k];
  }

  /** Byte `j / 8` of row `i` lies inside the glyph, so its `uint32_t`
      offset does not wrap. */
  lemma RowByteInGlyph(h: Header, i: nat, j: nat)
    requires h.width <= 2040 && GlyphBytes(h) < TWO32
    requires i < h.height && j < h.width
    ensures i * WidthBytes(h.width) + j / 8 < GlyphBytes(h)
    ensures U32(i * WidthBytes(h.width) + j / 8) == i * WidthBytes(h.width) + j / 8
  {
    var wb := WidthBytes(h.width);
    assert j / 8 < wb by {
      DivSplit(j, 8);
      DivSplit(h.width + 7, 8);
    }
    MulLe(i + 1, h.height, wb);
    MulDistrib(i, 1, wb);
    MulNonNeg(i, wb);
  }

  /** The renderer draws exactly the bitmap the font holds: when glyph `c`'s
      bytes are the packed rows of a `height` by `width` bitmap, pixel
      `(i, j)` is the colour exactly where the bitmap is set. */
  lemma RenderDrawsBitmap(f: Font, c: u32, color: u32, bitmap: seq<seq<bool>>, i: nat, j: nat)
    requires f.Psf? && Renderable(f, c)
    requires f.header.width <= 2040 && GlyphBytes(f.header) < TWO32
    requires |bitmap| == f.header.height
    requires forall r | 0 <= r < |bitmap| :: |bitmap[r]| == f.header.width
    requires var base := U32(c * f.header.bytesPerGlyph);
      && base + GlyphBytes(f.header) <= |f.glyphData|
      && f.glyphData[base..base + GlyphBytes(f.header)] == PackGlyph(bitmap, WidthBytes(f.header.width))
    requires i < f.header.height && j < f.header.width
    ensures GlyphPixel(f, c, color, i, j) == if bitmap[i][j] then color else 0
  {
    GlyphByteOf(f, c, bitmap, i, j);
    PackByteBit(bitmap[i], j);
  }

  /** Pixel `j` of a row is bit `j % 8` from the left of the row's byte `j / 8`. */
  lemma PackByteBit(row: seq<bool>, j: nat)
    requires j < |row|
    ensures BitFromLeft(PackByte(row, j / 8), j % 8) <==> row[j]
  {
    var t := j / 8;
    var bits := seq(8, k requires 0 <= k < 8 => 8 * t + k < |row| && row[8 * t + k]);
    PackBitsBit(bits, j % 8);
    assert bits[j % 8] == row[j];
  }
}
