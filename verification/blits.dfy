/** The blitable case of `dazzle_fb_draw_element`. The element's buffer
    holds `uint32_t` pixels in the packed colour layout; the first draw
    converts them into a newly allocated buffer in the device layout and
    marks the element translated, and every draw copies `height` rows of
    `width * bypp` bytes from the buffer to `(x, y)` with no bounds check. */
module Blits {

  import opened CInt
  import opened Arith
  import opened Optional
  import opened Alloc
  import opened Memory
  import opened Format
  import opened Pixels

  /** A blitable element: position, size, whether the buffer is already in
      the device layout, and the buffer's pixels. */
  datatype Blit = Blit(x: u32, y: u32, w: u32, h: u32, translated: bool, buffer: seq<bv32>)

  /** `(uint32_t)__convert_color(fb, col)` for one source pixel. */
  function DevicePixel(d: Descriptor, v: bv32): bv32
    requires d.ShiftsValid()
  {
    (Convert(d, v as bv64) & 0xFFFF_FFFF) as bv32
  }

  /** `width * height`, the number of pixels converted. */
  function PixelCount(b: Blit): u32
  {
    U32(b.w * b.h)
  }

  /** `width * height * bypp`, the bytes requested for the converted buffer. */
  function BlockSize(d: Descriptor, b: Blit): u32
  {
    U32(PixelCount(b) * d.Bypp())
  }

  /** The conversion loop has defined behaviour: it converts no pixel, or
      the block was allocated, the source holds every pixel read and the
      block holds the four bytes written per pixel. */
  predicate TranslationDefined(d: Descriptor, b: Blit, gotBlock: bool)
  {
    PixelCount(b) == 0
    || (gotBlock && PixelCount(b) <= |b.buffer| && 4 * PixelCount(b) <= BlockSize(d, b))
  }

  /** The conversion step: an untranslated element gets a new buffer of the
      converted pixels and is marked translated; a translated one is left
      alone and nothing is allocated. */
  function Translate(d: Descriptor, alloc: Allocator, b: Blit): (r: Outcome<(Blit, Allocator)>)
    requires d.Valid()
    ensures b.translated ==> r == Done((b, alloc))
    ensures !b.translated ==> (r.Fault? <==> !TranslationDefined(d, b, alloc.NextSucceeds()))
    ensures r.Done? && !b.translated ==>
      var (b', alloc') := r.value;
      && b' == b.(translated := true, buffer := b'.buffer)
      && |b'.buffer| == PixelCount(b)
      && (forall i | 0 <= i < |b'.buffer| :: b'.buffer[i] == DevicePixel(d, b.buffer[i]))
      && alloc' == alloc.Step()
  {
    if b.translated then Done((b, alloc))
    else
      var m := Malloc(alloc);
      var n := PixelCount(b);
      if !TranslationDefined(d, b, m.ok) then Fault
      else Done((b.(translated := true, buffer := seq(n, i requires 0 <= i < n => DevicePixel(d, b.buffer[i]))), m.next))
  }

  /** Conversion happens once: translating a translated element changes
      nothing and allocates nothing, so a second draw does not convert the
      already converted pixels again. */
  lemma TranslateOnce(d: Descriptor, alloc: Allocator, b: Blit)
    requires d.Valid()
    ensures Translate(d, alloc, b).Done? ==>
      var (b', alloc') := Translate(d, alloc, b).value;
      b'.translated && Translate(d, alloc', b') == Done((b', alloc'))
  {
  }

  /** With the identity layout (red in byte 0 through alpha in byte 3, full
      masks) conversion leaves every pixel as it was. */
  lemma IdentityLayoutKeepsPixels(d: Descriptor, alloc: Allocator, b: Blit)
    requires d.Valid() && FullMasks(d)
    requires d.redShift == 0 && d.greenShift == 8 && d.blueShift == 16 && d.alphaShift == 24
    requires !b.translated && Translate(d, alloc, b).Done?
    ensures Translate(d, alloc, b).value.0.buffer == b.buffer[..PixelCount(b)]
  {
    var b' := Translate(d, alloc, b).value.0;
    forall i | 0 <= i < |b'.buffer| ensures b'.buffer[i] == b.buffer[i] {
      ConvertIdentity(d, b.buffer[i]);
    }
  }

  lemma ConvertIdentity(d: Descriptor, v: bv32)
    requires FullMasks(d)
    requires d.redShift == 0 && d.greenShift == 8 && d.blueShift == 16 && d.alphaShift == 24
    ensures DevicePixel(d, v) == v
  {
  }

  // ---------------------------------------------------------------------
  // Copying rows

  /** Byte offset in the buffer of row `i`: `i * width * bypp`. */
  function SourceOffset(d: Descriptor, b: Blit, i: nat): u32
  {
    U32(U32(i * b.w) * d.Bypp())
  }

  /** Byte offset in the framebuffer of row `i`:
      `(y + i) * pitch + x * bypp`, each product in `uint32_t`. */
  function TargetOffset(d: Descriptor, b: Blit, i: nat): nat
  {
    U32(U32(b.y + i) * d.pitch) + U32(b.x * d.Bypp())
  }

  /** Bytes copied per row: `width * bypp`. */
  function RowBytes(d: Descriptor, b: Blit): u32
  {
    U32(b.w * d.Bypp())
  }

  /** Row `i`'s copy reads inside the buffer and writes inside the frame. */
  predicate RowDefined(d: Descriptor, b: Blit, i: nat)
  {
    && SourceOffset(d, b, i) + RowBytes(d, b) <= 4 * |b.buffer|
    && TargetOffset(d, b, i) + RowBytes(d, b) <= d.Size()
  }

  predicate RowsDefined(d: Descriptor, b: Blit)
  {
    forall i | 0 <= i < b.h :: RowDefined(d, b, i)
  }

  /** The copy of row `i`. */
  function RowWrite(d: Descriptor, b: Blit, i: nat): (w: Write)
    requires RowDefined(d, b, i)
    ensures w.FitsIn(d.Size())
  {
    var from := SourceOffset(d, b, i);
    Write(TargetOffset(d, b, i), Image32(b.buffer)[from .. from + RowBytes(d, b)])
  }

  /** The copies of the blit, row 0 first. */
  function BlitWrites(d: Descriptor, b: Blit): (ws: seq<Write>)
    requires RowsDefined(d, b)
    ensures AllFit(ws, d.Size())
  {
    seq(b.h, i requires 0 <= i < b.h => RowWrite(d, b, i))
  }

  // ---------------------------------------------------------------------
  // What a blit on the screen does to the pixels

  /** A blit of 32-bit pixels lying on the screen, with a buffer holding
      at least `width * height` pixels. */
  predicate OnScreen(d: Descriptor, b: Blit)
  {
    d.Bypp() == 4 && b.x + b.w <= d.width && b.y + b.h <= d.height && b.w * b.h <= |b.buffer|
  }

  /** On the screen, none of the `uint32_t` offsets wraps and every row's
      copy is defined. */
  lemma OnScreenOffsets(d: Descriptor, b: Blit, i: nat)
    requires d.Valid() && OnScreen(d, b) && i < b.h
    ensures SourceOffset(d, b, i) == 4 * (i * b.w)
    ensures TargetOffset(d, b, i) == (b.y + i) * d.pitch + 4 * b.x
    ensures RowBytes(d, b) == 4 * b.w
    ensures RowDefined(d, b, i)
  {
    BlitArith(b.x, b.y, b.w, b.h, i, d.width, d.height, d.pitch, |b.buffer|);
    var iw, row := i * b.w, (b.y + i) * d.pitch;
    assert d.Bypp() == 4;
    assert U32(iw) == iw;
    assert U32(iw * 4) == 4 * iw;
    assert U32(b.y + i) == b.y + i;
    assert U32(row) == row;
    assert U32(b.x * 4) == 4 * b.x;
    assert U32(b.w * 4) == 4 * b.w;
  }

  /** The offset bounds behind `OnScreenOffsets`, on plain integers. */
  lemma BlitArith(x: nat, y: nat, w: nat, h: nat, i: nat, width: nat, height: nat, pitch: nat, n: nat)
    requires 4 * width <= pitch && height * pitch < TWO32
    requires x + w <= width && y + h <= height && h * w <= n && i < h
    ensures 4 * (i * w) + 4 * w <= 4 * n
    ensures 4 * (i * w) + 4 * w < TWO32
    ensures (y + i) * pitch + 4 * (x + w) <= height * pitch
    ensures 0 <= i * w && 0 <= (y + i) * pitch
  {
    MulNonNeg(i, w);
    MulNonNeg(y + i, pitch);
    RowBound(i, h, w);
    RowBound(y + i, height, pitch);
    assert h * w <= height * w by { MulLe(h, height, w); }
    assert 4 * (height * w) <= height * pitch by {
      MulLe(4 * w, pitch, height);
      assert (4 * w) * height == 4 * (height * w);
    }
  }

  /** Row `i` of a block of `h` rows of `w` ends inside the block. */
  lemma RowBound(i: nat, h: nat, w: nat)
    requires i < h
    ensures i * w + w <= h * w
  {
    MulLe(i + 1, h, w);
  }

  /** Row `i`'s copy reaches byte `t` of pixel `(px, py)` exactly when the
      pixel is in row `y + i` and between columns `x` and `x + width - 1`,
      and then it takes byte `4 * (px - x) + t` of the row. */
  lemma RowHits(pitch: nat, x: nat, y: nat, w: nat, i: nat, px: nat, py: nat, t: nat)
    requires 4 * (x + w) <= pitch && 4 * px + t < pitch && t < 4
    ensures var off := (y + i) * pitch + 4 * x;
      var k := py * pitch + 4 * px + t;
      && (off <= k < off + 4 * w <==> py == y + i && x <= px < x + w)
      && (py == y + i ==> k - off == 4 * (px - x) + t)
  {
    if py < y + i {
      MulLe(py + 1, y + i, pitch);
    } else if py > y + i {
      MulLe(y + i + 1, py, pitch);
    }
  }

  /** The buffer byte a row copy starting at pixel `iw` of the buffer puts
      on byte `t` of a pixel `c` columns into the row. */
  lemma SourceByte(buffer: seq<bv32>, iw: nat, c: nat, t: nat)
    requires t < 4 && iw + c < |buffer|
    ensures 4 * iw + (4 * c + t) < |Image32(buffer)|
    ensures Image32(buffer)[4 * iw + (4 * c + t)] == Bytes32(buffer[iw + c])[t]
  {
    Image32At(buffer, iw + c, t);
    assert 4 * iw + (4 * c + t) == 4 * (iw + c) + t;
  }

  /** Index in the buffer of the source pixel for screen pixel `(px, py)`. */
  function SourceIndex(b: Blit, px: int, py: int): int
  {
    (py - b.y) * b.w + (px - b.x)
  }

  /** The pixel a blit row puts at `(px, py)`: the source pixel
      `(py - y) * width + (px - x)`, when the pixel is inside the blit. */
  predicate Inside(b: Blit, px: int, py: int)
  {
    b.x <= px < b.x + b.w && b.y <= py < b.y + b.h
  }

  /** On the screen, `width * height` does not wrap. */
  lemma OnScreenArea(d: Descriptor, b: Blit)
    requires d.Valid() && OnScreen(d, b)
    ensures PixelCount(b) == b.w * b.h
  {
    MulLe(b.h, d.height, b.w);
    MulLe(4 * b.w, d.pitch, d.height);
    MulNonNeg(b.w, b.h);
  }

  /** Converting a blit on the screen gives a blit on the screen whose
      pixels are the converted source pixels. */
  lemma TranslateOnScreen(d: Descriptor, alloc: Allocator, b: Blit)
    requires d.Valid() && OnScreen(d, b) && !b.translated
    requires Translate(d, alloc, b).Done?
    ensures var b' := Translate(d, alloc, b).value.0;
      && OnScreen(d, b')
      && |b'.buffer| == b.w * b.h
      && forall i | 0 <= i < b.w * b.h :: b'.buffer[i] == DevicePixel(d, b.buffer[i])
  {
    OnScreenArea(d, b);
  }

  /** Row `i`'s copy reaches byte `t` of pixel `(px, py)` exactly when the
      pixel is in the row's screen row and columns, and then writes there
      byte `t` of the source pixel for that position. */
  lemma RowReach(d: Descriptor, b: Blit, i: nat, px: nat, py: nat, t: nat)
    requires d.Valid() && OnScreen(d, b) && i < b.h
    requires px < d.width && py < d.height && t < 4
    ensures RowDefined(d, b, i)
    ensures RowWrite(d, b, i).Covers(d.Offset(px, py) + t) <==> py == b.y + i && b.x <= px < b.x + b.w
    ensures RowWrite(d, b, i).Covers(d.Offset(px, py) + t) ==>
      && 0 <= SourceIndex(b, px, py) < |b.buffer|
      && RowWrite(d, b, i).data[d.Offset(px, py) + t - RowWrite(d, b, i).offset]
         == Bytes32(b.buffer[SourceIndex(b, px, py)])[t]
  {
    var k := d.Offset(px, py) + t;
    assert k == py * d.pitch + 4 * px + t;
    assert 4 * px + t < d.pitch by { MulLe(px + 1, d.width, 4); }
    OnScreenOffsets(d, b, i);
    RowHits(d.pitch, b.x, b.y, b.w, i, px, py, t);
    if RowWrite(d, b, i).Covers(k) {
      var c := px - b.x;
      RowWriteByte(d, b, i, c, t);
      assert SourceIndex(b, px, py) == i * b.w + c;
    }
  }

  /** Byte `t` of pixel `c` of row `i`'s copy is byte `t` of source pixel
      `i * width + c`. */
  lemma RowWriteByte(d: Descriptor, b: Blit, i: nat, c: nat, t: nat)
    requires d.Valid() && OnScreen(d, b) && i < b.h && c < b.w && t < 4
    ensures RowDefined(d, b, i) && 4 * c + t < |RowWrite(d, b, i).data|
    ensures 0 <= i * b.w && i * b.w + c < |b.buffer|
    ensures RowWrite(d, b, i).data[4 * c + t] == Bytes32(b.buffer[i * b.w + c])[t]
  {
    OnScreenOffsets(d, b, i);
    var iw := i * b.w;
    assert 0 <= iw && iw + b.w <= |b.buffer| by {
      BlitArith(b.x, b.y, b.w, b.h, i, d.width, d.height, d.pitch, |b.buffer|);
    }
    SliceByte(b.buffer, iw, b.w, c, t);
  }

  /** Byte `t` of pixel `c` of the image of the `w` source pixels from
      pixel `iw` on. */
  lemma SliceByte(buffer: seq<bv32>, iw: nat, w: nat, c: nat, t: nat)
    requires iw + w <= |buffer| && c < w && t < 4
    ensures 4 * iw + 4 * w <= |Image32(buffer)|
    ensures Image32(buffer)[4 * iw .. 4 * iw + 4 * w][4 * c + t] == Bytes32(buffer[iw + c])[t]
  {
    SourceByte(buffer, iw, c, t);
  }

  /** Every row copy that reaches byte `t` of pixel `(px, py)` writes there
      byte `t` of the source pixel for that position, and some row does
      exactly when the pixel is inside the blit. */
  lemma BlitReach(d: Descriptor, b: Blit, px: nat, py: nat, t: nat)
    requires d.Valid() && OnScreen(d, b) && RowsDefined(d, b)
    requires px < d.width && py < d.height && t < 4
    ensures Inside(b, px, py) ==> 0 <= SourceIndex(b, px, py) < |b.buffer|
    ensures Inside(b, px, py) ==>
      UniformAt(BlitWrites(d, b), d.Offset(px, py) + t, Bytes32(b.buffer[SourceIndex(b, px, py)])[t])
    ensures Reached(BlitWrites(d, b), d.Offset(px, py) + t) <==> Inside(b, px, py)
  {
    var ws := BlitWrites(d, b);
    var k := d.Offset(px, py) + t;
    assert k == py * d.pitch + 4 * px + t;
    assert 4 * px + t < d.pitch by { MulLe(px + 1, d.width, 4); }
    forall i | 0 <= i < |ws|
      ensures ws[i].Covers(k) <==> py == b.y + i && b.x <= px < b.x + b.w
      ensures ws[i].Covers(k) ==>
        0 <= SourceIndex(b, px, py) < |b.buffer|
        && ws[i].data[k - ws[i].offset] == Bytes32(b.buffer[SourceIndex(b, px, py)])[t]
    {
      RowReach(d, b, i, px, py, t);
    }
    if Inside(b, px, py) {
      var i := py - b.y;
      assert ws[i].Covers(k);
    }
  }

  /** After a blit on the screen, every byte of a pixel inside it holds the
      matching byte of the source pixel, and every other pixel is as it
      was. */
  lemma BlitPixel(d: Descriptor, mem: seq<bv8>, b: Blit, px: nat, py: nat, t: nat)
    requires d.Valid() && |mem| == d.Size() && OnScreen(d, b)
    requires px < d.width && py < d.height && t < 4
    ensures RowsDefined(d, b)
    ensures 0 <= d.Offset(px, py) + t < |mem|
    ensures Inside(b, px, py) ==> 0 <= SourceIndex(b, px, py) < |b.buffer|
    ensures ApplyAll(mem, BlitWrites(d, b))[d.Offset(px, py) + t]
         == if Inside(b, px, py) then Bytes32(b.buffer[SourceIndex(b, px, py)])[t]
            else mem[d.Offset(px, py) + t]
  {
    assert RowsDefined(d, b) by {
      forall i | 0 <= i < b.h ensures RowDefined(d, b, i) { OnScreenOffsets(d, b, i); }
    }
    var k := d.Offset(px, py) + t;
    PixelInFrame(d, px, py, t);
    BlitReach(d, b, px, py, t);
    if Inside(b, px, py) {
      ApplyAllUniformAt(mem, BlitWrites(d, b), k, Bytes32(b.buffer[SourceIndex(b, px, py)])[t]);
    } else {
      ApplyAllUniformAt(mem, BlitWrites(d, b), k, mem[k]);
    }
  }

  /** Converting a blit on the screen and applying its copies puts, on
      every pixel inside it, the converted source pixel, and leaves every
      other pixel as it was. */
  lemma TranslatedPixel(d: Descriptor, mem: seq<bv8>, alloc: Allocator, b: Blit, px: nat, py: nat, t: nat)
    requires d.Valid() && |mem| == d.Size() && OnScreen(d, b) && !b.translated
    requires Translate(d, alloc, b).Done?
    requires px < d.width && py < d.height && t < 4
    ensures var b' := Translate(d, alloc, b).value.0;
      && RowsDefined(d, b')
      && 0 <= d.Offset(px, py) + t < |mem|
      && (Inside(b, px, py) ==> 0 <= SourceIndex(b, px, py) < |b.buffer|)
      && ApplyAll(mem, BlitWrites(d, b'))[d.Offset(px, py) + t]
         == if Inside(b, px, py) then Bytes32(DevicePixel(d, b.buffer[SourceIndex(b, px, py)]))[t]
            else mem[d.Offset(px, py) + t]
  {
    var b' := Translate(d, alloc, b).value.0;
    assert OnScreen(d, b') && |b'.buffer| == b.w * b.h
        && (forall i | 0 <= i < b.w * b.h :: b'.buffer[i] == DevicePixel(d, b.buffer[i])) by {
      TranslateOnScreen(d, alloc, b);
    }
    assert b.w * b.h <= |b.buffer| by {
      OnScreenArea(d, b);
    }
    assert Inside(b', px, py) == Inside(b, px, py) && SourceIndex(b', px, py) == SourceIndex(b, px, py);
    BlitPixel(d, mem, b', px, py, t);
  }
}
