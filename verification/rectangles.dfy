/** The rectangle case of `dazzle_fb_draw_element`: a filled rectangle is
    one span per row, an outline is two full-width spans (top and bottom
    rows) and two one-pixel spans per row in between (left and right
    columns). The corners are `uint32_t` expressions:
    `bottom = y + height - 1` and `right = x + width - 1`. The `int` row
    counters are taken to wrap like the `uint32_t` values they are compared
    with, so the rows visited are the `uint32_t` values from the first row
    up to, and excluding, the bound. */
module Rectangles {

  import opened CInt
  import opened Format
  import opened Pixels

  function Bottom(y: u32, h: u32): u32 { U32(y + h - 1) }
  function Right(x: u32, w: u32): u32 { U32(x + w - 1) }

  /** One span of width `w` at column `x` for each row in `[from, to)`. */
  function Rows(x: u32, from: u32, to: u32, w: u32): (spans: seq<Span>)
    ensures |spans| == if from < to then to - from else 0
    ensures forall i | 0 <= i < |spans| :: spans[i] == Span(x, from + i, w)
  {
    seq(if from < to then to - from else 0, k requires 0 <= k < (if from < to then to - from else 0) => Span(x, from + k, w))
  }

  /** One-pixel spans at columns `left` and `right` for each row in `[from, to)`. */
  function Sides(left: u32, right: u32, from: u32, to: u32): (spans: seq<Span>)
    ensures |spans| == if from < to then 2 * (to - from) else 0
    ensures forall i | 0 <= i < |spans| ::
      spans[i] == Span(if i % 2 == 0 then left else right, from + i / 2, 1)
  {
    var n := if from < to then 2 * (to - from) else 0;
    seq(n, k requires 0 <= k < n => Span(if k % 2 == 0 then left else right, from + k / 2, 1))
  }

  /** The spans the rectangle case draws, in order. A filled rectangle's
      rows run from `y` up to, and excluding, `bottom`. */
  function RectSpans(x: u32, y: u32, w: u32, h: u32, filled: bool): (spans: seq<Span>)
  {
    var top, bottom := y, Bottom(y, h);
    var left, right := x, Right(x, w);
    if filled then Rows(left, top, bottom, w)
    else [Span(left, top, w), Span(left, bottom, w)] + Sides(left, right, U32(top + 1), bottom)
  }

  /** The rectangle lies on the screen, so no corner wraps around. */
  predicate OnScreen(d: Descriptor, x: u32, y: u32, w: u32, h: u32)
  {
    w >= 1 && h >= 1 && x + w <= d.width && y + h <= d.height
  }

  /** Every span of an on-screen rectangle stays inside its row. */
  lemma RectInRow(d: Descriptor, x: u32, y: u32, w: u32, h: u32, filled: bool)
    requires OnScreen(d, x, y, w, h)
    ensures AllInRow(d, RectSpans(x, y, w, h, filled))
  {
  }

  /** As written, a filled on-screen rectangle covers the pixels of rows
      `y .. y + height - 2`: its last row is left out. */
  lemma FilledCovers(d: Descriptor, x: u32, y: u32, w: u32, h: u32, px: int, py: int)
    requires OnScreen(d, x, y, w, h)
    ensures var spans := RectSpans(x, y, w, h, true);
      CoveredBy(spans, px, py) <==> x <= px < x + w && y <= py < y + h - 1
  {
    var spans := RectSpans(x, y, w, h, true);
    if x <= px < x + w && y <= py < y + h - 1 {
      assert Covers(spans[py - y], px, py);
    }
  }

  /** The bottom row of a filled rectangle is never painted as written: its
      pixels keep the bytes they had. */
  lemma FilledMissesBottomRow(d: Descriptor, mem: seq<bv8>, x: u32, y: u32, w: u32, h: u32,
                              c: seq<bv8>, px: nat, t: nat)
    requires d.Valid() && |mem| == d.Size() && |c| == d.Bypp()
    requires OnScreen(d, x, y, w, h)
    requires x <= px < x + w && t < d.Bypp()
    ensures Bottom(y, h) == y + h - 1
    ensures AllSpansOk(d, RectSpans(x, y, w, h, true), Line(c, d.width))
    ensures 0 <= d.Offset(px, Bottom(y, h)) + t < |mem|
    ensures Paint(d, mem, RectSpans(x, y, w, h, true), Line(c, d.width))[d.Offset(px, Bottom(y, h)) + t]
         == mem[d.Offset(px, Bottom(y, h)) + t]
  {
    var spans := RectSpans(x, y, w, h, true);
    var py: nat := Bottom(y, h);
    assert AllInRow(d, spans) && AllSpansOk(d, spans, Line(c, d.width)) by {
      RectInRow(d, x, y, w, h, true);
      AllInRowOk(d, spans, c);
    }
    assert !CoveredBy(spans, px, py) by {
      FilledCovers(d, x, y, w, h, px, py);
    }
    PaintPixel(d, mem, spans, c, d.width, px, py, t);
  }

  /** The filled rectangle as evidently intended: rows `top .. bottom`,
      both included. */
  function FilledSpansFixed(x: u32, y: u32, w: u32, h: u32): (spans: seq<Span>)
  {
    Rows(x, y, U32(Bottom(y, h) + 1), w)
  }

  /** The intended filled rectangle covers exactly its `width` by `height`
      pixels. */
  lemma FixedFilledCovers(d: Descriptor, x: u32, y: u32, w: u32, h: u32, px: int, py: int)
    requires OnScreen(d, x, y, w, h)
    ensures AllInRow(d, FilledSpansFixed(x, y, w, h))
    ensures var spans := FilledSpansFixed(x, y, w, h);
      CoveredBy(spans, px, py) <==> x <= px < x + w && y <= py < y + h
  {
    var spans := FilledSpansFixed(x, y, w, h);
    if x <= px < x + w && y <= py < y + h {
      assert Covers(spans[py - y], px, py);
    }
  }

  /** The intended filled rectangle paints every byte of its pixels with
      the colour and leaves every other pixel as it was. */
  lemma FixedFilledPaint(d: Descriptor, mem: seq<bv8>, x: u32, y: u32, w: u32, h: u32,
                         c: seq<bv8>, px: nat, py: nat, t: nat)
    requires d.Valid() && |mem| == d.Size() && |c| == d.Bypp()
    requires OnScreen(d, x, y, w, h)
    requires px < d.width && py < d.height && t < d.Bypp()
    ensures AllSpansOk(d, FilledSpansFixed(x, y, w, h), Line(c, d.width))
    ensures 0 <= d.Offset(px, py) + t < |mem|
    ensures Paint(d, mem, FilledSpansFixed(x, y, w, h), Line(c, d.width))[d.Offset(px, py) + t]
         == if x <= px < x + w && y <= py < y + h then c[t] else mem[d.Offset(px, py) + t]
  {
    var spans := FilledSpansFixed(x, y, w, h);
    assert AllInRow(d, spans) && AllSpansOk(d, spans, Line(c, d.width))
        && (CoveredBy(spans, px, py) <==> x <= px < x + w && y <= py < y + h) by {
      FixedFilledCovers(d, x, y, w, h, px, py);
      AllInRowOk(d, spans, c);
    }
    PaintPixel(d, mem, spans, c, d.width, px, py, t);
  }

  /** Pixel `(px, py)` is on the border of the rectangle: in its top or
      bottom row, or in its left or right column. */
  predicate OnBorder(x: int, y: int, w: int, h: int, px: int, py: int)
  {
    || ((py == y || py == y + h - 1) && x <= px < x + w)
    || (y < py < y + h - 1 && (px == x || px == x + w - 1))
  }

  /** The side spans cover the pixels of columns `left` and `right` in rows
      `from .. to - 1`. */
  lemma SidesCover(left: u32, right: u32, from: u32, to: u32, px: int, py: int)
    ensures CoveredBy(Sides(left, right, from, to), px, py) <==> from <= py < to && (px == left || px == right)
  {
    var sides := Sides(left, right, from, to);
    if from <= py < to && (px == left || px == right) {
      var k := 2 * (py - from) + (if px == left then 0 else 1);
      assert Covers(sides[k], px, py);
    }
    if CoveredBy(sides, px, py) {
      var k :| 0 <= k < |sides| && Covers(sides[k], px, py);
      assert sides[k] == Span(if k % 2 == 0 then left else right, from + k / 2, 1);
    }
  }

  /** An on-screen outline covers the top and bottom rows and the left and
      right columns of the rectangle, and nothing else. */
  lemma OutlineCovers(d: Descriptor, x: u32, y: u32, w: u32, h: u32, px: int, py: int)
    requires OnScreen(d, x, y, w, h)
    ensures var spans := RectSpans(x, y, w, h, false);
      CoveredBy(spans, px, py) <==> OnBorder(x, y, w, h, px, py)
  {
    var ends := [Span(x, y, w), Span(x, y + h - 1, w)];
    var sides := Sides(x, x + w - 1, y + 1, y + h - 1);
    assert RectSpans(x, y, w, h, false) == ends + sides;
    CoveredByAppend(ends, sides, px, py);
    SidesCover(x, x + w - 1, y + 1, y + h - 1, px, py);
    assert CoveredBy(ends, px, py) <==> Covers(ends[0], px, py) || Covers(ends[1], px, py);
  }

  /** Painting an on-screen outline: border pixels take the colour, all
      others keep their bytes. */
  lemma OutlinePaint(d: Descriptor, mem: seq<bv8>, x: u32, y: u32, w: u32, h: u32,
                     c: seq<bv8>, px: nat, py: nat, t: nat)
    requires d.Valid() && |mem| == d.Size() && |c| == d.Bypp()
    requires OnScreen(d, x, y, w, h)
    requires px < d.width && py < d.height && t < d.Bypp()
    ensures AllSpansOk(d, RectSpans(x, y, w, h, false), Line(c, d.width))
    ensures 0 <= d.Offset(px, py) + t < |mem|
    ensures Paint(d, mem, RectSpans(x, y, w, h, false), Line(c, d.width))[d.Offset(px, py) + t]
         == if OnBorder(x, y, w, h, px, py) then c[t] else mem[d.Offset(px, py) + t]
  {
    var spans := RectSpans(x, y, w, h, false);
    assert AllInRow(d, spans) && AllSpansOk(d, spans, Line(c, d.width))
        && (CoveredBy(spans, px, py) <==> OnBorder(x, y, w, h, px, py)) by {
      RectInRow(d, x, y, w, h, false);
      AllInRowOk(d, spans, c);
      OutlineCovers(d, x, y, w, h, px, py);
    }
    PaintPixel(d, mem, spans, c, d.width, px, py, t);
  }
}
