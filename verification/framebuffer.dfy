/** The framebuffer backend: `dazzle_fb_clear`, `dazzle_fb_draw_element` and
    `dazzle_init_fb`. Each shape becomes the list of framebuffer copies its
    `draw_span` calls (or, for a blit, its row copies) make; drawing applies
    that list to the screen bytes. A step whose C code has undefined
    behaviour (a write through an unchecked NULL block, a copy past the
    framebuffer or past a source buffer) yields `Fault`. */
module Backend {

  import opened CInt
  import opened Arith
  import opened Optional
  import opened Alloc
  import opened Memory
  import opened Format
  import opened Pixels
  import opened Elements
  import R = Rectangles
  import T = Triangles
  import C = Circles
  import B = Blits

  // ---------------------------------------------------------------------
  // Drawing one element

  /** The pixel bytes of the row pattern: the converted colour for the
      three coloured shapes; quads and blits leave `color` at 0. */
  function ElementPixel(d: Descriptor, e: Element): (c: seq<bv8>)
    requires d.Valid()
    ensures |c| == d.Bypp()
  {
    if e.Triangle? || e.Rectangle? || e.Circle? then ColorBytes(d, e.color)
    else LowBytes64(0, d.Bypp())
  }

  /** A shape drawn with `draw_span`. */
  predicate Spanned(e: Element)
  {
    e.Triangle? || e.Rectangle? || e.Circle?
  }

  /** The `draw_span` calls of a shape, in order. A triangle is always
      filled: its `filled` field is not read. */
  function ElementSpans(d: Descriptor, e: Element): seq<Span>
    requires Spanned(e)
  {
    match e
    case Rectangle(x, y, w, h, filled, _) => R.RectSpans(x, y, w, h, filled)
    case Triangle(x1, y1, x2, y2, x3, y3, _, _) =>
      T.TriangleSpans(d.width, T.Vertex(x1, y1), T.Vertex(x2, y2), T.Vertex(x3, y3))
    case Circle(x, y, radius, filled, _) => C.CircleSpans(x, y, radius, filled)
  }

  /** The row pattern: `width` copies of the pixel bytes (`linebuf`). */
  function ElementLine(d: Descriptor, e: Element): seq<bv8>
    requires d.Valid()
  {
    Line(ElementPixel(d, e), d.width)
  }

  /** The copies drawing a (translated) element makes, or `None` when one of
      them would read or write out of bounds. A quad draws nothing. */
  function ElementWrites(d: Descriptor, e: Element): (r: Option<seq<Write>>)
    requires d.Valid()
    ensures r.Some? ==> AllFit(r.value, d.Size())
    ensures e.Quad? ==> r == Some([])
    ensures Spanned(e) ==>
      (r.Some? <==> AllSpansOk(d, ElementSpans(d, e), ElementLine(d, e)))
  {
    match e
    case Quad(_, _, _, _, _, _, _, _, _, _) => Some([])
    case Blitable(b) => if B.RowsDefined(d, b) then Some(B.BlitWrites(d, b)) else None
    case _ =>
      var spans, line := ElementSpans(d, e), ElementLine(d, e);
      if AllSpansOk(d, spans, line) then Some(SpanWrites(d, spans, line)) else None
  }

  /** An outline `2^30` pixels wide and one high on a one-pixel screen at
      32 bits per pixel: the copy length `width * bypp` of its top and
      bottom edges wraps to 0 in `uint32_t` and it has no side rows, so the
      draw is defined, copies nothing and leaves the screen as it was. */
  lemma WideOutlineCopiesNothing(d: Descriptor, color: bv64, screen: seq<bv8>)
    requires d.width == 1 && d.height == 1 && d.pitch == 4 && d.bpp == 32 && d.ShiftsValid()
    requires |screen| == 4
    ensures d.Valid()
    ensures ElementWrites(d, Rectangle(0, 0, 0x4000_0000, 1, false, color)) == Some([Write(0, []), Write(0, [])])
    ensures ApplyAll(screen, [Write(0, []), Write(0, [])]) == screen
  {
    var e := Rectangle(0, 0, 0x4000_0000, 1, false, color);
    var edge := Span(0, 0, 0x4000_0000);
    assert d.Valid() && d.Bypp() == 4 && d.Size() == 4;
    assert ElementSpans(d, e) == [edge, edge] by {
      assert R.Bottom(0, 1) == 0;
      assert R.Sides(0, R.Right(0, 0x4000_0000), U32(0 + 1), 0) == [];
    }
    assert CopyLen(d, edge) == 0 by {
      assert U32(0x4000_0000 * 4) == 0;
    }
    EdgePairCopiesNothing(d, e, edge);
    ApplyEmpty(screen, [Write(0, []), Write(0, [])]);
  }

  lemma EdgePairCopiesNothing(d: Descriptor, e: Element, edge: Span)
    requires d.Valid() && e.Rectangle? && ElementSpans(d, e) == [edge, edge]
    requires !Dropped(d, edge) && edge.x == 0 && edge.y == 0 && CopyLen(d, edge) == 0
    ensures ElementWrites(d, e) == Some([Write(0, []), Write(0, [])])
  {
    var line := ElementLine(d, e);
    assert SpanOk(d, edge, line);
    assert SpanWrite(d, edge, line) == Write(0, []);
    assert [edge, edge][..1] == [edge];
    assert [edge][..0] == [];
    assert AllSpansOk(d, [edge], line) && AllSpansOk(d, [edge, edge], line);
    assert SpanWrites(d, [edge], line) == [Write(0, [])];
    assert SpanWrites(d, [edge, edge], line) == [Write(0, []), Write(0, [])];
  }

  /** The first switch: an untranslated blit is converted to the device
      layout; every other element passes through. */
  function Prepare(d: Descriptor, alloc: Allocator, e: Element): (r: Outcome<(Element, Allocator)>)
    requires d.Valid()
    ensures !e.Blitable? ==> r == Done((e, alloc))
    ensures r.Done? ==> r.value.0.Blitable? == e.Blitable?
    ensures r.Done? && e.Blitable? ==> r.value.0.blit.translated
    ensures r.Done? ==> r.value.1.failing == alloc.failing
  {
    match e
    case Blitable(b) =>
      (match B.Translate(d, alloc, b)
       case Fault => Fault
       case Done((b', alloc')) => Done((Blitable(b'), alloc')))
    case _ => Done((e, alloc))
  }

  /** The triangle case's early return, before sorting. */
  predicate RejectedTriangle(e: Element)
  {
    e.Triangle? && T.Rejected(T.Vertex(e.x1, e.y1), T.Vertex(e.x2, e.y2), T.Vertex(e.x3, e.y3))
  }

  /** What `dazzle_fb_draw_element` returns, the context after it, and the
      element after it (a blit may have been translated in place). */
  datatype Drawn = Drawn(ok: bool, ctx: Context, element: Element)

  /** `dazzle_fb_draw_element`: no backend state gives false; the blit
      conversion runs first; then the row pattern is allocated (failure gives
      false, after the conversion); a degenerate triangle gives false;
      otherwise the element is drawn and the result is true. */
  function DrawElement(ctx: Context, e: Element): (r: Outcome<Drawn>)
    requires ctx.Valid()
    ensures r.Done? ==> r.value.ctx.Valid()
    ensures r.Done? ==> r.value.ctx.scene == ctx.scene && r.value.ctx.count == ctx.count
    ensures r.Done? ==> r.value.ctx.renderer == ctx.renderer
    ensures r.Done? ==> r.value.ctx.alloc.failing == ctx.alloc.failing
  {
    match ctx.renderer
    case None => Done(Drawn(false, ctx, e))
    case Some(d) =>
      match Prepare(d, ctx.alloc, e)
      case Fault => Fault
      case Done((e1, alloc1)) =>
        var m := Malloc(alloc1);
        var ctx1 := ctx.(alloc := m.next);
        if !m.ok || RejectedTriangle(e1) then Done(Drawn(false, ctx1, e1))
        else
          match ElementWrites(d, e1)
          case None => Fault
          case Some(ws) => Done(Drawn(true, ctx1.(screen := ApplyAll(ctx1.screen, ws)), e1))
  }

  /** Without backend state nothing happens and the result is false. */
  lemma DrawWithoutRenderer(ctx: Context, e: Element)
    requires ctx.Valid() && ctx.renderer.None?
    ensures DrawElement(ctx, e) == Done(Drawn(false, ctx, e))
  {
  }

  /** When the row pattern cannot be allocated the result is false and the
      screen is unchanged, but a blit stays translated. */
  lemma DrawLinebufFailure(ctx: Context, e: Element)
    requires ctx.Valid() && ctx.renderer.Some?
    requires Prepare(ctx.renderer.value, ctx.alloc, e).Done?
    requires !Prepare(ctx.renderer.value, ctx.alloc, e).value.1.NextSucceeds()
    ensures DrawElement(ctx, e).Done?
    ensures var r := DrawElement(ctx, e).value;
      && !r.ok && r.ctx.screen == ctx.screen
      && (e.Blitable? ==> r.element.blit.translated)
  {
  }

  /** A degenerate triangle as the test is written gives false and draws
      nothing. */
  lemma DrawRejectedTriangle(ctx: Context, e: Element)
    requires ctx.Valid() && RejectedTriangle(e)
    ensures DrawElement(ctx, e).Done?
    ensures !DrawElement(ctx, e).value.ok && DrawElement(ctx, e).value.ctx.screen == ctx.screen
  {
  }

  /** A triangle never has undefined behaviour, whatever its vertices, and
      one that is not rejected is drawn when the row pattern is allocated. */
  lemma TriangleDefined(ctx: Context, e: Element)
    requires ctx.Valid() && e.Triangle?
    ensures DrawElement(ctx, e).Done?
    ensures DrawElement(ctx, e).value.ok <==>
      ctx.renderer.Some? && ctx.alloc.NextSucceeds() && !RejectedTriangle(e)
  {
    if ctx.renderer.Some? {
      var d := ctx.renderer.value;
      var spans := ElementSpans(d, e);
      T.TriangleInRow(d, T.Vertex(e.x1, e.y1), T.Vertex(e.x2, e.y2), T.Vertex(e.x3, e.y3));
      AllInRowOk(d, spans, ElementPixel(d, e));
    }
  }

  /** A drawn shape's screen is the screen painted with its spans. */
  lemma DrawShapePaints(ctx: Context, e: Element)
    requires ctx.Valid() && Spanned(e)
    requires DrawElement(ctx, e).Done? && DrawElement(ctx, e).value.ok
    ensures var d := ctx.renderer.value;
      && AllSpansOk(d, ElementSpans(d, e), ElementLine(d, e))
      && DrawElement(ctx, e).value.ctx.screen == Paint(d, ctx.screen, ElementSpans(d, e), ElementLine(d, e))
  {
    var d := ctx.renderer.value;
    DrawOk(ctx, e);
    PaintIsApplyAll(d, ctx.screen, ElementSpans(d, e), ElementLine(d, e));
  }

  /** A successful draw converted the element (when a blit), and applied
      the copies of the converted element to the screen. */
  lemma DrawOk(ctx: Context, e: Element)
    requires ctx.Valid()
    requires DrawElement(ctx, e).Done? && DrawElement(ctx, e).value.ok
    ensures ctx.renderer.Some?
    ensures var d := ctx.renderer.value;
      var p := Prepare(d, ctx.alloc, e);
      && p.Done? && ElementWrites(d, p.value.0).Some?
      && DrawElement(ctx, e).value.element == p.value.0
      && DrawElement(ctx, e).value.ctx.screen == ApplyAll(ctx.screen, ElementWrites(d, p.value.0).value)
  {
    var r := DrawElement(ctx, e);
    var d := ctx.renderer.value;
    var p := Prepare(d, ctx.alloc, e);
    assert p.Done?;
    var m := Malloc(p.value.1);
    assert m.ok && !RejectedTriangle(p.value.0);
    var ws := ElementWrites(d, p.value.0);
    assert ws.Some?;
    assert r.value == Drawn(true, ctx.(alloc := m.next, screen := ApplyAll(ctx.screen, ws.value)), p.value.0);
  }

  /** An element that was drawn is no longer converted: a second draw
      gives back the same element and either fails before drawing or
      applies the same copies. */
  lemma DrawAgain(ctx: Context, e: Element)
    requires ctx.Valid() && ctx.renderer.Some?
    requires Prepare(ctx.renderer.value, ctx.alloc, e) == Done((e, ctx.alloc))
    requires ElementWrites(ctx.renderer.value, e).Some?
    ensures DrawElement(ctx, e).Done? && DrawElement(ctx, e).value.element == e
    ensures var s := DrawElement(ctx, e).value.ctx.screen;
      s == ctx.screen || s == ApplyAll(ctx.screen, ElementWrites(ctx.renderer.value, e).value)
  {
    var d := ctx.renderer.value;
    var m := Malloc(ctx.alloc);
    var r := DrawElement(ctx, e);
    if !m.ok || RejectedTriangle(e) {
      assert r == Done(Drawn(false, ctx.(alloc := m.next), e));
    } else {
      assert r == Done(Drawn(true, ctx.(alloc := m.next, screen := ApplyAll(ctx.screen, ElementWrites(d, e).value)), e));
    }
  }

  /** A draw that needs no conversion, gets its row pattern and is not a
      rejected triangle applies the element's copies. */
  lemma DrawPreparedOk(ctx: Context, e: Element)
    requires ctx.Valid() && ctx.renderer.Some? && ctx.alloc.NextSucceeds()
    requires Prepare(ctx.renderer.value, ctx.alloc, e) == Done((e, ctx.alloc))
    requires !RejectedTriangle(e) && ElementWrites(ctx.renderer.value, e).Some?
    ensures DrawElement(ctx, e) == Done(Drawn(true, ctx.(alloc := ctx.alloc.Step(),
      screen := ApplyAll(ctx.screen, ElementWrites(ctx.renderer.value, e).value)), e))
  {
    assert Malloc(ctx.alloc) == Allocation(true, ctx.alloc.Step());
  }

  /** A rejected triangle that needs no conversion only takes its row
      pattern and returns false. */
  lemma DrawPreparedRejected(ctx: Context, e: Element)
    requires ctx.Valid() && ctx.renderer.Some?
    requires Prepare(ctx.renderer.value, ctx.alloc, e) == Done((e, ctx.alloc))
    requires RejectedTriangle(e)
    ensures DrawElement(ctx, e) == Done(Drawn(false, ctx.(alloc := ctx.alloc.Step()), e))
  {
    assert Malloc(ctx.alloc).next == ctx.alloc.Step();
  }

  /** Redrawing an element that was drawn leaves the screen and the element
      as they are: the conversion is not repeated, and drawing the same
      copies again changes nothing. */
  lemma DrawTwice(ctx: Context, e: Element)
    requires ctx.Valid()
    requires DrawElement(ctx, e).Done? && DrawElement(ctx, e).value.ok
    ensures var r1 := DrawElement(ctx, e).value;
      && DrawElement(r1.ctx, r1.element).Done?
      && DrawElement(r1.ctx, r1.element).value.ctx.screen == r1.ctx.screen
      && DrawElement(r1.ctx, r1.element).value.element == r1.element
  {
    DrawOk(ctx, e);
    var r1 := DrawElement(ctx, e).value;
    var d := ctx.renderer.value;
    var e1 := r1.element;
    assert Prepare(d, r1.ctx.alloc, e1) == Done((e1, r1.ctx.alloc)) by {
      if e1.Blitable? {
        assert B.Translate(d, r1.ctx.alloc, e1.blit) == Done((e1.blit, r1.ctx.alloc));
      }
    }
    DrawAgain(r1.ctx, e1);
    ApplyAllIdempotent(ctx.screen, ElementWrites(d, e1).value);
  }

  /** The first draw of an untranslated blit on the screen puts, on every
      pixel inside it, the converted source pixel, and leaves every other
      pixel as it was. */
  lemma DrawBlitPixel(ctx: Context, b: B.Blit, px: nat, py: nat, t: nat)
    requires ctx.Valid() && ctx.renderer.Some?
    requires !b.translated && B.OnScreen(ctx.renderer.value, b)
    requires DrawElement(ctx, Blitable(b)).Done? && DrawElement(ctx, Blitable(b)).value.ok
    requires px < ctx.renderer.value.width && py < ctx.renderer.value.height && t < 4
    ensures var d := ctx.renderer.value;
      && 0 <= d.Offset(px, py) + t < |ctx.screen|
      && (B.Inside(b, px, py) ==> 0 <= B.SourceIndex(b, px, py) < |b.buffer|)
      && DrawElement(ctx, Blitable(b)).value.ctx.screen[d.Offset(px, py) + t]
         == if B.Inside(b, px, py) then Bytes32(B.DevicePixel(d, b.buffer[B.SourceIndex(b, px, py)]))[t]
            else ctx.screen[d.Offset(px, py) + t]
  {
    var d := ctx.renderer.value;
    DrawOk(ctx, Blitable(b));
    var b' := B.Translate(d, ctx.alloc, b).value.0;
    var s := DrawElement(ctx, Blitable(b)).value.ctx.screen;
    assert s == ApplyAll(ctx.screen, B.BlitWrites(d, b'));
    B.TranslatedPixel(d, ctx.screen, ctx.alloc, b, px, py, t);
  }

  // ---------------------------------------------------------------------
  // Clearing the screen

  /** The clear loop's spans as written: row pairs `2i, 2i + 1` for
      `i < height / 2`, each one span of `2 * width` pixels from row `2i`. */
  function ClearSpans(d: Descriptor): (spans: seq<Span>)
    requires d.Valid()
    ensures |spans| == d.height / 2
    ensures forall i | 0 <= i < |spans| :: spans[i] == Span(0, 2 * i, 2 * d.width)
  {
    seq(d.height / 2, i requires 0 <= i < d.height / 2 => Span(0, 2 * i, 2 * d.width))
  }

  /** The pattern of two rows' worth of pixels can be written: nothing is
      written, or the block was allocated and holds it. */
  predicate ClearLineDefined(d: Descriptor, gotBlock: bool)
  {
    d.width == 0 || (gotBlock && 2 * d.width * d.Bypp() <= U32(d.pitch * 2))
  }

  /** The clear spans copy inside the framebuffer and inside the pattern. */
  lemma ClearSpansOk(d: Descriptor, c: seq<bv8>)
    requires d.Valid() && |c| == d.Bypp()
    ensures AllSpansOk(d, ClearSpans(d), Line(c, 2 * d.width))
  {
    var spans := ClearSpans(d);
    forall i | 0 <= i < |spans| ensures SpanOk(d, spans[i], Line(c, 2 * d.width)) {
      ClearSpanFits(d, i);
    }
  }

  lemma ClearSpanFits(d: Descriptor, i: nat)
    requires d.Valid() && i < d.height / 2
    ensures d.Offset(2 * d.width, 2 * i) <= d.Size()
  {
    MulLe(2 * i + 2, d.height, d.pitch);
    MulDistrib(2 * i, 2, d.pitch);
  }

  /** `dazzle_fb_clear`: no backend state gives false; otherwise a pattern of
      `2 * width` pixels is built in an unchecked block of `pitch * 2`
      bytes and drawn once per row pair, and the result is true. */
  function FbClear(ctx: Context, color: bv64): (r: Outcome<(bool, Context)>)
    requires ctx.Valid()
    ensures ctx.renderer.None? ==> r == Done((false, ctx))
    ensures r.Done? ==> r.value.1.Valid() && r.value.1.scene == ctx.scene && r.value.1.count == ctx.count
    ensures r.Done? ==> r.value.1.renderer == ctx.renderer && |r.value.1.screen| == |ctx.screen|
    ensures r.Done? && ctx.renderer.Some? ==> r.value.0
    ensures ctx.renderer.Some? ==>
      (r.Fault? <==> !ClearLineDefined(ctx.renderer.value, ctx.alloc.NextSucceeds()))
  {
    match ctx.renderer
    case None => Done((false, ctx))
    case Some(d) =>
      var m := Malloc(ctx.alloc);
      if !ClearLineDefined(d, m.ok) then Fault
      else
        var c := ColorBytes(d, color);
        ClearSpansOk(d, c);
        Done((true, ctx.(alloc := m.next, screen := Paint(d, ctx.screen, ClearSpans(d), Line(c, 2 * d.width)))))
  }

  /** Byte `k` of the screen is reached by the clear as written: it lies in
      a row pair `k / (2 * pitch)` below `height / 2`, within the first
      `2 * width * bypp` bytes of that pair. */
  predicate ClearReaches(d: Descriptor, k: int)
    requires d.pitch > 0
  {
    k / (2 * d.pitch) < d.height / 2 && k % (2 * d.pitch) < 2 * d.width * d.Bypp()
  }

  /** The span of row pair `i` covers byte `2 * pitch * q + r` exactly when
      the byte is in that pair and within the span's bytes. */
  lemma PairBlock(p: nat, n: nat, i: nat, q: nat, r: nat)
    requires p > 0 && r < 2 * p && n <= 2 * p
    ensures (2 * i * p <= 2 * p * q + r < 2 * i * p + n) <==> (i == q && r < n)
  {
    if i < q {
      MulLe(i + 1, q, 2 * p);
    } else if i > q {
      MulLe(q + 1, i, 2 * p);
    }
  }

  /** The copy for row pair `i` starts at the pair's first byte and holds
      the pattern's first `2 * width * bypp` bytes. */
  lemma ClearSpanWrite(d: Descriptor, c: seq<bv8>, i: nat)
    requires d.Valid() && |c| == d.Bypp() && d.width > 0 && i < d.height / 2
    ensures SpanOk(d, Span(0, 2 * i, 2 * d.width), Line(c, 2 * d.width))
    ensures !Dropped(d, Span(0, 2 * i, 2 * d.width))
    ensures var w := SpanWrite(d, Span(0, 2 * i, 2 * d.width), Line(c, 2 * d.width));
      && w.offset == 2 * i * d.pitch && |w.data| == 2 * d.width * d.Bypp() <= 2 * d.pitch
      && forall t | 0 <= t < |w.data| :: w.data[t] == c[t % d.Bypp()]
  {
    ClearSpanFits(d, i);
    assert 2 * d.width * d.Bypp() <= 2 * d.pitch by { MulLe(d.width * d.Bypp(), d.pitch, 2); }
  }

  /** The copy for row pair `i` reaches byte `2 * pitch * q + r` of the
      screen exactly when the byte lies in that pair within the pattern's
      `2 * width * bypp` bytes, and then writes pattern byte `r` there. */
  lemma ClearSpanHit(d: Descriptor, c: seq<bv8>, i: nat, q: nat, r: nat)
    requires d.Valid() && |c| == d.Bypp() && d.width > 0 && i < d.height / 2 && r < 2 * d.pitch
    ensures SpanOk(d, Span(0, 2 * i, 2 * d.width), Line(c, 2 * d.width))
    ensures !Dropped(d, Span(0, 2 * i, 2 * d.width))
    ensures var w := SpanWrite(d, Span(0, 2 * i, 2 * d.width), Line(c, 2 * d.width));
      && (w.Covers(2 * d.pitch * q + r) <==> i == q && r < 2 * d.width * d.Bypp())
      && (w.Covers(2 * d.pitch * q + r) ==> w.data[2 * d.pitch * q + r - w.offset] == c[r % d.Bypp()])
  {
    ClearSpanWrite(d, c, i);
    var w := SpanWrite(d, Span(0, 2 * i, 2 * d.width), Line(c, 2 * d.width));
    PairBlock(d.pitch, |w.data|, i, q, r);
    if i == q {
      assert w.offset == 2 * d.pitch * q by { PairOffset(i, d.pitch, 0); }
    }
  }

  /** Every clear copy is the copy of some row pair's span. */
  lemma ClearWriteIndex(d: Descriptor, c: seq<bv8>, w: Write) returns (i: nat)
    requires d.Valid() && |c| == d.Bypp()
    requires AllSpansOk(d, ClearSpans(d), Line(c, 2 * d.width))
    requires w in SpanWrites(d, ClearSpans(d), Line(c, 2 * d.width))
    ensures d.width > 0 && i < d.height / 2
    ensures SpanOk(d, Span(0, 2 * i, 2 * d.width), Line(c, 2 * d.width)) && !Dropped(d, Span(0, 2 * i, 2 * d.width))
    ensures w == SpanWrite(d, Span(0, 2 * i, 2 * d.width), Line(c, 2 * d.width))
  {
    var spans := ClearSpans(d);
    SpanWritesMembers(d, spans, Line(c, 2 * d.width));
    i :| 0 <= i < |spans| && !Dropped(d, spans[i]) && w == SpanWrite(d, spans[i], Line(c, 2 * d.width));
  }

  /** Byte `k` lies at byte `r` of row pair `q`. */
  lemma PairSplit(k: nat, p: nat) returns (q: nat, r: nat)
    requires p > 0
    ensures q == k / (2 * p) && r == k % (2 * p)
    ensures k == 2 * p * q + r && r < 2 * p
  {
    DivSplit(k, 2 * p);
    q, r := k / (2 * p), k % (2 * p);
  }

  /** Every clear copy that reaches byte `k` writes pattern byte
      `k % (2 * pitch)` there. */
  lemma ClearUniform(d: Descriptor, c: seq<bv8>, k: nat)
    requires d.Valid() && |c| == d.Bypp() && d.pitch > 0
    requires AllSpansOk(d, ClearSpans(d), Line(c, 2 * d.width))
    ensures UniformAt(SpanWrites(d, ClearSpans(d), Line(c, 2 * d.width)), k, c[(k % (2 * d.pitch)) % d.Bypp()])
  {
    var spans, line := ClearSpans(d), Line(c, 2 * d.width);
    var ws := SpanWrites(d, spans, line);
    var q, r := PairSplit(k, d.pitch);
    forall j | 0 <= j < |ws| && ws[j].Covers(k)
      ensures ws[j].data[k - ws[j].offset] == c[r % d.Bypp()]
    {
      assert ws[j] in ws;
      var i := ClearWriteIndex(d, c, ws[j]);
      ClearSpanHit(d, c, i, q, r);
    }
  }

  /** Some clear copy reaches byte `k` exactly when the clear reaches it. */
  lemma ClearReached(d: Descriptor, c: seq<bv8>, k: nat)
    requires d.Valid() && |c| == d.Bypp() && d.pitch > 0
    requires AllSpansOk(d, ClearSpans(d), Line(c, 2 * d.width))
    ensures Reached(SpanWrites(d, ClearSpans(d), Line(c, 2 * d.width)), k) <==> ClearReaches(d, k)
  {
    var spans, line := ClearSpans(d), Line(c, 2 * d.width);
    var ws := SpanWrites(d, spans, line);
    var q, r := PairSplit(k, d.pitch);
    if ClearReaches(d, k) {
      assert d.width > 0;
      ClearSpanHit(d, c, q, q, r);
      var j := SpanWriteIndex(d, spans, line, q);
      assert ws[j].Covers(k);
    } else {
      forall j | 0 <= j < |ws| ensures !ws[j].Covers(k) {
        assert ws[j] in ws;
        var i := ClearWriteIndex(d, c, ws[j]);
        ClearSpanHit(d, c, i, q, r);
      }
    }
  }

  /** What painting the clear's spans does to each screen byte: a reached
      byte takes the pattern byte for its position in the row pair, every
      other byte keeps its value. */
  lemma ClearPaintByte(d: Descriptor, mem: seq<bv8>, c: seq<bv8>, k: nat)
    requires d.Valid() && |mem| == d.Size() && |c| == d.Bypp() && d.pitch > 0 && k < |mem|
    ensures AllSpansOk(d, ClearSpans(d), Line(c, 2 * d.width))
    ensures Paint(d, mem, ClearSpans(d), Line(c, 2 * d.width))[k]
         == if ClearReaches(d, k) then c[(k % (2 * d.pitch)) % d.Bypp()] else mem[k]
  {
    var line := Line(c, 2 * d.width);
    ClearSpansOk(d, c);
    PaintIsApplyAll(d, mem, ClearSpans(d), line);
    ClearUniform(d, c, k);
    ClearReached(d, c, k);
    ApplyAllUniformAt(mem, SpanWrites(d, ClearSpans(d), line), k, c[(k % (2 * d.pitch)) % d.Bypp()]);
  }

  /** A clear that completes paints the clear's spans with the colour. */
  lemma ClearPaints(ctx: Context, color: bv64)
    requires ctx.Valid() && ctx.renderer.Some? && FbClear(ctx, color).Done?
    ensures var d := ctx.renderer.value;
      && |ctx.screen| == d.Size()
      && AllSpansOk(d, ClearSpans(d), Line(ColorBytes(d, color), 2 * d.width))
      && FbClear(ctx, color).value.1.screen == Paint(d, ctx.screen, ClearSpans(d), Line(ColorBytes(d, color), 2 * d.width))
  {
    ClearSpansOk(ctx.renderer.value, ColorBytes(ctx.renderer.value, color));
  }

  /** What the clear as written does to each screen byte: a reached byte
      takes the colour byte for its position in the row pair, every other
      byte keeps its value. */
  lemma ClearByte(ctx: Context, color: bv64, k: nat)
    requires ctx.Valid() && ctx.renderer.Some? && FbClear(ctx, color).Done?
    requires k < |ctx.screen|
    ensures var d := ctx.renderer.value;
      && d.pitch > 0
      && FbClear(ctx, color).value.1.screen[k]
         == if ClearReaches(d, k) then ColorBytes(d, color)[(k % (2 * d.pitch)) % d.Bypp()] else ctx.screen[k]
  {
    var d := ctx.renderer.value;
    assert d.pitch > 0;
    ClearPaints(ctx, color);
    ClearPaintByte(d, ctx.screen, ColorBytes(d, color), k);
  }

  lemma PairOffset(m: int, p: int, e: int)
    ensures (2 * m) * p + e == m * (2 * p) + e
  {
  }

  /** With an odd height, no byte of the last row is reached by the clear. */
  lemma LastRowUnreached(d: Descriptor, k: nat)
    requires d.Valid() && d.height % 2 == 1
    requires (d.height - 1) * d.pitch <= k < d.Size()
    ensures d.pitch > 0 && !ClearReaches(d, k)
  {
    var m := d.height / 2;
    var e := k - (2 * m) * d.pitch;
    assert e < d.pitch by { MulDistrib(2 * m, 1, d.pitch); }
    PairOffset(m, d.pitch, e);
    DivModOf(m, 2 * d.pitch, e);
  }

  /** The last byte of the last pixel of row 1. */
  function PaddedEnd(d: Descriptor): (k: int)
    requires d.Valid() && d.height >= 2 && d.width >= 1
    ensures 0 <= k < d.Size()
  {
    PixelInFrame(d, d.width - 1, 1, d.Bypp() - 1);
    d.Offset(d.width - 1, 1) + (d.Bypp() - 1)
  }

  /** With padded rows, the last byte of the last pixel of row 1 is not
      reached by the clear. */
  lemma PaddedEndUnreached(d: Descriptor)
    requires d.Valid() && d.height >= 2 && d.width >= 1 && d.pitch > d.width * d.Bypp()
    ensures !ClearReaches(d, PaddedEnd(d))
  {
    var b := d.Bypp();
    var k := PaddedEnd(d);
    assert k == d.pitch + d.width * b - 1 by { MulDistrib(d.width, 1, b); }
    DivModOf(0, 2 * d.pitch, k);
  }

  /** As written, with an odd height the last row is never cleared: every
      byte of it keeps its value. */
  lemma ClearMissesLastRow(ctx: Context, color: bv64, k: nat)
    requires ctx.Valid() && ctx.renderer.Some? && FbClear(ctx, color).Done?
    requires ctx.renderer.value.height % 2 == 1
    requires (ctx.renderer.value.height - 1) * ctx.renderer.value.pitch <= k < |ctx.screen|
    ensures FbClear(ctx, color).value.1.screen[k] == ctx.screen[k]
  {
    var d := ctx.renderer.value;
    assert !ClearReaches(d, k) by {
      LastRowUnreached(d, k);
    }
    ClearByte(ctx, color, k);
  }

  /** As written, when rows are padded (`pitch > width * bypp`) the odd rows
      are not cleared to their end: the last byte of the last pixel of row 1
      keeps its value. */
  lemma ClearMissesPaddedRowEnd(ctx: Context, color: bv64)
    requires ctx.Valid() && ctx.renderer.Some? && FbClear(ctx, color).Done?
    requires var d := ctx.renderer.value;
      d.height >= 2 && d.width >= 1 && d.pitch > d.width * d.Bypp()
    ensures PaddedEnd(ctx.renderer.value) < |ctx.screen|
    ensures FbClear(ctx, color).value.1.screen[PaddedEnd(ctx.renderer.value)] == ctx.screen[PaddedEnd(ctx.renderer.value)]
  {
    var d := ctx.renderer.value;
    var k := PaddedEnd(d);
    assert !ClearReaches(d, k) by {
      PaddedEndUnreached(d);
    }
    assert FbClear(ctx, color).value.1.screen[k] == ctx.screen[k] by {
      ClearByte(ctx, color, k);
    }
  }

  /** The clear as evidently intended: one span of `width` pixels per row,
      for every row. */
  function ClearSpansFixed(d: Descriptor): (spans: seq<Span>)
    ensures |spans| == d.height
    ensures forall i | 0 <= i < |spans| :: spans[i] == Span(0, i, d.width)
  {
    seq(d.height, i requires 0 <= i < d.height => Span(0, i, d.width))
  }

  /** The intended clear: a checked pattern of one row, drawn on every row. */
  function FbClearFixed(ctx: Context, color: bv64): (r: Option<(bool, Context)>)
    requires ctx.Valid()
    ensures ctx.renderer.None? ==> r == Some((false, ctx))
    ensures r.Some? ==> r.value.1.Valid() && r.value.1.scene == ctx.scene
  {
    match ctx.renderer
    case None => Some((false, ctx))
    case Some(d) =>
      var m := Malloc(ctx.alloc);
      if !m.ok then Some((false, ctx.(alloc := m.next)))
      else
        var c := ColorBytes(d, color);
        AllInRowOk(d, ClearSpansFixed(d), c);
        Some((true, ctx.(alloc := m.next, screen := Paint(d, ctx.screen, ClearSpansFixed(d), Line(c, d.width)))))
  }

  /** The intended clear paints every byte of every pixel with the colour. */
  lemma ClearFixedPaints(ctx: Context, color: bv64, px: nat, py: nat, t: nat)
    requires ctx.Valid() && ctx.renderer.Some? && ctx.alloc.NextSucceeds()
    requires px < ctx.renderer.value.width && py < ctx.renderer.value.height && t < ctx.renderer.value.Bypp()
    ensures var d := ctx.renderer.value;
      && FbClearFixed(ctx, color).Some? && FbClearFixed(ctx, color).value.0
      && 0 <= d.Offset(px, py) + t < |ctx.screen|
      && FbClearFixed(ctx, color).value.1.screen[d.Offset(px, py) + t] == ColorBytes(d, color)[t]
  {
    var d := ctx.renderer.value;
    var c := ColorBytes(d, color);
    var spans := ClearSpansFixed(d);
    assert AllInRow(d, spans) && AllSpansOk(d, spans, Line(c, d.width)) && CoveredBy(spans, px, py) by {
      AllInRowOk(d, spans, c);
      assert Covers(spans[py], px, py);
    }
    PaintPixel(d, ctx.screen, spans, c, d.width, px, py, t);
  }

  // ---------------------------------------------------------------------
  // Creating the context

  /** `dazzle_init_fb`: allocate the context, then the backend's copy of the
      descriptor; either failure gives NULL. The new context has an empty
      scene and a zero count. */
  function InitFb(alloc: Allocator, fb: Descriptor, screen: seq<bv8>): (r: (Option<Context>, Allocator))
    ensures r.0.None? <==> !alloc.NextSucceeds() || !alloc.Step().NextSucceeds()
    ensures r.1 == if alloc.NextSucceeds() then alloc.Step().Step() else alloc.Step()
    ensures r.0.Some? ==> var ctx := r.0.value;
      && ctx.renderer == Some(fb) && ctx.screen == screen && ctx.scene == [] && ctx.count == 0
      && ctx.alloc == r.1 && ctx.CountMatches()
  {
    var m1 := Malloc(alloc);
    if !m1.ok then (None, m1.next)
    else
      var m2 := Malloc(m1.next);
      if !m2.ok then (None, m2.next)
      else (Some(Context(m2.next, Some(fb), screen, 0, [])), m2.next)
  }
}
