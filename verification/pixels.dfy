/** Solid-colour row patterns and the span writer (`draw_span`) of the
    framebuffer backend, with what a list of spans does to the pixels. */
module Pixels {

  import opened CInt
  import opened Memory
  import opened Arith
  import opened Format

  // ---------------------------------------------------------------------
  // Solid-colour row patterns

  /** The bytes of one device pixel as `memcpy(dst, &converted, bypp)` lays
      them out (little-endian host). */
  function ColorBytes(d: Descriptor, color: bv64): (c: seq<bv8>)
    requires d.Valid()
    ensures |c| == d.Bypp()
  {
    LowBytes64(Convert(d, color), d.Bypp())
  }

  /** A row pattern of `n` copies of the pixel bytes `c`, as the fill loops
      build `linebuf`. */
  function Line(c: seq<bv8>, n: nat): (l: seq<bv8>)
    requires |c| > 0
    ensures |l| == n * |c|
    ensures forall k | 0 <= k < |l| :: l[k] == c[k % |c|]
  {
    MulNonNeg(n, |c|);
    seq(n * |c|, k requires 0 <= k < n * |c| => c[k % |c|])
  }

  // ---------------------------------------------------------------------
  // Spans

  /** A `draw_span(fb, x, y, w, linebuf)` call: `w` pixels at `(x, y)`. */
  datatype Span = Span(x: u32, y: u32, w: u32)

  /** `draw_span` silently drops a span whose origin is outside the
      framebuffer; only the origin is checked. */
  predicate Dropped(d: Descriptor, s: Span)
  {
    s.x >= d.width || s.y >= d.height
  }

  /** The byte count `draw_span` hands to `memcpy`: the `uint32_t` product
      `width * bypp`, which wraps for a wide enough span. */
  function CopyLen(d: Descriptor, s: Span): (n: u32)
    ensures (n - s.w * d.Bypp()) % TWO32 == 0
  {
    Wraps(s.w * d.Bypp());
    U32(s.w * d.Bypp())
  }

  /** The copy a kept span performs neither reads past the pattern nor writes
      past the framebuffer (both are undefined behaviour in C). A span that
      runs past the right edge but stays inside the buffer is allowed: it
      spills into the following row. */
  predicate SpanOk(d: Descriptor, s: Span, line: seq<bv8>)
  {
    Dropped(d, s) || (CopyLen(d, s) <= |line| && d.Offset(s.x, s.y) + CopyLen(d, s) <= d.Size())
  }

  predicate AllSpansOk(d: Descriptor, spans: seq<Span>, line: seq<bv8>)
  {
    forall i | 0 <= i < |spans| :: SpanOk(d, spans[i], line)
  }

  /** The `memcpy` a kept span performs. */
  function SpanWrite(d: Descriptor, s: Span, line: seq<bv8>): (w: Write)
    requires d.Valid()
    requires !Dropped(d, s) && SpanOk(d, s, line)
    ensures w.offset == d.Offset(s.x, s.y) && |w.data| == CopyLen(d, s)
    ensures w.data == line[..|w.data|]
    ensures w.FitsIn(d.Size())
  {
    MulNonNeg(s.y, d.pitch);
    MulNonNeg(s.x, d.Bypp());
    Write(d.Offset(s.x, s.y), line[..CopyLen(d, s)])
  }

  /** `draw_span`: a no-op when the origin is outside the framebuffer;
      otherwise the `CopyLen` bytes from `y*pitch + x*bypp` take the first
      `CopyLen` bytes of the pattern, with no clamp at the right edge, and
      every other byte is unchanged. */
  function DrawSpan(d: Descriptor, mem: seq<bv8>, s: Span, line: seq<bv8>): (r: seq<bv8>)
    requires d.Valid() && |mem| == d.Size()
    requires SpanOk(d, s, line)
    ensures |r| == |mem|
    ensures Dropped(d, s) ==> r == mem
    ensures !Dropped(d, s) ==>
      var start := s.y * d.pitch + s.x * d.Bypp();
      forall k | 0 <= k < |mem| ::
        r[k] == if start <= k < start + CopyLen(d, s) then line[k - start] else mem[k]
  {
    if Dropped(d, s) then mem else Apply(mem, SpanWrite(d, s, line))
  }

  /** The copies made by a list of `draw_span` calls (dropped spans make none). */
  function SpanWrites(d: Descriptor, spans: seq<Span>, line: seq<bv8>): (ws: seq<Write>)
    requires d.Valid() && AllSpansOk(d, spans, line)
    ensures AllFit(ws, d.Size())
  {
    if spans == [] then []
    else
      var front := spans[..|spans| - 1];
      var s := spans[|spans| - 1];
      assert forall i | 0 <= i < |front| :: front[i] == spans[i];
      var ws := SpanWrites(d, front, line);
      if Dropped(d, s) then ws else ws + [SpanWrite(d, s, line)]
  }

  /** The copies are exactly those of the spans that are not dropped. */
  lemma {:induction false} SpanWritesMembers(d: Descriptor, spans: seq<Span>, line: seq<bv8>)
    requires d.Valid() && AllSpansOk(d, spans, line)
    ensures var ws := SpanWrites(d, spans, line);
      forall w | w in ws :: exists i :: 0 <= i < |spans| && !Dropped(d, spans[i]) && w == SpanWrite(d, spans[i], line)
    ensures var ws := SpanWrites(d, spans, line);
      forall i | 0 <= i < |spans| && !Dropped(d, spans[i]) :: SpanWrite(d, spans[i], line) in ws
  {
    if spans != [] {
      var front := spans[..|spans| - 1];
      var last := |spans| - 1;
      assert forall i | 0 <= i < |front| :: front[i] == spans[i];
      SpanWritesMembers(d, front, line);
      var ws := SpanWrites(d, spans, line);
      forall w | w in ws
        ensures exists i :: 0 <= i < |spans| && !Dropped(d, spans[i]) && w == SpanWrite(d, spans[i], line)
      {
        if w in SpanWrites(d, front, line) {
          var i :| 0 <= i < |front| && !Dropped(d, front[i]) && w == SpanWrite(d, front[i], line);
          assert spans[i] == front[i];
        } else {
          assert !Dropped(d, spans[last]) && w == SpanWrite(d, spans[last], line);
        }
      }
    }
  }

  /** The span copy `j` comes from. */
  lemma SpanWriteOrigin(d: Descriptor, spans: seq<Span>, line: seq<bv8>, j: nat) returns (i: nat)
    requires d.Valid() && AllSpansOk(d, spans, line)
    requires j < |SpanWrites(d, spans, line)|
    ensures i < |spans| && !Dropped(d, spans[i])
    ensures SpanWrites(d, spans, line)[j] == SpanWrite(d, spans[i], line)
  {
    var ws := SpanWrites(d, spans, line);
    SpanWritesMembers(d, spans, line);
    assert ws[j] in ws;
    i :| 0 <= i < |spans| && !Dropped(d, spans[i]) && ws[j] == SpanWrite(d, spans[i], line);
  }

  /** The copy span `i` makes, when it is not dropped. */
  lemma SpanWriteIndex(d: Descriptor, spans: seq<Span>, line: seq<bv8>, i: nat) returns (j: nat)
    requires d.Valid() && AllSpansOk(d, spans, line)
    requires i < |spans| && !Dropped(d, spans[i])
    ensures j < |SpanWrites(d, spans, line)|
    ensures SpanWrites(d, spans, line)[j] == SpanWrite(d, spans[i], line)
  {
    var ws := SpanWrites(d, spans, line);
    SpanWritesMembers(d, spans, line);
    assert SpanWrite(d, spans[i], line) in ws;
    j :| 0 <= j < |ws| && ws[j] == SpanWrite(d, spans[i], line);
  }

  /** A sequence of `draw_span` calls, made in order. */
  function Paint(d: Descriptor, mem: seq<bv8>, spans: seq<Span>, line: seq<bv8>): (r: seq<bv8>)
    requires d.Valid() && |mem| == d.Size()
    requires AllSpansOk(d, spans, line)
    ensures |r| == |mem|
  {
    if spans == [] then mem
    else
      var front := spans[..|spans| - 1];
      assert forall i | 0 <= i < |front| :: front[i] == spans[i];
      DrawSpan(d, Paint(d, mem, front, line), spans[|spans| - 1], line)
  }

  /** Painting spans is applying their copies. */
  lemma {:induction false} PaintIsApplyAll(d: Descriptor, mem: seq<bv8>, spans: seq<Span>, line: seq<bv8>)
    requires d.Valid() && |mem| == d.Size()
    requires AllSpansOk(d, spans, line)
    ensures Paint(d, mem, spans, line) == ApplyAll(mem, SpanWrites(d, spans, line))
  {
    if spans != [] {
      var front := spans[..|spans| - 1];
      var s := spans[|spans| - 1];
      assert forall i | 0 <= i < |front| :: front[i] == spans[i];
      PaintIsApplyAll(d, mem, front, line);
      var ws := SpanWrites(d, front, line);
      if !Dropped(d, s) {
        var w := SpanWrite(d, s, line);
        assert (ws + [w])[..|ws + [w]| - 1] == ws;
      }
    }
  }

  /** Painting the spans of `a` and then those of `b` is painting `a + b`. */
  lemma {:induction false} PaintAppend(d: Descriptor, mem: seq<bv8>, a: seq<Span>, b: seq<Span>, line: seq<bv8>)
    requires d.Valid() && |mem| == d.Size()
    requires AllSpansOk(d, a, line) && AllSpansOk(d, b, line)
    ensures AllSpansOk(d, a + b, line)
    ensures Paint(d, mem, a + b, line) == Paint(d, Paint(d, mem, a, line), b, line)
  {
    assert AllSpansOk(d, a + b, line) by {
      forall i | 0 <= i < |a + b| ensures SpanOk(d, (a + b)[i], line) {
        if i < |a| { assert (a + b)[i] == a[i]; } else { assert (a + b)[i] == b[i - |a|]; }
      }
    }
    if b == [] {
      assert a + b == a;
    } else {
      var bf := b[..|b| - 1];
      assert forall i | 0 <= i < |bf| :: bf[i] == b[i];
      assert (a + b)[..|a + b| - 1] == a + bf;
      PaintAppend(d, mem, a, bf, line);
    }
  }

  /** Painting the same spans twice leaves what painting them once left. */
  lemma PaintIdempotent(d: Descriptor, mem: seq<bv8>, spans: seq<Span>, line: seq<bv8>)
    requires d.Valid() && |mem| == d.Size()
    requires AllSpansOk(d, spans, line)
    ensures Paint(d, Paint(d, mem, spans, line), spans, line) == Paint(d, mem, spans, line)
  {
    var once := Paint(d, mem, spans, line);
    PaintIsApplyAll(d, mem, spans, line);
    PaintIsApplyAll(d, once, spans, line);
    ApplyAllIdempotent(mem, SpanWrites(d, spans, line));
  }

  // ---------------------------------------------------------------------
  // Pixels covered by spans that stay inside their row

  /** A kept span that ends at or before the right edge. */
  predicate InRow(d: Descriptor, s: Span)
  {
    Dropped(d, s) || s.x + s.w <= d.width
  }

  /** The copy length of a kept span inside its row does not wrap: it is at
      most one row of pixels. */
  lemma InRowCopyLen(d: Descriptor, s: Span)
    requires d.Valid() && !Dropped(d, s) && InRow(d, s)
    ensures CopyLen(d, s) == s.w * d.Bypp() <= d.width * d.Bypp()
  {
    MulLe(s.w, d.width, d.Bypp());
    MulLe(1, d.height, d.pitch);
  }

  /** A span inside its row reads no more than a full row pattern and writes
      inside the framebuffer. */
  lemma InRowSpanOk(d: Descriptor, s: Span, c: seq<bv8>)
    requires d.Valid() && |c| == d.Bypp() && InRow(d, s)
    ensures SpanOk(d, s, Line(c, d.width))
  {
    if !Dropped(d, s) {
      var b := d.Bypp();
      InRowCopyLen(d, s);
      MulDistrib(s.x, s.w, b);
      MulLe(s.x + s.w, d.width, b);
      MulLe(s.y + 1, d.height, d.pitch);
      MulDistrib(s.y, 1, d.pitch);
    }
  }

  lemma AllInRowOk(d: Descriptor, spans: seq<Span>, c: seq<bv8>)
    requires d.Valid() && |c| == d.Bypp()
    requires AllInRow(d, spans)
    ensures AllSpansOk(d, spans, Line(c, d.width))
  {
    forall i | 0 <= i < |spans| ensures SpanOk(d, spans[i], Line(c, d.width)) {
      InRowSpanOk(d, spans[i], c);
    }
  }

  predicate AllInRow(d: Descriptor, spans: seq<Span>)
  {
    forall i | 0 <= i < |spans| :: InRow(d, spans[i])
  }

  /** Span `s` paints pixel `(px, py)`. */
  predicate Covers(s: Span, px: int, py: int)
  {
    s.y == py && s.x <= px < s.x + s.w
  }

  /** Some span of `spans` paints pixel `(px, py)`. */
  predicate CoveredBy(spans: seq<Span>, px: int, py: int)
  {
    exists i :: 0 <= i < |spans| && Covers(spans[i], px, py)
  }

  /** A pixel is covered by two lists of spans together exactly when one of
      them covers it. */
  lemma CoveredByAppend(a: seq<Span>, b: seq<Span>, px: int, py: int)
    ensures CoveredBy(a + b, px, py) <==> CoveredBy(a, px, py) || CoveredBy(b, px, py)
  {
    if CoveredBy(a, px, py) {
      var i :| 0 <= i < |a| && Covers(a[i], px, py);
      assert (a + b)[i] == a[i];
    }
    if CoveredBy(b, px, py) {
      var i :| 0 <= i < |b| && Covers(b[i], px, py);
      assert (a + b)[|a| + i] == b[i];
    }
    if CoveredBy(a + b, px, py) {
      var i :| 0 <= i < |a + b| && Covers((a + b)[i], px, py);
      if i < |a| { assert (a + b)[i] == a[i]; } else { assert (a + b)[i] == b[i - |a|]; }
    }
  }

  /** For a span inside its row, byte `t` of pixel `(px, py)` is written by
      the span's copy exactly when the span covers the pixel, and it then
      receives byte `(px - x) * bypp + t` of the pattern. */
  lemma SpanWriteHitsPixel(d: Descriptor, s: Span, line: seq<bv8>, px: nat, py: nat, t: nat)
    requires d.Valid() && !Dropped(d, s) && SpanOk(d, s, line) && InRow(d, s)
    requires px < d.width && py < d.height && t < d.Bypp()
    ensures SpanWrite(d, s, line).Covers(d.Offset(px, py) + t) <==> Covers(s, px, py)
    ensures Covers(s, px, py) ==> d.Offset(px, py) + t - d.Offset(s.x, s.y) == (px - s.x) * d.Bypp() + t
  {
    assert SpanWrite(d, s, line).offset == d.Offset(s.x, s.y)
        && |SpanWrite(d, s, line).data| == s.w * d.Bypp() by {
      InRowCopyLen(d, s);
    }
    RowHit(d.pitch, d.Bypp(), d.width, s.x, s.y, s.w, px, py, t);
  }

  /** The addressing behind `SpanWriteHitsPixel`: with rows of `p` bytes
      holding `width` pixels of `b` bytes, the `w * b` bytes from pixel
      `(sx, sy)` hold byte `t` of pixel `(px, py)` exactly when that pixel
      is one of the `w` pixels from `(sx, sy)` along the same row. */
  lemma RowHit(p: nat, b: nat, width: nat, sx: nat, sy: nat, w: nat, px: nat, py: nat, t: nat)
    requires width * b <= p && sx + w <= width && px < width && t < b
    ensures var start, k := sy * p + sx * b, py * p + px * b + t;
      && (start <= k < start + w * b <==> sy == py && sx <= px < sx + w)
      && (sy == py && sx <= px < sx + w ==> k - start == (px - sx) * b + t)
  {
    var k := py * p + px * b + t;
    var start := sy * p + sx * b;
    var end := start + w * b;
    MulDistrib(sx, w, b);
    assert end == sy * p + (sx + w) * b;
    MulLe(sx + w, width, b);
    MulLe(px + 1, width, b);
    MulDistrib(px, 1, b);
    if py < sy {
      MulLe(py + 1, sy, p);
      MulDistrib(py, 1, p);
      MulNonNeg(sx, b);
      assert k < start;
    } else if py > sy {
      MulLe(sy + 1, py, p);
      MulDistrib(sy, 1, p);
      MulNonNeg(px, b);
      assert k >= end;
    } else {
      if px < sx {
        MulLe(px + 1, sx, b);
        assert k < start;
      } else if px >= sx + w {
        MulLe(sx + w, px, b);
        assert k >= end;
      } else {
        MulLe(sx, px, b);
        MulLe(px + 1, sx + w, b);
        MulDistrib(px, sx, b);
      }
    }
  }

  /** Every byte of an in-frame pixel lies inside the framebuffer. */
  lemma PixelInFrame(d: Descriptor, px: nat, py: nat, t: nat)
    requires d.Valid() && px < d.width && py < d.height && t < d.Bypp()
    ensures 0 <= d.Offset(px, py) + t < d.Size()
  {
    var b := d.Bypp();
    MulNonNeg(py, d.pitch);
    MulNonNeg(px, b);
    MulLe(px + 1, d.width, b);
    MulDistrib(px, 1, b);
    MulLe(py + 1, d.height, d.pitch);
    MulDistrib(py, 1, d.pitch);
  }

  /** Every copy made by solid-colour spans inside their rows writes byte `t`
      of the pixel colour into byte `t` of any pixel it reaches. */
  lemma SpanWritesUniform(d: Descriptor, spans: seq<Span>, c: seq<bv8>, n: nat, px: nat, py: nat, t: nat)
    requires d.Valid() && |c| == d.Bypp()
    requires AllSpansOk(d, spans, Line(c, n))
    requires AllInRow(d, spans)
    requires px < d.width && py < d.height && t < d.Bypp()
    ensures UniformAt(SpanWrites(d, spans, Line(c, n)), d.Offset(px, py) + t, c[t])
  {
    var line := Line(c, n);
    var b := d.Bypp();
    var k := d.Offset(px, py) + t;
    var ws := SpanWrites(d, spans, line);
    forall j | 0 <= j < |ws| && ws[j].Covers(k) ensures ws[j].data[k - ws[j].offset] == c[t] {
      var i := SpanWriteOrigin(d, spans, line, j);
      SpanWriteHitsPixel(d, spans[i], line, px, py, t);
      DivModOf(px - spans[i].x, b, t);
    }
  }

  /** For spans inside their rows, some copy reaches byte `t` of pixel
      `(px, py)` exactly when some span covers the pixel. */
  lemma SpanWritesReach(d: Descriptor, spans: seq<Span>, line: seq<bv8>, px: nat, py: nat, t: nat)
    requires d.Valid() && AllSpansOk(d, spans, line)
    requires AllInRow(d, spans)
    requires px < d.width && py < d.height && t < d.Bypp()
    ensures Reached(SpanWrites(d, spans, line), d.Offset(px, py) + t) <==> CoveredBy(spans, px, py)
  {
    var k := d.Offset(px, py) + t;
    var ws := SpanWrites(d, spans, line);
    if CoveredBy(spans, px, py) {
      var i :| 0 <= i < |spans| && Covers(spans[i], px, py);
      SpanWriteHitsPixel(d, spans[i], line, px, py, t);
      var j := SpanWriteIndex(d, spans, line, i);
      assert ws[j].Covers(k);
    }
    if Reached(ws, k) {
      var j :| 0 <= j < |ws| && ws[j].Covers(k);
      var i := SpanWriteOrigin(d, spans, line, j);
      SpanWriteHitsPixel(d, spans[i], line, px, py, t);
    }
  }

  /** Painting solid-colour spans that each stay inside their row: a pixel
      takes the colour when some span covers it and keeps its old bytes
      otherwise, whatever the order of the spans. */
  lemma PaintPixel(d: Descriptor, mem: seq<bv8>, spans: seq<Span>, c: seq<bv8>, n: nat, px: nat, py: nat, t: nat)
    requires d.Valid() && |mem| == d.Size() && |c| == d.Bypp()
    requires AllSpansOk(d, spans, Line(c, n))
    requires AllInRow(d, spans)
    requires px < d.width && py < d.height && t < d.Bypp()
    ensures 0 <= d.Offset(px, py) + t < |mem|
    ensures Paint(d, mem, spans, Line(c, n))[d.Offset(px, py) + t]
         == if CoveredBy(spans, px, py) then c[t] else mem[d.Offset(px, py) + t]
  {
    PixelInFrame(d, px, py, t);
    PaintByte(d, mem, spans, c, n, px, py, t);
    SpanWritesReach(d, spans, Line(c, n), px, py, t);
  }

  lemma PaintByte(d: Descriptor, mem: seq<bv8>, spans: seq<Span>, c: seq<bv8>, n: nat, px: nat, py: nat, t: nat)
    requires d.Valid() && |mem| == d.Size() && |c| == d.Bypp()
    requires AllSpansOk(d, spans, Line(c, n))
    requires AllInRow(d, spans)
    requires px < d.width && py < d.height && t < d.Bypp()
    requires 0 <= d.Offset(px, py) + t < |mem|
    ensures Paint(d, mem, spans, Line(c, n))[d.Offset(px, py) + t]
         == if Reached(SpanWrites(d, spans, Line(c, n)), d.Offset(px, py) + t) then c[t] else mem[d.Offset(px, py) + t]
  {
    PaintIsApplyAll(d, mem, spans, Line(c, n));
    SpanWritesUniform(d, spans, c, n, px, py, t);
    ApplyAllUniformAt(mem, SpanWrites(d, spans, Line(c, n)), d.Offset(px, py) + t, c[t]);
  }

  /** A span whose origin is a negative `int` converted to `uint32_t` is huge
      and therefore dropped whole, whatever its width. */
  lemma NegativeOriginDropped(d: Descriptor, x: int, y: int, w: int)
    requires d.Valid()
    requires -TWO31 <= x < 0 || -TWO31 <= y < 0
    ensures Dropped(d, Span(U32(x), U32(y), U32(w)))
  {
    if -TWO31 <= x < 0 {
      assert U32(x) == x + TWO32;
    } else {
      assert U32(y) == y + TWO32;
    }
  }
}
