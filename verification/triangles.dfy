/** The triangle case of `dazzle_fb_draw_element`: the vertices are sorted
    by `y` with three compare-and-swap steps, the edges are walked one row
    at a time in 16.16-style fixed point (scale `0xffff`), and each row
    becomes one span between the two edge positions, clamped to the screen.
    The `int` accumulators are taken to wrap in two's complement. */
module Triangles {

  import opened CInt
  import opened Arith
  import opened Format
  import opened Pixels

  /** The fixed-point scale. */
  const Scale: int := 0xffff

  datatype Vertex = Vertex(x: u32, y: u32)

  /** One `SWAP` step: the two vertices are exchanged when the first lies
      lower. */
  function Order(p: Vertex, q: Vertex): (r: (Vertex, Vertex))
    ensures r.0.y <= r.1.y
    ensures multiset{r.0, r.1} == multiset{p, q}
  {
    if p.y > q.y then (q, p) else (p, q)
  }

  /** The three `SWAP` steps: the result is ordered by `y`. */
  function SortByY(a: Vertex, b: Vertex, c: Vertex): (r: (Vertex, Vertex, Vertex))
    ensures r.0.y <= r.1.y <= r.2.y
  {
    var (a1, b1) := Order(a, b);
    var (a2, c1) := Order(a1, c);
    var (b2, c2) := Order(b1, c1);
    (a2, b2, c2)
  }

  /** `r` is `(a, b, c)` in one of its six orders. */
  predicate Rearranged(r: (Vertex, Vertex, Vertex), a: Vertex, b: Vertex, c: Vertex)
  {
    || r == (a, b, c) || r == (a, c, b) || r == (b, a, c)
    || r == (b, c, a) || r == (c, a, b) || r == (c, b, a)
  }

  /** Sorting holds the same three vertices. */
  lemma SortByYPermutes(a: Vertex, b: Vertex, c: Vertex)
    ensures Rearranged(SortByY(a, b, c), a, b, c)
  {
  }

  /** The degenerate-triangle test as written: it compares the `y` of the
      first and third vertex as given, before sorting. */
  predicate Rejected(a: Vertex, b: Vertex, c: Vertex)
  {
    a.y == c.y
  }

  /** The slope of edge `a -> b` as written: `(b.x - a.x) * 0xffff` and the
      division by `b.y - a.y` are `uint32_t` operations, and the quotient is
      converted to `int`. A horizontal edge has slope 0. */
  function Slope(a: Vertex, b: Vertex): i32
  {
    if b.y != a.y then I32(U32(U32(b.x - a.x) * Scale) / U32(b.y - a.y)) else 0
  }

  /** One row: `xL / 0xffff` and `xR / 0xffff` (truncating), put in order,
      the start raised to 0 and the end lowered to `width - 1` when it is at
      or past the right edge as a `uint32_t`; the span runs from the start
      up to, and excluding, the end. */
  function RowSpan(width: u32, xL: i32, xR: i32, row: u32): Span
  {
    var s0 := TruncDiv(xL, Scale);
    var e0 := TruncDiv(xR, Scale);
    var s1 := if s0 > e0 then e0 else s0;
    var e1 := if s0 > e0 then s0 else e0;
    var s2 := if s1 < 0 then 0 else s1;
    var e2 := if U32(e1) >= width then I32(width - 1) else e1;
    Span(U32(s2), row, U32(e2 - s2))
  }

  /** The two edge accumulators `xL` and `xR` of the row loops. */
  datatype Acc = Acc(xL: i32, xR: i32)

  /** One loop step: `xL += dL; xR += dR`, wrapping. */
  function Step(acc: Acc, dL: i32, dR: i32): Acc
  {
    Acc(I32(acc.xL + dL), I32(acc.xR + dR))
  }

  /** The accumulators after `k` steps, computed directly. */
  function Advanced(acc: Acc, dL: i32, dR: i32, k: nat): Acc
  {
    Acc(I32(acc.xL + k * dL), I32(acc.xR + k * dR))
  }

  /** The accumulator values each of `n` rows is drawn with, and the values
      the loop leaves behind. */
  datatype Walked = Walked(accs: seq<Acc>, final: Acc)

  /** One of the two row loops, run for `n` rows. */
  function Walk(acc: Acc, dL: i32, dR: i32, n: nat): (r: Walked)
    decreases n
  {
    if n == 0 then Walked([], acc)
    else
      var rest := Walk(Step(acc, dL, dR), dL, dR, n - 1);
      Walked([acc] + rest.accs, rest.final)
  }

  /** Closed form of a walk: row `k` is drawn with the starting accumulators
      advanced `k` times, and the loop leaves them advanced `n` times. */
  lemma {:induction false} WalkClosedForm(acc: Acc, dL: i32, dR: i32, n: nat)
    ensures |Walk(acc, dL, dR, n).accs| == n
    ensures forall k | 0 <= k < n :: Walk(acc, dL, dR, n).accs[k] == Advanced(acc, dL, dR, k)
    ensures Walk(acc, dL, dR, n).final == Advanced(acc, dL, dR, n)
    decreases n
  {
    if n > 0 {
      var next := Step(acc, dL, dR);
      var rest := Walk(next, dL, dR, n - 1);
      WalkClosedForm(next, dL, dR, n - 1);
      var r := Walk(acc, dL, dR, n);
      forall k | 0 <= k < n ensures r.accs[k] == Advanced(acc, dL, dR, k) {
        if k == 0 {
          assert Advanced(acc, dL, dR, 0) == acc;
        } else {
          assert r.accs[k] == rest.accs[k - 1];
          AdvanceStep(acc, dL, dR, k);
        }
      }
      AdvanceStep(acc, dL, dR, n);
    }
  }

  /** Advancing once and then `k - 1` more times is advancing `k` times. */
  lemma AdvanceStep(acc: Acc, dL: i32, dR: i32, k: nat)
    requires k >= 1
    ensures Advanced(Step(acc, dL, dR), dL, dR, k - 1) == Advanced(acc, dL, dR, k)
  {
    var s := Step(acc, dL, dR);
    var xL := Advance(acc.xL, dL, k);
    var xR := Advance(acc.xR, dR, k);
    assert s == Acc(I32(acc.xL + dL), I32(acc.xR + dR));
    assert Advanced(s, dL, dR, k - 1) == Acc(xL, xR);
    assert Advanced(acc, dL, dR, k) == Acc(xL, xR);
  }

  lemma Advance(x: i32, dx: i32, k: nat) returns (r: i32)
    requires k >= 1
    ensures r == I32(I32(x + dx) + (k - 1) * dx) && r == I32(x + k * dx)
  {
    var m := (k - 1) * dx;
    assert x + dx + m == x + k * dx by { MulDistrib(k - 1, 1, dx); }
    I32AddAbsorbs(x + dx, m);
    r := I32(x + k * dx);
  }

  /** The number of rows `for (uint32_t i = from; i < to; i++)` visits. */
  function Count(from: u32, to: u32): nat
  {
    if from < to then to - from else 0
  }

  /** The spans of a row loop started at row `from`. */
  function RowSpans(width: u32, accs: seq<Acc>, from: u32): (spans: seq<Span>)
    requires from + |accs| <= TWO32
    ensures |spans| == |accs|
    ensures forall k | 0 <= k < |spans| :: spans[k].y == from + k
    ensures width < TWO31 ==> forall k | 0 <= k < |spans| :: Clamped(width, spans[k])
  {
    seq(|accs|, k requires 0 <= k < |accs| => RowSpan(width, accs[k].xL, accs[k].xR, from + k))
  }

  /** The accumulator starts for the edges leaving vertex `v`:
      `x * 0xffff` and `(x + 1) * 0xffff` in `uint32_t`, converted to `int`. */
  function Start(v: Vertex): Acc
  {
    Acc(I32(U32(v.x * Scale)), I32(U32(U32(v.x + 1) * Scale)))
  }

  /** The upper loop, over rows `v1.y .. v2.y - 1`, with edges `v1 -> v2`
      and `v1 -> v3`. */
  function UpperWalk(v1: Vertex, v2: Vertex, v3: Vertex): Walked
  {
    Walk(Start(v1), Slope(v1, v2), Slope(v1, v3), Count(v1.y, v2.y))
  }

  /** The lower loop, over rows `v2.y .. v3.y - 1`: the left edge restarts
      at `v2`, the right edge continues where the upper loop left it. */
  function LowerWalk(v1: Vertex, v2: Vertex, v3: Vertex): Walked
  {
    Walk(Acc(Start(v2).xL, UpperWalk(v1, v2, v3).final.xR), Slope(v2, v3), Slope(v1, v3), Count(v2.y, v3.y))
  }

  /** The spans of the triangle case, upper part then lower part. */
  function TriangleSpans(width: u32, a: Vertex, b: Vertex, c: Vertex): (spans: seq<Span>)
  {
    var (v1, v2, v3) := SortByY(a, b, c);
    WalkLength(v1, v2, v3);
    RowSpans(width, UpperWalk(v1, v2, v3).accs, v1.y) + RowSpans(width, LowerWalk(v1, v2, v3).accs, v2.y)
  }

  lemma WalkLength(v1: Vertex, v2: Vertex, v3: Vertex)
    ensures |UpperWalk(v1, v2, v3).accs| == Count(v1.y, v2.y)
    ensures |LowerWalk(v1, v2, v3).accs| == Count(v2.y, v3.y)
  {
    WalkClosedForm(Start(v1), Slope(v1, v2), Slope(v1, v3), Count(v1.y, v2.y));
    WalkClosedForm(Acc(Start(v2).xL, UpperWalk(v1, v2, v3).final.xR), Slope(v2, v3), Slope(v1, v3), Count(v2.y, v3.y));
  }

  // ---------------------------------------------------------------------
  // Safety and row structure

  /** A span that starts at or past the right edge, or ends at or before
      column `width - 1`: the clamp lowers the end to `width - 1`, and the
      end is excluded, so the last column is never reached. */
  predicate Clamped(width: int, s: Span)
  {
    s.x >= width || s.x + s.w <= width - 1
  }

  /** Whatever the accumulators hold, a row span either starts at or past
      the right edge or stops short of the last column. */
  lemma RowSpanClamped(width: u32, xL: i32, xR: i32, row: u32)
    requires width < TWO31
    ensures Clamped(width, RowSpan(width, xL, xR, row))
  {
  }

  /** Span `i` of a triangle is on row `lowest y + i`, and is clamped. */
  lemma TriangleRow(width: u32, a: Vertex, b: Vertex, c: Vertex, i: nat)
    ensures |TriangleSpans(width, a, b, c)| == SortByY(a, b, c).2.y - SortByY(a, b, c).0.y
    ensures i < |TriangleSpans(width, a, b, c)| ==>
      TriangleSpans(width, a, b, c)[i].y == SortByY(a, b, c).0.y + i
    ensures i < |TriangleSpans(width, a, b, c)| && width < TWO31 ==>
      Clamped(width, TriangleSpans(width, a, b, c)[i])
  {
    var (v1, v2, v3) := SortByY(a, b, c);
    WalkLength(v1, v2, v3);
    var upper := RowSpans(width, UpperWalk(v1, v2, v3).accs, v1.y);
    var lower := RowSpans(width, LowerWalk(v1, v2, v3).accs, v2.y);
    assert TriangleSpans(width, a, b, c) == upper + lower;
    if i < |upper| {
      assert (upper + lower)[i] == upper[i];
    } else if i < |upper| + |lower| {
      assert (upper + lower)[i] == lower[i - |upper|];
    }
  }

  /** Every span of every triangle stays inside its row, so the triangle
      case never writes outside the framebuffer, whatever the vertices. */
  lemma TriangleInRow(d: Descriptor, a: Vertex, b: Vertex, c: Vertex)
    requires d.Valid()
    ensures AllInRow(d, TriangleSpans(d.width, a, b, c))
  {
    var spans := TriangleSpans(d.width, a, b, c);
    forall i | 0 <= i < |spans| ensures InRow(d, spans[i]) {
      TriangleRow(d.width, a, b, c, i);
    }
  }

  /** No span of a triangle covers the last column of the screen: the clamp
      to `width - 1` is an exclusive end. */
  lemma TriangleSkipsLastColumn(width: u32, a: Vertex, b: Vertex, c: Vertex, py: int)
    requires 1 <= width < TWO31
    ensures !CoveredBy(TriangleSpans(width, a, b, c), width - 1, py)
  {
    var spans := TriangleSpans(width, a, b, c);
    forall i | 0 <= i < |spans| ensures !Covers(spans[i], width - 1, py) {
      TriangleRow(width, a, b, c, i);
    }
  }

  /** The triangle draws one span per row, for the rows from the lowest to
      the highest `y` in order, the highest excluded. */
  lemma TriangleRows(width: u32, a: Vertex, b: Vertex, c: Vertex)
    ensures |TriangleSpans(width, a, b, c)| == SortByY(a, b, c).2.y - SortByY(a, b, c).0.y
    ensures forall i | 0 <= i < |TriangleSpans(width, a, b, c)| ::
      TriangleSpans(width, a, b, c)[i].y == SortByY(a, b, c).0.y + i
  {
    var spans := TriangleSpans(width, a, b, c);
    forall i | 0 <= i < |spans| ensures spans[i].y == SortByY(a, b, c).0.y + i {
      TriangleRow(width, a, b, c, i);
    }
    TriangleRow(width, a, b, c, 0);
  }

  // ---------------------------------------------------------------------
  // The degenerate-triangle test

  /** As written, a triangle whose first and third vertices share a row is
      refused even when its middle vertex is on another row: the triangle
      (0,0), (5,5), (10,0) covers five rows but is not drawn. */
  lemma RejectsProperTriangle()
    ensures Rejected(Vertex(0, 0), Vertex(5, 5), Vertex(10, 0))
    ensures |TriangleSpans(640, Vertex(0, 0), Vertex(5, 5), Vertex(10, 0))| == 5
  {
    TriangleRow(640, Vertex(0, 0), Vertex(5, 5), Vertex(10, 0), 0);
  }

  /** The test as evidently intended: after sorting, the lowest and highest
      rows coincide. */
  predicate RejectedFixed(a: Vertex, b: Vertex, c: Vertex)
  {
    var (v1, v2, v3) := SortByY(a, b, c);
    v1.y == v3.y
  }

  /** The intended test refuses exactly the triangles whose three vertices
      share one row, which are exactly those with no row to draw. */
  lemma RejectedFixedExactly(width: u32, a: Vertex, b: Vertex, c: Vertex)
    ensures RejectedFixed(a, b, c) <==> a.y == b.y == c.y
    ensures RejectedFixed(a, b, c) <==> |TriangleSpans(width, a, b, c)| == 0
  {
    var (v1, v2, v3) := SortByY(a, b, c);
    SortByYPermutes(a, b, c);
    TriangleRow(width, a, b, c, 0);
  }

  // ---------------------------------------------------------------------
  // Edge slopes

  /** As written, an edge leaning left gets a large positive slope: the
      edge from (10, 0) to (0, 10) should move one pixel left per row
      (`-0xffff`), but the unsigned arithmetic yields 429431194. */
  lemma SlopeLeftEdge()
    ensures Slope(Vertex(10, 0), Vertex(0, 10)) == 429431194
    ensures SlopeFixed(Vertex(10, 0), Vertex(0, 10)) == -Scale
  {
    assert U32(0 - 10) == 0xffff_fff6;
    assert U32(0xffff_fff6 * Scale) == 0xfff6_000a;
    assert 0xfff6_000a / 10 == 429431194;
    assert TruncDiv((0 - 10) * Scale, 10 - 0) == -Scale;
  }

  /** The slope as evidently intended: the signed difference of the `x`
      coordinates times the scale, divided (truncating) by the signed
      difference of the `y` coordinates. */
  function SlopeFixed(a: Vertex, b: Vertex): i32
  {
    if b.y > a.y then I32(TruncDiv((b.x - a.x) * Scale, b.y - a.y))
    else if b.y < a.y then I32(TruncDiv((a.x - b.x) * Scale, a.y - b.y))
    else 0
  }

  /** For an edge going down the screen between columns below 32768, the
      intended slope has the sign of the edge's run, and walking the edge's
      whole rise with it lands within one rise of the scaled run. */
  lemma SlopeFixedApproximates(a: Vertex, b: Vertex)
    requires a.y < b.y && a.x < 0x8000 && b.x < 0x8000
    ensures SlopeFixed(a, b) == TruncDiv((b.x - a.x) * Scale, b.y - a.y)
    ensures var s, run, rise := SlopeFixed(a, b), (b.x - a.x) * Scale, b.y - a.y;
      && (run >= 0 ==> s >= 0 && s * rise <= run < s * rise + rise)
      && (run < 0 ==> s <= 0 && run <= s * rise < run + rise)
  {
    var run, rise := (b.x - a.x) * Scale, b.y - a.y;
    assert -TWO31 < run < TWO31 by {
      MulLt(if b.x >= a.x then b.x - a.x else a.x - b.x, 0x8000, Scale);
    }
    var q := TruncDiv(run, rise);
    assert -TWO31 < q < TWO31 by {
      if run >= 0 { MulLe(1, rise, q); } else { MulLe(1, rise, -q); }
    }
  }
}
