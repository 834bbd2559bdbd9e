/** The circle case of `dazzle_fb_draw_element`: the midpoint algorithm.
    The centre and radius are the element's `uint32_t` fields converted to
    `int`; the loop walks one octant from `(r, 0)` while `x >= y`, and each
    pass plots the point's eight reflections (outline) or four spans
    between reflections (filled). Span arguments are `int` expressions
    passed as `uint32_t`, so a negative column or row becomes a huge
    unsigned value and the span is dropped. */
module Circles {

  import opened CInt
  import opened Arith
  import opened Seqs
  import opened Format
  import opened Pixels

  /** The loop variables `x` and `y` of one pass. */
  datatype Point = Point(x: int, y: int)

  /** The loop from state `(x, y, p)` on: the points it plots, in order.
      `y` grows by one per pass; `x` drops by one when the decision
      variable `p` is positive. */
  function Steps(x: int, y: int, p: int): seq<Point>
    decreases if x >= y then x - y + 1 else 0
  {
    if x < y then []
    else if p <= 0 then [Point(x, y)] + Steps(x, y + 1, p + 2 * (y + 1) + 1)
    else [Point(x, y)] + Steps(x - 1, y + 1, p + 2 * ((y + 1) - (x - 1)) + 1)
  }

  /** The points plotted for radius `r`: `x = r, y = 0, p = 1 - r`. */
  function Octant(r: int): seq<Point>
  {
    Steps(r, 0, 1 - r)
  }

  /** The decision variable is the circle function at the midpoint
      `(x - 1/2, y + 1)`, scaled: `p = x^2 - x + y^2 + 2y + 1 - r^2`. */
  predicate Decision(r: int, x: int, y: int, p: int)
  {
    p == x * x - x + y * y + 2 * y + 1 - r * r
  }

  /** Point `pt` lies within half a pixel of the circle of radius `r`
      along its row: `-x < x^2 + y^2 - r^2 <= x`. */
  predicate NearCircle(r: int, pt: Point)
  {
    -pt.x < pt.x * pt.x + pt.y * pt.y - r * r <= pt.x
  }

  lemma StepKeep(r: int, x: int, y: int, p: int)
    requires Decision(r, x, y, p) && p <= 0 && NearCircle(r, Point(x, y)) && y >= 0
    ensures Decision(r, x, y + 1, p + 2 * (y + 1) + 1)
    ensures x >= y + 1 ==> NearCircle(r, Point(x, y + 1))
  {
    assert (y + 1) * (y + 1) == y * y + 2 * y + 1;
  }

  lemma StepDiagonal(r: int, x: int, y: int, p: int)
    requires Decision(r, x, y, p) && p > 0 && NearCircle(r, Point(x, y)) && y >= 0
    ensures Decision(r, x - 1, y + 1, p + 2 * ((y + 1) - (x - 1)) + 1)
    ensures x - 1 >= y + 1 ==> NearCircle(r, Point(x - 1, y + 1))
  {
    assert (y + 1) * (y + 1) == y * y + 2 * y + 1;
    assert (x - 1) * (x - 1) == x * x - 2 * x + 1;
  }

  /** Every pass from a state whose decision variable is right plots a
      point near the circle, on the next row of the octant, with `x` never
      growing; the loop makes at most `x - y + 1` passes. */
  lemma {:induction false} StepsNear(r: int, x: int, y: int, p: int)
    requires Decision(r, x, y, p) && y >= 0
    requires x >= y ==> NearCircle(r, Point(x, y))
    ensures |Steps(x, y, p)| <= if x >= y then x - y + 1 else 0
    ensures forall i | 0 <= i < |Steps(x, y, p)| ::
      && Steps(x, y, p)[i].y == y + i
      && y + i <= Steps(x, y, p)[i].x <= x
      && NearCircle(r, Steps(x, y, p)[i])
    decreases if x >= y then x - y + 1 else 0
  {
    if x >= y {
      var pts := Steps(x, y, p);
      if p <= 0 {
        var p' := p + 2 * (y + 1) + 1;
        StepKeep(r, x, y, p);
        StepsNear(r, x, y + 1, p');
        assert pts == [Point(x, y)] + Steps(x, y + 1, p');
      } else {
        var p' := p + 2 * ((y + 1) - (x - 1)) + 1;
        StepDiagonal(r, x, y, p);
        StepsNear(r, x - 1, y + 1, p');
        assert pts == [Point(x, y)] + Steps(x - 1, y + 1, p');
      }
    }
  }

  /** From one pass to the next, `x` stays or drops by one. */
  lemma {:induction false} StepsDescend(x: int, y: int, p: int)
    ensures forall i | 0 <= i < |Steps(x, y, p)| - 1 ::
      Steps(x, y, p)[i].x - 1 <= Steps(x, y, p)[i + 1].x <= Steps(x, y, p)[i].x
    decreases if x >= y then x - y + 1 else 0
  {
    if x >= y {
      var x', p' := if p <= 0 then x else x - 1,
        if p <= 0 then p + 2 * (y + 1) + 1 else p + 2 * ((y + 1) - (x - 1)) + 1;
      var rest := Steps(x', y + 1, p');
      StepsDescend(x', y + 1, p');
      assert Steps(x, y, p) == [Point(x, y)] + rest;
      if |rest| > 0 {
        assert rest[0].x == x';
      }
    }
  }

  /** For a positive radius, pass `i` plots `(x, i)` with `i <= x <= r`
      and `(x, i)` within half a pixel of the circle, and `x` steps down by
      zero or one from pass to pass; the loop makes at most `r + 1` passes. */
  lemma OctantNear(r: int)
    requires r >= 1
    ensures |Octant(r)| <= r + 1
    ensures forall i | 0 <= i < |Octant(r)| ::
      Octant(r)[i].y == i && i <= Octant(r)[i].x <= r && NearCircle(r, Octant(r)[i])
    ensures forall i | 0 <= i < |Octant(r)| - 1 ::
      Octant(r)[i].x - 1 <= Octant(r)[i + 1].x <= Octant(r)[i].x
  {
    StepsNear(r, r, 0, 1 - r);
    StepsDescend(r, 0, 1 - r);
  }

  /** Radius 0 plots the centre once; a negative radius plots nothing. */
  lemma OctantSmall(r: int)
    requires r <= 0
    ensures Octant(r) == if r == 0 then [Point(0, 0)] else []
  {
    if r == 0 {
      assert Steps(0, 1, 4) == [];
    }
  }

  // ---------------------------------------------------------------------
  // Spans

  /** The four spans of a filled pass, in the order: rows `cy + y` and
      `cy - y` from `cx - x`, `2x + 1` wide, then rows `cy + x` and `cy - x`
      from `cx - y`, `2y + 1` wide. */
  function FilledSpans(cx: int, cy: int, pt: Point): (spans: seq<Span>)
    ensures |spans| == 4
  {
    seq(4, t => Chord(cx, cy, pt, t))
  }

  function Chord(cx: int, cy: int, pt: Point, t: int): Span
  {
    var a := if t < 2 then pt.x else pt.y;
    var b := if t < 2 then pt.y else pt.x;
    Span(U32(cx - a), U32(if t % 2 == 0 then cy + b else cy - b), U32(2 * a + 1))
  }

  /** The eight one-pixel spans of an outline pass, one per reflection of
      `(x, y)` about the centre and the diagonals, in the order
      `(cx + x, cy + y)`, `(cx - x, cy + y)`, `(cx + x, cy - y)`,
      `(cx - x, cy - y)`, then the same with `x` and `y` exchanged. */
  function OutlineSpans(cx: int, cy: int, pt: Point): (spans: seq<Span>)
    ensures |spans| == 8
  {
    seq(8, t => Reflection(cx, cy, pt, t))
  }

  function Reflection(cx: int, cy: int, pt: Point, t: int): Span
  {
    var o := ReflectionOffset(pt, t);
    Span(U32(cx + o.x), U32(cy + o.y), 1)
  }

  /** Where reflection `t` of `(x, y)` lies relative to the centre. */
  function ReflectionOffset(pt: Point, t: int): Point
  {
    match t
    case 0 => Point(pt.x, pt.y)
    case 1 => Point(-pt.x, pt.y)
    case 2 => Point(pt.x, -pt.y)
    case 3 => Point(-pt.x, -pt.y)
    case 4 => Point(pt.y, pt.x)
    case 5 => Point(-pt.y, pt.x)
    case 6 => Point(pt.y, -pt.x)
    case _ => Point(-pt.y, -pt.x)
  }

  /** The offsets from the centre of the eight pixels of an outline pass. */
  function OutlineOffsets(pt: Point): set<Point>
  {
    set t | 0 <= t < 8 :: ReflectionOffset(pt, t)
  }

  /** The reflections of `(x, y)` in the two axes and the two diagonals. */
  function AxisReflections(pt: Point): set<Point>
  {
    {Point(pt.x, pt.y), Point(-pt.x, pt.y), Point(pt.x, -pt.y), Point(-pt.x, -pt.y),
     Point(pt.y, pt.x), Point(-pt.y, pt.x), Point(pt.y, -pt.x), Point(-pt.y, -pt.x)}
  }

  lemma OffsetsWithin(pt: Point)
    ensures OutlineOffsets(pt) <= AxisReflections(pt)
  {
    forall o | o in OutlineOffsets(pt) ensures o in AxisReflections(pt) {
      var t :| 0 <= t < 8 && o == ReflectionOffset(pt, t);
      if t == 0 {} else if t == 1 {} else if t == 2 {} else if t == 3 {}
      else if t == 4 {} else if t == 5 {} else if t == 6 {} else {}
    }
  }

  lemma OffsetsReach(pt: Point)
    ensures AxisReflections(pt) <= OutlineOffsets(pt)
  {
    assert ReflectionOffset(pt, 0) in OutlineOffsets(pt) && ReflectionOffset(pt, 1) in OutlineOffsets(pt);
    assert ReflectionOffset(pt, 2) in OutlineOffsets(pt) && ReflectionOffset(pt, 3) in OutlineOffsets(pt);
    assert ReflectionOffset(pt, 4) in OutlineOffsets(pt) && ReflectionOffset(pt, 5) in OutlineOffsets(pt);
    assert ReflectionOffset(pt, 6) in OutlineOffsets(pt) && ReflectionOffset(pt, 7) in OutlineOffsets(pt);
  }

  /** The eight pixels of an outline pass are exactly the reflections of
      `(x, y)` in the two axes and the two diagonals. */
  lemma OutlineOffsetsAre(pt: Point)
    ensures OutlineOffsets(pt) == AxisReflections(pt)
  {
    OffsetsWithin(pt);
    OffsetsReach(pt);
  }

  /** The outline pass is symmetric: its set of offsets is carried onto
      itself by exchanging the coordinates and by negating either one. */
  lemma OutlineSymmetric(pt: Point)
    ensures forall o | o in OutlineOffsets(pt) ::
      && Point(o.y, o.x) in OutlineOffsets(pt)
      && Point(-o.x, o.y) in OutlineOffsets(pt)
      && Point(o.x, -o.y) in OutlineOffsets(pt)
  {
    OutlineOffsetsAre(pt);
    AxisSymmetric(pt);
  }

  lemma AxisSymmetric(pt: Point)
    ensures forall o | o in AxisReflections(pt) ::
      && Point(o.y, o.x) in AxisReflections(pt)
      && Point(-o.x, o.y) in AxisReflections(pt)
      && Point(o.x, -o.y) in AxisReflections(pt)
  {
  }

  function PassSpans(cx: int, cy: int, pt: Point, filled: bool): seq<Span>
  {
    if filled then FilledSpans(cx, cy, pt) else OutlineSpans(cx, cy, pt)
  }

  /** Spans drawn per pass. */
  function PerPass(filled: bool): nat
  {
    if filled then 4 else 8
  }

  function Passes(cx: int, cy: int, pts: seq<Point>, filled: bool): (rows: seq<seq<Span>>)
    ensures |rows| == |pts|
    ensures Uniform(rows, PerPass(filled))
  {
    seq(|pts|, i requires 0 <= i < |pts| => PassSpans(cx, cy, pts[i], filled))
  }

  /** The spans the circle case draws, pass after pass. */
  function CircleSpans(x: u32, y: u32, radius: u32, filled: bool): seq<Span>
  {
    Concat(Passes(I32(x), I32(y), Octant(I32(radius)), filled))
  }

  /** A radius of 2^31 or more is a negative `int`: nothing is drawn. */
  lemma NegativeRadiusDrawsNothing(x: u32, y: u32, radius: u32, filled: bool)
    requires radius >= TWO31
    ensures CircleSpans(x, y, radius, filled) == []
  {
    OctantSmall(I32(radius));
  }

  /** A circle on the screen: its bounding square lies inside the frame. */
  predicate OnScreen(d: Descriptor, x: u32, y: u32, radius: u32)
  {
    radius <= x && x + radius < d.width && radius <= y && y + radius < d.height
  }

  /** Pixel `(px, py)` is within distance `sqrt(r^2 + r)` of the centre,
      which is half a pixel beyond the circle. */
  predicate InDisc(cx: int, cy: int, r: int, px: int, py: int)
  {
    (px - cx) * (px - cx) + (py - cy) * (py - cy) <= r * r + r
  }

  /** Pixel `(px, py)` is within half a pixel of the circle, on either side. */
  predicate OnRing(cx: int, cy: int, r: int, px: int, py: int)
  {
    r * r - r < (px - cx) * (px - cx) + (py - cy) * (py - cy) <= r * r + r
  }

  /** The span at index `j` of the concatenated passes belongs to pass
      `j / PerPass` and is that pass's span `j % PerPass`. */
  lemma CircleSpanAt(x: u32, y: u32, radius: u32, filled: bool, j: nat)
    requires j < |CircleSpans(x, y, radius, filled)|
    ensures var n := PerPass(filled);
      && j / n < |Octant(I32(radius))|
      && CircleSpans(x, y, radius, filled)[j]
         == PassSpans(I32(x), I32(y), Octant(I32(radius))[j / n], filled)[j % n]
  {
    var n := PerPass(filled);
    var rows := Passes(I32(x), I32(y), Octant(I32(radius)), filled);
    var k, t := j / n, j % n;
    ConcatLength(rows, n);
    assert j == k * n + t;
    ConcatAt(rows, n, k, t);
  }

  lemma SquareLe(a: int, b: int)
    requires -b <= a <= b
    ensures a * a <= b * b
  {
    if a >= 0 { MulLe(a, b, a); MulLe(a, b, b); } else { MulLe(-a, b, -a); MulLe(-a, b, b); }
  }

  /** Squared distance of `(px, py)` from the centre. */
  function Dist2(cx: int, cy: int, px: int, py: int): int
  {
    (px - cx) * (px - cx) + (py - cy) * (py - cy)
  }

  /** The reflections of a point whose coordinates are at most `reach` from
      the centre, with the centre `reach` or more from every screen edge. */
  predicate Reaches(d: Descriptor, cx: int, cy: int, pt: Point)
  {
    0 <= pt.y <= pt.x && pt.x <= cx && cx + pt.x < d.width && pt.x <= cy && cy + pt.x < d.height
  }

  /** The spans of one pass, for a point of the octant whose reflections
      all lie on the screen, stay inside their rows; a filled pass covers
      only pixels no farther from the centre than the point, an outline
      pass only pixels exactly as far. */
  lemma PassGeometry(d: Descriptor, cx: int, cy: int, pt: Point, filled: bool, t: nat, px: int, py: int)
    requires d.Valid() && Reaches(d, cx, cy, pt)
    requires t < PerPass(filled)
    ensures InRow(d, PassSpans(cx, cy, pt, filled)[t])
    ensures Covers(PassSpans(cx, cy, pt, filled)[t], px, py) ==>
      Dist2(cx, cy, px, py) <= pt.x * pt.x + pt.y * pt.y
    ensures Covers(PassSpans(cx, cy, pt, filled)[t], px, py) && !filled ==>
      Dist2(cx, cy, px, py) == pt.x * pt.x + pt.y * pt.y
  {
    if filled {
      FilledGeometry(d, cx, cy, pt, t, px, py);
    } else {
      OutlineGeometry(d, cx, cy, pt, t, px, py);
    }
  }

  lemma FilledGeometry(d: Descriptor, cx: int, cy: int, pt: Point, t: nat, px: int, py: int)
    requires d.Valid() && Reaches(d, cx, cy, pt)
    requires t < 4
    ensures InRow(d, FilledSpans(cx, cy, pt)[t])
    ensures Covers(FilledSpans(cx, cy, pt)[t], px, py) ==>
      Dist2(cx, cy, px, py) <= pt.x * pt.x + pt.y * pt.y
  {
    var a := if t < 2 then pt.x else pt.y;
    var b := if t < 2 then pt.y else pt.x;
    var row := if t % 2 == 0 then cy + b else cy - b;
    assert FilledSpans(cx, cy, pt)[t] == Span(cx - a, row, 2 * a + 1);
    if Covers(FilledSpans(cx, cy, pt)[t], px, py) {
      RowDistance(cx, cy, a, b, px, py);
    }
  }

  /** A pixel at most `a` columns and exactly `b` rows from the centre. */
  lemma RowDistance(cx: int, cy: int, a: int, b: int, px: int, py: int)
    requires -a <= px - cx <= a && (py - cy == b || py - cy == -b)
    ensures Dist2(cx, cy, px, py) <= a * a + b * b
  {
    SquareLe(px - cx, a);
    assert (py - cy) * (py - cy) == b * b;
  }

  /** A pixel exactly `a` columns and `b` rows from the centre. */
  lemma PointDistance(cx: int, cy: int, a: int, b: int, px: int, py: int)
    requires (px - cx == a || px - cx == -a) && (py - cy == b || py - cy == -b)
    ensures Dist2(cx, cy, px, py) == a * a + b * b
  {
    assert (px - cx) * (px - cx) == a * a;
    assert (py - cy) * (py - cy) == b * b;
  }

  lemma OutlineGeometry(d: Descriptor, cx: int, cy: int, pt: Point, t: nat, px: int, py: int)
    requires d.Valid() && Reaches(d, cx, cy, pt)
    requires t < 8
    ensures InRow(d, OutlineSpans(cx, cy, pt)[t])
    ensures Covers(OutlineSpans(cx, cy, pt)[t], px, py) ==>
      Dist2(cx, cy, px, py) == pt.x * pt.x + pt.y * pt.y
  {
    var a := if t < 4 then pt.x else pt.y;
    var b := if t < 4 then pt.y else pt.x;
    var o := ReflectionOffset(pt, t);
    assert (o.x == a || o.x == -a) && (o.y == b || o.y == -b);
    assert OutlineSpans(cx, cy, pt)[t] == Span(cx + o.x, cy + o.y, 1);
    if Covers(OutlineSpans(cx, cy, pt)[t], px, py) {
      PointDistance(cx, cy, a, b, px, py);
    }
  }

  /** The squared distance bound of a pass, in terms of the radius. */
  lemma PointBound(r: int, pt: Point, dist2: int)
    requires r >= 1 && 0 <= pt.x <= r && NearCircle(r, pt)
    ensures dist2 <= pt.x * pt.x + pt.y * pt.y ==> dist2 <= r * r + r
    ensures dist2 == pt.x * pt.x + pt.y * pt.y ==> r * r - r < dist2
  {
  }

  /** An on-screen circle is drawn inside the screen, row by row: every span
      stays inside its row. Every pixel it paints is at most half a pixel
      outside the circle, and an outline of positive radius paints only
      pixels within half a pixel of the circle on either side. */
  lemma CircleGeometry(d: Descriptor, x: u32, y: u32, radius: u32, filled: bool, px: int, py: int)
    requires d.Valid() && OnScreen(d, x, y, radius)
    ensures AllInRow(d, CircleSpans(x, y, radius, filled))
    ensures CoveredBy(CircleSpans(x, y, radius, filled), px, py) ==> InDisc(x, y, radius, px, py)
    ensures CoveredBy(CircleSpans(x, y, radius, filled), px, py) && !filled && radius >= 1 ==>
      OnRing(x, y, radius, px, py)
  {
    var spans := CircleSpans(x, y, radius, filled);
    var n := PerPass(filled);
    var pts := Octant(radius);
    assert I32(x) == x && I32(y) == y && I32(radius) == radius;
    if radius >= 1 { OctantNear(radius); } else { OctantSmall(radius); }
    forall j | 0 <= j < |spans|
      ensures InRow(d, spans[j])
      ensures Covers(spans[j], px, py) ==> InDisc(x, y, radius, px, py)
      ensures Covers(spans[j], px, py) && !filled && radius >= 1 ==> OnRing(x, y, radius, px, py)
    {
      CircleSpanAt(x, y, radius, filled, j);
      var pt := pts[j / n];
      PassGeometry(d, x, y, pt, filled, j % n, px, py);
      if radius >= 1 {
        PointBound(radius, pt, Dist2(x, y, px, py));
      }
    }
  }
}
