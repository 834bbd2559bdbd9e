/** The retained-mode front end of `dazzle.h`: the element factories, the
    FIFO append, the redraw of the whole scene and the immediate clear,
    with the framebuffer backend installed as the context's renderer. */
module Dazzle {

  import opened CInt
  import opened Optional
  import opened Alloc
  import opened Memory
  import opened Elements
  import opened Backend
  import opened Seqs
  import B = Blits

  // ---------------------------------------------------------------------
  // Immediate rendering

  /** `dazzle_clear`: hands the request to the backend and returns its
      result; the scene is not touched. */
  function Clear(ctx: Context, color: bv64): (r: Outcome<(bool, Context)>)
    requires ctx.Valid()
    ensures r.Done? ==> (r.value.0 <==> ctx.renderer.Some?)
    ensures r.Done? ==> r.value.1.scene == ctx.scene && r.value.1.count == ctx.count
    ensures r.Fault? <==> ctx.renderer.Some? && !ClearLineDefined(ctx.renderer.value, ctx.alloc.NextSucceeds())
  {
    FbClear(ctx, color)
  }

  // ---------------------------------------------------------------------
  // Element creation

  /** What a factory returns (NULL when `malloc` fails) and the context
      after it. */
  datatype Created = Created(element: Option<Element>, ctx: Context)

  /** The shared shape of the four factories: one `malloc` of an element,
      NULL on failure, otherwise the element filled in from the arguments
      with no successor. */
  function Create(ctx: Context, e: Element): (r: Created)
    ensures r.ctx == ctx.(alloc := ctx.alloc.Step())
    ensures r.element.Some? <==> ctx.alloc.NextSucceeds()
    ensures r.element.Some? ==> r.element.value == e
  {
    var m := Malloc(ctx.alloc);
    Created(if m.ok then Some(e) else None, ctx.(alloc := m.next))
  }

  /** `dazzle_create_triangle`. */
  function CreateTriangle(ctx: Context, x1: u32, y1: u32, x2: u32, y2: u32, x3: u32, y3: u32,
                          filled: bool, color: bv64): (r: Created)
    ensures r.ctx.scene == ctx.scene && r.ctx.screen == ctx.screen && r.ctx.alloc == ctx.alloc.Step()
    ensures r.element.Some? <==> ctx.alloc.NextSucceeds()
    ensures r.element.Some? ==> var e := r.element.value;
      && e.Triangle? && e.x1 == x1 && e.y1 == y1 && e.x2 == x2 && e.y2 == y2
      && e.x3 == x3 && e.y3 == y3 && e.filled == filled && e.color == color
  {
    Create(ctx, Triangle(x1, y1, x2, y2, x3, y3, filled, color))
  }

  /** `dazzle_create_rectangle`. */
  function CreateRectangle(ctx: Context, x: u32, y: u32, width: u32, height: u32,
                           filled: bool, color: bv64): (r: Created)
    ensures r.ctx.scene == ctx.scene && r.ctx.screen == ctx.screen && r.ctx.alloc == ctx.alloc.Step()
    ensures r.element.Some? <==> ctx.alloc.NextSucceeds()
    ensures r.element.Some? ==> var e := r.element.value;
      && e.Rectangle? && e.x == x && e.y == y && e.width == width && e.height == height
      && e.filled == filled && e.color == color
  {
    Create(ctx, Rectangle(x, y, width, height, filled, color))
  }

  /** `dazzle_create_circle`. */
  function CreateCircle(ctx: Context, x: u32, y: u32, radius: u32, filled: bool, color: bv64): (r: Created)
    ensures r.ctx.scene == ctx.scene && r.ctx.screen == ctx.screen && r.ctx.alloc == ctx.alloc.Step()
    ensures r.element.Some? <==> ctx.alloc.NextSucceeds()
    ensures r.element.Some? ==> var e := r.element.value;
      && e.Circle? && e.x == x && e.y == y && e.radius == radius && e.filled == filled && e.color == color
  {
    Create(ctx, Circle(x, y, radius, filled, color))
  }

  /** `dazzle_create_blitable` as written: `translated` is never set, so
      the new element carries whatever the allocated block held there,
      given here as `stale`. */
  function CreateBlitable(ctx: Context, x: u32, y: u32, width: u32, height: u32,
                          buffer: seq<bv32>, stale: bool): (r: Created)
    ensures r.ctx.scene == ctx.scene && r.ctx.screen == ctx.screen && r.ctx.alloc == ctx.alloc.Step()
    ensures r.element.Some? <==> ctx.alloc.NextSucceeds()
    ensures r.element.Some? ==> var e := r.element.value;
      && e.Blitable? && e.blit.x == x && e.blit.y == y && e.blit.w == width && e.blit.h == height
      && e.blit.buffer == buffer && e.blit.translated == stale
  {
    Create(ctx, Blitable(B.Blit(x, y, width, height, stale, buffer)))
  }

  /** As written, a blitable whose block happened to hold a set
      `translated` byte is never converted: drawing it keeps the element,
      so the caller's pixels go to the screen in their own layout. */
  lemma StaleBlitableNotConverted(ctx: Context, x: u32, y: u32, width: u32, height: u32, buffer: seq<bv32>)
    requires ctx.Valid() && ctx.renderer.Some? && ctx.alloc.NextSucceeds()
    ensures var c := CreateBlitable(ctx, x, y, width, height, buffer, true);
      && c.element.Some? && c.ctx.Valid()
      && Prepare(ctx.renderer.value, c.ctx.alloc, c.element.value) == Done((c.element.value, c.ctx.alloc))
      && (DrawElement(c.ctx, c.element.value).Done? ==>
            DrawElement(c.ctx, c.element.value).value.element == c.element.value)
  {
  }

  /** The factory as evidently intended: a new blitable starts out not
      converted. */
  function CreateBlitableFixed(ctx: Context, x: u32, y: u32, width: u32, height: u32,
                               buffer: seq<bv32>): (r: Created)
    ensures r.ctx.scene == ctx.scene && r.ctx.screen == ctx.screen && r.ctx.alloc == ctx.alloc.Step()
    ensures r.element.Some? <==> ctx.alloc.NextSucceeds()
    ensures r.element.Some? ==> var e := r.element.value;
      && e.Blitable? && e.blit.x == x && e.blit.y == y && e.blit.w == width && e.blit.h == height
      && e.blit.buffer == buffer && !e.blit.translated
  {
    Create(ctx, Blitable(B.Blit(x, y, width, height, false, buffer)))
  }

  /** A blitable from the intended factory is converted on its first
      successful draw: the drawn element holds the device-layout pixels. */
  lemma FixedBlitableConverted(ctx: Context, x: u32, y: u32, width: u32, height: u32, buffer: seq<bv32>)
    requires ctx.Valid() && ctx.renderer.Some? && ctx.alloc.NextSucceeds()
    ensures var c := CreateBlitableFixed(ctx, x, y, width, height, buffer);
      && c.element.Some? && c.ctx.Valid()
      && (DrawElement(c.ctx, c.element.value).Done? ==>
            var e := DrawElement(c.ctx, c.element.value).value.element;
            && e.Blitable? && e.blit.translated
            && |e.blit.buffer| == B.PixelCount(c.element.value.blit)
            && forall i | 0 <= i < |e.blit.buffer| ::
                 e.blit.buffer[i] == B.DevicePixel(ctx.renderer.value, buffer[i]))
  {
  }

  // ---------------------------------------------------------------------
  // The scene

  /** `dazzle_add`: the element goes to the end of the scene and the count
      goes up by one, as a `uint32_t`. */
  function Add(ctx: Context, e: Element): (r: Context)
    ensures r.scene == ctx.scene + [e] && r.count == U32(ctx.count + 1)
    ensures r.alloc == ctx.alloc && r.renderer == ctx.renderer && r.screen == ctx.screen
    ensures ctx.CountMatches() ==> r.CountMatches()
  {
    ctx.(scene := ctx.scene + [e], count := U32(ctx.count + 1))
  }

  /** Adding elements one after the other. */
  function AddAll(ctx: Context, es: seq<Element>): (r: Context)
    decreases |es|
  {
    if es == [] then ctx else Add(AddAll(ctx, es[..|es| - 1]), es[|es| - 1])
  }

  /** Starting from the context `dazzle_init_fb` builds, adding `es` gives
      the scene `es` in append order and a count of `|es|` modulo 2^32. */
  lemma {:induction false} AddAllFromInit(alloc: Allocator, fb: Format.Descriptor, screen: seq<bv8>, es: seq<Element>)
    requires InitFb(alloc, fb, screen).0.Some?
    ensures var ctx := AddAll(InitFb(alloc, fb, screen).0.value, es);
      && ctx.scene == es && ctx.count == |es| % TWO32 && ctx.renderer == Some(fb) && ctx.screen == screen
    decreases |es|
  {
    if es != [] {
      AddAllFromInit(alloc, fb, screen, es[..|es| - 1]);
      assert es[..|es| - 1] + [es[|es| - 1]] == es;
    }
  }

  // ---------------------------------------------------------------------
  // Redrawing the scene

  /** The state after drawing the first elements of the scene: the value
      each `draw_element` call returned, in order, and the context, whose
      scene holds the drawn (possibly converted) elements in their places. */
  datatype Pass = Pass(results: seq<bool>, ctx: Context)

  /** Drawing the first `n` elements of the scene in order, each with the
      context the previous draws left. */
  function Replay(ctx: Context, n: nat): (r: Outcome<Pass>)
    requires ctx.Valid() && n <= |ctx.scene|
    ensures r.Done? ==> var c := r.value.ctx;
      && |r.value.results| == n && c.Valid()
      && |c.scene| == |ctx.scene| && c.scene[n..] == ctx.scene[n..]
      && c.count == ctx.count && c.renderer == ctx.renderer && c.alloc.failing == ctx.alloc.failing
  {
    if n == 0 then Done(Pass([], ctx))
    else
      match Replay(ctx, n - 1)
      case Fault => Fault
      case Done(p) =>
        match DrawElement(p.ctx, p.ctx.scene[n - 1])
        case Fault => Fault
        case Done(dr) => Done(Pass(p.results + [dr.ok], dr.ctx.(scene := dr.ctx.scene[n - 1 := dr.element])))
  }

  /** One step of a pass that completed: the shorter pass completed, the
      draw of element `n - 1` completed, and the pass records both. */
  lemma ReplayStep(ctx: Context, n: nat) returns (p: Pass, dr: Drawn)
    requires ctx.Valid() && 0 < n <= |ctx.scene|
    requires Replay(ctx, n).Done?
    ensures Replay(ctx, n - 1) == Done(p) && p.ctx.Valid() && n - 1 < |p.ctx.scene|
    ensures DrawElement(p.ctx, p.ctx.scene[n - 1]) == Done(dr)
    ensures Replay(ctx, n).value == Pass(p.results + [dr.ok], dr.ctx.(scene := dr.ctx.scene[n - 1 := dr.element]))
  {
    p := Replay(ctx, n - 1).value;
    dr := DrawElement(p.ctx, p.ctx.scene[n - 1]).value;
  }

  /** Every draw returned true. */
  predicate AllTrue(results: seq<bool>)
  {
    forall k | 0 <= k < |results| :: results[k]
  }

  lemma AllTrueSnoc(results: seq<bool>, b: bool)
    ensures AllTrue(results + [b]) <==> AllTrue(results) && b
  {
    assert forall k | 0 <= k < |results| :: (results + [b])[k] == results[k];
    assert (results + [b])[|results|] == b;
  }

  /** Undefined behaviour in one draw is undefined behaviour of the whole
      redraw. */
  lemma {:induction false} FaultPersists(ctx: Context, i: nat, n: nat)
    requires ctx.Valid() && i <= n <= |ctx.scene|
    requires Replay(ctx, i).Fault?
    ensures Replay(ctx, n).Fault?
    decreases n
  {
    if n > i {
      FaultPersists(ctx, i, n - 1);
    }
  }

  /** One iteration of the redraw loop: draws element `i` in the context
      the pass over the first `i` elements left. */
  method DrawNext(ctx: Context, i: nat, ghost p: Pass, c: Context) returns (d: Outcome<Drawn>)
    requires ctx.Valid() && i < |ctx.scene| && Replay(ctx, i) == Done(p) && c == p.ctx
    ensures d.Fault? ==> Replay(ctx, i + 1).Fault?
    ensures d.Done? ==> d.value.ctx.Valid() && i < |d.value.ctx.scene|
    ensures d.Done? ==>
      Replay(ctx, i + 1) == Done(Pass(p.results + [d.value.ok], d.value.ctx.(scene := d.value.ctx.scene[i := d.value.element])))
  {
    d := DrawElement(c, c.scene[i]);
  }

  /** The rest of the iteration: undefined behaviour ends the redraw, and
      otherwise the drawn element goes back to its place and its result is
      folded into the running AND. */
  method FoldNext(ctx: Context, i: nat, ghost p: Pass, success: bool, d: Outcome<Drawn>)
    returns (r: Outcome<(bool, Context)>, ghost q: Pass)
    requires ctx.Valid() && i < |ctx.scene| && success == AllTrue(p.results)
    requires d.Fault? ==> Replay(ctx, i + 1).Fault?
    requires d.Done? ==> d.value.ctx.Valid() && i < |d.value.ctx.scene|
    requires d.Done? ==>
      Replay(ctx, i + 1) == Done(Pass(p.results + [d.value.ok], d.value.ctx.(scene := d.value.ctx.scene[i := d.value.element])))
    ensures r.Fault? ==> Replay(ctx, |ctx.scene|).Fault?
    ensures r.Done? ==> Replay(ctx, i + 1) == Done(q) && r.value.1 == q.ctx && r.value.0 == AllTrue(q.results)
  {
    q := p;
    if d.Fault? {
      FaultPersists(ctx, i + 1, |ctx.scene|);
      return Fault, q;
    }
    var dr := d.value;
    var c := dr.ctx.(scene := dr.ctx.scene[i := dr.element]);
    AllTrueSnoc(p.results, dr.ok);
    q := Pass(p.results + [dr.ok], c);
    r := Done((success && dr.ok, c));
  }

  /** `dazzle_redraw`: every element is drawn once, in append order; a
      false result does not stop the loop, and the result is the AND of all
      results (true for an empty scene). */
  method Redraw(ctx: Context) returns (r: Outcome<(bool, Context)>)
    requires ctx.Valid()
    ensures var p := Replay(ctx, |ctx.scene|);
      && (r.Fault? <==> p.Fault?)
      && (r.Done? ==> r.value.1 == p.value.ctx)
      && (r.Done? ==> r.value.0 == AllTrue(p.value.results))
    ensures ctx.scene == [] ==> r == Done((true, ctx))
  {
    var c := ctx;
    var success := true;
    var i := 0;
    ghost var p := Pass([], ctx);
    while i < |ctx.scene|
      invariant 0 <= i <= |ctx.scene|
      invariant Replay(ctx, i) == Done(p) && c == p.ctx
      invariant success == AllTrue(p.results)
    {
      var d := DrawNext(ctx, i, p, c);
      var step;
      step, p := FoldNext(ctx, i, p, success, d);
      if step.Fault? {
        return Fault;
      }
      success, c := step.value.0, step.value.1;
      i := i + 1;
    }
    return Done((success, c));
  }

  /** `n` results of false. */
  function Falses(n: nat): (r: seq<bool>)
    ensures |r| == n && forall k | 0 <= k < n :: !r[k]
  {
    if n == 0 then [] else Falses(n - 1) + [false]
  }

  /** Without backend state every draw returns false and changes nothing. */
  lemma {:induction false} ReplayWithoutRenderer(ctx: Context, n: nat)
    requires ctx.Valid() && ctx.renderer.None? && n <= |ctx.scene|
    ensures Replay(ctx, n) == Done(Pass(Falses(n), ctx))
  {
    if n > 0 {
      var e := ctx.scene[n - 1];
      ReplayWithoutRenderer(ctx, n - 1);
      assert DrawElement(ctx, e) == Done(Drawn(false, ctx, e)) by {
        DrawWithoutRenderer(ctx, e);
      }
      assert ctx.scene[n - 1 := e] == ctx.scene;
    }
  }

  // ---------------------------------------------------------------------
  // Redrawing twice

  /** The copies one draw made: those of the drawn element when the draw
      returned true, none otherwise. */
  function StepWrites(d: Format.Descriptor, e: Element, ok: bool): (ws: seq<Write>)
    requires d.Valid()
    ensures AllFit(ws, d.Size())
  {
    if ok && ElementWrites(d, e).Some? then ElementWrites(d, e).value else []
  }

  /** The copies of a pass over `es` with results `oks`, in drawing order. */
  function PassWrites(d: Format.Descriptor, es: seq<Element>, oks: seq<bool>): (ws: seq<Write>)
    requires d.Valid() && |es| == |oks|
    ensures AllFit(ws, d.Size())
    decreases |es|
  {
    if es == [] then []
    else
      var a, b := PassWrites(d, es[..|es| - 1], oks[..|oks| - 1]), StepWrites(d, es[|es| - 1], oks[|oks| - 1]);
      AllFitAppend(a, b, d.Size());
      a + b
  }

  /** One more draw adds its copies at the end. */
  lemma PassWritesSnoc(d: Format.Descriptor, es: seq<Element>, oks: seq<bool>, e: Element, ok: bool)
    requires d.Valid() && |es| == |oks|
    ensures PassWrites(d, es + [e], oks + [ok]) == PassWrites(d, es, oks) + StepWrites(d, e, ok)
  {
    assert (es + [e])[..|es|] == es;
    assert (oks + [ok])[..|oks|] == oks;
  }

  /** Applying a pass's copies and then one more draw's copies is applying
      the longer pass's copies. */
  lemma ScreenSnoc(d: Format.Descriptor, s0: seq<bv8>, s1: seq<bv8>, s2: seq<bv8>,
                   es: seq<Element>, oks: seq<bool>, e: Element, ok: bool)
    requires d.Valid() && |es| == |oks| && |s0| == d.Size()
    requires s1 == ApplyAll(s0, PassWrites(d, es, oks))
    requires s2 == ApplyAll(s1, StepWrites(d, e, ok))
    ensures s2 == ApplyAll(s0, PassWrites(d, es + [e], oks + [ok]))
  {
    PassWritesSnoc(d, es, oks, e, ok);
    ApplyAllAppend(s0, PassWrites(d, es, oks), StepWrites(d, e, ok));
  }

  /** One draw applies its copies to the screen. */
  lemma DrawEffect(ctx: Context, e: Element)
    requires ctx.Valid() && ctx.renderer.Some? && DrawElement(ctx, e).Done?
    ensures var dr := DrawElement(ctx, e).value;
      dr.ctx.screen == ApplyAll(ctx.screen, StepWrites(ctx.renderer.value, dr.element, dr.ok))
  {
    if DrawElement(ctx, e).value.ok {
      DrawOk(ctx, e);
    }
  }

  /** A pass over the first `n` elements applies their copies in order. */
  lemma {:induction false} ReplayScreen(ctx: Context, n: nat)
    requires ctx.Valid() && ctx.renderer.Some? && n <= |ctx.scene|
    requires Replay(ctx, n).Done?
    ensures var p := Replay(ctx, n).value;
      p.ctx.screen == ApplyAll(ctx.screen, PassWrites(ctx.renderer.value, p.ctx.scene[..n], p.results))
  {
    if n > 0 {
      var d := ctx.renderer.value;
      var p, dr := ReplayStep(ctx, n);
      ReplayScreen(ctx, n - 1);
      DrawEffect(p.ctx, p.ctx.scene[n - 1]);
      assert dr.ctx.scene[n - 1 := dr.element][..n] == p.ctx.scene[..n - 1] + [dr.element] by {
        UpdateSlice(dr.ctx.scene, n, dr.element);
      }
      ScreenSnoc(d, ctx.screen, p.ctx.screen, dr.ctx.screen, p.ctx.scene[..n - 1], p.results, dr.element, dr.ok);
    }
  }

  /** A drawn element needs no more conversion, and with an allocator that
      never fails its result depends on the element alone: true unless it
      is a rejected triangle, in which case it has copies to make. */
  predicate Settled(d: Format.Descriptor, e: Element, ok: bool)
    requires d.Valid()
  {
    && (e.Blitable? ==> e.blit.translated)
    && (ok <==> !RejectedTriangle(e))
    && (ok ==> ElementWrites(d, e).Some?)
  }

  /** Every element of `es` is settled with the matching result. */
  predicate AllSettled(d: Format.Descriptor, es: seq<Element>, oks: seq<bool>)
    requires d.Valid()
  {
    |es| == |oks| && forall k | 0 <= k < |es| :: Settled(d, es[k], oks[k])
  }

  lemma AllSettledSnoc(d: Format.Descriptor, es: seq<Element>, oks: seq<bool>, e: Element, ok: bool)
    requires d.Valid() && AllSettled(d, es, oks) && Settled(d, e, ok)
    ensures AllSettled(d, es + [e], oks + [ok])
  {
    forall k | 0 <= k < |es| + 1 ensures Settled(d, (es + [e])[k], (oks + [ok])[k]) {
      if k < |es| {
        assert (es + [e])[k] == es[k] && (oks + [ok])[k] == oks[k];
      }
    }
  }

  /** A draw with an allocator that never fails leaves its element settled
      with the result it returned. */
  lemma DrawSettles(ctx: Context, e: Element)
    requires ctx.Valid() && ctx.renderer.Some? && ctx.alloc.failing == {}
    requires DrawElement(ctx, e).Done?
    ensures Settled(ctx.renderer.value, DrawElement(ctx, e).value.element, DrawElement(ctx, e).value.ok)
  {
    var d := ctx.renderer.value;
    var p := Prepare(d, ctx.alloc, e);
    assert p.Done? && Malloc(p.value.1).ok;
    var e1, r := p.value.0, DrawElement(ctx, e).value;
    if RejectedTriangle(e1) {
      assert r.element == e1 && !r.ok;
    } else {
      assert ElementWrites(d, e1).Some?;
      assert r.element == e1 && r.ok;
    }
  }

  /** A settled element drawn again with an allocator that never fails
      returns the same result and applies the same copies. */
  lemma DrawSettledAgain(ctx: Context, e: Element, ok: bool)
    requires ctx.Valid() && ctx.renderer.Some? && ctx.alloc.failing == {}
    requires Settled(ctx.renderer.value, e, ok)
    ensures DrawElement(ctx, e) == Done(Drawn(ok, ctx.(alloc := ctx.alloc.Step(),
      screen := ApplyAll(ctx.screen, StepWrites(ctx.renderer.value, e, ok))), e))
  {
    var d := ctx.renderer.value;
    assert ctx.alloc.NextSucceeds();
    assert Prepare(d, ctx.alloc, e) == Done((e, ctx.alloc)) by {
      if e.Blitable? {
        assert B.Translate(d, ctx.alloc, e.blit) == Done((e.blit, ctx.alloc));
      }
    }
    if ok {
      DrawPreparedOk(ctx, e);
    } else {
      assert StepWrites(d, e, ok) == [] && ApplyAll(ctx.screen, []) == ctx.screen;
      DrawPreparedRejected(ctx, e);
    }
  }

  /** After a pass with an allocator that never fails, every drawn element
      is settled with the result its draw returned. */
  lemma {:induction false} ReplaySettles(ctx: Context, n: nat)
    requires ctx.Valid() && ctx.renderer.Some? && ctx.alloc.failing == {} && n <= |ctx.scene|
    requires Replay(ctx, n).Done?
    ensures var p := Replay(ctx, n).value;
      AllSettled(ctx.renderer.value, p.ctx.scene[..n], p.results)
  {
    if n > 0 {
      var d := ctx.renderer.value;
      var p, dr := ReplayStep(ctx, n);
      ReplaySettles(ctx, n - 1);
      assert Settled(d, dr.element, dr.ok) by {
        DrawSettles(p.ctx, p.ctx.scene[n - 1]);
      }
      assert dr.ctx.scene[n - 1 := dr.element][..n] == p.ctx.scene[..n - 1] + [dr.element] by {
        UpdateSlice(dr.ctx.scene, n, dr.element);
      }
      AllSettledSnoc(d, p.ctx.scene[..n - 1], p.results, dr.element, dr.ok);
    }
  }

  /** The context after a pass over the first `n` settled elements with an
      allocator that never fails: `n` more allocations, and the screen with
      their copies applied in order. */
  function SettledCtx(ctx: Context, rs: seq<bool>, n: nat): (c: Context)
    requires ctx.Valid() && ctx.renderer.Some? && n <= |ctx.scene| == |rs|
    ensures c.Valid() && c.renderer == ctx.renderer && c.scene == ctx.scene
  {
    ctx.(alloc := Allocator(ctx.alloc.failing, ctx.alloc.calls + n),
         screen := ApplyAll(ctx.screen, PassWrites(ctx.renderer.value, ctx.scene[..n], rs[..n])))
  }

  /** A pass over settled elements with an allocator that never fails
      draws each one with its recorded result and applies their copies. */
  lemma {:induction false} ReplaySettled(ctx: Context, rs: seq<bool>, n: nat)
    requires ctx.Valid() && ctx.renderer.Some? && ctx.alloc.failing == {}
    requires n <= |ctx.scene| == |rs|
    requires AllSettled(ctx.renderer.value, ctx.scene, rs)
    ensures Replay(ctx, n) == Done(Pass(rs[..n], SettledCtx(ctx, rs, n)))
  {
    if n == 0 {
      assert ctx.alloc == Allocator(ctx.alloc.failing, ctx.alloc.calls);
      assert SettledCtx(ctx, rs, 0) == ctx;
    } else {
      ReplaySettled(ctx, rs, n - 1);
      ReplaySettledNext(ctx, rs, n);
    }
  }

  /** One more settled draw extends the pass by its recorded result. */
  lemma ReplaySettledNext(ctx: Context, rs: seq<bool>, n: nat)
    requires ctx.Valid() && ctx.renderer.Some? && ctx.alloc.failing == {}
    requires 0 < n <= |ctx.scene| == |rs|
    requires AllSettled(ctx.renderer.value, ctx.scene, rs)
    requires Replay(ctx, n - 1) == Done(Pass(rs[..n - 1], SettledCtx(ctx, rs, n - 1)))
    ensures Replay(ctx, n) == Done(Pass(rs[..n], SettledCtx(ctx, rs, n)))
  {
    var c, e := SettledCtx(ctx, rs, n - 1), ctx.scene[n - 1];
    var c' := c.(alloc := c.alloc.Step(), screen := ApplyAll(c.screen, StepWrites(ctx.renderer.value, e, rs[n - 1])));
    assert DrawElement(c, e) == Done(Drawn(rs[n - 1], c', e)) by {
      DrawSettledAgain(c, e, rs[n - 1]);
    }
    assert c'.(scene := c'.scene[n - 1 := e]) == SettledCtx(ctx, rs, n) && rs[..n - 1] + [rs[n - 1]] == rs[..n] by {
      SettledStep(ctx, rs, n);
    }
  }

  /** The settled context after `n - 1` draws, drawn once more, is the
      settled context after `n` draws. */
  lemma SettledStep(ctx: Context, rs: seq<bool>, n: nat)
    requires ctx.Valid() && ctx.renderer.Some? && 0 < n <= |ctx.scene| == |rs|
    ensures var c, e := SettledCtx(ctx, rs, n - 1), ctx.scene[n - 1];
      var c' := c.(alloc := c.alloc.Step(), screen := ApplyAll(c.screen, StepWrites(ctx.renderer.value, e, rs[n - 1])));
      && rs[..n - 1] + [rs[n - 1]] == rs[..n]
      && c'.(scene := c'.scene[n - 1 := e]) == SettledCtx(ctx, rs, n)
  {
    var d := ctx.renderer.value;
    var w0, w1 := PassWrites(d, ctx.scene[..n - 1], rs[..n - 1]), StepWrites(d, ctx.scene[n - 1], rs[n - 1]);
    SliceSnoc(ctx.scene, n);
    SliceSnoc(rs, n);
    assert PassWrites(d, ctx.scene[..n], rs[..n]) == w0 + w1;
    ApplyAllAppend(ctx.screen, w0, w1);
    assert ctx.scene[n - 1 := ctx.scene[n - 1]] == ctx.scene;
  }


  /** With an allocator that never fails, redrawing a scene that was just
      redrawn returns the same result and leaves the screen and the scene
      as they are: converted blits are not converted again, and the same
      copies are made again in the same order. */
  lemma RedrawTwice(ctx: Context)
    requires ctx.Valid() && ctx.renderer.Some? && ctx.alloc.failing == {}
    requires Replay(ctx, |ctx.scene|).Done?
    ensures var p := Replay(ctx, |ctx.scene|).value;
      && Replay(p.ctx, |ctx.scene|).Done?
      && Replay(p.ctx, |ctx.scene|).value.results == p.results
      && Replay(p.ctx, |ctx.scene|).value.ctx.screen == p.ctx.screen
      && Replay(p.ctx, |ctx.scene|).value.ctx.scene == p.ctx.scene
  {
    var n := |ctx.scene|;
    var d := ctx.renderer.value;
    var p := Replay(ctx, n).value;
    assert p.results[..n] == p.results && p.ctx.scene[..n] == p.ctx.scene;
    var ws := PassWrites(d, p.ctx.scene, p.results);
    assert AllSettled(d, p.ctx.scene, p.results) by {
      ReplaySettles(ctx, n);
    }
    assert p.ctx.screen == ApplyAll(ctx.screen, ws) by {
      ReplayScreen(ctx, n);
    }
    ReplaySettled(p.ctx, p.results, n);
    assert Replay(p.ctx, n).value.ctx.screen == ApplyAll(p.ctx.screen, ws);
    ApplyAllIdempotent(ctx.screen, ws);
  }
}
