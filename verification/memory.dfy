/** Byte memory and the raw copies (`memcpy`) the rasterizer performs on it.
    A drawing operation is described by the list of copies it makes, in
    order; applying that list to the framebuffer bytes gives the new bytes. */
module Memory {

  import opened Optional

  /** One `memcpy(base + offset, data, |data|)`. */
  datatype Write = Write(offset: nat, data: seq<bv8>)
  {
    /** Whether byte `k` of the destination is overwritten. */
    predicate Covers(k: int)
    {
      offset <= k < offset + |data|
    }

    /** The copy stays inside a region of `size` bytes. */
    predicate FitsIn(size: nat)
    {
      offset + |data| <= size
    }
  }

  predicate AllFit(ws: seq<Write>, size: nat)
  {
    forall i | 0 <= i < |ws| :: ws[i].FitsIn(size)
  }

  lemma AllFitAppend(a: seq<Write>, b: seq<Write>, size: nat)
    requires AllFit(a, size) && AllFit(b, size)
    ensures AllFit(a + b, size)
  {
    forall i | 0 <= i < |a + b| ensures (a + b)[i].FitsIn(size) {
      if i < |a| { assert (a + b)[i] == a[i]; } else { assert (a + b)[i] == b[i - |a|]; }
    }
  }

  /** One copy: the covered bytes take the data, every other byte keeps its value. */
  function Apply(m: seq<bv8>, w: Write): (r: seq<bv8>)
    requires w.FitsIn(|m|)
    ensures |r| == |m|
    ensures forall k | 0 <= k < |m| :: r[k] == if w.Covers(k) then w.data[k - w.offset] else m[k]
  {
    m[..w.offset] + w.data + m[w.offset + |w.data|..]
  }

  /** The copies of `ws`, made one after the other from first to last. */
  function ApplyAll(m: seq<bv8>, ws: seq<Write>): (r: seq<bv8>)
    requires AllFit(ws, |m|)
    ensures |r| == |m|
  {
    if ws == [] then m else Apply(ApplyAll(m, ws[..|ws| - 1]), ws[|ws| - 1])
  }

  /** Copies of nothing leave the memory as it was. */
  lemma {:induction false} ApplyEmpty(m: seq<bv8>, ws: seq<Write>)
    requires AllFit(ws, |m|)
    requires forall i | 0 <= i < |ws| :: ws[i].data == []
    ensures ApplyAll(m, ws) == m
  {
    if ws != [] {
      var front := ws[..|ws| - 1];
      assert forall i | 0 <= i < |front| :: front[i] == ws[i];
      ApplyEmpty(m, front);
    }
  }

  /** The value the last copy covering byte `k` leaves there, if any copy does. */
  function Written(ws: seq<Write>, k: int): (v: Option<bv8>)
    ensures v.None? <==> forall i | 0 <= i < |ws| :: !ws[i].Covers(k)
  {
    if ws == [] then None
    else
      var w := ws[|ws| - 1];
      if w.Covers(k) then Some(w.data[k - w.offset]) else Written(ws[..|ws| - 1], k)
  }

  /** After a list of copies, every byte holds what the last copy covering it
      wrote, or its old value if no copy covers it. */
  lemma {:induction false} ApplyAllAt(m: seq<bv8>, ws: seq<Write>, k: int)
    requires AllFit(ws, |m|)
    requires 0 <= k < |m|
    ensures ApplyAll(m, ws)[k] == match Written(ws, k) case Some(v) => v case None => m[k]
  {
    if ws != [] {
      var front := ws[..|ws| - 1];
      assert AllFit(front, |m|) by {
        forall i | 0 <= i < |front| ensures front[i].FitsIn(|m|) {
          assert front[i] == ws[i];
        }
      }
      ApplyAllAt(m, front, k);
    }
  }

  /** Making the same copies a second time changes nothing: the outcome of a
      fixed list of copies does not depend on what the memory held before, in
      the bytes the copies cover. */
  lemma ApplyAllIdempotent(m: seq<bv8>, ws: seq<Write>)
    requires AllFit(ws, |m|)
    ensures ApplyAll(ApplyAll(m, ws), ws) == ApplyAll(m, ws)
  {
    var once := ApplyAll(m, ws);
    var twice := ApplyAll(once, ws);
    forall k | 0 <= k < |m| ensures twice[k] == once[k] {
      ApplyAllAt(m, ws, k);
      ApplyAllAt(once, ws, k);
    }
  }

  /** Some copy of `ws` overwrites byte `k`. */
  predicate Reached(ws: seq<Write>, k: int)
  {
    exists i :: 0 <= i < |ws| && ws[i].Covers(k)
  }

  /** Every copy of `ws` that overwrites byte `k` writes `v` there. */
  predicate UniformAt(ws: seq<Write>, k: int, v: bv8)
  {
    forall i | 0 <= i < |ws| && ws[i].Covers(k) :: ws[i].data[k - ws[i].offset] == v
  }

  /** When every copy that covers byte `k` writes the same value `v` there,
      the byte ends up `v` if some copy covers it and unchanged otherwise. */
  lemma {:induction false} ApplyAllUniformAt(m: seq<bv8>, ws: seq<Write>, k: int, v: bv8)
    requires AllFit(ws, |m|)
    requires 0 <= k < |m|
    requires UniformAt(ws, k, v)
    ensures ApplyAll(m, ws)[k] == if Reached(ws, k) then v else m[k]
  {
    ApplyAllAt(m, ws, k);
    WrittenUniform(ws, k, v);
  }

  lemma {:induction false} WrittenUniform(ws: seq<Write>, k: int, v: bv8)
    requires forall i | 0 <= i < |ws| && ws[i].Covers(k) :: ws[i].data[k - ws[i].offset] == v
    ensures Written(ws, k) == if exists i :: 0 <= i < |ws| && ws[i].Covers(k) then Some(v) else None
  {
    if ws != [] {
      var front := ws[..|ws| - 1];
      forall i | 0 <= i < |front| && front[i].Covers(k)
        ensures front[i].data[k - front[i].offset] == v
      {
        assert front[i] == ws[i];
      }
      WrittenUniform(front, k, v);
      if !ws[|ws| - 1].Covers(k) && exists i :: 0 <= i < |ws| && ws[i].Covers(k) {
        var i :| 0 <= i < |ws| && ws[i].Covers(k);
        assert front[i] == ws[i];
      }
    }
  }

  /** Copies appended later are applied later. */
  lemma {:induction false} ApplyAllAppend(m: seq<bv8>, a: seq<Write>, b: seq<Write>)
    requires AllFit(a, |m|) && AllFit(b, |m|)
    ensures AllFit(a + b, |m|)
    ensures ApplyAll(m, a + b) == ApplyAll(ApplyAll(m, a), b)
  {
    assert AllFit(a + b, |m|) by {
      forall i | 0 <= i < |a + b| ensures (a + b)[i].FitsIn(|m|) {
        if i < |a| { assert (a + b)[i] == a[i]; } else { assert (a + b)[i] == b[i - |a|]; }
      }
    }
    if b != [] {
      var bf := b[..|b| - 1];
      assert (a + b)[..|a + b| - 1] == a + bf;
      assert AllFit(bf, |m|) by {
        forall i | 0 <= i < |bf| ensures bf[i].FitsIn(|m|) { assert bf[i] == b[i]; }
      }
      ApplyAllAppend(m, a, bf);
    } else {
      assert a + b == a;
    }
  }
}
