/** Row-major layouts: a two-dimensional picture stored as its rows one
    after the other, the way glyph bitmaps and pixel buffers are laid out. */
module Seqs {

  import opened Arith

  /** The rows of `rows`, one after the other. */
  function Concat<T>(rows: seq<seq<T>>): (r: seq<T>)
  {
    if rows == [] then [] else Concat(rows[..|rows| - 1]) + rows[|rows| - 1]
  }

  predicate Uniform<T>(rows: seq<seq<T>>, w: nat)
  {
    forall i | 0 <= i < |rows| :: |rows[i]| == w
  }

  /** With rows of `w` elements, element `t` of row `i` sits at `i * w + t`. */
  lemma {:induction false} ConcatAt<T>(rows: seq<seq<T>>, w: nat, i: nat, t: nat)
    requires Uniform(rows, w)
    requires i < |rows| && t < w
    ensures |Concat(rows)| == |rows| * w
    ensures i * w + t < |rows| * w
    ensures Concat(rows)[i * w + t] == rows[i][t]
    decreases |rows|
  {
    var n := |rows| - 1;
    var front := rows[..n];
    ConcatLength(rows, w);
    ConcatLength(front, w);
    MulDistrib(n, 1, w);
    MulLe(i + 1, n + 1, w);
    MulDistrib(i, 1, w);
    if i < n {
      ConcatAt(front, w, i, t);
    }
  }

  lemma {:induction false} ConcatLength<T>(rows: seq<seq<T>>, w: nat)
    requires Uniform(rows, w)
    ensures |Concat(rows)| == |rows| * w
    decreases |rows|
  {
    if rows != [] {
      var n := |rows| - 1;
      ConcatLength(rows[..n], w);
      MulDistrib(n, 1, w);
    }
  }

  /** Appending a row to the front part of a picture. */
  lemma ConcatStep<T>(rows: seq<seq<T>>, i: nat)
    requires i < |rows|
    ensures Concat(rows[..i + 1]) == Concat(rows[..i]) + rows[i]
  {
    assert rows[..i + 1][..i] == rows[..i];
  }

  /** The prefix of length `n` is the prefix of length `n - 1` followed by
      element `n - 1`. */
  lemma SliceSnoc<T>(s: seq<T>, n: nat)
    requires 0 < n <= |s|
    ensures s[..n][..n - 1] == s[..n - 1]
    ensures s[..n - 1] + [s[n - 1]] == s[..n]
    ensures s[..n][n - 1] == s[n - 1]
  {
  }

  /** Replacing element `n - 1` and keeping the first `n` elements. */
  lemma UpdateSlice<T>(s: seq<T>, n: nat, e: T)
    requires 0 < n <= |s|
    ensures s[n - 1 := e][..n] == s[..n - 1] + [e]
  {
  }
}
