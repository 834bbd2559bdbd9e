/** Small facts about multiplication, division and remainder that the
    addressing proofs (`y * pitch + x * bypp`) need spelled out. */
module Arith {

  lemma MulLe(a: int, c: int, b: nat)
    requires a <= c
    ensures a * b <= c * b
  {
  }

  lemma MulLt(a: int, c: int, b: nat)
    requires a < c && b > 0
    ensures a * b < c * b
  {
  }

  lemma MulNonNeg(a: nat, b: nat)
    ensures a * b >= 0
  {
  }

  /** Division by `b` recovers both parts of `q * b + t` when `0 <= t < b`. */
  lemma DivModOf(q: int, b: int, t: int)
    requires b > 0 && 0 <= t < b
    ensures (q * b + t) / b == q
    ensures (q * b + t) % b == t
  {
    var n := q * b + t;
    var q' := n / b;
    var t' := n % b;
    assert n == q' * b + t';
    if q' < q {
      MulLe(q' + 1, q, b);
      assert false;
    } else if q' > q {
      MulLe(q + 1, q', b);
      assert false;
    }
  }

  /** Conversely, `n` lies in block `n / b` of width `b`. */
  lemma DivBlock(n: int, b: int)
    requires b > 0
    ensures (n / b) * b <= n < (n / b) * b + b
  {
  }

  lemma MulDistrib(a: int, c: int, b: int)
    ensures (a + c) * b == a * b + c * b
    ensures (a - c) * b == a * b - c * b
  {
  }

  lemma DivSplit(k: nat, m: nat)
    requires m > 0
    ensures 0 <= k / m && 0 <= k % m < m && k == m * (k / m) + k % m
  {
  }
}
