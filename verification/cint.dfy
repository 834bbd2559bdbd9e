/** C integer semantics the rasterizer, font loader and decoder rely on:
    fixed-width unsigned wrap-around, two's-complement conversion to `int`,
    truncating division, and little-endian byte images of wide integers. */
module CInt {

  const TWO8: int := 0x100
  const TWO31: int := 0x8000_0000
  const TWO32: int := 0x1_0000_0000

  type u8 = n: int | 0 <= n < 0x100
  type u32 = n: int | 0 <= n < 0x1_0000_0000
  type i32 = n: int | -0x8000_0000 <= n < 0x8000_0000

  /** Conversion to `uint32_t`: reduction modulo 2^32. */
  function U32(n: int): (r: u32)
    ensures 0 <= n < TWO32 ==> r == n
  {
    n % TWO32
  }

  /** Conversion to a 32-bit `int` (two's complement, as the targets of this
      code define the implementation-defined conversion). */
  function I32(n: int): (r: i32)
    ensures -TWO31 <= n < TWO31 ==> r == n
  {
    var m := n % TWO32;
    if m < TWO31 then m else m - TWO32
  }

  /** Conversion to `uint8_t`. */
  function U8(n: int): (r: u8)
    ensures (r - n) % TWO8 == 0
    ensures 0 <= n < TWO8 ==> r == n
  {
    n % TWO8
  }

  /** Both wrapping conversions differ from their argument by a multiple
      of 2^32. */
  lemma Wraps(n: int)
    ensures (U32(n) - n) % TWO32 == 0
    ensures (I32(n) - n) % TWO32 == 0
  {
    var q := n / TWO32;
    assert U32(n) - n == (-q) * TWO32;
  }

  /** Both wrapping conversions only see their argument modulo 2^32. */
  lemma I32Congruent(a: int, b: int)
    requires (a - b) % TWO32 == 0
    ensures I32(a) == I32(b)
    ensures U32(a) == U32(b)
  {
    assert a % TWO32 == b % TWO32 by {
      var q := (a - b) / TWO32;
      assert a == b + q * TWO32;
    }
  }

  /** Adding to an already wrapped value is the same as wrapping the exact sum:
      a running 32-bit accumulator equals the wrapped mathematical total. */
  lemma I32AddAbsorbs(a: int, b: int)
    ensures I32(I32(a) + b) == I32(a + b)
  {
    Wraps(a);
    I32Congruent(I32(a) + b, a + b);
  }

  /** C's `/` on signed operands: the quotient is truncated toward zero. */
  function TruncDiv(a: int, b: int): (q: int)
    requires b > 0
    ensures a >= 0 ==> q >= 0 && q * b <= a < q * b + b
    ensures a < 0 ==> q <= 0 && a <= q * b < a + b
  {
    if a >= 0 then a / b else -((-a) / b)
  }

  /** Byte `k` (little-endian) of a 64-bit value. */
  function Byte64(v: bv64, k: bv8): bv8
    requires k < 8
  {
    ((v >> (8 * k)) & 0xFF) as bv8
  }

  /** The first `n` bytes of the in-memory image of a `uint64_t` on a
      little-endian host, i.e. what `memcpy(dst, &v, n)` copies. */
  function LowBytes64(v: bv64, n: nat): (r: seq<bv8>)
    requires n <= 8
    ensures |r| == n
    ensures forall k | 0 <= k < n :: r[k] == Byte64(v, k as bv8)
  {
    seq(n, k requires 0 <= k < n => Byte64(v, k as bv8))
  }

  /** The 4-byte little-endian image of a `uint32_t`. */
  function Bytes32(v: bv32): (r: seq<bv8>)
    ensures |r| == 4
  {
    [(v & 0xFF) as bv8, ((v >> 8) & 0xFF) as bv8, ((v >> 16) & 0xFF) as bv8, ((v >> 24) & 0xFF) as bv8]
  }

  /** The byte image of a sequence of `uint32_t`s, as `memcpy` sees the array. */
  function Image32(vs: seq<bv32>): (r: seq<bv8>)
    ensures |r| == 4 * |vs|
  {
    if vs == [] then [] else
      var rest := Image32(vs[1..]);
      Bytes32(vs[0]) + rest
  }

  /** Byte `t` of element `i` sits at byte `4 * i + t` of the image. */
  lemma {:induction false} Image32At(vs: seq<bv32>, i: nat, t: nat)
    requires i < |vs| && t < 4
    ensures 4 * i + t < |Image32(vs)| && Image32(vs)[4 * i + t] == Bytes32(vs[i])[t]
  {
    if i > 0 {
      Image32At(vs[1..], i - 1, t);
      assert vs[1..][i - 1] == vs[i];
    }
  }
}
