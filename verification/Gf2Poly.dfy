/** Polynomials over GF(2) as coefficient functions, and their product.
    The coefficient of x^t in p * q is the XOR of p(i) && q(t - i) over i. */
module Gf2Poly {

  type Poly = int -> bool

  /** XOR of f over the half-open interval lo..hi. */
  function XorSum(f: int -> bool, lo: int, hi: int): bool
    decreases hi - lo
  {
    if hi <= lo then false else XorSum(f, lo, hi - 1) != f(hi - 1)
  }

  function Term(p: Poly, q: Poly, t: int): int -> bool {
    i => p(i) && q(t - i)
  }

  /** Coefficient of x^t in the product of the part of p below x^n with q. */
  function Mul(p: Poly, q: Poly, n: int, t: int): bool {
    XorSum(Term(p, q, t), 0, n)
  }

  /** p has no coefficient outside 0..n. */
  ghost predicate Below(p: Poly, n: int) {
    forall i :: p(i) ==> 0 <= i < n
  }

  // ---------- sums ----------

  lemma {:induction false} XorSumEq(f: int -> bool, g: int -> bool, lo: int, hi: int)
    requires forall i :: lo <= i < hi ==> f(i) == g(i)
    ensures XorSum(f, lo, hi) == XorSum(g, lo, hi)
    decreases hi - lo
  {
    if lo < hi { XorSumEq(f, g, lo, hi - 1); }
  }

  lemma {:induction false} XorSumXor(f: int -> bool, g: int -> bool, h: int -> bool, lo: int, hi: int)
    requires forall i :: lo <= i < hi ==> f(i) == (g(i) != h(i))
    ensures XorSum(f, lo, hi) == (XorSum(g, lo, hi) != XorSum(h, lo, hi))
    decreases hi - lo
  {
    if lo < hi { XorSumXor(f, g, h, lo, hi - 1); }
  }

  lemma {:induction false} XorSumZero(f: int -> bool, lo: int, hi: int)
    requires forall i :: lo <= i < hi ==> !f(i)
    ensures !XorSum(f, lo, hi)
    decreases hi - lo
  {
    if lo < hi { XorSumZero(f, lo, hi - 1); }
  }

  lemma {:induction false} XorSumSplit(f: int -> bool, lo: int, mid: int, hi: int)
    requires lo <= mid <= hi
    ensures XorSum(f, lo, hi) == (XorSum(f, lo, mid) != XorSum(f, mid, hi))
    decreases hi - mid
  {
    if mid < hi { XorSumSplit(f, lo, mid, hi - 1); }
  }

  lemma {:induction false} XorSumShift(f: int -> bool, g: int -> bool, k: int, lo: int, hi: int)
    requires forall i :: lo <= i < hi ==> f(i) == g(i - k)
    ensures XorSum(f, lo, hi) == XorSum(g, lo - k, hi - k)
    decreases hi - lo
  {
    if lo < hi { XorSumShift(f, g, k, lo, hi - 1); }
  }

  lemma {:induction false} XorSumReverse(f: int -> bool, g: int -> bool, c: int, lo: int, hi: int)
    requires lo <= hi
    requires forall i :: lo <= i < hi ==> f(i) == g(c - i)
    ensures XorSum(f, lo, hi) == XorSum(g, c - hi + 1, c - lo + 1)
    decreases hi - lo
  {
    if lo < hi {
      XorSumReverse(f, g, c, lo, hi - 1);
      XorSumSplit(g, c - hi + 1, c - hi + 2, c - lo + 1);
    }
  }

  /** A sum may be restricted to any interval that contains the support of f. */
  lemma XorSumSupport(f: int -> bool, lo: int, hi: int, lo': int, hi': int)
    requires lo <= lo' <= hi' <= hi
    requires forall i :: lo <= i < hi && f(i) ==> lo' <= i < hi'
    ensures XorSum(f, lo, hi) == XorSum(f, lo', hi')
  {
    XorSumSplit(f, lo, lo', hi);
    XorSumSplit(f, lo', hi', hi);
    XorSumZero(f, lo, lo');
    XorSumZero(f, hi', hi);
  }

  // ---------- products ----------

  lemma MulExtend(p: Poly, q: Poly, n: int, n': int, t: int)
    requires Below(p, n) && 0 <= n <= n'
    ensures Mul(p, q, n, t) == Mul(p, q, n', t)
  {
    XorSumSupport(Term(p, q, t), 0, n', 0, n);
  }

  /** q = q1 + x^k q2 on the right. */
  lemma MulAddRight(p: Poly, q: Poly, q1: Poly, q2: Poly, k: int, n: int, t: int)
    requires forall s :: q(s) == (q1(s) != q2(s - k))
    ensures Mul(p, q, n, t) == (Mul(p, q1, n, t) != Mul(p, q2, n, t - k))
  {
    forall i ensures Term(p, q, t)(i) == (Term(p, q1, t)(i) != Term(p, q2, t - k)(i)) {
      assert q(t - i) == (q1(t - i) != q2(t - i - k));
    }
    XorSumXor(Term(p, q, t), Term(p, q1, t), Term(p, q2, t - k), 0, n);
  }

  /** p = p1 + x^k p2 on the left. */
  lemma MulAddLeft(p: Poly, p1: Poly, p2: Poly, q: Poly, k: int, n: int, n1: int, n2: int, t: int)
    requires forall i :: p(i) == (p1(i) != p2(i - k))
    requires Below(p1, n1) && Below(p2, n2) && 0 <= n1 <= n && 0 <= n2 && 0 <= k && n2 + k <= n
    ensures Mul(p, q, n, t) == (Mul(p1, q, n1, t) != Mul(p2, q, n2, t - k))
  {
    var shifted: int -> bool := i => Term(p2, q, t - k)(i - k);
    forall i ensures Term(p, q, t)(i) == (Term(p1, q, t)(i) != shifted(i)) {
      assert p(i) == (p1(i) != p2(i - k));
      assert Term(p2, q, t - k)(i - k) == (p2(i - k) && q(t - k - (i - k)));
      assert t - k - (i - k) == t - i;
    }
    XorSumXor(Term(p, q, t), Term(p1, q, t), shifted, 0, n);
    MulExtend(p1, q, n1, n, t);
    XorSumShift(shifted, Term(p2, q, t - k), k, 0, n);
    XorSumSupport(Term(p2, q, t - k), -k, n - k, 0, n2);
  }

  lemma MulCommutes(p: Poly, q: Poly, n: int, m: int, t: int)
    requires Below(p, n) && Below(q, m) && 0 <= n && 0 <= m
    ensures Mul(p, q, n, t) == Mul(q, p, m, t)
  {
    var f, g := Term(p, q, t), Term(q, p, t);
    var b := if t < 0 then n + m - t else n + m + t;
    XorSumSupport(f, -b, b + 1, 0, n);
    XorSumReverse(f, g, t, -b, b + 1);
    XorSumSupport(g, t - b, t + b + 1, 0, m);
  }

  /** The product of polynomials below x^n and x^m is below x^(n + m). */
  lemma MulBelow(p: Poly, q: Poly, n: int, m: int, t: int)
    requires Below(p, n) && Below(q, m)
    requires t < 0 || n + m <= t + 1
    ensures !Mul(p, q, n, t)
  {
    XorSumZero(Term(p, q, t), 0, n);
  }
}
