/** The folding step and the whole multiplication modulo x^n - 1. */
module VectMul {
  import opened Gf2Poly
  import opened Words
  import opened Karatsuba
  import opened ScratchSize
  import opened Gf2x
  import opened Gf2xKaratsuba

  /** Words that hold n bits. */
  function WordsFor(n: nat): nat { (n + 63) / 64 }

  /** Bits n.. of p folded onto bits 0..n, in w words. */
  function Fold(p: seq<Word>, n: nat, w: nat): (r: seq<Word>)
    ensures |r| == w
  {
    seq(w, i requires 0 <= i < w =>
      seq(64, j requires 0 <= j < 64 => 64 * i + j < n && (Bit(p, 64 * i + j) != Bit(p, 64 * i + j + n))))
  }

  lemma BitFold(p: seq<Word>, n: nat, w: nat, t: int)
    requires n <= 64 * w
    ensures Bit(Fold(p, n, w), t) == (0 <= t < n && (Bit(p, t) != Bit(p, t + n)))
  {
    if 0 <= t < 64 * w { assert 64 * (t / 64) + t % 64 == t; }
  }

  /** p == q * (x^n + 1) + r with deg r < n, and q a polynomial (finitely many coefficients, below x^m). */
  ghost predicate DividesWithRemainder(p: Poly, q: Poly, m: int, r: Poly, n: int) {
    && Below(q, m) && Below(r, n)
    && forall t :: p(t) == (r(t) != (q(t) != q(t - n)))
  }

  ghost predicate IsRemainder(r: Poly, p: Poly, n: int) {
    exists q: Poly, m: int :: DividesWithRemainder(p, q, m, r, n)
  }

  /** The remainder modulo x^n - 1 is unique. */
  lemma RemainderUnique(r: Poly, r': Poly, p: Poly, n: int, t: int)
    requires n > 0 && IsRemainder(r, p, n) && IsRemainder(r', p, n)
    ensures r(t) == r'(t)
  {
    var q, m :| DividesWithRemainder(p, q, m, r, n);
    var q', m' :| DividesWithRemainder(p, q', m', r', n);
    var top := if m < m' then m' else m;
    SameQuotient(q, q', r, r', p, m, m', n, t, top);
    SameQuotient(q, q', r, r', p, m, m', n, t - n, top);
    assert p(t) == (r(t) != (q(t) != q(t - n)));
    assert p(t) == (r'(t) != (q'(t) != q'(t - n)));
  }

  lemma {:induction false} SameQuotient(q: Poly, q': Poly, r: Poly, r': Poly, p: Poly, m: int, m': int, n: int, s: int, top: int)
    requires n > 0 && m <= top && m' <= top
    requires DividesWithRemainder(p, q, m, r, n) && DividesWithRemainder(p, q', m', r', n)
    ensures q(s) == q'(s)
    decreases top - s
  {
    if 0 <= s < top {
      SameQuotient(q, q', r, r', p, m, m', n, s + n, top);
      assert p(s + n) == (r(s + n) != (q(s + n) != q(s + n - n)));
      assert p(s + n) == (r'(s + n) != (q'(s + n) != q'(s + n - n)));
      assert s + n - n == s;
    }
  }

  function High(p: Poly, n: int): Poly { t => 0 <= t && p(t + n) }

  lemma FoldedIsRemainder(p: Poly, r: Poly, n: int)
    requires 0 < n && Below(p, 2 * n)
    requires forall t :: r(t) == (0 <= t < n && (p(t) != p(t + n)))
    ensures DividesWithRemainder(p, High(p, n), n, r, n)
  {
    var q := High(p, n);
    forall t ensures p(t) == (r(t) != (q(t) != q(t - n))) && (r(t) ==> 0 <= t < n) && (q(t) ==> 0 <= t < n) {
      assert p(t) ==> 0 <= t < 2 * n;
      assert p(t + n) ==> t < n;
      assert t - n + n == t;
    }
  }

  /** Folding a polynomial below x^(2n) once reduces it modulo x^n - 1. */
  lemma FoldIsRemainder(p: seq<Word>, n: nat, w: nat)
    requires 0 < n <= 64 * w && Below(Bits(p), 2 * n)
    ensures IsRemainder(Bits(Fold(p, n, w)), Bits(p), n)
  {
    hide Fold;
    var r: Poly, c: Poly := Bits(Fold(p, n, w)), Bits(p);
    forall t {:trigger r(t)} ensures r(t) == (0 <= t < n && (c(t) != c(t + n))) {
      BitFold(p, n, w, t);
    }
    FoldedIsRemainder(c, r, n);
  }

  /** A vector holding a polynomial of degree below n. */
  ghost predicate Reduced(a: seq<Word>, n: nat) {
    Below(Bits(a), n)
  }

  /** The model of the whole multiplication. */
  function Vmul(a: seq<Word>, b: seq<Word>, n: nat): (r: seq<Word>)
    requires |a| == |b| == WordsFor(n) >= 1
    ensures |r| == |a|
  {
    Fold(Km(a, b), n, |a|)
  }

  /** For operands of degree below n the result is the remainder of a * b modulo x^n - 1. */
  lemma VmulCorrect(a: seq<Word>, b: seq<Word>, n: nat)
    requires |a| == |b| == WordsFor(n) >= 1 && Reduced(a, n) && Reduced(b, n)
    ensures IsRemainder(Bits(Vmul(a, b, n)), t => Prod(a, b, t), n)
  {
    var p := Km(a, b);
    var prod: Poly := t => Prod(a, b, t);
    KmIsProduct(a, b);
    forall t ensures Bits(p)(t) == prod(t) && (Bits(p)(t) ==> 0 <= t < 2 * n) {
      assert Bit(p, t) == Prod(a, b, t);
      MulExtend(Bits(a), Bits(b), n, 64 * |a|, t);
      if t < 0 || 2 * n <= t { MulBelow(Bits(a), Bits(b), n, n, t); }
    }
    FoldIsRemainder(p, n, |a|);
    SameRemainder(Bits(p), prod, Bits(Vmul(a, b, n)), n);
  }

  lemma SameRemainder(p: Poly, p': Poly, r: Poly, n: int)
    requires IsRemainder(r, p, n) && forall t :: p(t) == p'(t)
    ensures IsRemainder(r, p', n)
  {
    var q: Poly, m: int :| DividesWithRemainder(p, q, m, r, n);
    assert DividesWithRemainder(p', q, m, r, n);
  }

  /** The words of the fold, as reduce computes them. */
  function FoldWord(p: seq<Word>, n: nat, w: nat, i: nat): Word
    requires |p| == 2 * w && i < w && n % 64 != 0
  {
    Xor(Xor(p[i], Shr(p[i + w - 1], n % 64)), Shl(p[i + w], 64 - n % 64))
  }

  function LowMask(n: nat): Word { seq(64, j requires 0 <= j < 64 => j < n % 64) }

  lemma FoldWordBits(p: seq<Word>, n: nat, w: nat, i: nat, j: nat)
    requires w == WordsFor(n) && |p| == 2 * w && i < w && n % 64 != 0 && j < 64
    ensures FoldWord(p, n, w, i)[j] == (Bit(p, 64 * i + j) != Bit(p, 64 * i + j + n))
  {
    var t, u, sh := 64 * i + j, 64 * i + j + n, n % 64;
    assert n == 64 * (w - 1) + sh;
    assert t / 64 == i && t % 64 == j;
    if j + sh < 64 {
      assert u / 64 == i + w - 1 && u % 64 == j + sh;
    } else {
      assert u / 64 == i + w && u % 64 == j + sh - 64;
    }
  }

  lemma ReduceWords(p: seq<Word>, n: nat, w: nat, r: seq<Word>)
    requires w == WordsFor(n) && |p| == 2 * w && n % 64 != 0 && |r| == w
    requires forall i :: 0 <= i < w - 1 ==> r[i] == FoldWord(p, n, w, i)
    requires r[w - 1] == And(FoldWord(p, n, w, w - 1), LowMask(n))
    ensures r == Fold(p, n, w)
  {
    hide FoldWord, And, LowMask, Fold;
    forall i | 0 <= i < w ensures r[i] == Fold(p, n, w)[i] {
      forall j | 0 <= j < 64 ensures r[i][j] == Fold(p, n, w)[i][j] {
        FoldWordBits(p, n, w, i, j);
        FoldAt(p, n, w, i, j);
      }
    }
  }

  /** Below the last word every bit is under n; in the last one the mask decides. */
  lemma FoldAt(p: seq<Word>, n: nat, w: nat, i: nat, j: nat)
    requires w == WordsFor(n) && n % 64 != 0 && i < w && j < 64
    ensures Fold(p, n, w)[i][j]
      == ((i < w - 1 || LowMask(n)[j]) && Bit(p, 64 * i + j) != Bit(p, 64 * i + j + n))
    ensures forall x: Word :: And(x, LowMask(n))[j] == (x[j] && LowMask(n)[j])
  {
    assert n == 64 * (w - 1) + n % 64;
  }

  /** reduce: the 2w words at a are folded into the w words at o. */
  method Reduce(mem: array<Word>, o: nat, a: nat, n: nat)
    requires n % 64 != 0
    requires o + WordsFor(n) <= mem.Length && a + 2 * WordsFor(n) <= mem.Length
    requires Apart(o, WordsFor(n), a, 2 * WordsFor(n))
    modifies mem
    ensures Sub(mem[..], o, WordsFor(n)) == Fold(old(Sub(mem[..], a, 2 * WordsFor(n))), n, WordsFor(n))
    ensures OnlyAt(old(mem[..]), mem[..], o, WordsFor(n))
  {
    hide Xor, Shl, Shr, And, LowMask, Fold;
    var w := WordsFor(n);
    ghost var M, P := mem[..], Sub(mem[..], a, 2 * w);
    for i := 0 to w
      invariant OnlyAt(M, mem[..], o, w)
      invariant forall k :: o <= k < o + i ==> mem[k] == FoldWord(P, n, w, k - o)
    {
      assert mem[..][a + i] == P[i] && mem[..][a + i + w - 1] == P[i + w - 1] && mem[..][a + i + w] == P[i + w];
      var r := Shr(mem[a + i + w - 1], n % 64);
      var carry := Shl(mem[a + i + w], 64 - n % 64);
      mem[o + i] := Xor(Xor(mem[a + i], r), carry);
    }
    mem[o + w - 1] := And(mem[o + w - 1], LowMask(n));
    ReduceWords(P, n, w, Sub(mem[..], o, w));
  }

  /** vect_mul with its two local arrays on the stack at sp. */
  method VectMul(mem: array<Word>, o: nat, a1: nat, a2: nat, n: nat, sp: nat)
    requires n % 64 != 0
    requires Extent(WordsFor(n)) <= 16 * WordsFor(n)
    requires o + WordsFor(n) <= mem.Length && a1 + WordsFor(n) <= mem.Length && a2 + WordsFor(n) <= mem.Length
    requires sp + 18 * WordsFor(n) <= mem.Length
    requires Apart(a1, WordsFor(n), sp, 18 * WordsFor(n)) && Apart(a2, WordsFor(n), sp, 18 * WordsFor(n))
    requires Apart(o, WordsFor(n), sp, 18 * WordsFor(n))
    modifies mem
    ensures Sub(mem[..], o, WordsFor(n))
         == Vmul(old(Sub(mem[..], a1, WordsFor(n))), old(Sub(mem[..], a2, WordsFor(n))), n)
    ensures OnlyAt2(old(mem[..]), mem[..], o, WordsFor(n), sp, 18 * WordsFor(n))
  {
    hide Sub, IsProduct, OnlyAt, OnlyAt2, Km, Fold, Extent;
    var w := WordsFor(n);
    ghost var M := mem[..];
    ghost var A, B := Sub(mem[..], a1, w), Sub(mem[..], a2, w);
    KaratsubaMul(mem, sp, a1, a2, w, sp + 2 * w);
    ghost var M1 := mem[..];
    Within(M, M1, sp, 2 * w, sp + 2 * w, Extent(w), sp, 18 * w);
    KmIsProduct(A, B);
    ProductUnique(Sub(M1, sp, 2 * w), Km(A, B), A, B);
    Reduce(mem, o, sp, n);
    OneThenOther(M, M1, mem[..], o, w, sp, 18 * w);
  }
}
