/** One Karatsuba level over word vectors and the model recursion down to one word. */
module Karatsuba {
  import opened Gf2Poly
  import opened Words

  function Zeros(n: nat): (r: seq<Word>)
    ensures |r| == n
  {
    seq(n, _ => ZERO)
  }

  function XorWords(x: seq<Word>, y: seq<Word>): (r: seq<Word>)
    requires |x| == |y|
    ensures |r| == |x|
  {
    seq(|x|, i requires 0 <= i < |x| => Xor(x[i], y[i]))
  }

  lemma BitXor(x: seq<Word>, y: seq<Word>, t: int)
    requires |x| == |y|
    ensures Bit(XorWords(x, y), t) == (Bit(x, t) != Bit(y, t))
  {
  }

  /** The product is additive in each operand, and so is padding with zero words. */
  lemma ProdXorRight(a: seq<Word>, x: seq<Word>, y: seq<Word>, t: int)
    requires |x| == |y|
    ensures Prod(a, XorWords(x, y), t) == (Prod(a, x, t) != Prod(a, y, t))
  {
    forall s ensures Bits(XorWords(x, y))(s) == (Bits(x)(s) != Bits(y)(s - 0)) { BitXor(x, y, s); }
    MulAddRight(Bits(a), Bits(XorWords(x, y)), Bits(x), Bits(y), 0, 64 * |a|, t);
  }

  lemma ProdPadRight(a: seq<Word>, x: seq<Word>, n: nat, t: int)
    ensures Prod(a, x + Zeros(n), t) == Prod(a, x, t)
  {
    ProdConcatRight(a, x, Zeros(n), t);
    ProdCommutes(a, Zeros(n), t - 64 * |x|);
    ProdZero(Zeros(n), a, t - 64 * |x|);
  }

  lemma ProdXorLeft(x: seq<Word>, y: seq<Word>, b: seq<Word>, t: int)
    requires |x| == |y|
    ensures Prod(XorWords(x, y), b, t) == (Prod(x, b, t) != Prod(y, b, t))
  {
    ProdCommutes(XorWords(x, y), b, t);
    ProdCommutes(x, b, t);
    ProdCommutes(y, b, t);
    ProdXorRight(b, x, y, t);
  }

  lemma ProdPadLeft(x: seq<Word>, b: seq<Word>, n: nat, t: int)
    ensures Prod(x + Zeros(n), b, t) == Prod(x, b, t)
  {
    ProdCommutes(x + Zeros(n), b, t);
    ProdCommutes(x, b, t);
    ProdPadRight(b, x, n, t);
  }

  /** The half sums ta and tb: the low half is padded to the length of the high half. */
  function HalfSum(lo: seq<Word>, hi: seq<Word>): (r: seq<Word>)
    requires |lo| <= |hi|
    ensures |r| == |hi|
  {
    XorWords(lo + Zeros(|hi| - |lo|), hi)
  }

  lemma ProdHalfSums(a0: seq<Word>, a1: seq<Word>, b0: seq<Word>, b1: seq<Word>, t: int)
    requires |a0| == |b0| <= |a1| == |b1|
    ensures Prod(HalfSum(a0, a1), HalfSum(b0, b1), t)
         == ((Prod(a0, b0, t) != Prod(a0, b1, t)) != (Prod(a1, b0, t) != Prod(a1, b1, t)))
  {
    var pa, pb := a0 + Zeros(|a1| - |a0|), b0 + Zeros(|b1| - |b0|);
    ProdXorLeft(pa, a1, HalfSum(b0, b1), t);
    ProdXorRight(pa, pb, b1, t);
    ProdXorRight(a1, pb, b1, t);
    ProdPadLeft(a0, pb, |a1| - |a0|, t);
    ProdPadLeft(a0, b1, |a1| - |a0|, t);
    ProdPadRight(a0, b0, |b1| - |b0|, t);
    ProdPadRight(a1, b0, |b1| - |b0|, t);
  }

  function Middle(z0: seq<Word>, z2: seq<Word>, zm: seq<Word>): (r: seq<Word>)
    requires |z0| <= |z2| == |zm|
    ensures |r| == |z2|
  {
    XorWords(XorWords(zm, z0 + Zeros(|z2| - |z0|)), z2)
  }

  /** The result from the three half products: z0, z2 side by side, the middle term n0 words up. */
  function Assemble(z0: seq<Word>, z2: seq<Word>, zm: seq<Word>, n0: nat): (r: seq<Word>)
    requires |z0| == 2 * n0 && |z0| <= |z2| == |zm|
    ensures |r| == |z0| + |z2|
  {
    XorWords(z0 + z2, Zeros(n0) + Middle(z0, z2, zm) + Zeros(n0))
  }

  lemma BitRaised(x: seq<Word>, n0: nat, t: int)
    ensures Bit(Zeros(n0) + x + Zeros(n0), t) == Bit(x, t - 64 * n0)
  {
    BitConcat(Zeros(n0) + x, Zeros(n0), t);
    BitConcat(Zeros(n0), x, t);
  }

  lemma BitMiddle(z0: seq<Word>, z2: seq<Word>, zm: seq<Word>, s: int)
    requires |z0| <= |z2| == |zm|
    ensures Bit(Middle(z0, z2, zm), s) == ((Bit(zm, s) != Bit(z0, s)) != Bit(z2, s))
  {
    var p := z0 + Zeros(|z2| - |z0|);
    BitXor(XorWords(zm, p), z2, s);
    BitXor(zm, p, s);
    BitConcat(z0, Zeros(|z2| - |z0|), s);
  }

  lemma BitAssemble(z0: seq<Word>, z2: seq<Word>, zm: seq<Word>, n0: nat, t: int)
    requires |z0| == 2 * n0 && |z0| <= |z2| == |zm|
    ensures Bit(Assemble(z0, z2, zm, n0), t) ==
      ((Bit(z0, t) != Bit(z2, t - 128 * n0)) !=
       ((Bit(zm, t - 64 * n0) != Bit(z0, t - 64 * n0)) != Bit(z2, t - 64 * n0)))
  {
    BitXor(z0 + z2, Zeros(n0) + Middle(z0, z2, zm) + Zeros(n0), t);
    BitConcat(z0, z2, t);
    BitRaised(Middle(z0, z2, zm), n0, t);
    BitMiddle(z0, z2, zm, t - 64 * n0);
  }

  /** The whole product at one coefficient, from the four products of halves. */
  lemma ProdOfHalves(a0: seq<Word>, a1: seq<Word>, b0: seq<Word>, b1: seq<Word>, t: int)
    requires |a0| == |b0|
    ensures var s := t - 64 * |a0|;
      Prod(a0 + a1, b0 + b1, t) ==
      ((Prod(a0, b0, t) != Prod(a0, b1, s)) != (Prod(a1, b0, s) != Prod(a1, b1, s - 64 * |a0|)))
  {
    ProdConcatLeft(a0, a1, b0 + b1, t);
    ProdConcatRight(a0, b0, b1, t);
    ProdConcatRight(a1, b0, b1, t - 64 * |a0|);
  }

  /** One Karatsuba level is correct: three half products make the whole product. */
  lemma StepIsProduct(a0: seq<Word>, a1: seq<Word>, b0: seq<Word>, b1: seq<Word>,
                      z0: seq<Word>, z2: seq<Word>, zm: seq<Word>)
    requires |a0| == |b0| <= |a1| == |b1|
    requires IsProduct(z0, a0, b0) && IsProduct(z2, a1, b1)
    requires IsProduct(zm, HalfSum(a0, a1), HalfSum(b0, b1))
    ensures IsProduct(Assemble(z0, z2, zm, |a0|), a0 + a1, b0 + b1)
  {
    forall t ensures Bit(Assemble(z0, z2, zm, |a0|), t) == Prod(a0 + a1, b0 + b1, t) {
      var s := t - 64 * |a0|;
      var u := t - 128 * |a0|;
      assert Bit(z0, t) == Prod(a0, b0, t);
      assert Bit(z0, s) == Prod(a0, b0, s);
      assert Bit(z2, s) == Prod(a1, b1, s);
      assert Bit(z2, u) == Prod(a1, b1, u);
      assert Bit(zm, s) == Prod(HalfSum(a0, a1), HalfSum(b0, b1), s);
      StepAt(a0, a1, b0, b1, z0, z2, zm, t);
    }
  }

  lemma StepAt(a0: seq<Word>, a1: seq<Word>, b0: seq<Word>, b1: seq<Word>,
               z0: seq<Word>, z2: seq<Word>, zm: seq<Word>, t: int)
    requires |a0| == |b0| <= |a1| == |b1|
    requires |z0| == 2 * |a0| && |z2| == |zm| == 2 * |a1|
    requires Bit(z0, t) == Prod(a0, b0, t) && Bit(z2, t - 128 * |a0|) == Prod(a1, b1, t - 128 * |a0|)
    requires Bit(z0, t - 64 * |a0|) == Prod(a0, b0, t - 64 * |a0|)
    requires Bit(z2, t - 64 * |a0|) == Prod(a1, b1, t - 64 * |a0|)
    requires Bit(zm, t - 64 * |a0|) == Prod(HalfSum(a0, a1), HalfSum(b0, b1), t - 64 * |a0|)
    ensures Bit(Assemble(z0, z2, zm, |a0|), t) == Prod(a0 + a1, b0 + b1, t)
  {
    hide Bit, Prod, Assemble, HalfSum;
    BitAssemble(z0, z2, zm, |a0|, t);
    ProdHalfSums(a0, a1, b0, b1, t - 64 * |a0|);
    ProdOfHalves(a0, a1, b0, b1, t);
    assert t - 64 * |a0| - 64 * |a0| == t - 128 * |a0|;
  }

  /** 128-bit accumulator of the model's shift-and-XOR loop after i bits of a. */
  function ClmulAcc(a: Word, b: Word, i: nat): (acc: seq<bool>)
    requires i <= 64
    ensures |acc| == 128
  {
    if i == 0 then seq(128, _ => false)
    else
      var acc := ClmulAcc(a, b, i - 1);
      if a[i - 1] then seq(128, s requires 0 <= s < 128 => acc[s] != (0 <= s - (i - 1) < 64 && b[s - (i - 1)]))
      else acc
  }

  function Clmul1(a: Word, b: Word): seq<Word> {
    [ClmulAcc(a, b, 64)[..64], ClmulAcc(a, b, 64)[64..]]
  }

  lemma {:induction false} ClmulAccIsMul(a: Word, b: Word, i: nat, t: int)
    requires i <= 64 && 0 <= t < 128
    ensures ClmulAcc(a, b, i)[t] == Mul(Bits([a]), Bits([b]), i, t)
  {
    if i > 0 {
      ClmulAccIsMul(a, b, i - 1, t);
      assert Term(Bits([a]), Bits([b]), t)(i - 1) == (a[i - 1] && Bit([b], t - (i - 1)));
    }
  }

  lemma Clmul1IsProduct(a: Word, b: Word)
    ensures IsProduct(Clmul1(a, b), [a], [b])
  {
    forall t ensures Bit(Clmul1(a, b), t) == Prod([a], [b], t) {
      if 0 <= t < 128 { ClmulAccIsMul(a, b, 64, t); } else { ProdBelow([a], [b], t); }
    }
  }

  /** The model's product at every size: one level over n / 2 and n - n / 2 words, down to one. */
  function Km(a: seq<Word>, b: seq<Word>): (r: seq<Word>)
    requires |a| == |b| >= 1
    ensures |r| == 2 * |a|
    decreases |a|
  {
    if |a| == 1 then Clmul1(a[0], b[0])
    else
      var m := |a| / 2;
      var z0 := Km(a[..m], b[..m]);
      var z2 := Km(a[m..], b[m..]);
      var zm := Km(HalfSum(a[..m], a[m..]), HalfSum(b[..m], b[m..]));
      Assemble(z0, z2, zm, m)
  }

  /** For every length, the Karatsuba recursion multiplies in GF(2)[x]. */
  lemma {:induction false} KmIsProduct(a: seq<Word>, b: seq<Word>)
    requires |a| == |b| >= 1
    ensures IsProduct(Km(a, b), a, b)
    decreases |a|
  {
    if |a| == 1 {
      assert a == [a[0]] && b == [b[0]];
      Clmul1IsProduct(a[0], b[0]);
    } else {
      var m := |a| / 2;
      assert a == a[..m] + a[m..] && b == b[..m] + b[m..];
      KmIsProduct(a[..m], b[..m]);
      KmIsProduct(a[m..], b[m..]);
      KmIsProduct(HalfSum(a[..m], a[m..]), HalfSum(b[..m], b[m..]));
      StepIsProduct(a[..m], a[m..], b[..m], b[m..], Km(a[..m], b[..m]), Km(a[m..], b[m..]),
                    Km(HalfSum(a[..m], a[m..]), HalfSum(b[..m], b[m..])));
    }
  }

  /** Any two computations of the product agree word for word. */
  lemma ProductUnique(r: seq<Word>, r': seq<Word>, a: seq<Word>, b: seq<Word>)
    requires IsProduct(r, a, b) && IsProduct(r', a, b)
    ensures r == r'
  {
    forall t | 0 <= t < 64 * |r| ensures Bit(r, t) == Bit(r', t) {
      assert Bit(r, t) == Prod(a, b, t);
    }
    SameBits(r, r');
  }
}
