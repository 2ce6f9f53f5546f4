/** Little-endian vectors of 64-bit words: bit i of word j is the coefficient of x^(64 j + i).
    A word is its 64 bits, so a shift drops what leaves the word. */
module Words {
  import opened Gf2Poly

  type Word = w: seq<bool> | |w| == 64 witness seq(64, _ => false)

  const ZERO: Word := seq(64, _ => false)

  function Xor(x: Word, y: Word): Word {
    seq(64, i requires 0 <= i < 64 => x[i] != y[i])
  }

  function And(x: Word, y: Word): Word {
    seq(64, i requires 0 <= i < 64 => x[i] && y[i])
  }

  function Shl(x: Word, k: nat): Word {
    seq(64, i requires 0 <= i < 64 => k <= i && x[i - k])
  }

  function Shr(x: Word, k: nat): Word {
    seq(64, i requires 0 <= i < 64 => i + k < 64 && x[i + k])
  }

  /** All ones when b, all zeros otherwise: the C expression -((a >> i) & 1). */
  function Mask(b: bool): Word {
    seq(64, _ => b)
  }

  function Bit(ws: seq<Word>, t: int): bool {
    0 <= t < 64 * |ws| && ws[t / 64][t % 64]
  }

  function Bits(ws: seq<Word>): Poly {
    t => Bit(ws, t)
  }

  /** Coefficient of x^t in the product of two word vectors. */
  function Prod(a: seq<Word>, b: seq<Word>, t: int): bool {
    Mul(Bits(a), Bits(b), 64 * |a|, t)
  }

  lemma BitsBelow(ws: seq<Word>)
    ensures Below(Bits(ws), 64 * |ws|)
  {
  }

  lemma BitConcat(a: seq<Word>, b: seq<Word>, t: int)
    ensures Bit(a + b, t) == (Bit(a, t) != Bit(b, t - 64 * |a|))
  {
    if 64 * |a| <= t < 64 * (|a| + |b|) {
      assert (t - 64 * |a|) / 64 == t / 64 - |a|;
    }
  }

  lemma BitsConcat(a: seq<Word>, b: seq<Word>)
    ensures forall s :: Bits(a + b)(s) == (Bits(a)(s) != Bits(b)(s - 64 * |a|))
  {
    forall s ensures Bits(a + b)(s) == (Bits(a)(s) != Bits(b)(s - 64 * |a|)) {
      BitConcat(a, b, s);
    }
  }

  lemma ProdConcatRight(a: seq<Word>, b0: seq<Word>, b1: seq<Word>, t: int)
    ensures Prod(a, b0 + b1, t) == (Prod(a, b0, t) != Prod(a, b1, t - 64 * |b0|))
  {
    BitsConcat(b0, b1);
    hide Mul, Bits, Bit;
    MulAddRight(Bits(a), Bits(b0 + b1), Bits(b0), Bits(b1), 64 * |b0|, 64 * |a|, t);
  }

  lemma ProdConcatLeft(a0: seq<Word>, a1: seq<Word>, b: seq<Word>, t: int)
    ensures Prod(a0 + a1, b, t) == (Prod(a0, b, t) != Prod(a1, b, t - 64 * |a0|))
  {
    BitsConcat(a0, a1);
    BitsBelow(a0);
    BitsBelow(a1);
    hide Mul, Bits, Bit;
    MulAddLeft(Bits(a0 + a1), Bits(a0), Bits(a1), Bits(b), 64 * |a0|,
               64 * |a0 + a1|, 64 * |a0|, 64 * |a1|, t);
  }

  lemma ProdCommutes(a: seq<Word>, b: seq<Word>, t: int)
    ensures Prod(a, b, t) == Prod(b, a, t)
  {
    BitsBelow(a);
    BitsBelow(b);
    MulCommutes(Bits(a), Bits(b), 64 * |a|, 64 * |b|, t);
  }

  lemma ProdBelow(a: seq<Word>, b: seq<Word>, t: int)
    requires t < 0 || 64 * (|a| + |b|) <= t + 1
    ensures !Prod(a, b, t)
  {
    BitsBelow(a);
    BitsBelow(b);
    MulBelow(Bits(a), Bits(b), 64 * |a|, 64 * |b|, t);
  }

  lemma ProdZero(a: seq<Word>, b: seq<Word>, t: int)
    requires forall i :: 0 <= i < |a| ==> a[i] == ZERO
    ensures !Prod(a, b, t)
  {
    XorSumZero(Term(Bits(a), Bits(b), t), 0, 64 * |a|);
  }

  /** r is the product of a and b, all 64 (|a| + |b|) bits of it. */
  ghost predicate IsProduct(r: seq<Word>, a: seq<Word>, b: seq<Word>) {
    && |r| == |a| + |b|
    && forall t :: Bit(r, t) == Prod(a, b, t)
  }

  /** A word vector is its bits: the product is unique. */
  lemma SameBits(x: seq<Word>, y: seq<Word>)
    requires |x| == |y|
    requires forall t :: 0 <= t < 64 * |x| ==> Bit(x, t) == Bit(y, t)
    ensures x == y
  {
    forall j | 0 <= j < |x| ensures x[j] == y[j] {
      forall i | 0 <= i < 64 ensures x[j][i] == y[j][i] {
        var t := 64 * j + i;
        assert t / 64 == j && t % 64 == i;
        assert Bit(x, t) == Bit(y, t);
      }
    }
  }
}
