/** The schoolbook product the native differential test compares every fast product with. */
module School {
  import opened Gf2Poly
  import opened Words

  /** 64 x 64 -> 128-bit carry-less product: one shifted copy of x per set bit of y. */
  method ClMul(x: Word, y: Word) returns (lo: Word, hi: Word)
    ensures IsProduct([lo, hi], [x], [y])
  {
    lo, hi := ZERO, ZERO;
    for k := 0 to 64
      invariant forall t :: 0 <= t < 128 ==> Bit([lo, hi], t) == Mul(Bits([y]), Bits([x]), k, t)
    {
      ghost var lo0, hi0 := lo, hi;
      if y[k] {
        lo := Xor(lo, Shl(x, k));
        if k != 0 {
          hi := Xor(hi, Shr(x, 64 - k));
        }
      }
      forall t | 0 <= t < 128
        ensures Bit([lo, hi], t) == Mul(Bits([y]), Bits([x]), k + 1, t)
      {
        assert Bit([lo0, hi0], t) == Mul(Bits([y]), Bits([x]), k, t);
        assert Term(Bits([y]), Bits([x]), t)(k) == (y[k] && Bit([x], t - k));
      }
    }
    forall t ensures Bit([lo, hi], t) == Prod([x], [y], t) {
      ProdCommutes([x], [y], t);
      if !(0 <= t < 128) { ProdBelow([x], [y], t); }
    }
  }

  /** What c holds once rows 0..i and the first j words of row i are in. */
  ghost predicate PartialProduct(c: seq<Word>, a: seq<Word>, b: seq<Word>, i: nat, j: nat)
    requires i < |a| && j <= |b|
  {
    forall t :: 0 <= t < 64 * |c| ==>
      Bit(c, t) == (Prod(a[..i], b, t) != Prod([a[i]], b[..j], t - 64 * i))
  }

  /** XORing the two words of a_i b_j into words i + j and i + j + 1 is one more step. */
  lemma AddWordProduct(c: seq<Word>, c': seq<Word>, a: seq<Word>, b: seq<Word>, i: nat, j: nat, lo: Word, hi: Word)
    requires i < |a| && j < |b| && |c| == |a| + |b|
    requires PartialProduct(c, a, b, i, j)
    requires IsProduct([lo, hi], [a[i]], [b[j]])
    requires c' == c[i + j := Xor(c[i + j], lo)][i + j + 1 := Xor(c[i + j + 1], hi)]
    ensures PartialProduct(c', a, b, i, j + 1)
  {
    assert b[..j + 1] == b[..j] + [b[j]];
    forall t | 0 <= t < 64 * |c'|
      ensures Bit(c', t) == (Prod(a[..i], b, t) != Prod([a[i]], b[..j + 1], t - 64 * i))
    {
      ProdConcatRight([a[i]], b[..j], [b[j]], t - 64 * i);
      assert Bit(c, t) == (Prod(a[..i], b, t) != Prod([a[i]], b[..j], t - 64 * i));
      var s := t - 64 * (i + j);
      assert Bit([lo, hi], s) == Prod([a[i]], [b[j]], s);
      assert s / 64 == t / 64 - (i + j) && s % 64 == t % 64;
      assert Bit(c', t) == (Bit(c, t) != Bit([lo, hi], s));
      assert t - 64 * i - 64 * |b[..j]| == s;
    }
  }

  /** Row i is complete: move on to row i + 1. */
  lemma NextRow(a: seq<Word>, b: seq<Word>, i: nat, t: int)
    requires i < |a|
    ensures Prod(a[..i + 1], b, t) == (Prod(a[..i], b, t) != Prod([a[i]], b, t - 64 * i))
  {
    assert a[..i + 1] == a[..i] + [a[i]];
    ProdConcatLeft(a[..i], [a[i]], b, t);
  }

  /** c = a * b over GF(2)[x]; a row whose word of a is zero is skipped. */
  method School(c: array<Word>, a: array<Word>, b: array<Word>)
    requires a.Length == b.Length && c.Length == 2 * a.Length
    requires c != a && c != b
    modifies c
    ensures IsProduct(c[..], a[..], b[..])
  {
    var w := a.Length;
    ghost var A, B := a[..], b[..];
    for i := 0 to 2 * w
      invariant forall k :: 0 <= k < i ==> c[k] == ZERO
    {
      c[i] := ZERO;
    }
    assert forall t :: 0 <= t < 64 * |c[..]| ==> !Bit(c[..], t);
    forall t ensures !Prod(A[..0], B, t) { ProdZero(A[..0], B, t); }
    for i := 0 to w
      invariant a[..] == A && b[..] == B
      invariant forall t :: 0 <= t < 64 * |c[..]| ==> Bit(c[..], t) == Prod(A[..i], B, t)
    {
      forall t ensures Prod(A[..i + 1], B, t) == (Prod(A[..i], B, t) != Prod([A[i]], B, t - 64 * i)) {
        NextRow(A, B, i, t);
      }
      if a[i] == ZERO {
        forall t ensures !Prod([A[i]], B, t) { ProdZero([A[i]], B, t); }
        continue;
      }
      forall t ensures !Prod([A[i]], B[..0], t) {
        ProdCommutes([A[i]], B[..0], t);
        ProdZero(B[..0], [A[i]], t);
      }
      for j := 0 to w
        invariant a[..] == A && b[..] == B
        invariant PartialProduct(c[..], A, B, i, j)
      {
        ghost var before := c[..];
        var lo, hi := ClMul(a[i], b[j]);
        c[i + j] := Xor(c[i + j], lo);
        c[i + j + 1] := Xor(c[i + j + 1], hi);
        AddWordProduct(before, c[..], A, B, i, j, lo, hi);
      }
      assert B[..w] == B;
    }
    assert A[..w] == A;
    forall t ensures Bit(c[..], t) == Prod(A, B, t) {
      if !(0 <= t < 64 * |c[..]|) { ProdBelow(A, B, t); }
    }
  }
}
