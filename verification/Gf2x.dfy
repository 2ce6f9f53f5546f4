/** The C schoolbook product of gf2x.c on a flat word memory, with pointers as offsets into it. */
module Gf2x {
  import opened Gf2Poly
  import opened Words
  import opened Karatsuba

  // ---------- memory blocks ----------

  /** The blocks of n words at x and m words at y do not overlap. */
  predicate Apart(x: nat, n: nat, y: nat, m: nat) {
    x + n <= y || y + m <= x
  }

  /** The block of n words at x. */
  function Sub(s: seq<Word>, x: nat, n: nat): (r: seq<Word>)
    requires x + n <= |s|
    ensures |r| == n
  {
    s[x..x + n]
  }

  /** Only the n words at x may differ. */
  ghost predicate OnlyAt(s: seq<Word>, s': seq<Word>, x: nat, n: nat) {
    |s| == |s'| && forall i :: 0 <= i < |s| && !(x <= i < x + n) ==> s'[i] == s[i]
  }

  lemma OnlyAtTrans(s: seq<Word>, s': seq<Word>, s'': seq<Word>, x: nat, n: nat)
    requires OnlyAt(s, s', x, n) && OnlyAt(s', s'', x, n)
    ensures OnlyAt(s, s'', x, n)
  {
  }

  /** A block apart from the changed one is unchanged. */
  lemma SameBlock(s: seq<Word>, s': seq<Word>, x: nat, n: nat, y: nat, m: nat)
    requires OnlyAt(s, s', x, n) && Apart(x, n, y, m) && y + m <= |s|
    ensures |s'| == |s| && Sub(s', y, m) == Sub(s, y, m)
  {
  }

  lemma SubAt(s: seq<Word>, x: nat, n: nat, i: nat)
    requires x + n <= |s| && i < n
    ensures Sub(s, x, n)[i] == s[x + i]
  {
  }

  // ---------- the schoolbook product as a function of its loop counters ----------

  /** XORing the masked, shifted word bj into words k and k + 1 of r. */
  function AddShifted(r: seq<Word>, k: nat, bj: Word, sh: nat, on: bool): (r': seq<Word>)
    requires k + 1 < |r| && sh < 64
    ensures |r'| == |r|
  {
    var r1 := r[k := Xor(r[k], And(Shl(bj, sh), Mask(on)))];
    if sh == 0 then r1 else r1[k + 1 := Xor(r1[k + 1], And(Shr(bj, 64 - sh), Mask(on)))]
  }

  /** r after j steps of the inner loop for bit sh of word i. */
  function AfterWords(r: seq<Word>, b: seq<Word>, i: nat, sh: nat, on: bool, j: nat): (r': seq<Word>)
    requires j <= |b| && i + |b| < |r| && sh < 64
    ensures |r'| == |r|
  {
    if j == 0 then r else AddShifted(AfterWords(r, b, i, sh, on, j - 1), i + j - 1, b[j - 1], sh, on)
  }

  /** The result block after the first m bits of a. */
  function AfterBits(a: seq<Word>, b: seq<Word>, m: nat): (r: seq<Word>)
    requires m <= 64 * |a| && |a| == |b|
    ensures |r| == 2 * |a|
  {
    if m == 0 then Zeros(2 * |a|)
    else AfterWords(AfterBits(a, b, m - 1), b, (m - 1) / 64, (m - 1) % 64, Bit(a, m - 1), |b|)
  }

  lemma BitAddShifted(r: seq<Word>, k: nat, bj: Word, sh: nat, on: bool, t: int)
    requires k + 1 < |r| && sh < 64 && 0 <= t < 64 * |r|
    ensures Bit(AddShifted(r, k, bj, sh, on), t) == (Bit(r, t) != (on && Bit([bj], t - 64 * k - sh)))
  {
    if t / 64 == k {
      assert t % 64 == t - 64 * k;
    } else if t / 64 == k + 1 {
      assert t % 64 == t - 64 * k - 64;
    }
  }

  lemma {:induction false} BitAfterWords(r: seq<Word>, b: seq<Word>, i: nat, sh: nat, on: bool, j: nat, t: int)
    requires j <= |b| && i + |b| < |r| && sh < 64 && 0 <= t < 64 * |r|
    ensures Bit(AfterWords(r, b, i, sh, on, j), t) == (Bit(r, t) != (on && Bit(b[..j], t - 64 * i - sh)))
  {
    if j > 0 {
      BitAfterWords(r, b, i, sh, on, j - 1, t);
      BitAddShifted(AfterWords(r, b, i, sh, on, j - 1), i + j - 1, b[j - 1], sh, on, t);
      assert b[..j] == b[..j - 1] + [b[j - 1]];
      BitConcat(b[..j - 1], [b[j - 1]], t - 64 * i - sh);
      assert t - 64 * (i + j - 1) - sh == t - 64 * i - sh - 64 * |b[..j - 1]|;
    }
  }

  lemma {:induction false} BitAfterBits(a: seq<Word>, b: seq<Word>, m: nat, t: int)
    requires m <= 64 * |a| && |a| == |b| && 0 <= t < 128 * |a|
    ensures Bit(AfterBits(a, b, m), t) == Mul(Bits(a), Bits(b), m, t)
  {
    hide AfterWords, AddShifted;
    if m > 0 {
      BitAfterBits(a, b, m - 1, t);
      BitAfterWords(AfterBits(a, b, m - 1), b, (m - 1) / 64, (m - 1) % 64, Bit(a, m - 1), |b|, t);
      assert b[..|b|] == b;
      assert t - 64 * ((m - 1) / 64) - (m - 1) % 64 == t - (m - 1);
      assert Term(Bits(a), Bits(b), t)(m - 1) == (Bit(a, m - 1) && Bit(b, t - (m - 1)));
    }
  }

  lemma AfterNextBit(a: seq<Word>, b: seq<Word>, i: nat, bit: nat)
    requires i < |a| == |b| && bit < 64
    ensures AfterBits(a, b, 64 * i + bit + 1)
         == AfterWords(AfterBits(a, b, 64 * i + bit), b, i, bit, a[i][bit], |b|)
  {
    hide AfterWords, Bit;
    BitInWord(a, i, bit);
  }

  lemma BitInWord(a: seq<Word>, i: nat, bit: nat)
    requires i < |a| && bit < 64
    ensures (64 * i + bit) / 64 == i && (64 * i + bit) % 64 == bit && Bit(a, 64 * i + bit) == a[i][bit]
  {
  }

  lemma AllBitsIsProduct(a: seq<Word>, b: seq<Word>)
    requires |a| == |b|
    ensures IsProduct(AfterBits(a, b, 64 * |a|), a, b)
  {
    forall t ensures Bit(AfterBits(a, b, 64 * |a|), t) == Prod(a, b, t) {
      if 0 <= t < 128 * |a| { BitAfterBits(a, b, 64 * |a|, t); } else { ProdBelow(a, b, t); }
    }
  }

  // ---------- the C loops ----------

  /** The C statement r[k] ^= w on the block of len words at r. */
  method XorIn(mem: array<Word>, r: nat, len: nat, k: nat, w: Word)
    requires r + len <= mem.Length && k < len
    modifies mem
    ensures Sub(mem[..], r, len) == var s := old(Sub(mem[..], r, len)); s[k := Xor(s[k], w)]
    ensures OnlyAt(old(mem[..]), mem[..], r, len)
  {
    mem[r + k] := Xor(mem[r + k], w);
  }

  method Clear(mem: array<Word>, r: nat, len: nat)
    requires r + len <= mem.Length
    modifies mem
    ensures Sub(mem[..], r, len) == Zeros(len)
    ensures OnlyAt(old(mem[..]), mem[..], r, len)
  {
    for i := 0 to len
      invariant forall k :: r <= k < r + i ==> mem[k] == ZERO
      invariant OnlyAt(old(mem[..]), mem[..], r, len)
    {
      mem[r + i] := ZERO;
    }
  }

  /** The two statements of the inner loop when the shift is not zero. */
  method AddWord(mem: array<Word>, r: nat, len: nat, k: nat, bj: Word, sh: nat, on: bool)
    requires r + len <= mem.Length && k + 1 < len && 0 < sh < 64
    modifies mem
    ensures Sub(mem[..], r, len) == AddShifted(old(Sub(mem[..], r, len)), k, bj, sh, on)
    ensures OnlyAt(old(mem[..]), mem[..], r, len)
  {
    XorIn(mem, r, len, k, And(Shl(bj, sh), Mask(on)));
    XorIn(mem, r, len, k + 1, And(Shr(bj, 64 - sh), Mask(on)));
  }

  /** The inner loop for bit 0 of word i of a. */
  method AddRowAligned(mem: array<Word>, r: nat, b: nat, n: nat, i: nat, on: bool)
    requires r + 2 * n <= mem.Length && b + n <= mem.Length && Apart(r, 2 * n, b, n)
    requires i < n
    modifies mem
    ensures Sub(mem[..], r, 2 * n) == AfterWords(old(Sub(mem[..], r, 2 * n)), old(Sub(mem[..], b, n)), i, 0, on, n)
    ensures OnlyAt(old(mem[..]), mem[..], r, 2 * n)
  {
    hide Xor, And, Mask;
    ghost var M, R, B := mem[..], Sub(mem[..], r, 2 * n), Sub(mem[..], b, n);
    for j := 0 to n
      invariant OnlyAt(M, mem[..], r, 2 * n)
      invariant Sub(mem[..], r, 2 * n) == AfterWords(R, B, i, 0, on, j)
    {
      ghost var now := mem[..];
      assert now[b + j] == B[j] && Shl(B[j], 0) == B[j];
      XorIn(mem, r, 2 * n, i + j, And(mem[b + j], Mask(on)));
      OnlyAtTrans(M, now, mem[..], r, 2 * n);
    }
  }

  /** The inner loop for bit sh > 0 of word i of a. */
  method AddRowShifted(mem: array<Word>, r: nat, b: nat, n: nat, i: nat, sh: nat, on: bool)
    requires r + 2 * n <= mem.Length && b + n <= mem.Length && Apart(r, 2 * n, b, n)
    requires i < n && 0 < sh < 64
    modifies mem
    ensures Sub(mem[..], r, 2 * n) == AfterWords(old(Sub(mem[..], r, 2 * n)), old(Sub(mem[..], b, n)), i, sh, on, n)
    ensures OnlyAt(old(mem[..]), mem[..], r, 2 * n)
  {
    hide AddShifted;
    ghost var M, R, B := mem[..], Sub(mem[..], r, 2 * n), Sub(mem[..], b, n);
    for j := 0 to n
      invariant OnlyAt(M, mem[..], r, 2 * n)
      invariant Sub(mem[..], r, 2 * n) == AfterWords(R, B, i, sh, on, j)
    {
      ghost var now := mem[..];
      assert now[b + j] == B[j];
      AddWord(mem, r, 2 * n, i + j, mem[b + j], sh, on);
      OnlyAtTrans(M, now, mem[..], r, 2 * n);
    }
  }

  /** The 64 rows of word i of a. */
  method AddWordRows(mem: array<Word>, r: nat, b: nat, n: nat, i: nat, ai: Word, ghost A: seq<Word>)
    requires r + 2 * n <= mem.Length && b + n <= mem.Length && Apart(r, 2 * n, b, n)
    requires i < n == |A| && ai == A[i]
    requires Sub(mem[..], r, 2 * n) == AfterBits(A, Sub(mem[..], b, n), 64 * i)
    modifies mem
    ensures Sub(mem[..], r, 2 * n) == AfterBits(A, old(Sub(mem[..], b, n)), 64 * i + 64)
    ensures OnlyAt(old(mem[..]), mem[..], r, 2 * n)
  {
    hide AfterBits, AfterWords;
    ghost var M, B := mem[..], Sub(mem[..], b, n);
    for bit := 0 to 64
      invariant OnlyAt(M, mem[..], r, 2 * n)
      invariant Sub(mem[..], r, 2 * n) == AfterBits(A, B, 64 * i + bit)
    {
      ghost var now := mem[..];
      assert Sub(now, b, n) == B;
      if bit == 0 {
        AddRowAligned(mem, r, b, n, i, ai[bit]);
      } else {
        AddRowShifted(mem, r, b, n, i, bit, ai[bit]);
      }
      OnlyAtTrans(M, now, mem[..], r, 2 * n);
      AfterNextBit(A, B, i, bit);
    }
  }

  /** Bitwise schoolbook product of the n words at a and at b into the 2n words at r. */
  method SchoolbookMul(mem: array<Word>, r: nat, a: nat, b: nat, n: nat)
    requires r + 2 * n <= mem.Length && a + n <= mem.Length && b + n <= mem.Length
    requires Apart(r, 2 * n, a, n) && Apart(r, 2 * n, b, n)
    modifies mem
    ensures IsProduct(Sub(mem[..], r, 2 * n), old(Sub(mem[..], a, n)), old(Sub(mem[..], b, n)))
    ensures OnlyAt(old(mem[..]), mem[..], r, 2 * n)
  {
    hide AfterWords, Zeros, Sub, OnlyAt, Apart;
    ghost var A, B, M := Sub(mem[..], a, n), Sub(mem[..], b, n), mem[..];
    Clear(mem, r, 2 * n);
    for i := 0 to n
      invariant OnlyAt(M, mem[..], r, 2 * n)
      invariant Sub(mem[..], r, 2 * n) == AfterBits(A, B, 64 * i)
    {
      ghost var now := mem[..];
      SameBlock(M, now, r, 2 * n, a, n);
      SameBlock(M, now, r, 2 * n, b, n);
      SubAt(now, a, n, i);
      AddWordRows(mem, r, b, n, i, mem[a + i], A);
      OnlyAtTrans(M, now, mem[..], r, 2 * n);
      assert 64 * (i + 1) == 64 * i + 64;
    }
    AllBitsIsProduct(A, B);
  }
}
