/** The C recursion karatsuba_mul of gf2x.c in place: every intermediate lives in one scratch buffer. */
module Gf2xKaratsuba {
  import opened Words
  import opened Karatsuba
  import opened ScratchSize
  import opened Gf2x

  /** s with the words of x XORed in from position k on. */
  function XorAt(s: seq<Word>, k: nat, x: seq<Word>): (r: seq<Word>)
    requires k + |x| <= |s|
    ensures |r| == |s|
  {
    seq(|s|, i requires 0 <= i < |s| => if k <= i < k + |x| then Xor(s[i], x[i - k]) else s[i])
  }

  lemma XorZero(w: Word)
    ensures Xor(ZERO, w) == w
  {
  }

  /** Step 4 of the recursion computes the assembled product. */
  lemma AssembledInThreeLoops(z0: seq<Word>, z2: seq<Word>, zm: seq<Word>, n0: nat)
    requires |z0| == 2 * n0 && |z0| <= |z2| == |zm|
    ensures XorAt(XorAt(XorAt(Zeros(|z0| + |z2|), 0, z0), 2 * n0, z2), n0, Middle(z0, z2, zm))
         == Assemble(z0, z2, zm, n0)
  {
    hide Xor, Middle;
    var n := |z0| + |z2|;
    var r1 := XorAt(Zeros(n), 0, z0);
    var r2 := XorAt(r1, 2 * n0, z2);
    forall k | 0 <= k < n ensures r2[k] == (z0 + z2)[k] {
      XorZero((z0 + z2)[k]);
    }
    assert r2 == z0 + z2;
    var mid := Middle(z0, z2, zm);
    var up := Zeros(n0) + mid + Zeros(n0);
    forall k | 0 <= k < n ensures XorAt(r2, n0, mid)[k] == XorWords(z0 + z2, up)[k] {
      if !(n0 <= k < n0 + |mid|) {
        XorZeroRight((z0 + z2)[k]);
      }
    }
    assert XorAt(r2, n0, mid) == XorWords(z0 + z2, up);
  }

  lemma XorZeroRight(w: Word)
    ensures Xor(w, ZERO) == w
  {
  }

  lemma MiddleAt(z0: seq<Word>, z2: seq<Word>, zm: seq<Word>, i: nat)
    requires |z0| <= |z2| == |zm| && i < |z2|
    ensures Middle(z0, z2, zm)[i] == Xor(Xor(zm[i], if i < |z0| then z0[i] else ZERO), z2[i])
  {
  }

  /** One step r[k + i] ^= x[i] of a loop that XORs x into the block R at r from word k on. */
  method XorNext(mem: array<Word>, r: nat, len: nat, k: nat, i: nat, w: Word,
                 ghost M: seq<Word>, ghost R: seq<Word>, ghost x: seq<Word>)
    requires r + len <= mem.Length && |R| == len && k + |x| <= len && i < |x| && w == x[i]
    requires OnlyAt(M, mem[..], r, len) && Sub(mem[..], r, len) == XorAt(R, k, x[..i])
    modifies mem
    ensures OnlyAt(M, mem[..], r, len) && Sub(mem[..], r, len) == XorAt(R, k, x[..i + 1])
  {
    hide Xor;
    ghost var now, block := mem[..], Sub(mem[..], r, len);
    assert block[k + i] == R[k + i];
    XorIn(mem, r, len, k + i, w);
    OnlyAtTrans(M, now, mem[..], r, len);
    assert x[..i + 1] == x[..i] + [w];
  }

  /** for (i < cnt) r[k + i] ^= src[i] */
  method XorBlock(mem: array<Word>, r: nat, len: nat, k: nat, src: nat, cnt: nat)
    requires r + len <= mem.Length && k + cnt <= len && src + cnt <= mem.Length
    requires Apart(r, len, src, cnt)
    modifies mem
    ensures Sub(mem[..], r, len) == XorAt(old(Sub(mem[..], r, len)), k, old(Sub(mem[..], src, cnt)))
    ensures OnlyAt(old(mem[..]), mem[..], r, len)
  {
    hide Xor;
    ghost var M, R, S := mem[..], Sub(mem[..], r, len), Sub(mem[..], src, cnt);
    for i := 0 to cnt
      invariant OnlyAt(M, mem[..], r, len)
      invariant Sub(mem[..], r, len) == XorAt(R, k, S[..i])
    {
      assert mem[..][src + i] == S[i];
      XorNext(mem, r, len, k, i, mem[src + i], M, R, S);
    }
    assert S[..cnt] == S;
  }

  /** for (i < 2 n1) r[m + i] ^= zmid[i] ^ z0[i] ^ z2[i], with z0 read as zero past its end */
  method AddMiddle(mem: array<Word>, r: nat, len: nat, z0: nat, z2: nat, zmid: nat, n0: nat, n1: nat)
    requires 1 <= n0 <= n1 && len == 2 * (n0 + n1) && r + len <= mem.Length
    requires z0 + 2 * n0 <= mem.Length && z2 + 2 * n1 <= mem.Length && zmid + 2 * n1 <= mem.Length
    requires Apart(r, len, z0, 2 * n0) && Apart(r, len, z2, 2 * n1) && Apart(r, len, zmid, 2 * n1)
    modifies mem
    ensures Sub(mem[..], r, len) == XorAt(old(Sub(mem[..], r, len)), n0,
      Middle(old(Sub(mem[..], z0, 2 * n0)), old(Sub(mem[..], z2, 2 * n1)), old(Sub(mem[..], zmid, 2 * n1))))
    ensures OnlyAt(old(mem[..]), mem[..], r, len)
  {
    ghost var M, R := mem[..], Sub(mem[..], r, len);
    assert OnlyAt(M, mem[..], r, len) && R == XorAt(R, n0, []);
    hide Middle, XorAt, Xor, Sub, OnlyAt;
    ghost var Z0, Z2, Zm := Sub(mem[..], z0, 2 * n0), Sub(mem[..], z2, 2 * n1), Sub(mem[..], zmid, 2 * n1);
    ghost var Mid := Middle(Z0, Z2, Zm);
    assert Mid[..0] == [];
    for i := 0 to 2 * n1
      invariant OnlyAt(M, mem[..], r, len)
      invariant Sub(mem[..], r, len) == XorAt(R, n0, Mid[..i])
    {
      ghost var now := mem[..];
      SameBlock(M, now, r, len, zmid, 2 * n1);
      SubAt(now, zmid, 2 * n1, i);
      SameBlock(M, now, r, len, z2, 2 * n1);
      SubAt(now, z2, 2 * n1, i);
      if i < 2 * n0 { SameBlock(M, now, r, len, z0, 2 * n0); SubAt(now, z0, 2 * n0, i); }
      var z0i := if i < 2 * n0 then mem[z0 + i] else ZERO;
      var mid := Xor(Xor(mem[zmid + i], z0i), mem[z2 + i]);
      MiddleAt(Z0, Z2, Zm, i);
      XorNext(mem, r, len, n0, i, mid, M, R, Mid);
    }
    assert Mid[..2 * n1] == Mid;
  }

  /** Step 4: the three half products go into r. */
  method AssembleInto(mem: array<Word>, r: nat, z0: nat, z2: nat, zmid: nat, n0: nat, n1: nat)
    requires 1 <= n0 <= n1
    requires r + 2 * (n0 + n1) <= mem.Length
    requires z0 + 2 * n0 <= mem.Length && z2 + 2 * n1 <= mem.Length && zmid + 2 * n1 <= mem.Length
    requires Apart(r, 2 * (n0 + n1), z0, 2 * n0)
    requires Apart(r, 2 * (n0 + n1), z2, 2 * n1)
    requires Apart(r, 2 * (n0 + n1), zmid, 2 * n1)
    modifies mem
    ensures Sub(mem[..], r, 2 * (n0 + n1))
         == Assemble(old(Sub(mem[..], z0, 2 * n0)), old(Sub(mem[..], z2, 2 * n1)), old(Sub(mem[..], zmid, 2 * n1)), n0)
    ensures OnlyAt(old(mem[..]), mem[..], r, 2 * (n0 + n1))
  {
    hide Assemble, Middle, XorAt, Zeros, OnlyAt, Apart, Sub;
    ghost var M := mem[..];
    ghost var Z0, Z2, Zm := Sub(mem[..], z0, 2 * n0), Sub(mem[..], z2, 2 * n1), Sub(mem[..], zmid, 2 * n1);
    var len := 2 * (n0 + n1);
    assert |Z0| == 2 * n0 && |Z2| == 2 * n1 && |Zm| == 2 * n1 && |Z0| + |Z2| == len;
    Clear(mem, r, len);
    ghost var M1 := mem[..];
    SameBlock(M, M1, r, len, z0, 2 * n0);
    XorBlock(mem, r, len, 0, z0, 2 * n0);
    ghost var M2 := mem[..];
    OnlyAtTrans(M, M1, M2, r, len);
    SameBlock(M, M2, r, len, z2, 2 * n1);
    XorBlock(mem, r, len, 2 * n0, z2, 2 * n1);
    ghost var M3 := mem[..];
    OnlyAtTrans(M, M2, M3, r, len);
    SameBlock(M, M3, r, len, z0, 2 * n0);
    SameBlock(M, M3, r, len, z2, 2 * n1);
    SameBlock(M, M3, r, len, zmid, 2 * n1);
    assert Sub(mem[..], r, len) == XorAt(XorAt(Zeros(|Z0| + |Z2|), 0, Z0), 2 * n0, Z2);
    assert Sub(mem[..], z0, 2 * n0) == Z0 && Sub(mem[..], z2, 2 * n1) == Z2 && Sub(mem[..], zmid, 2 * n1) == Zm;
    AddMiddle(mem, r, len, z0, z2, zmid, n0, n1);
    OnlyAtTrans(M, M3, mem[..], r, len);
    AssembledInThreeLoops(Z0, Z2, Zm, n0);
  }

  // ---------- frames over two blocks ----------

  /** Only the n words at x and the m words at y may differ. */
  ghost predicate OnlyAt2(s: seq<Word>, s': seq<Word>, x: nat, n: nat, y: nat, m: nat) {
    |s| == |s'| && forall i :: 0 <= i < |s| && !(x <= i < x + n) && !(y <= i < y + m) ==> s'[i] == s[i]
  }

  lemma SameBlock2(s: seq<Word>, s': seq<Word>, x: nat, n: nat, y: nat, m: nat, z: nat, k: nat)
    requires OnlyAt2(s, s', x, n, y, m) && Apart(x, n, z, k) && Apart(y, m, z, k) && z + k <= |s|
    ensures |s'| == |s| && Sub(s', z, k) == Sub(s, z, k)
  {
  }

  /** Two changed blocks inside one changed block. */
  lemma Within(s: seq<Word>, s': seq<Word>, x: nat, n: nat, y: nat, m: nat, z: nat, k: nat)
    requires OnlyAt2(s, s', x, n, y, m) && z <= x && x + n <= z + k && (m == 0 || (z <= y && y + m <= z + k))
    ensures OnlyAt(s, s', z, k)
  {
  }

  lemma OneThenOther(s: seq<Word>, s': seq<Word>, s'': seq<Word>, x: nat, n: nat, y: nat, m: nat)
    requires OnlyAt(s, s', y, m) && OnlyAt(s', s'', x, n)
    ensures OnlyAt2(s, s'', x, n, y, m)
  {
  }

  lemma SubSplit(s: seq<Word>, x: nat, n0: nat, n1: nat)
    requires x + n0 + n1 <= |s|
    ensures Sub(s, x, n0 + n1) == Sub(s, x, n0) + Sub(s, x + n0, n1)
  {
  }

  // ---------- the recursion ----------

  lemma HalfSumAt(lo: seq<Word>, hi: seq<Word>, i: nat)
    requires |lo| <= |hi| && i < |hi|
    ensures HalfSum(lo, hi)[i] == Xor(if i < |lo| then lo[i] else ZERO, hi[i])
  {
  }

  /** ta[i] = wa; tb[i] = wb */
  method PutTwo(mem: array<Word>, ta: nat, tb: nat, n: nat, i: nat, wa: Word, wb: Word)
    requires ta + n <= mem.Length && tb + n <= mem.Length && i < n && Apart(ta, n, tb, n)
    modifies mem
    ensures Sub(mem[..], ta, n) == old(Sub(mem[..], ta, n))[i := wa]
    ensures Sub(mem[..], tb, n) == old(Sub(mem[..], tb, n))[i := wb]
    ensures OnlyAt2(old(mem[..]), mem[..], ta, n, tb, n)
  {
    mem[ta + i] := wa;
    mem[tb + i] := wb;
  }

  lemma Unchanged(s: seq<Word>, x: nat, n: nat, y: nat, m: nat)
    ensures OnlyAt(s, s, x, n) && OnlyAt2(s, s, x, n, y, m)
  {
  }

  lemma PrefixGrows(s: seq<Word>, t: seq<Word>, i: nat, w: Word)
    requires i < |s| == |t| && s[..i] == t[..i] && t[i] == w
    ensures s[i := w][..i + 1] == t[..i + 1]
  {
    assert s[i := w][..i + 1] == s[..i] + [w];
    assert t[..i + 1] == t[..i] + [w];
  }

  lemma OnlyAt2Trans(s: seq<Word>, s': seq<Word>, s'': seq<Word>, x: nat, n: nat, y: nat, m: nat)
    requires OnlyAt2(s, s', x, n, y, m) && OnlyAt2(s', s'', x, n, y, m)
    ensures OnlyAt2(s, s'', x, n, y, m)
  {
  }

  lemma ReadHalves(s: seq<Word>, s': seq<Word>, ta: nat, tb: nat, a: nat, n0: nat, n1: nat, i: nat)
    requires OnlyAt2(s, s', ta, n1, tb, n1) && n0 <= n1 && a + n0 + n1 <= |s| && i < n1
    requires Apart(ta, n1, a, n0 + n1) && Apart(tb, n1, a, n0 + n1)
    ensures |s'| == |s| && s'[a + n0 + i] == Sub(s, a + n0, n1)[i] && (i < n0 ==> s'[a + i] == Sub(s, a, n0)[i])
  {
  }

  /** Step 3: ta and tb get the half sums of a and b. */
  method HalfSums(mem: array<Word>, ta: nat, tb: nat, a: nat, b: nat, n0: nat, n1: nat)
    requires n0 <= n1
    requires ta + n1 <= mem.Length && tb + n1 <= mem.Length
    requires a + n0 + n1 <= mem.Length && b + n0 + n1 <= mem.Length
    requires Apart(ta, n1, tb, n1)
    requires Apart(ta, n1, a, n0 + n1) && Apart(ta, n1, b, n0 + n1)
    requires Apart(tb, n1, a, n0 + n1) && Apart(tb, n1, b, n0 + n1)
    modifies mem
    ensures Sub(mem[..], ta, n1) == HalfSum(old(Sub(mem[..], a, n0)), old(Sub(mem[..], a + n0, n1)))
    ensures Sub(mem[..], tb, n1) == HalfSum(old(Sub(mem[..], b, n0)), old(Sub(mem[..], b + n0, n1)))
    ensures OnlyAt2(old(mem[..]), mem[..], ta, n1, tb, n1)
  {
    hide Sub, HalfSum, Xor, OnlyAt2;
    ghost var M := mem[..];
    Unchanged(M, ta, n1, tb, n1);
    ghost var A0, A1 := Sub(mem[..], a, n0), Sub(mem[..], a + n0, n1);
    ghost var B0, B1 := Sub(mem[..], b, n0), Sub(mem[..], b + n0, n1);
    for i := 0 to n1
      invariant OnlyAt2(M, mem[..], ta, n1, tb, n1)
      invariant Sub(mem[..], ta, n1)[..i] == HalfSum(A0, A1)[..i]
      invariant Sub(mem[..], tb, n1)[..i] == HalfSum(B0, B1)[..i]
    {
      ghost var now := mem[..];
      ReadHalves(M, now, ta, tb, a, n0, n1, i);
      var loa := if i < n0 then mem[a + i] else ZERO;
      var wa := Xor(loa, mem[a + n0 + i]);
      HalfSumAt(A0, A1, i);
      ReadHalves(M, now, ta, tb, b, n0, n1, i);
      var lob := if i < n0 then mem[b + i] else ZERO;
      var wb := Xor(lob, mem[b + n0 + i]);
      HalfSumAt(B0, B1, i);
      ghost var SA, SB := Sub(now, ta, n1), Sub(now, tb, n1);
      PutTwo(mem, ta, tb, n1, i, wa, wb);
      PrefixGrows(SA, HalfSum(A0, A1), i, wa);
      PrefixGrows(SB, HalfSum(B0, B1), i, wb);
      OnlyAt2Trans(M, now, mem[..], ta, n1, tb, n1);
    }
    assert Sub(mem[..], ta, n1)[..n1] == Sub(mem[..], ta, n1);
    assert HalfSum(A0, A1)[..n1] == HalfSum(A0, A1);
    assert Sub(mem[..], tb, n1)[..n1] == Sub(mem[..], tb, n1);
    assert HalfSum(B0, B1)[..n1] == HalfSum(B0, B1);
  }

  /** The n words at x apart from the scratch the recursion for m-word operands writes at tmp, if any. */
  predicate ClearOfScratch(tmp: nat, m: nat, x: nat, n: nat) {
    m > THRESHOLD ==> Apart(tmp, Extent(m), x, n)
  }

  /** k words of scratch are enough for a split into n0 and n1 words. */
  predicate Enough(k: nat, n0: nat, n1: nat) {
    && k >= 7 * (n0 + n1) + n1
    && (n0 > THRESHOLD ==> k >= 8 * (n0 + n1) + Extent(n0))
    && (n1 > THRESHOLD ==> k >= 8 * (n0 + n1) + Extent(n1))
  }

  lemma EnoughForSplit(n: nat)
    requires n > THRESHOLD
    ensures Enough(Extent(n), n / 2, n - n / 2)
  {
  }

  /** The word that ends up last in the scratch: the last half sum of the last level that is still split, formed from
      the second operand alone. */
  function LastSum(b: seq<Word>): Word
    requires |b| > THRESHOLD
    decreases |b|
  {
    var n0 := |b| / 2;
    var sums := HalfSum(b[..n0], b[n0..]);
    if |sums| > THRESHOLD then LastSum(sums) else sums[|sums| - 1]
  }

  lemma LastSumStep(b: seq<Word>, lo: seq<Word>, hi: seq<Word>)
    requires b == lo + hi && |b| > THRESHOLD && |lo| == |b| / 2
    ensures LastSum(b) == if |hi| > THRESHOLD then LastSum(HalfSum(lo, hi)) else HalfSum(lo, hi)[|hi| - 1]
  {
    assert b[..|b| / 2] == lo && b[|b| / 2..] == hi;
  }

  /** Any word can be left there, so it is written whatever it held before. */
  lemma {:induction false} LastSumAny(n: nat, w: Word)
    requires n > THRESHOLD
    ensures LastSum(Zeros(n - 1) + [w]) == w
    decreases n
  {
    var n0, n1 := n / 2, n - n / 2;
    var lo, hi := Zeros(n0), Zeros(n1 - 1) + [w];
    assert Zeros(n - 1) + [w] == lo + hi;
    LastSumStep(Zeros(n - 1) + [w], lo, hi);
    ZerosAdded(n0, n1, w);
    hide LastSum, Zeros, HalfSum;
    if n1 > THRESHOLD { LastSumAny(n1, w); }
  }

  lemma ZerosAdded(n0: nat, n1: nat, w: Word)
    requires n0 <= n1 && n1 > 0
    ensures HalfSum(Zeros(n0), Zeros(n1 - 1) + [w]) == Zeros(n1 - 1) + [w]
  {
    hide Xor;
    var lo, hi := Zeros(n0), Zeros(n1 - 1) + [w];
    forall i | 0 <= i < n1 ensures HalfSum(lo, hi)[i] == hi[i] {
      HalfSumAt(lo, hi, i);
      XorZero(hi[i]);
    }
  }

  lemma ExtentOfHalf(n: nat)
    requires n > THRESHOLD
    ensures var h := n - n / 2; Extent(n) == if h > THRESHOLD then 8 * n + Extent(h) else 7 * n + h
    ensures Extent(n) > 0
  {
    hide Extent;
    var h := n - n / 2;
    ExtentMonotone(n / 2, h);
    ExtentParts(n);
    if h > THRESHOLD { ExtentParts(h); }
  }

  /** The last of the k words at tmp holds what the second operand b determines. */
  ghost predicate LastIs(s: seq<Word>, tmp: nat, k: nat, b: seq<Word>) {
    |b| > THRESHOLD ==> k > 0 && tmp + k <= |s| && s[tmp + k - 1] == LastSum(b)
  }

  /** The last word after step 3: written by the child's own splits, or as tb's last when the child is a leaf. */
  lemma LastAfterMiddle(s: seq<Word>, tmp: nat, n0: nat, n1: nat, lo: seq<Word>, hi: seq<Word>)
    requires |lo| == n0 && |hi| == n1 && n0 == (n0 + n1) / 2 && tmp + Extent(n0 + n1) <= |s|
    requires n1 > THRESHOLD ==> LastIs(s, tmp + 8 * (n0 + n1), Extent(n1), HalfSum(lo, hi))
    requires THRESHOLD < n0 + n1 && n1 <= THRESHOLD ==> Sub(s, tmp + 7 * (n0 + n1), n1) == HalfSum(lo, hi)
    ensures LastIs(s, tmp, Extent(n0 + n1), lo + hi)
  {
    hide Extent, LastSum, HalfSum;
    if n0 + n1 > THRESHOLD {
      ExtentOfHalf(n0 + n1);
      LastSumStep(lo + hi, lo, hi);
      if n1 <= THRESHOLD { assert Sub(s, tmp + 7 * (n0 + n1), n1)[n1 - 1] == s[tmp + 7 * (n0 + n1) + n1 - 1]; }
    }
  }

  lemma LastStays(s: seq<Word>, s': seq<Word>, r: nat, n: nat, tmp: nat, k: nat, b: seq<Word>)
    requires OnlyAt(s, s', r, n) && Apart(tmp, k, r, n) && LastIs(s, tmp, k, b)
    ensures LastIs(s', tmp, k, b)
  {
    hide LastSum;
  }

  /** A child product at z, with its own scratch past 8n, stays within the k words at tmp. */
  lemma ChildWithin(s: seq<Word>, s': seq<Word>, tmp: nat, k: nat, n0: nat, n1: nat, z: nat, m: nat)
    requires 1 <= n0 <= n1 && Enough(k, n0, n1) && (m == n0 || m == n1)
    requires tmp <= z && z + 2 * m <= tmp + 6 * (n0 + n1)
    requires OnlyAt2(s, s', z, 2 * m, tmp + 8 * (n0 + n1), Extent(m))
    ensures OnlyAt(s, s', tmp, k)
  {
    hide Extent, OnlyAt, OnlyAt2;
    LeafExtent(m);
    Within(s, s', z, 2 * m, tmp + 8 * (n0 + n1), Extent(m), tmp, k);
  }

  /** Steps 1 and 2: the products of the low and of the high halves. */
  method SideProducts(mem: array<Word>, a: nat, b: nat, n0: nat, n1: nat, tmp: nat, ghost k: nat)
    requires 1 <= n0 <= n1
    requires a + n0 + n1 <= mem.Length && b + n0 + n1 <= mem.Length && tmp + k <= mem.Length
    requires Enough(k, n0, n1)
    requires Apart(tmp, k, a, n0 + n1) && Apart(tmp, k, b, n0 + n1)
    modifies mem
    ensures IsProduct(Sub(mem[..], tmp, 2 * n0), old(Sub(mem[..], a, n0)), old(Sub(mem[..], b, n0)))
    ensures IsProduct(Sub(mem[..], tmp + 2 * (n0 + n1), 2 * n1),
                      old(Sub(mem[..], a + n0, n1)), old(Sub(mem[..], b + n0, n1)))
    ensures OnlyAt(old(mem[..]), mem[..], tmp, k)
    decreases n0 + n1, 0
  {
    hide Sub, OnlyAt, OnlyAt2, IsProduct, Extent;
    ghost var M := mem[..];
    var n := n0 + n1;
    var z0, z2, child := tmp, tmp + 2 * n, tmp + 8 * n;
    KaratsubaMul(mem, z0, a, b, n0, child);
    ghost var M1 := mem[..];
    ChildWithin(M, M1, tmp, k, n0, n1, z0, n0);
    SameBlock(M, M1, tmp, k, a + n0, n1);
    SameBlock(M, M1, tmp, k, b + n0, n1);
    KaratsubaMul(mem, z2, a + n0, b + n0, n1, child);
    ChildWithin(M1, mem[..], tmp, k, n0, n1, z2, n1);
    OnlyAtTrans(M, M1, mem[..], tmp, k);
    SameBlock2(M1, mem[..], z2, 2 * n1, child, Extent(n1), z0, 2 * n0);
  }

  /** Steps 1 to 3: the three half products, each in its own part of the k scratch words at tmp. */
  method HalfProducts(mem: array<Word>, a: nat, b: nat, n0: nat, n1: nat, tmp: nat, ghost k: nat)
    requires 1 <= n0 <= n1
    requires a + n0 + n1 <= mem.Length && b + n0 + n1 <= mem.Length && tmp + k <= mem.Length
    requires Enough(k, n0, n1)
    requires Apart(tmp, k, a, n0 + n1) && Apart(tmp, k, b, n0 + n1)
    modifies mem
    ensures IsProduct(Sub(mem[..], tmp, 2 * n0), old(Sub(mem[..], a, n0)), old(Sub(mem[..], b, n0)))
    ensures IsProduct(Sub(mem[..], tmp + 2 * (n0 + n1), 2 * n1),
                      old(Sub(mem[..], a + n0, n1)), old(Sub(mem[..], b + n0, n1)))
    ensures IsProduct(Sub(mem[..], tmp + 4 * (n0 + n1), 2 * n1),
                      HalfSum(old(Sub(mem[..], a, n0)), old(Sub(mem[..], a + n0, n1))),
                      HalfSum(old(Sub(mem[..], b, n0)), old(Sub(mem[..], b + n0, n1))))
    ensures OnlyAt(old(mem[..]), mem[..], tmp, k)
    ensures k == Extent(n0 + n1) && n0 == (n0 + n1) / 2
      ==> LastIs(mem[..], tmp, k, old(Sub(mem[..], b, n0)) + old(Sub(mem[..], b + n0, n1)))
    decreases n0 + n1, 1
  {
    hide Sub, OnlyAt, OnlyAt2, HalfSum, IsProduct, Extent, LastIs;
    ghost var M := mem[..];
    var n := n0 + n1;
    var z0, z2, zmid := tmp, tmp + 2 * n, tmp + 4 * n;
    var ta, tb := tmp + 6 * n, tmp + 7 * n;
    var child := tmp + 8 * n;

    SideProducts(mem, a, b, n0, n1, tmp, k);
    ghost var M2 := mem[..];
    SameBlock(M, M2, tmp, k, a, n0);
    SameBlock(M, M2, tmp, k, b, n0);
    SameBlock(M, M2, tmp, k, a + n0, n1);
    SameBlock(M, M2, tmp, k, b + n0, n1);

    HalfSums(mem, ta, tb, a, b, n0, n1);
    ghost var M3 := mem[..];
    Within(M2, M3, ta, n1, tb, n1, tmp, k);
    OnlyAtTrans(M, M2, M3, tmp, k);
    SameBlock2(M2, M3, ta, n1, tb, n1, z0, 2 * n0);
    SameBlock2(M2, M3, ta, n1, tb, n1, z2, 2 * n1);

    KaratsubaMul(mem, zmid, ta, tb, n1, child);
    ChildWithin(M3, mem[..], tmp, k, n0, n1, zmid, n1);
    OnlyAtTrans(M, M3, mem[..], tmp, k);
    SameBlock2(M3, mem[..], zmid, 2 * n1, child, Extent(n1), z0, 2 * n0);
    SameBlock2(M3, mem[..], zmid, 2 * n1, child, Extent(n1), z2, 2 * n1);
    if k == Extent(n) && n0 == n / 2 {
      if n1 <= THRESHOLD { LeafExtent(n1); SameBlock2(M3, mem[..], zmid, 2 * n1, child, Extent(n1), tb, n1); }
      LastAfterMiddle(mem[..], tmp, n0, n1, Sub(M, b, n0), Sub(M, b + n0, n1));
    }
  }

  /** The 2n words at r become the product of the n words at a and at b; beside them only the
      Extent(n) scratch words at tmp may change, and the last of these is left with the last half
      sum of b, whatever it held. */
  method KaratsubaMul(mem: array<Word>, r: nat, a: nat, b: nat, n: nat, tmp: nat)
    requires r + 2 * n <= mem.Length && a + n <= mem.Length && b + n <= mem.Length
    requires n > THRESHOLD ==> tmp + Extent(n) <= mem.Length
    requires Apart(r, 2 * n, a, n) && Apart(r, 2 * n, b, n)
    requires ClearOfScratch(tmp, n, a, n) && ClearOfScratch(tmp, n, b, n) && ClearOfScratch(tmp, n, r, 2 * n)
    modifies mem
    ensures IsProduct(Sub(mem[..], r, 2 * n), old(Sub(mem[..], a, n)), old(Sub(mem[..], b, n)))
    ensures OnlyAt2(old(mem[..]), mem[..], r, 2 * n, tmp, Extent(n))
    ensures LastIs(mem[..], tmp, Extent(n), old(Sub(mem[..], b, n)))
    decreases n, 2
  {
    hide Sub, OnlyAt, OnlyAt2, HalfSum, Assemble, IsProduct, Extent;
    LeafExtent(n);
    ghost var M := mem[..];
    if n <= THRESHOLD {
      SchoolbookMul(mem, r, a, b, n);
      LeafFrame(M, mem[..], r, 2 * n, tmp);
      return;
    }
    hide LastIs;
    var n0, n1 := n / 2, n - n / 2;
    EnoughForSplit(n);
    SubSplit(M, a, n0, n1);
    SubSplit(M, b, n0, n1);
    HalfProducts(mem, a, b, n0, n1, tmp, Extent(n));
    ghost var M1 := mem[..];
    AssembleInto(mem, r, tmp, tmp + 2 * n, tmp + 4 * n, n0, n1);
    OneThenOther(M, M1, mem[..], r, 2 * n, tmp, Extent(n));
    LastStays(M1, mem[..], r, 2 * n, tmp, Extent(n), Sub(M, b, n));
    StepIsProduct(Sub(M, a, n0), Sub(M, a + n0, n1), Sub(M, b, n0), Sub(M, b + n0, n1),
                  Sub(M1, tmp, 2 * n0), Sub(M1, tmp + 2 * n, 2 * n1), Sub(M1, tmp + 4 * n, 2 * n1));
  }

  lemma LeafFrame(s: seq<Word>, s': seq<Word>, x: nat, n: nat, y: nat)
    requires OnlyAt(s, s', x, n)
    ensures OnlyAt2(s, s', x, n, y, 0)
  {
  }
}
