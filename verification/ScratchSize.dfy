/** Scratch-buffer size of the Karatsuba recursion, and the set of sizes the recursion reaches. */
module ScratchSize {

  const THRESHOLD := 16

  function Max(a: nat, b: nat): nat { if a < b then b else a }

  /** Words of scratch for n-word operands: 8n of its own and the larger child's from there on. */
  function TmpWords(n: nat): (r: nat)
    ensures r >= 1
  {
    if n <= THRESHOLD then 1 else 8 * n + Max(TmpWords(n / 2), TmpWords(n - n / 2))
  }

  function Pow2(k: nat): (r: nat)
    ensures r >= 1
  {
    if k == 0 then 1 else 2 * Pow2(k - 1)
  }

  lemma DivNonNegative(n: nat, p: nat)
    requires p >= 1
    ensures n / p >= 0
  {
  }

  /** n / 2^d rounded down and rounded up. */
  function Floor(n: nat, d: nat): nat {
    DivNonNegative(n, Pow2(d));
    n / Pow2(d)
  }
  function Ceil(n: nat, d: nat): nat {
    DivNonNegative(n + Pow2(d) - 1, Pow2(d));
    (n + Pow2(d) - 1) / Pow2(d)
  }

  /** Splitting levels above the threshold, following the larger half. */
  function Levels(n: nat): nat { if n <= THRESHOLD then 0 else 1 + Levels(n - n / 2) }

  /** Ceil(n, 0) + ... + Ceil(n, k - 1) */
  function CeilSum(n: nat, k: nat): nat { if k == 0 then 0 else CeilSum(n, k - 1) + Ceil(n, k - 1) }

  lemma {:induction false} TmpWordsMonotone(n: nat, m: nat)
    requires n <= m
    ensures TmpWords(n) <= TmpWords(m)
    decreases m
  {
    if THRESHOLD < n {
      TmpWordsMonotone(n / 2, m / 2);
      TmpWordsMonotone(n - n / 2, m - m / 2);
      MaxMonotone(TmpWords(n / 2), TmpWords(n - n / 2), TmpWords(m / 2), TmpWords(m - m / 2));
    }
  }

  lemma MaxMonotone(a: nat, b: nat, a': nat, b': nat)
    requires a <= a' && b <= b'
    ensures Max(a, b) <= Max(a', b')
  {
  }

  lemma TmpWordsUpperHalf(n: nat)
    requires n > THRESHOLD
    ensures TmpWords(n) == 8 * n + TmpWords(n - n / 2)
  {
    TmpWordsMonotone(n / 2, n - n / 2);
  }

  lemma DivTwice(x: nat, p: nat)
    requires p >= 1
    ensures (x / 2) / p == x / (2 * p)
  {
    var q, r := x / (2 * p), x % (2 * p);
    assert x == 2 * p * q + r;
    assert x == 2 * (p * q) + r;
    assert x / 2 == p * q + r / 2;
    assert 0 <= r / 2 < p;
    assert (p * q + r / 2) / p == q by { DivUnique(p * q + r / 2, p, q, r / 2); }
  }

  lemma DivUnique(x: nat, p: nat, q: nat, r: nat)
    requires p >= 1 && x == p * q + r && r < p
    ensures x / p == q
  {
    assert p * (x / p - q) == r - x % p;
    SmallMultiple(p, x / p - q);
  }

  lemma SmallMultiple(p: int, d: int)
    requires -p < p * d < p
    ensures d == 0
  {
  }

  /** Halving commutes with the rounded divisions. */
  lemma HalfOfRounded(n: nat, d: nat)
    ensures Floor(n, d + 1) == Floor(n, d) / 2 && Floor(n, d + 1) == Floor(n / 2, d)
    ensures Ceil(n, d + 1) == Ceil(n - n / 2, d)
  {
    var p := Pow2(d);
    assert Pow2(d + 1) == 2 * p;
    hide Pow2;
    DivTwice(n, p);
    DivSwap(n, p);
    DivTwice(n + 2 * p - 1, p);
    HalfAbove(n, p);
  }

  lemma HalfAbove(n: nat, p: nat)
    requires p >= 1
    ensures (n + 2 * p - 1) / 2 == n - n / 2 + p - 1
  {
  }

  lemma DivSwap(n: nat, p: nat)
    requires p >= 1
    ensures (n / p) / 2 == n / (2 * p)
  {
    var q, r := n / (2 * p), n % (2 * p);
    assert n == 2 * p * q + r;
    var c := if r < p then 0 else 1;
    assert n == p * (2 * q + c) + (r - c * p);
    DivUnique(n, p, 2 * q + c, r - c * p);
  }

  lemma {:induction false} CeilHalf(n: nat, d: nat)
    ensures Ceil(n, d + 1) == (Ceil(n, d) + 1) / 2
    decreases d
  {
    HalfOfRounded(n, d);
    if d > 0 {
      CeilHalf(n - n / 2, d - 1);
      HalfOfRounded(n, d - 1);
    }
  }

  lemma {:induction false} CeilSumShift(n: nat, k: nat)
    ensures CeilSum(n, k + 1) == n + CeilSum(n - n / 2, k)
  {
    if k > 0 {
      CeilSumShift(n, k - 1);
      HalfOfRounded(n, k - 1);
    }
  }

  /** The recurrence in closed form. */
  lemma {:induction false} TmpWordsClosedForm(n: nat)
    ensures TmpWords(n) == 8 * CeilSum(n, Levels(n)) + 1
  {
    assert CeilSum(n, 0) == 0;
    hide Ceil, CeilSum, Pow2;
    if n > THRESHOLD {
      TmpWordsUpperHalf(n);
      assert Levels(n) == 1 + Levels(n - n / 2);
      TmpWordsClosedForm(n - n / 2);
      hide TmpWords, Levels;
      CeilSumShift(n, Levels(n - n / 2));
    }
  }

  lemma {:induction false} TmpWordsBound(n: nat)
    requires n > THRESHOLD
    ensures TmpWords(n) <= 16 * n + 8 * Levels(n) - 143
  {
    TmpWordsUpperHalf(n);
    var h := n - n / 2;
    assert h >= 9 && 2 * h <= n + 1 && Levels(n) == 1 + Levels(h);
    if h > THRESHOLD {
      TmpWordsBound(h);
    } else {
      assert TmpWords(h) == 1 && Levels(h) == 0;
    }
  }

  lemma {:induction false} LevelsBound(n: nat, k: nat)
    requires n <= 16 * Pow2(k)
    ensures Levels(n) <= k
  {
    if k > 0 && n > THRESHOLD { LevelsBound(n - n / 2, k - 1); }
  }

  /** One word above 16 * 2^k every level rounds up: the recurrence exceeds 16n by 8k - 135. */
  lemma {:induction false} TmpWordsWorst(k: nat)
    ensures var n := 16 * Pow2(k) + 1; TmpWords(n) == 16 * n + 8 * k - 135
  {
    var n := 16 * Pow2(k) + 1;
    TmpWordsUpperHalf(n);
    if k > 0 { TmpWordsWorst(k - 1); }
  }

  lemma {:induction false} Pow2Add(j: nat, k: nat)
    ensures Pow2(j + k) == Pow2(j) * Pow2(k)
  {
    if k > 0 { Pow2Add(j, k - 1); }
  }

  lemma Pow2Values()
    ensures Pow2(17) == 0x2_0000 && Pow2(18) == 0x4_0000 && Pow2(19) == 0x8_0000
  {
    assert Pow2(4) == 16 by { assert Pow2(2) == 4; }
    Pow2Add(4, 4);
    Pow2Add(8, 8);
    assert Pow2(16) == 0x1_0000;
    assert Pow2(17) == 2 * Pow2(16);
    assert Pow2(18) == 2 * Pow2(17);
    assert Pow2(19) == 2 * Pow2(18);
  }

  /** Ones among the low j bits of m. */
  function Ones(m: nat, j: nat): nat { if j == 0 then 0 else m % 2 + Ones(m / 2, j - 1) }

  lemma FloorNone(m: nat)
    ensures Floor(m, 0) == m
  {
  }

  /** The recurrence exactly, over k levels: 16n, plus 8 for each level, less 8 for each one among the low k - 1
      bits of n - 1, and less 8 times what those bits leave. */
  lemma {:induction false} TmpWordsExact(n: nat)
    requires n > THRESHOLD
    ensures Levels(n) >= 1
    ensures var j := Levels(n) - 1;
      TmpWords(n) == 16 * n + 8 * Levels(n) - 8 * Ones(n - 1, j) - 8 * Floor(n - 1, j) - 15
  {
    FloorNone(n - 1);
    hide Floor, Ceil;
    var h := n - n / 2;
    TmpWordsUpperHalf(n);
    assert h == (n - 1) / 2 + 1 && Levels(n) == 1 + Levels(h);
    if h <= THRESHOLD {
      assert TmpWords(h) == 1 && Levels(h) == 0;
    } else {
      TmpWordsExact(h);
      HalfOfRounded(n - 1, Levels(h) - 1);
      assert Floor(n - 1, Levels(n) - 1) == Floor((n - 1) / 2, Levels(h) - 1);
      assert Ones(n - 1, Levels(n) - 1) == (n - 1) % 2 + Ones((n - 1) / 2, Levels(h) - 1);
    }
  }

  // ---------- what the C code writes and points at ----------

  /** Words of scratch the C code writes for n-word operands: tb starts at 7n and its upper-half sums end the
      last level; a leaf writes none. */
  function Extent(n: nat): nat {
    if n <= THRESHOLD then 0
    else
      var h := n - n / 2;
      Max(7 * n + h, Max(if n / 2 > THRESHOLD then 8 * n + Extent(n / 2) else 0,
                         if h > THRESHOLD then 8 * n + Extent(h) else 0))
  }

  /** The furthest word that a buffer pointer of a child call stands at. */
  function Furthest(n: nat): nat {
    if n <= THRESHOLD then 0 else 8 * n + Max(Furthest(n / 2), Furthest(n - n / 2))
  }

  /** The smallest size that is still split, following the larger half. */
  function LastSplit(n: nat): nat
    requires n > THRESHOLD
  {
    if n - n / 2 <= THRESHOLD then n else LastSplit(n - n / 2)
  }

  /** The words a child of size h uses, from the parent's start. */
  function ChildExtent(n: nat, h: nat, e: nat): nat { if h > THRESHOLD then 8 * n + e else 0 }

  lemma ExtentParts(n: nat)
    requires n > THRESHOLD
    ensures Extent(n) == Max(7 * n + (n - n / 2),
      Max(ChildExtent(n, n / 2, Extent(n / 2)), ChildExtent(n, n - n / 2, Extent(n - n / 2))))
  {
  }

  lemma ChildMonotone(n: nat, h: nat, e: nat, m: nat, g: nat, f: nat)
    requires n <= m && h <= g && e <= f
    ensures ChildExtent(n, h, e) <= ChildExtent(m, g, f)
  {
  }

  lemma {:induction false} ExtentMonotone(n: nat, m: nat)
    requires n <= m
    ensures Extent(n) <= Extent(m)
    decreases m
  {
    hide Extent, Max, ChildExtent;
    LeafExtent(n);
    if THRESHOLD < n {
      ExtentMonotone(n / 2, m / 2);
      ExtentMonotone(n - n / 2, m - m / 2);
      ExtentParts(n);
      ExtentParts(m);
      ChildMonotone(n, n / 2, Extent(n / 2), m, m / 2, Extent(m / 2));
      ChildMonotone(n, n - n / 2, Extent(n - n / 2), m, m - m / 2, Extent(m - m / 2));
      var a, b := ChildExtent(n, n / 2, Extent(n / 2)), ChildExtent(n, n - n / 2, Extent(n - n / 2));
      var c, d := ChildExtent(m, m / 2, Extent(m / 2)), ChildExtent(m, m - m / 2, Extent(m - m / 2));
      MaxMonotone(a, b, c, d);
      MaxMonotone(7 * n + (n - n / 2), Max(a, b), 7 * m + (m - m / 2), Max(c, d));
    }
  }

  /** The extent falls short of the recurrence by the leaf's word and half the last split. */
  lemma {:induction false} ExtentExact(n: nat)
    requires n > THRESHOLD
    ensures Extent(n) == TmpWords(n) - 1 - LastSplit(n) / 2
  {
    var h := n - n / 2;
    TmpWordsUpperHalf(n);
    if h > THRESHOLD {
      ExtentExact(h);
      ExtentMonotone(n / 2, h);
      assert Extent(h) >= 7 * h;
    }
  }

  /** The furthest pointer is where the recurrence ends, less the leaf's word. */
  lemma {:induction false} FurthestExact(n: nat)
    ensures Furthest(n) == TmpWords(n) - 1
  {
    if n > THRESHOLD {
      FurthestExact(n / 2);
      FurthestExact(n - n / 2);
    }
  }

  lemma {:induction false} LastSplitIs(n: nat)
    requires n > THRESHOLD
    ensures Levels(n) >= 1 && LastSplit(n) == Floor(n - 1, Levels(n) - 1) + 1
    ensures 17 <= LastSplit(n) <= 32
  {
    FloorNone(n - 1);
    hide Floor, Ceil;
    var h := n - n / 2;
    assert h == (n - 1) / 2 + 1 && Levels(n) == 1 + Levels(h);
    if h <= THRESHOLD {
      assert Levels(h) == 0;
    } else {
      LastSplitIs(h);
      HalfOfRounded(n - 1, Levels(h) - 1);
    }
  }

  /** Exactly when 16n words suffice, over k levels, with q what remains of n - 1 after k - 1 halvings and s the
      ones among the bits halved away: for the recurrence, for the pointers the C code forms, and for the words
      it writes. */
  lemma SixteenTimesSufficesIff(n: nat)
    requires n > THRESHOLD
    ensures Levels(n) >= 1
    ensures var k := Levels(n); var q, s := Floor(n - 1, k - 1), Ones(n - 1, k - 1);
      && (TmpWords(n) <= 16 * n <==> k <= s + q + 1)
      && (Furthest(n) <= 16 * n <==> k <= s + q + 2)
      && (Extent(n) <= 16 * n <==> k <= s + q + if q == 31 then 4 else 3)
  {
    TmpWordsExact(n);
    FurthestExact(n);
    ExtentExact(n);
    LastSplitIs(n);
    hide TmpWords, Furthest, Extent, LastSplit, Floor, Ones, Levels;
    var q := Floor(n - 1, Levels(n) - 1);
    assert 16 <= q <= 31 && (q == 31 ==> (q + 1) / 2 == 16) && (q < 31 ==> 8 <= (q + 1) / 2 < 16);
  }

  lemma TmpWordsLeaf(n: nat)
    requires 1 <= n
    ensures n <= THRESHOLD ==> TmpWords(n) <= 16 * n
  {
  }

  /** 16n words suffice for the specified buffer up to 2^21 words; 2^21 + 1 is the first size they do not. */
  lemma SixteenTimesSuffices(n: nat)
    requires 1 <= n
    ensures n <= 0x20_0000 ==> TmpWords(n) <= 16 * n
    ensures n == 0x20_0001 ==> TmpWords(n) == 16 * n + 1
  {
    hide TmpWords, Levels, Pow2;
    Pow2Values();
    TmpWordsLeaf(n);
    if THRESHOLD < n <= 0x20_0000 {
      TmpWordsBound(n);
      LevelsBound(n, 17);
    }
    TmpWordsWorst(17);
  }

  lemma LastSplitWorst(k: nat)
    ensures LastSplit(16 * Pow2(k) + 1) == 17
  {
    var n := 16 * Pow2(k) + 1;
    if k > 0 { LastSplitWorst(k - 1); }
  }

  /** What the C code writes stays within 16n up to 2^23 words; 2^23 + 1 is the first size it does not. */
  lemma SixteenTimesSufficesInC(n: nat)
    requires 1 <= n
    ensures n <= 0x80_0000 ==> Extent(n) <= 16 * n
    ensures n == 0x40_0001 ==> Extent(n) == 16 * n
    ensures n == 0x80_0001 ==> Extent(n) == 16 * n + 8
  {
    hide TmpWords, Levels, Pow2, LastSplit, Extent, Floor;
    Pow2Values();
    if n <= THRESHOLD {
      LeafExtent(n);
    } else {
      ExtentExact(n);
      LastSplitIs(n);
      if n <= 0x80_0000 {
        TmpWordsBound(n);
        LevelsBound(n, 19);
      } else if n == 0x80_0001 {
        TmpWordsWorst(19);
        LastSplitWorst(19);
      }
      if n == 0x40_0001 {
        TmpWordsWorst(18);
        LastSplitWorst(18);
      }
    }
  }

  lemma LeafExtent(n: nat)
    ensures n <= THRESHOLD ==> Extent(n) == 0
  {
  }

  /** The pointers it forms stay within the buffer, or one past it, up to 2^22 words; at 2^22 + 1 a child's buffer
      pointer stands 8 words past the end. */
  lemma PointersStayInBuffer(n: nat)
    requires 1 <= n
    ensures n <= 0x40_0000 ==> Furthest(n) <= 16 * n
    ensures n == 0x40_0001 ==> Furthest(n) == 16 * n + 8
  {
    hide TmpWords, Levels, Pow2, Furthest;
    Pow2Values();
    TmpWordsLeaf(n);
    FurthestExact(n);
    if THRESHOLD < n <= 0x40_0000 {
      TmpWordsBound(n);
      LevelsBound(n, 18);
    }
    TmpWordsWorst(18);
  }

  // ---------- the sizes the recursion reaches ----------

  /** Sizes reached from n by halving while above the threshold t. */
  function Closure(n: nat, t: nat): (s: set<nat>)
    requires t >= 1
    ensures n in s
    decreases n
  {
    if n <= t then {n} else {n} + Closure(n / 2, t) + Closure(n - n / 2, t)
  }

  predicate HalvesIn(m: nat, s: set<nat>, t: nat) {
    m > t ==> m / 2 in s && m - m / 2 in s
  }

  ghost predicate Closed(s: set<nat>, t: nat) {
    forall m {:trigger HalvesIn(m, s, t)} :: m in s ==> HalvesIn(m, s, t)
  }

  lemma {:induction false} ClosureIsClosed(n: nat, t: nat)
    requires t >= 1
    ensures Closed(Closure(n, t), t)
    decreases n
  {
    if n > t {
      ClosureIsClosed(n / 2, t);
      ClosureIsClosed(n - n / 2, t);
      forall m | m in Closure(n, t) ensures HalvesIn(m, Closure(n, t), t) {
        if m != n {
          assert HalvesIn(m, if m in Closure(n / 2, t) then Closure(n / 2, t) else Closure(n - n / 2, t), t);
        }
      }
    }
  }

  /** It is the least closed set with n in it. */
  lemma {:induction false} ClosureIsLeast(n: nat, t: nat, s: set<nat>)
    requires t >= 1 && Closed(s, t) && n in s
    ensures Closure(n, t) <= s
    decreases n
  {
    if n > t {
      assert HalvesIn(n, s, t);
      ClosureIsLeast(n / 2, t, s);
      ClosureIsLeast(n - n / 2, t, s);
    }
  }

  /** m is one of the two roundings of n / 2^d. */
  predicate AtLevel(m: nat, n: nat, d: nat) {
    m == Floor(n, d) || m == Ceil(n, d)
  }

  lemma {:induction false} RoundingsAdjacent(n: nat, d: nat)
    ensures Floor(n, d) <= Ceil(n, d) <= Floor(n, d) + 1
  {
    if d > 0 {
      RoundingsAdjacent(n, d - 1);
      HalfOfRounded(n, d - 1);
      CeilHalf(n, d - 1);
    }
  }

  lemma HalvesAtNextLevel(m: nat, n: nat, d: nat)
    requires AtLevel(m, n, d)
    ensures AtLevel(m / 2, n, d + 1) && AtLevel(m - m / 2, n, d + 1)
  {
    RoundingsAdjacent(n, d);
    HalfOfRounded(n, d);
    CeilHalf(n, d);
  }

  lemma {:induction false} LevelsFrom(m: nat, n: nat, d: nat, t: nat, x: nat)
    requires t >= 1 && AtLevel(m, n, d) && x in Closure(m, t)
    ensures exists e :: AtLevel(x, n, e)
    decreases m
  {
    hide AtLevel, Floor, Ceil, Pow2;
    if x != m {
      HalvesAtNextLevel(m, n, d);
      if x in Closure(m / 2, t) { LevelsFrom(m / 2, n, d + 1, t, x); }
      else { LevelsFrom(m - m / 2, n, d + 1, t, x); }
    }
  }

  /** Every reached size is n / 2^d rounded down or up. */
  lemma ReachedSizesAreRoundings(n: nat, t: nat, x: nat)
    requires t >= 1 && x in Closure(n, t)
    ensures exists d :: AtLevel(x, n, d)
  {
    assert AtLevel(n, n, 0);
    LevelsFrom(n, n, 0, t, x);
  }

  /** Whatever s has beyond s0 has its halves in s. */
  ghost predicate Expanded(s0: set<nat>, s: set<nat>, t: nat) {
    forall m {:trigger HalvesIn(m, s, t)} :: m in s && m !in s0 ==> HalvesIn(m, s, t)
  }

  lemma ExpandedByBoth(n: nat, t: nat, s0: set<nat>, s1: set<nat>, s2: set<nat>)
    requires Expanded(s0 + {n}, s1, t) && Expanded(s1, s2, t) && s1 <= s2
    requires n / 2 in s1 && n - n / 2 in s2
    ensures Expanded(s0, s2, t)
  {
    forall m | m in s2 && m !in s0 ensures HalvesIn(m, s2, t) {
      if m in s1 && m != n {
        assert HalvesIn(m, s1, t);
      }
    }
  }

  /** Nothing new, or one size that needs no halves. */
  lemma ExpandedOne(s: set<nat>, n: nat, t: nat)
    ensures Expanded(s, s, t) && (n <= t ==> Expanded(s, s + {n}, t))
  {
  }

  lemma ClosureHalves(n: nat, t: nat)
    requires t >= 1 && n > t
    ensures Closure(n, t) == {n} + Closure(n / 2, t) + Closure(n - n / 2, t)
  {
  }

  lemma FromNothing(n: nat, t: nat, s: set<nat>)
    requires t >= 1 && n in s && s <= Closure(n, t) && Expanded({}, s, t)
    ensures s == Closure(n, t)
  {
    forall m | m in s ensures HalvesIn(m, s, t) {
    }
    ClosureIsLeast(n, t, s);
  }

  /** The set shared by the recursive calls of reached and model_sizes. */
  class SizeSet {
    var acc: set<nat>

    constructor ()
      ensures acc == {}
    {
      acc := {};
    }

    /** A size already present is not expanded again; whatever a call adds it also closes. */
    method Reach(n: nat, t: nat)
      requires t >= 1
      modifies this
      ensures old(acc) <= acc <= old(acc) + Closure(n, t)
      ensures n in acc
      ensures Expanded(old(acc), acc, t)
      ensures old(acc) == {} ==> acc == Closure(n, t)
      decreases n
    {
      hide Closure, Expanded, HalvesIn;
      ExpandedOne(acc, n, t);
      if n !in acc {
        acc := acc + {n};
        if n > t {
          ClosureHalves(n, t);
          Reach(n / 2, t);
          ghost var mid := acc;
          Reach(n - n / 2, t);
          ExpandedByBoth(n, t, old(acc), mid, acc);
        }
      }
      if old(acc) == {} { FromNothing(n, t, acc); }
    }
  }
}
