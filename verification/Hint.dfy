/** Canonicity of an encoded hint: omega index bytes, then k cumulative cuts
    (section 7.1 of FIPS 204, Algorithms 20 and 21). */
module Hint {
  import opened Common

  type Byte = x: int | 0 <= x < 256

  ghost predicate Shaped(y: seq<Byte>, om: nat, k: nat) {
    1 <= k && om <= 255 && |y| == om + k
  }

  /** Where block i begins and ends. */
  function Start(y: seq<Byte>, om: nat, i: nat): nat
    requires om + i <= |y|
  {
    if i == 0 then 0 else y[om + i - 1]
  }

  function End(y: seq<Byte>, om: nat, i: nat): nat
    requires om + i < |y|
  {
    y[om + i]
  }

  function Less(a: int, b: int, strict: bool): bool {
    if strict then a < b else a <= b
  }

  // ---------- the flat scan ----------

  /** The largest of the cuts, 0 for none. */
  function MaxCut(cuts: seq<Byte>): (m: Byte) {
    if cuts == [] then 0
    else var m := MaxCut(cuts[..|cuts| - 1]);
      if cuts[|cuts| - 1] > m then cuts[|cuts| - 1] else m
  }

  predicate BlockStart(y: seq<Byte>, om: nat, k: nat, ix: nat)
    requires 1 <= k && |y| == om + k
  {
    exists i :: om <= i < om + k - 1 && y[i] == ix
  }

  predicate CutsMonotone(cuts: seq<Byte>) {
    forall i :: 0 <= i < |cuts| - 1 ==> cuts[i] <= cuts[i + 1]
  }

  predicate ZeroFrom(y: seq<Byte>, from: nat, to: nat) {
    forall ix :: from <= ix < to && ix < |y| ==> y[ix] == 0
  }

  /** Every position in 1..to below mc that starts no block carries a larger byte than the one before. */
  predicate IncreasingUpTo(y: seq<Byte>, om: nat, k: nat, mc: nat, to: nat, strict: bool)
    requires 1 <= k && |y| == om + k && to <= om
  {
    forall ix :: 1 <= ix < to && ix < mc && !BlockStart(y, om, k, ix) ==> Less(y[ix - 1], y[ix], strict)
  }

  /** What the flat scan demands. */
  predicate FlatAccepts(y: seq<Byte>, om: nat, k: nat, strict: bool)
    requires 1 <= k && |y| == om + k
  {
    var mc := MaxCut(y[om..]);
    CutsMonotone(y[om..]) && mc <= om && ZeroFrom(y, mc, om) && IncreasingUpTo(y, om, k, mc, om, strict)
  }

  method HintAccepts(y: seq<Byte>, om: nat, k: nat, strict: bool) returns (ok: bool)
    requires Shaped(y, om, k)
    ensures ok <==> FlatAccepts(y, om, k, strict)
  {
    ghost var cuts := y[om..];
    var mc: Byte := 0;
    for i := 0 to k
      invariant mc == MaxCut(cuts[..i])
    {
      assert cuts[..i + 1][..i] == cuts[..i];
      if y[om + i] > mc { mc := y[om + i]; }
    }
    assert cuts[..k] == cuts;
    ok := true;
    for i := 0 to k - 1
      invariant ok <==> CutsMonotone(cuts[..i + 1])
    {
      assert cuts[..i + 2] == cuts[..i + 1] + [cuts[i + 1]];
      if !(y[om + i] <= y[om + i + 1]) {
        assert !(cuts[..i + 2][i] <= cuts[..i + 2][i + 1]);
        ok := false;
      } else {
        MonotoneNext(cuts[..i + 1], cuts[i + 1]);
      }
    }
    if mc > om { ok := false; }
    ghost var before := ok;
    for ix := 0 to om
      invariant ok <==> before && ZeroFrom(y, mc, ix)
    {
      if !(ix < mc) && y[ix] != 0 { ok := false; }
    }
    var increasing := IncreasingScan(y, om, k, mc, strict);
    ok := ok && increasing;
  }

  /** The last loop of the scan. */
  method IncreasingScan(y: seq<Byte>, om: nat, k: nat, mc: nat, strict: bool) returns (ok: bool)
    requires Shaped(y, om, k)
    ensures ok <==> IncreasingUpTo(y, om, k, mc, om, strict)
  {
    ok := true;
    var ix := 1;
    while ix < om
      invariant 1 <= ix && (ix <= om || ix == 1)
      invariant ok <==> IncreasingUpTo(y, om, k, mc, if ix <= om then ix else om, strict)
    {
      if ix < mc && !BlockStart(y, om, k, ix) {
        if !Less(y[ix - 1], y[ix], strict) { ok := false; }
      }
      ix := ix + 1;
    }
  }

  lemma MonotoneNext(cuts: seq<Byte>, c: Byte)
    requires |cuts| > 0 && cuts[|cuts| - 1] <= c
    ensures CutsMonotone(cuts + [c]) <==> CutsMonotone(cuts)
  {
    if CutsMonotone(cuts + [c]) {
      forall i | 0 <= i < |cuts| - 1 ensures cuts[i] <= cuts[i + 1] {
        assert (cuts + [c])[i] <= (cuts + [c])[i + 1];
      }
    }
  }

  lemma {:induction false} MonotonePair(cuts: seq<Byte>, i: nat, j: nat)
    requires CutsMonotone(cuts) && i <= j < |cuts|
    ensures cuts[i] <= cuts[j]
    decreases j - i
  {
    if i < j { MonotonePair(cuts, i, j - 1); }
  }

  lemma {:induction false} MonotoneMaxCut(cuts: seq<Byte>)
    requires |cuts| > 0 && CutsMonotone(cuts)
    ensures MaxCut(cuts) == cuts[|cuts| - 1]
  {
    if |cuts| > 1 { MonotoneMaxCut(cuts[..|cuts| - 1]); }
  }

  // ---------- the nested loop of Algorithm 21 ----------

  ghost predicate BlockIncreasing(y: seq<Byte>, from: nat, to: nat, strict: bool) {
    forall ix :: from < ix < to && ix < |y| ==> Less(y[ix - 1], y[ix], strict)
  }

  /** What the nested loop demands: block after block, then the padding. */
  ghost predicate NestedAccepts(y: seq<Byte>, om: nat, k: nat, strict: bool)
    requires Shaped(y, om, k)
  {
    && (forall i :: 0 <= i < k ==> Start(y, om, i) <= End(y, om, i) <= om && BlockIncreasing(y, Start(y, om, i), End(y, om, i), strict))
    && (forall ix :: Start(y, om, k) <= ix < om ==> y[ix] == 0)
  }

  function Elements(s: seq<Byte>): set<Byte> { set x | x in s }

  function Block(y: seq<Byte>, om: nat, i: nat): seq<Byte>
    requires om + i < |y|
  {
    if Start(y, om, i) <= End(y, om, i) <= |y| then y[Start(y, om, i)..End(y, om, i)] else []
  }

  /** The hint an encoding stands for: the set of indices of each block. */
  function Decode(y: seq<Byte>, om: nat, k: nat): (h: seq<set<Byte>>)
    requires |y| == om + k
    ensures |h| == k
  {
    seq(k, i requires 0 <= i < k => Elements(Block(y, om, i)))
  }

  lemma ElementsSnoc(s: seq<Byte>, x: Byte)
    ensures Elements(s + [x]) == Elements(s) + {x}
  {
  }

  /** The inner loop: one block of increasing indices, starting at first. */
  method UnpackBlock(y: seq<Byte>, first: nat, end: nat) returns (r: Option<set<Byte>>)
    requires first <= end <= |y|
    ensures r.Some? <==> BlockIncreasing(y, first, end, true)
    ensures r.Some? ==> r.value == Elements(y[first..end])
  {
    var poly: set<Byte> := {};
    var index := first;
    assert Elements(y[first..first]) == {};
    hide Elements;
    while index < end
      invariant first <= index <= end
      invariant poly == Elements(y[first..index])
      invariant BlockIncreasing(y, first, index, true)
    {
      if index > first && y[index - 1] >= y[index] {
        assert !Less(y[index - 1], y[index], true);
        return None;
      }
      assert y[first..index + 1] == y[first..index] + [y[index]];
      ElementsSnoc(y[first..index], y[index]);
      poly := poly + {y[index]};
      index := index + 1;
    }
    return Some(poly);
  }

  method HintBitUnpack(y: seq<Byte>, om: nat, k: nat) returns (r: Option<seq<set<Byte>>>)
    requires Shaped(y, om, k)
    ensures r.Some? <==> NestedAccepts(y, om, k, true)
    ensures r.Some? ==> r.value == Decode(y, om, k)
  {
    hide Elements, BlockIncreasing;
    var h: seq<set<Byte>> := [];
    var index := 0;
    for i := 0 to k
      invariant index == Start(y, om, i) <= om
      invariant |h| == i && forall j :: 0 <= j < i ==> h[j] == Elements(Block(y, om, j))
      invariant forall j :: 0 <= j < i ==>
        Start(y, om, j) <= End(y, om, j) <= om && BlockIncreasing(y, Start(y, om, j), End(y, om, j), true)
    {
      if y[om + i] < index || y[om + i] > om { return None; }
      var poly := UnpackBlock(y, index, y[om + i]);
      if poly.None? { return None; }
      h := h + [poly.value];
      index := y[om + i];
    }
    for ix := index to om
      invariant forall x :: index <= x < ix ==> y[x] == 0
    {
      if y[ix] != 0 { return None; }
    }
    return Some(h);
  }

  // ---------- flat and nested agree ----------

  lemma {:induction false} Cumulative(y: seq<Byte>, om: nat, k: nat, i: nat, j: nat)
    requires |y| == om + k && i <= j <= k
    requires forall b :: 0 <= b < k ==> Start(y, om, b) <= End(y, om, b)
    ensures Start(y, om, i) <= Start(y, om, j)
    decreases j - i
  {
    if i < j {
      Cumulative(y, om, k, i, j - 1);
      assert Start(y, om, j - 1) <= End(y, om, j - 1);
    }
  }

  /** The block that a position below the last cut lies in. */
  lemma {:induction false} BlockOf(y: seq<Byte>, om: nat, k: nat, ix: nat, n: nat) returns (i: nat)
    requires |y| == om + k && n <= k && ix < Start(y, om, n)
    ensures i < n && Start(y, om, i) <= ix < End(y, om, i)
  {
    if ix < Start(y, om, n - 1) { i := BlockOf(y, om, k, ix, n - 1); } else { i := n - 1; }
  }

  /** The flat scan with its block-start test accepts exactly what the nested loop accepts. */
  lemma FlatIsNested(y: seq<Byte>, om: nat, k: nat, strict: bool)
    requires Shaped(y, om, k)
    ensures FlatAccepts(y, om, k, strict) <==> NestedAccepts(y, om, k, strict)
  {
    if FlatAccepts(y, om, k, strict) { FlatToNested(y, om, k, strict); }
    if NestedAccepts(y, om, k, strict) { NestedToFlat(y, om, k, strict); }
  }

  /** Each byte above the one before; or, in the lax variant, not below it. */
  ghost predicate InOrder(y: seq<Byte>, from: nat, to: nat, strict: bool) {
    forall ix :: from < ix < to && ix < |y| ==> y[ix - 1] < y[ix] || (!strict && y[ix - 1] == y[ix])
  }

  lemma OrderIs(y: seq<Byte>, from: nat, to: nat, strict: bool)
    ensures BlockIncreasing(y, from, to, strict) <==> InOrder(y, from, to, strict)
  {
    if BlockIncreasing(y, from, to, strict) {
      forall ix | from < ix < to && ix < |y| ensures y[ix - 1] < y[ix] || (!strict && y[ix - 1] == y[ix]) {
        assert Less(y[ix - 1], y[ix], strict);
      }
    }
  }

  /** Both variants of the scan, block by block: cuts in order and at most omega, the bytes of each block in order, and
      zeros after the last block. */
  lemma AcceptsIff(y: seq<Byte>, om: nat, k: nat, strict: bool)
    requires Shaped(y, om, k)
    ensures FlatAccepts(y, om, k, strict) <==>
      && (forall i :: 0 <= i < k ==>
        Start(y, om, i) <= End(y, om, i) <= om && InOrder(y, Start(y, om, i), End(y, om, i), strict))
      && (forall ix :: Start(y, om, k) <= ix < om ==> y[ix] == 0)
  {
    FlatIsNested(y, om, k, strict);
    hide FlatAccepts, BlockIncreasing, InOrder;
    forall i | 0 <= i < k
      ensures BlockIncreasing(y, Start(y, om, i), End(y, om, i), strict) <==> InOrder(y, Start(y, om, i), End(y, om, i), strict)
    {
      OrderIs(y, Start(y, om, i), End(y, om, i), strict);
    }
  }

  lemma FlatToNested(y: seq<Byte>, om: nat, k: nat, strict: bool)
    requires Shaped(y, om, k) && FlatAccepts(y, om, k, strict)
    ensures NestedAccepts(y, om, k, strict)
  {
    var mc := y[om + k - 1];
    MonotoneMaxCut(y[om..]);
    assert mc == y[om..][k - 1];
    forall i | 0 <= i < k
      ensures Start(y, om, i) <= End(y, om, i) <= om && BlockIncreasing(y, Start(y, om, i), End(y, om, i), strict)
    {
      MonotonePair(y[om..], i, k - 1);
      if i > 0 { MonotonePair(y[om..], i - 1, i); }
      forall ix | Start(y, om, i) < ix < End(y, om, i) ensures !BlockStart(y, om, k, ix) {
        forall j | om <= j < om + k - 1 ensures y[j] != ix {
          if j < om + i { MonotonePair(y[om..], j - om, i - 1); } else { MonotonePair(y[om..], i, j - om); }
        }
      }
    }
  }

  lemma NestedToFlat(y: seq<Byte>, om: nat, k: nat, strict: bool)
    requires Shaped(y, om, k) && NestedAccepts(y, om, k, strict)
    ensures FlatAccepts(y, om, k, strict)
  {
    var mc := y[om + k - 1];
    assert End(y, om, k - 1) <= om;
    forall i | 0 <= i < k - 1 ensures y[om..][i] <= y[om..][i + 1] {
      assert Start(y, om, i + 1) <= End(y, om, i + 1);
    }
    MonotoneMaxCut(y[om..]);
    forall ix | 1 <= ix < om && ix < mc && !BlockStart(y, om, k, ix) ensures Less(y[ix - 1], y[ix], strict) {
      var i := BlockOf(y, om, k, ix, k);
      assert Start(y, om, i) != ix by {
        if i > 0 { assert y[om + i - 1] != ix; }
      }
      assert BlockIncreasing(y, Start(y, om, i), End(y, om, i), strict);
    }
  }

  // ---------- HintBitPack (Algorithm 20) ----------

  /** The elements of s from j up, in increasing order: the inner loop over 0..255. */
  function SortedFrom(s: set<Byte>, j: nat): seq<Byte>
    requires j <= 256
    decreases 256 - j
  {
    if j == 256 then [] else (if j in s then [j] else []) + SortedFrom(s, j + 1)
  }

  function Indices(h: seq<set<Byte>>): seq<Byte> {
    if h == [] then [] else Indices(h[..|h| - 1]) + SortedFrom(h[|h| - 1], 0)
  }

  /** Number of set coefficients of the whole hint. */
  function Total(h: seq<set<Byte>>): nat {
    if h == [] then 0 else Total(h[..|h| - 1]) + |h[|h| - 1]|
  }

  /** k polynomials with at most omega set coefficients in total. */
  ghost predicate ValidHint(h: seq<set<Byte>>, om: nat, k: nat) {
    |h| == k && Total(h) <= om
  }

  function Pack(h: seq<set<Byte>>, om: nat): (y: seq<Byte>)
    requires Total(h) <= om <= 255
    ensures |y| == om + |h|
  {
    LengthOfIndices(h);
    Indices(h) + seq(om - Total(h), _ => 0) + Cuts(h)
  }

  function Cuts(h: seq<set<Byte>>): (c: seq<Byte>)
    requires Total(h) <= 255
    ensures |c| == |h|
  {
    if h == [] then [] else Cuts(h[..|h| - 1]) + [Total(h)]
  }

  function AtLeast(s: set<Byte>, j: nat): set<Byte> { set x | x in s && x >= j }

  lemma {:induction false} LengthOfSorted(s: set<Byte>, j: nat)
    requires j <= 256
    ensures |SortedFrom(s, j)| == |AtLeast(s, j)|
    decreases 256 - j
  {
    if j < 256 {
      LengthOfSorted(s, j + 1);
      if j in s {
        assert AtLeast(s, j) == AtLeast(s, j + 1) + {j};
      } else {
        assert AtLeast(s, j) == AtLeast(s, j + 1);
      }
    } else {
      assert AtLeast(s, j) == {};
    }
  }

  lemma {:induction false} LengthOfIndices(h: seq<set<Byte>>)
    ensures |Indices(h)| == Total(h)
  {
    if h != [] {
      LengthOfIndices(h[..|h| - 1]);
      LengthOfSorted(h[|h| - 1], 0);
      assert AtLeast(h[|h| - 1], 0) == h[|h| - 1];
    }
  }

  predicate Increasing(b: seq<Byte>) {
    forall i :: 0 < i < |b| ==> b[i - 1] < b[i]
  }

  lemma AtLeastNext(s: set<Byte>, j: nat)
    requires j < 256
    ensures AtLeast(s, j) == AtLeast(s, j + 1) + if j in s then {j} else {}
  {
  }

  lemma PrependSmallest(s: set<Byte>, j: Byte, r: seq<Byte>)
    requires Increasing(r) && Elements(r) == AtLeast(s, j + 1)
    ensures Increasing([j] + r) && Elements([j] + r) == {j} + Elements(r)
  {
    if r != [] { assert r[0] in Elements(r); }
  }

  lemma {:induction false} SortedIncreasing(s: set<Byte>, j: nat)
    requires j <= 256
    ensures Increasing(SortedFrom(s, j)) && Elements(SortedFrom(s, j)) == AtLeast(s, j)
    decreases 256 - j
  {
    if j < 256 {
      hide AtLeast, Increasing, Elements;
      SortedIncreasing(s, j + 1);
      var r := SortedFrom(s, j + 1);
      AtLeastNext(s, j);
      if j in s {
        PrependSmallest(s, j, r);
        assert SortedFrom(s, j) == [j] + r;
      } else {
        assert [] + r == r;
        assert SortedFrom(s, j) == r;
      }
    } else {
      assert AtLeast(s, j) == {};
    }
  }

  lemma NoElements(b: seq<Byte>)
    ensures Elements(b) == {} ==> b == []
  {
    if b != [] { assert b[0] in Elements(b); }
  }

  lemma TailElements(b: seq<Byte>, s: set<Byte>, j: nat)
    requires Increasing(b) && |b| > 0 && b[0] == j && AtLeast(s, j) == Elements(b)
    ensures AtLeast(s, j + 1) == Elements(b[1..])
  {
    forall x | x in b[1..] ensures x in AtLeast(s, j + 1) {
      var i :| 0 <= i < |b| - 1 && b[1..][i] == x;
      AboveFirst(b, i + 1);
      assert x in Elements(b);
    }
    forall x | x in AtLeast(s, j + 1) ensures x in b[1..] {
      assert x in AtLeast(s, j) && x in b;
      assert b == [b[0]] + b[1..];
    }
  }

  /** An increasing block is the sorted form of its own elements. */
  lemma {:induction false} SortedOfIncreasing(b: seq<Byte>, s: set<Byte>, j: nat)
    requires j <= 256 && Increasing(b) && AtLeast(s, j) == Elements(b)
    ensures SortedFrom(s, j) == b
    decreases 256 - j
  {
    if j == 256 {
      NoElements(b);
      assert AtLeast(s, j) == {};
    } else if j in s {
      assert j in Elements(b);
      FirstIsLeast(b, j);
      var rest := b[1..];
      assert b == [j] + rest;
      TailElements(b, s, j);
      forall i | 0 < i < |rest| ensures rest[i - 1] < rest[i] { assert b[i] < b[i + 1]; }
      SortedOfIncreasing(rest, s, j + 1);
    } else {
      assert AtLeast(s, j + 1) == AtLeast(s, j);
      SortedOfIncreasing(b, s, j + 1);
    }
  }

  lemma {:induction false} AboveFirst(b: seq<Byte>, i: nat)
    requires Increasing(b) && 0 < i < |b|
    ensures b[0] < b[i]
  {
    assert b[i - 1] < b[i];
    if i > 1 { AboveFirst(b, i - 1); }
  }

  lemma FirstIsLeast(b: seq<Byte>, j: nat)
    requires j < 256 && Increasing(b) && j in b && forall x :: x in Elements(b) ==> x >= j
    ensures |b| > 0 && b[0] == j
  {
    assert b[0] in Elements(b);
    var i :| 0 <= i < |b| && b[i] == j;
    if i > 0 { AboveFirst(b, i); }
  }

  // ---------- accepted encodings and hints are in bijection ----------

  lemma {:induction false} CutAt(h: seq<set<Byte>>, i: nat)
    requires Total(h) <= 255 && i < |h|
    ensures Total(h[..i + 1]) <= 255 && Cuts(h)[i] == Total(h[..i + 1])
  {
    if i < |h| - 1 {
      CutAt(h[..|h| - 1], i);
      assert h[..|h| - 1][..i + 1] == h[..i + 1];
    } else {
      assert h[..i + 1] == h;
    }
  }

  lemma {:induction false} IndicesPrefix(h: seq<set<Byte>>, i: nat)
    requires i <= |h|
    ensures Indices(h[..i]) <= Indices(h)
    decreases |h|
  {
    if i < |h| {
      IndicesPrefix(h[..|h| - 1], i);
      assert h[..|h| - 1][..i] == h[..i];
    } else {
      assert h[..i] == h;
    }
  }

  /** The three parts of a packed hint. */
  lemma Layout(h: seq<set<Byte>>, om: nat)
    requires Total(h) <= om <= 255
    ensures var y := Pack(h, om);
      && y[..Total(h)] == Indices(h)
      && ZeroFrom(y, Total(h), om)
      && y[om..] == Cuts(h)
  {
    hide Indices, Total, Cuts;
    LengthOfIndices(h);
  }

  lemma {:induction false} TotalMonotone(h: seq<set<Byte>>, i: nat)
    requires i <= |h|
    ensures Total(h[..i]) <= Total(h)
    decreases |h|
  {
    if i < |h| {
      TotalMonotone(h[..|h| - 1], i);
      assert h[..|h| - 1][..i] == h[..i];
    } else {
      assert h[..i] == h;
    }
  }

  /** Where block i stands among the indices. */
  lemma BlockOfIndices(h: seq<set<Byte>>, i: nat)
    requires i < |h|
    ensures Total(h[..i]) <= Total(h[..i + 1]) <= Total(h) == |Indices(h)|
    ensures Indices(h)[Total(h[..i])..Total(h[..i + 1])] == SortedFrom(h[i], 0)
  {
    hide SortedFrom;
    var upto := h[..i + 1];
    assert upto[..|upto| - 1] == h[..i] && upto[|upto| - 1] == h[i];
    LengthOfIndices(h);
    LengthOfIndices(h[..i]);
    LengthOfIndices(upto);
    TotalMonotone(h, i + 1);
    IndicesPrefix(h, i + 1);
    assert Indices(upto) == Indices(h[..i]) + SortedFrom(h[i], 0);
  }

  lemma PackedBounds(h: seq<set<Byte>>, om: nat, i: nat)
    requires Total(h) <= om <= 255 && i < |h|
    ensures var y := Pack(h, om);
      Start(y, om, i) == Total(h[..i]) && End(y, om, i) == Total(h[..i + 1])
  {
    hide Indices, Pack;
    Layout(h, om);
    CutAt(h, i);
    var y := Pack(h, om);
    assert y[om + i] == y[om..][i];
    if i > 0 {
      CutAt(h, i - 1);
      assert y[om + i - 1] == y[om..][i - 1];
    } else {
      assert h[..0] == [];
    }
  }

  lemma SliceOfPrefix(y: seq<Byte>, p: nat, a: nat, b: nat)
    requires a <= b <= p <= |y|
    ensures y[..p][a..b] == y[a..b]
  {
    var s, u := y[..p][a..b], y[a..b];
    forall i | 0 <= i < b - a ensures s[i] == u[i] {
      assert y[..p][a + i] == y[a + i];
    }
  }

  /** Where Pack puts block i. */
  lemma PackedBlock(h: seq<set<Byte>>, om: nat, i: nat)
    requires Total(h) <= om <= 255 && i < |h|
    ensures var y := Pack(h, om);
      Start(y, om, i) <= End(y, om, i) <= Total(h) && Block(y, om, i) == SortedFrom(h[i], 0)
  {
    hide Indices, Pack, SortedFrom, Total, Cuts;
    var y := Pack(h, om);
    Layout(h, om);
    PackedBounds(h, om, i);
    BlockOfIndices(h, i);
    SliceOfPrefix(y, Total(h), Total(h[..i]), Total(h[..i + 1]));
  }

  lemma IncreasingBlock(y: seq<Byte>, om: nat, i: nat)
    requires om + i < |y| && Start(y, om, i) <= End(y, om, i) <= |y|
    ensures Increasing(Block(y, om, i)) <==> BlockIncreasing(y, Start(y, om, i), End(y, om, i), true)
  {
    var b, from := Block(y, om, i), Start(y, om, i);
    if Increasing(b) {
      forall ix | from < ix < End(y, om, i) ensures y[ix - 1] < y[ix] {
        assert b[ix - from - 1] < b[ix - from];
      }
    }
    if BlockIncreasing(y, from, End(y, om, i), true) {
      forall j | 0 < j < |b| ensures b[j - 1] < b[j] {
        assert Less(y[from + j - 1], y[from + j], true);
      }
    }
  }

  /** Every packed hint is accepted, and decodes to itself. */
  lemma PackAccepted(h: seq<set<Byte>>, om: nat, k: nat)
    requires 1 <= k && om <= 255 && ValidHint(h, om, k)
    ensures FlatAccepts(Pack(h, om), om, k, true) && Decode(Pack(h, om), om, k) == h
  {
    hide Pack, SortedFrom, Total, Cuts, Indices, FlatAccepts, Block, BlockIncreasing;
    var y := Pack(h, om);
    Layout(h, om);
    forall i | 0 <= i < k
      ensures Start(y, om, i) <= End(y, om, i) <= om && BlockIncreasing(y, Start(y, om, i), End(y, om, i), true)
      ensures Elements(Block(y, om, i)) == h[i]
    {
      PackedBlock(h, om, i);
      SortedIncreasing(h[i], 0);
      assert AtLeast(h[i], 0) == h[i];
      IncreasingBlock(y, om, i);
    }
    PackedBounds(h, om, k - 1);
    assert h[..k] == h;
    assert Start(y, om, k) == End(y, om, k - 1) == Total(h);
    FlatIsNested(y, om, k, true);
  }

  lemma {:induction false} DecodedPrefix(y: seq<Byte>, om: nat, k: nat, i: nat)
    requires Shaped(y, om, k) && NestedAccepts(y, om, k, true) && i <= k
    ensures Start(y, om, i) <= om && Indices(Decode(y, om, k)[..i]) == y[..Start(y, om, i)]
  {
    hide SortedFrom, Decode, BlockIncreasing;
    var h := Decode(y, om, k);
    if i > 0 {
      DecodedPrefix(y, om, k, i - 1);
      assert Start(y, om, i - 1) <= End(y, om, i - 1) <= om;
      SortedDecoded(y, om, k, i - 1);
      hide NestedAccepts;
      var upto := h[..i];
      assert upto[..|upto| - 1] == h[..i - 1] && upto[|upto| - 1] == h[i - 1];
      assert y[..Start(y, om, i - 1)] + Block(y, om, i - 1) == y[..Start(y, om, i)];
    } else {
      assert h[..0] == [];
    }
  }

  /** Sorting a decoded block gives the block back. */
  lemma SortedDecoded(y: seq<Byte>, om: nat, k: nat, i: nat)
    requires Shaped(y, om, k) && NestedAccepts(y, om, k, true) && i < k
    ensures SortedFrom(Decode(y, om, k)[i], 0) == Block(y, om, i)
  {
    hide SortedFrom;
    var b := Block(y, om, i);
    assert BlockIncreasing(y, Start(y, om, i), End(y, om, i), true);
    IncreasingBlock(y, om, i);
    assert AtLeast(Elements(b), 0) == Elements(b);
    SortedOfIncreasing(b, Elements(b), 0);
  }

  lemma DecodedTotal(y: seq<Byte>, om: nat, k: nat, i: nat)
    requires Shaped(y, om, k) && NestedAccepts(y, om, k, true) && i <= k
    ensures Total(Decode(y, om, k)[..i]) == Start(y, om, i) <= om
  {
    hide Total, Indices, Decode, NestedAccepts;
    DecodedPrefix(y, om, k, i);
    LengthOfIndices(Decode(y, om, k)[..i]);
  }

  /** Every accepted encoding is the packing of the hint it decodes to. */
  lemma AcceptedIsPacked(y: seq<Byte>, om: nat, k: nat)
    requires Shaped(y, om, k) && FlatAccepts(y, om, k, true)
    ensures ValidHint(Decode(y, om, k), om, k) && Pack(Decode(y, om, k), om) == y
  {
    hide Pack, Total, Cuts, Indices, Decode, FlatAccepts;
    FlatIsNested(y, om, k, true);
    var h := Decode(y, om, k);
    assert h[..k] == h;
    DecodedTotal(y, om, k, k);
    DecodedPrefix(y, om, k, k);
    Layout(h, om);
    var p := Pack(h, om);
    forall i | 0 <= i < k ensures p[om..][i] == y[om..][i] {
      CutAt(h, i);
      DecodedTotal(y, om, k, i + 1);
    }
    forall x | 0 <= x < om + k ensures p[x] == y[x] {
      if x < Total(h) {
        assert p[x] == p[..Total(h)][x] == y[..Total(h)][x];
      } else if om <= x {
        assert p[x] == p[om..][x - om] && y[x] == y[om..][x - om];
      }
    }
  }

  /** Accepted encodings are exactly the packed hints, and each is the packing of one hint only. */
  lemma CanonicalIffPacked(y: seq<Byte>, om: nat, k: nat)
    requires Shaped(y, om, k)
    ensures FlatAccepts(y, om, k, true) <==> exists h :: ValidHint(h, om, k) && Pack(h, om) == y
    ensures forall h :: ValidHint(h, om, k) && Pack(h, om) == y ==> h == Decode(y, om, k)
  {
    hide Pack, Decode, FlatAccepts;
    if FlatAccepts(y, om, k, true) { AcceptedIsPacked(y, om, k); }
    forall h | ValidHint(h, om, k) && Pack(h, om) == y
      ensures FlatAccepts(y, om, k, true) && h == Decode(y, om, k)
    {
      PackAccepted(h, om, k);
    }
  }
}
