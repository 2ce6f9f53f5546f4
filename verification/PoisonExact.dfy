/** What the check accepts and refuses, said on values: what an operand or a result is under every choice of poison. */
module PoisonExact {
  import opened Common
  import opened LaneIr
  import opened PoisonCheck
  import opened PoisonSound

  /** The operand has one value, whatever poison is. */
  ghost predicate FixedValue(o: Operand) {
    forall regs: map<Reg, Val>, p: Oracle, p': Oracle, t: nat, s: Site :: Eval(o, regs, p, t, s) == Eval(o, regs, p', t, s)
  }

  /** The mask makes one vector of any two operands, whatever its poison lanes are. */
  ghost predicate FixedMask(n: nat, mask: Mask) {
    forall a: Val, b: Val, u: nat -> int, u': nat -> int :: ShuffleLanes(n, a, b, mask, u) == ShuffleLanes(n, a, b, mask, u')
  }

  /** And whatever the second operand is. */
  ghost predicate FixedResult(n: nat, mask: Mask) {
    forall a: Val, b: Val, b': Val, u: nat -> int, u': nat -> int :: |b| == |b'| == n
      ==> ShuffleLanes(n, a, b, mask, u) == ShuffleLanes(n, a, b', mask, u')
  }

  lemma FixedIff(o: Operand)
    ensures FixedValue(o) <==> forall l: nat :: !PoisonLane(o, l)
  {
    var s := Site(0, 0, 0);
    if l: nat :| PoisonLane(o, l) {
      assert Eval(o, map[], Constant(0), 0, s)[l] == 0 && Eval(o, map[], Constant(1), 0, s)[l] == 1;
    } else if o.ConstVec? {
      forall regs: map<Reg, Val>, p: Oracle, p': Oracle, t: nat, s: Site
        ensures Eval(o, regs, p, t, s) == Eval(o, regs, p', t, s)
      {
        forall i | 0 <= i < |o.lanes| ensures o.lanes[i].Def? { assert !PoisonLane(o, i); }
      }
    } else if o.PoisonVec? {
      assert o.n > 0 ==> PoisonLane(o, 0);
    } else if o.PoisonScalar? {
      assert PoisonLane(o, 0);
    }
  }

  lemma MaskFixedIff(n: nat, mask: Mask)
    ensures FixedMask(n, mask) <==> !MaskPoison(mask)
  {
    if MaskPoison(mask) {
      var k :| 0 <= k < |mask.sel| && mask.sel[k] == Poison;
      var u, u' := (l: nat) => 0, (l: nat) => 1;
      assert ShuffleLanes(n, [], [], mask, u)[k] == 0 && ShuffleLanes(n, [], [], mask, u')[k] == 1;
    } else {
      forall a: Val, b: Val, u: nat -> int, u': nat -> int
        ensures ShuffleLanes(n, a, b, mask, u) == ShuffleLanes(n, a, b, mask, u')
      {
        SameShuffle(Shuffle(Named(0), n, Scalar(0), Scalar(0), mask), a, b, b, u, u');
      }
    }
  }

  // ---------- shuffles ----------

  /** As LLVM demands: a mask lane is one of the lanes of the two operands, or poison. */
  predicate ValidMask(n: nat, mask: Mask) {
    mask.Lanes? ==> forall k :: 0 <= k < |mask.sel| && mask.sel[k].Def? ==> mask.sel[k].v < 2 * n
  }

  lemma SelectsSecond(n: nat, mask: Mask, k: nat)
    requires mask.Lanes? && k < |mask.sel| && mask.sel[k].Def? && n <= mask.sel[k].v < 2 * n
    ensures !FixedResult(n, mask)
  {
    var b, b' := seq(n, _ => 0), seq(n, _ => 1);
    var u := (l: nat) => 0;
    var v := mask.sel[k].v;
    assert Select(n, [], b, v) == b[v - n] && Select(n, [], b', v) == b'[v - n];
    assert ShuffleLanes(n, [], b, mask, u)[k] == 0 && ShuffleLanes(n, [], b', mask, u)[k] == 1;
  }

  lemma PoisonLaneShows(n: nat, mask: Mask, k: nat)
    requires mask.Lanes? && k < |mask.sel| && mask.sel[k] == Poison
    ensures !FixedResult(n, mask)
  {
    var b := seq(n, _ => 0);
    var u, u' := (l: nat) => 0, (l: nat) => 1;
    assert ShuffleLanes(n, [], b, mask, u)[k] == 0 && ShuffleLanes(n, [], b, mask, u')[k] == 1;
  }

  /** A shuffle of a register with a poison vector, its mask written out, is accepted iff its result is the same for
      every value of the second operand and of the poison lanes of the mask. */
  lemma ShuffleAcceptedIff(lines: seq<Instr>, i: Instr)
    requires i.Shuffle? && i.a.R? && i.b.PoisonVec? && i.mask.Lanes? && ValidMask(i.n, i.mask)
    ensures LineOk(lines, i) <==> FixedResult(i.n, i.mask)
  {
    assert PoisonText(Args(i)[1]);
    if FirstOperandOnly(i) {
      forall a: Val, b: Val, b': Val, u: nat -> int, u': nat -> int | |b| == |b'| == i.n
        ensures ShuffleLanes(i.n, a, b, i.mask, u) == ShuffleLanes(i.n, a, b', i.mask, u')
      {
        SameShuffle(i, a, b, b', u, u');
      }
    } else {
      var k :| 0 <= k < |i.mask.sel| && !(i.mask.sel[k].Def? && i.mask.sel[k].v < i.n);
      if i.mask.sel[k].Def? { SelectsSecond(i.n, i.mask, k); } else { PoisonLaneShows(i.n, i.mask, k); }
    }
  }

  /** A zero mask is refused, though its result is fixed: the check reads only masks that are written out. */
  lemma ZeroMaskRefused(lines: seq<Instr>, d: Reg, n: nat, r: Reg, w: nat, bits: nat)
    ensures !LineOk(lines, Shuffle(d, n, R(r), PoisonVec(w, bits), ZeroMask)) && FixedResult(n, ZeroMask)
  {
    var i := Shuffle(d, n, R(r), PoisonVec(w, bits), ZeroMask);
    assert PoisonText(Args(i)[1]);
    forall a: Val, b: Val, b': Val, u: nat -> int, u': nat -> int | |b| == |b'| == n
      ensures ShuffleLanes(n, a, b, ZeroMask, u) == ShuffleLanes(n, a, b', ZeroMask, u')
    {
      var x, y := ShuffleLanes(n, a, b, ZeroMask, u), ShuffleLanes(n, a, b', ZeroMask, u');
      assert forall l :: 0 <= l < n ==> x[l] == Select(n, a, b, 0) && y[l] == Select(n, a, b', 0);
    }
  }

  // ---------- other lines ----------

  /** LLVM has no vectors without lanes. */
  predicate HasLanes(o: Operand) { o.PoisonVec? ==> o.n > 0 }

  lemma TextIsLane(o: Operand)
    requires HasLanes(o)
    ensures PoisonText(o) <==> !FixedValue(o)
  {
    FixedIff(o);
    if o.PoisonVec? || o.PoisonScalar? { assert PoisonLane(o, 0); }
    if o.ConstVec? { assert forall i :: 0 <= i < |o.lanes| ==> (PoisonLane(o, i) <==> o.lanes[i] == Poison); }
  }

  /** A line whose operands and mask have one value each is accepted. */
  lemma FixedLineAccepted(lines: seq<Instr>, i: Instr)
    requires forall j :: 0 <= j < |Args(i)| ==> HasLanes(Args(i)[j]) && FixedValue(Args(i)[j])
    requires i.Shuffle? ==> FixedMask(i.n, i.mask)
    ensures LineOk(lines, i)
  {
    hide FixedValue, FixedMask;
    forall j | 0 <= j < |Args(i)| ensures !PoisonText(Args(i)[j]) { TextIsLane(Args(i)[j]); }
    if i.Shuffle? { MaskFixedIff(i.n, i.mask); }
  }

  /** Any other value definition with a poison operand or mask lane is refused: only an insertelement and a shuffle of
      a register with a poison vector may pass. */
  lemma OthersRefused(lines: seq<Instr>, i: Instr)
    requires Dst(i).Some? && !i.Insert? && !(i.Shuffle? && i.a.R? && i.b.PoisonVec?)
    requires (exists j :: 0 <= j < |Args(i)| && !FixedValue(Args(i)[j])) || (i.Shuffle? && !FixedMask(i.n, i.mask))
    ensures !LineOk(lines, i)
  {
    hide FixedValue, FixedMask;
    if j :| 0 <= j < |Args(i)| && !FixedValue(Args(i)[j]) {
      FixedIff(Args(i)[j]);
      assert PoisonText(Args(i)[j]);
    } else {
      MaskFixedIff(i.n, i.mask);
    }
  }

  /** Building a vector lane by lane from poison passes: each lane written once, in order, each intermediate used by
      the next line alone. */
  lemma VectorBuilt(lines: seq<Instr>, chain: seq<Instr>, bits: nat)
    requires |chain| > 0 && chain[0].Insert? && chain[0].base == PoisonVec(|chain|, bits)
    requires forall j :: 0 <= j < |chain| ==> chain[j].Insert? && chain[j] in lines && chain[j].lane == j
    requires forall j :: 0 <= j < |chain| - 1 ==>
      chain[j + 1].base == R(chain[j].dst) && Uses(lines, chain[j].dst) == [Some(chain[j + 1].dst)]
    ensures LineOk(lines, chain[0])
  {
    forall l: nat | PoisonLane(chain[0].base, l) ensures WrittenBy(chain, |chain|, l) {
      assert chain[l].lane == l;
    }
    assert DeadChain(lines, chain);
  }
}
