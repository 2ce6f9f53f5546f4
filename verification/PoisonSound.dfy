/** What the check guarantees: no choice of values for poison lanes can be observed. */
module PoisonSound {
  import opened Common
  import opened LaneIr
  import opened PoisonCheck

  /** Lane l of register r is a poison lane that its chain has not written yet. */
  ghost predicate DeadLane(lines: seq<Instr>, r: Reg, l: nat) {
    exists chain, pos: nat :: DeadAt(lines, chain, pos, r, l)
  }

  ghost predicate DeadAt(lines: seq<Instr>, chain: seq<Instr>, pos: nat, r: Reg, l: nat) {
    && DeadChain(lines, chain) && pos < |chain| && chain[pos].dst == r
    && PoisonLane(chain[0].base, l) && !WrittenBy(chain, pos + 1, l)
  }

  /** Two values of register r that agree on every live lane. */
  ghost predicate SameLive(lines: seq<Instr>, r: Reg, v: Val, w: Val) {
    |v| == |w| && forall l :: 0 <= l < |v| ==> v[l] == w[l] || DeadLane(lines, r, l)
  }

  /** Two states that differ at most in dead lanes. */
  ghost predicate Agree<M>(lines: seq<Instr>, s1: State<M>, s2: State<M>) {
    && s1.block == s2.block && s1.index == s2.index && s1.mem == s2.mem && s1.outside == s2.outside
    && RegsAgree(lines, s1.regs, s2.regs)
  }

  ghost predicate RegsAgree(lines: seq<Instr>, r1: map<Reg, Val>, r2: map<Reg, Val>) {
    forall r :: SameLive(lines, r, Get(r1, r), Get(r2, r))
  }

  /** No store, void call or terminator has a poison operand: the check does not look at these. */
  ghost predicate EffectsClean(lines: seq<Instr>) {
    forall i, j, l: nat :: i in lines && Dst(i) == None && 0 <= j < |Args(i)| ==> !PoisonLane(Args(i)[j], l)
  }

  /** No insertelement writes a scalar poison into a lane: the check does not look at the inserted element. */
  ghost predicate ElementsClean(lines: seq<Instr>) {
    forall i :: i in lines && i.Insert? && i.lane < i.n ==> !PoisonLane(i.elt, 0)
  }

  /** A dead register has one use: the next insertelement of its chain. */
  lemma DeadHasNext(lines: seq<Instr>, chain: seq<Instr>, pos: nat, r: Reg, l: nat)
    requires DeadAt(lines, chain, pos, r, l)
    ensures pos + 1 < |chain| && Linked(lines, chain[pos], chain[pos + 1])
  {
    assert WrittenBy(chain, |chain|, l);
  }

  /** So an operand that is not a chain's base is a register with no dead lane. */
  lemma OperandIsLive(lines: seq<Instr>, i: Instr, j: nat, r: Reg, l: nat)
    requires SSA(lines) && i in lines && j < |Args(i)| && Args(i)[j] == R(r)
    requires !(i.Insert? && j == 0)
    ensures !DeadLane(lines, r, l)
  {
    if DeadLane(lines, r, l) {
      var chain, pos: nat :| DeadAt(lines, chain, pos, r, l);
      DeadHasNext(lines, chain, pos, r, l);
      var nx := chain[pos + 1];
      UsesOfLine(lines, i, r);
      MentionsAt(Args(i), r, j);
      SameDefinition(lines, i, nx);
      MentionedTwice(nx.base, nx.elt, r);
    }
  }

  /** A dead lane of a chain's base that this step does not write is a dead lane of the result. */
  lemma DeadnessMoves(lines: seq<Instr>, i: Instr, r: Reg, l: nat)
    requires SSA(lines) && i in lines && i.Insert? && i.base == R(r) && DeadLane(lines, r, l) && l != i.lane
    ensures DeadLane(lines, i.dst, l)
  {
    var chain, pos: nat :| DeadAt(lines, chain, pos, r, l);
    DeadHasNext(lines, chain, pos, r, l);
    UsesOfLine(lines, i, r);
    MentionsAt(Args(i), r, 0);
    SameDefinition(lines, i, chain[pos + 1]);
    assert DeadAt(lines, chain, pos + 1, i.dst, l);
  }

  /** A poison lane of a constant base that the first step does not write is a dead lane of the result. */
  lemma DeadnessStarts(lines: seq<Instr>, i: Instr, l: nat)
    requires i in lines && i.Insert? && LineOk(lines, i) && !i.base.PoisonScalar?
    requires PoisonLane(i.base, l) && l != i.lane
    ensures DeadLane(lines, i.dst, l)
  {
    assert PoisonText(Args(i)[0]);
    var chain :| DeadChain(lines, chain) && chain[0] == i;
    assert DeadAt(lines, chain, 0, i.dst, l);
  }

  /** An operand without poison lanes that is not a chain's base has one value in agreeing states. */
  lemma OperandSame<M>(lines: seq<Instr>, i: Instr, j: nat, s1: State<M>, s2: State<M>,
                       p1: Oracle, p2: Oracle, t: nat, site: Site)
    requires SSA(lines) && i in lines && j < |Args(i)| && Agree(lines, s1, s2)
    requires !(i.Insert? && j == 0)
    requires forall l: nat :: !PoisonLane(Args(i)[j], l)
    ensures Eval(Args(i)[j], s1.regs, p1, t, site) == Eval(Args(i)[j], s2.regs, p2, t, site)
  {
    var o := Args(i)[j];
    assert !PoisonLane(o, 0);
    match o
    case R(r) =>
      var v, w := Get(s1.regs, r), Get(s2.regs, r);
      assert SameLive(lines, r, v, w);
      forall l | 0 <= l < |v| ensures v[l] == w[l] {
        OperandIsLive(lines, i, j, r, l);
      }
    case ConstVec(lanes, _) => assert forall l :: 0 <= l < |lanes| ==> PoisonLane(o, l) || lanes[l].Def?;
    case _ =>
  }

  /** The base of an insertelement: lanes that differ stay dead in the result. */
  lemma BaseSame<M>(lines: seq<Instr>, i: Instr, s1: State<M>, s2: State<M>,
                    p1: Oracle, p2: Oracle, t: nat, site: Site, l: nat)
    requires SSA(lines) && NeverRead(lines) && i in lines && i.Insert? && Agree(lines, s1, s2) && l != i.lane
    ensures At(Eval(i.base, s1.regs, p1, t, site), l) == At(Eval(i.base, s2.regs, p2, t, site), l)
         || DeadLane(lines, i.dst, l)
  {
    match i.base
    case R(r) =>
      var v, w := Get(s1.regs, r), Get(s2.regs, r);
      assert SameLive(lines, r, v, w);
      if l < |v| && v[l] != w[l] {
        DeadnessMoves(lines, i, r, l);
      }
    case Scalar(_) =>
    case PoisonScalar =>
      assert PoisonText(Args(i)[0]) && LineOk(lines, i);
      assert false;
    case _ =>
      assert LineOk(lines, i);
      if PoisonLane(i.base, l) {
        DeadnessStarts(lines, i, l);
      }
  }

  /** The element an insertelement writes is the same in agreeing states. */
  lemma ElementSame<M>(lines: seq<Instr>, i: Instr, s1: State<M>, s2: State<M>, p1: Oracle, p2: Oracle, t: nat, site: Site)
    requires SSA(lines) && ElementsClean(lines) && i in lines && i.Insert? && i.lane < i.n && Agree(lines, s1, s2)
    ensures At(Eval(i.elt, s1.regs, p1, t, site), 0) == At(Eval(i.elt, s2.regs, p2, t, site), 0)
  {
    match i.elt
    case R(r) =>
      assert SameLive(lines, r, Get(s1.regs, r), Get(s2.regs, r));
      assert Args(i)[1] == R(r);
      OperandIsLive(lines, i, 1, r, 0);
    case _ =>
  }

  /** Operand values of two agreeing states: the same, except for an insertelement, which writes the same element, and
      the second operand of a shuffle that selects only from the first. */
  ghost predicate SameOperands(i: Instr, v1: seq<Val>, v2: seq<Val>) {
    && |v1| == |v2| == |Args(i)|
    && (forall j :: 0 <= j < |v1| ==> v1[j] == v2[j] || i.Insert? || (FirstOperandOnly(i) && j == 1))
    && (i.Insert? && i.lane < i.n ==> At(v1[1], 0) == At(v2[1], 0))
  }

  lemma OperandsSame<M>(lines: seq<Instr>, i: Instr, s1: State<M>, s2: State<M>, p1: Oracle, p2: Oracle, t: nat)
    requires SSA(lines) && NeverRead(lines) && EffectsClean(lines) && ElementsClean(lines)
    requires i in lines && Agree(lines, s1, s2)
    ensures SameOperands(i, EvalArgs(Args(i), s1.regs, p1, t, s1.block, s1.index),
                            EvalArgs(Args(i), s2.regs, p2, t, s2.block, s2.index))
  {
    if i.Insert? && i.lane < i.n { ElementSame(lines, i, s1, s2, p1, p2, t, Site(s1.block, s1.index, 1)); }
    forall j | 0 <= j < |Args(i)| && !i.Insert? && !(FirstOperandOnly(i) && j == 1)
      ensures Eval(Args(i)[j], s1.regs, p1, t, Site(s1.block, s1.index, j))
           == Eval(Args(i)[j], s2.regs, p2, t, Site(s2.block, s2.index, j))
    {
      forall l: nat ensures !PoisonLane(Args(i)[j], l) {
        if PoisonLane(Args(i)[j], l) {
          assert PoisonText(Args(i)[j]) && LineOk(lines, i);
        }
      }
      OperandSame(lines, i, j, s1, s2, p1, p2, t, Site(s1.block, s1.index, j));
    }
  }

  /** One step keeps two states in agreement, whatever the two oracles answer. */
  lemma StepAgrees<M>(prog: Program, m: Machine<M>, g: (nat, nat) -> int, p1: Oracle, p2: Oracle, t: nat,
                      s1: State<M>, s2: State<M>)
    requires SSA(AllLines(prog)) && NeverRead(AllLines(prog))
    requires EffectsClean(AllLines(prog)) && ElementsClean(AllLines(prog))
    requires Agree(AllLines(prog), s1, s2)
    ensures Agree(AllLines(prog), Step(prog, m, g, p1, t, s1), Step(prog, m, g, p2, t, s2))
  {
    if Running(prog, s1) {
      var lines := AllLines(prog);
      var i := prog[s1.block][s1.index];
      LineOfProgram(prog, s1.block, s1.index);
      OperandsSame(lines, i, s1, s2, p1, p2, t);
      var v1 := EvalArgs(Args(i), s1.regs, p1, t, s1.block, s1.index);
      var v2 := EvalArgs(Args(i), s2.regs, p2, t, s2.block, s2.index);
      if i.Insert? {
        forall l: nat | l != i.lane ensures At(v1[0], l) == At(v2[0], l) || DeadLane(lines, i.dst, l) {
          BaseSame(lines, i, s1, s2, p1, p2, t, Site(s1.block, s1.index, 0), l);
        }
      }
      assert i.Shuffle? && MaskPoison(i.mask) ==> LineOk(lines, i);
      ExecAgrees(lines, i, v1, v2, MaskLanes(p1, t, s1.block, s1.index), MaskLanes(p2, t, s2.block, s2.index), m, g, s1, s2);
    }
  }

  lemma ExecAgrees<M>(lines: seq<Instr>, i: Instr, v1: seq<Val>, v2: seq<Val>, u1: nat -> int, u2: nat -> int,
                      m: Machine<M>, g: (nat, nat) -> int, s1: State<M>, s2: State<M>)
    requires Agree(lines, s1, s2) && SameOperands(i, v1, v2) && (i.Shuffle? ==> !MaskPoison(i.mask))
    requires i.Insert? ==> forall l: nat :: l != i.lane ==> At(v1[0], l) == At(v2[0], l) || DeadLane(lines, i.dst, l)
    ensures Agree(lines, Exec(i, v1, u1, m, g, s1), Exec(i, v2, u2, m, g, s2))
  {
    match i
    case Insert(d, n, _, _, lane) =>
      assert SameLive(lines, d, InsertLane(n, v1[0], v1[1], lane), InsertLane(n, v2[0], v2[1], lane));
      SetAgrees(lines, d, s1.regs, s2.regs, InsertLane(n, v1[0], v1[1], lane), InsertLane(n, v2[0], v2[1], lane));
    case Shuffle(d, n, _, _, mask) =>
      assert v1[0] == v2[0];
      var x, y := ShuffleLanes(n, v1[0], v1[1], mask, u1), ShuffleLanes(n, v2[0], v2[1], mask, u2);
      SameShuffle(i, v1[0], v1[1], v2[1], u1, u2);
      SetAgrees(lines, d, s1.regs, s2.regs, x, y);
    case Value(d, op, _) =>
      assert v1 == v2;
      SetAgrees(lines, d, s1.regs, s2.regs, m.value(op, v1, s1.mem), m.value(op, v2, s2.mem));
    case Effect(_, _) => assert v1 == v2;
    case Jump(_, _) => assert v1 == v2;
    case Load(d, k, n) =>
      SetAgrees(lines, d, s1.regs, s2.regs, Loaded(g, k, n), Loaded(g, k, n));
  }

  /** A shuffle that selects only from the first operand, or the same second one, has one result. */
  lemma SameShuffle(i: Instr, a: Val, b1: Val, b2: Val, u1: nat -> int, u2: nat -> int)
    requires i.Shuffle? && !MaskPoison(i.mask) && (b1 == b2 || FirstOperandOnly(i))
    ensures ShuffleLanes(i.n, a, b1, i.mask, u1) == ShuffleLanes(i.n, a, b2, i.mask, u2)
  {
    var x, y := ShuffleLanes(i.n, a, b1, i.mask, u1), ShuffleLanes(i.n, a, b2, i.mask, u2);
    if i.mask.Lanes? {
      var sel := i.mask.sel;
      forall k | 0 <= k < |sel| ensures x[k] == y[k] {
        assert sel[k] != Poison;
        assert x[k] == Select(i.n, a, b1, sel[k].v) && y[k] == Select(i.n, a, b2, sel[k].v);
      }
    } else {
      assert b1 == b2;
    }
  }

  lemma SetAgrees(lines: seq<Instr>, d: Reg, r1: map<Reg, Val>, r2: map<Reg, Val>, v: Val, w: Val)
    requires RegsAgree(lines, r1, r2) && SameLive(lines, d, v, w)
    ensures RegsAgree(lines, r1[d := v], r2[d := w])
  {
    var n1, n2 := r1[d := v], r2[d := w];
    forall r ensures SameLive(lines, r, Get(n1, r), Get(n2, r)) {
      assert SameLive(lines, r, Get(r1, r), Get(r2, r));
    }
  }

  lemma AgreeRefl<M>(lines: seq<Instr>, s: State<M>)
    ensures Agree(lines, s, s)
  {
  }

  /** If the check passes, two runs with any two oracles take the same path and agree on the memory and
      on every register at every step, except in dead lanes of chain intermediates. */
  lemma {:induction false} PoisonIrrelevant<M>(prog: Program, m: Machine<M>, g: (nat, nat) -> int,
                                               p1: Oracle, p2: Oracle, s: State<M>, n: nat)
    requires SSA(AllLines(prog)) && NeverRead(AllLines(prog))
    requires EffectsClean(AllLines(prog)) && ElementsClean(AllLines(prog))
    ensures Agree(AllLines(prog), Run(prog, m, g, p1, s, n), Run(prog, m, g, p2, s, n))
  {
    if n == 0 {
      AgreeRefl(AllLines(prog), s);
    } else {
      PoisonIrrelevant(prog, m, g, p1, p2, s, n - 1);
      StepAgrees(prog, m, g, p1, p2, n - 1, Run(prog, m, g, p1, s, n - 1), Run(prog, m, g, p2, s, n - 1));
    }
  }

  /** Only results of insertelement have dead lanes: every other register agrees completely. */
  lemma OnlyIntermediatesAreDead(lines: seq<Instr>, r: Reg, l: nat)
    requires DeadLane(lines, r, l)
    ensures exists a, b :: a in lines && b in lines && Dst(a) == Some(r) && Linked(lines, a, b)
  {
    var chain, pos: nat :| DeadAt(lines, chain, pos, r, l);
    DeadHasNext(lines, chain, pos, r, l);
    assert chain[pos] in lines && chain[pos + 1] in lines;
  }

  // ---------- where the check stops looking, its claim ends ----------

  /** A machine whose memory records the operands of every instruction that may touch it. */
  function Recorder(): Machine<seq<seq<Val>>> {
    Machine((op: nat, v: seq<Val>, m: seq<seq<Val>>) => [], (op: nat, v: seq<Val>, m: seq<seq<Val>>) => m + [v],
            (op: nat, v: seq<Val>, m: seq<seq<Val>>) => 0)
  }

  function Constant(c: int): Oracle { (t: nat, s: Site, l: nat) => c }

  lemma {:induction false} PlaceOfLine(prog: Program, i: Instr) returns (b: nat, k: nat)
    requires i in AllLines(prog)
    ensures b < |prog| && k < |prog[b]| && prog[b][k] == i
  {
    var last := prog[|prog| - 1];
    if i in last {
      b := |prog| - 1;
      k :| 0 <= k < |last| && last[k] == i;
    } else {
      b, k := PlaceOfLine(prog[..|prog| - 1], i);
    }
  }

  /** A store, void call or terminator with a poison lane is seen: some memory tells two oracles apart
      after one step. */
  lemma PoisonEffectObserved(prog: Program, g: (nat, nat) -> int)
    requires !EffectsClean(AllLines(prog))
    ensures exists p1: Oracle, p2: Oracle, s: State<seq<seq<Val>>> ::
      Step(prog, Recorder(), g, p1, 0, s).mem != Step(prog, Recorder(), g, p2, 0, s).mem
  {
    var i, j, l: nat :| i in AllLines(prog) && Dst(i) == None && 0 <= j < |Args(i)| && PoisonLane(Args(i)[j], l);
    var b, k := PlaceOfLine(prog, i);
    var s: State<seq<seq<Val>>> := State(b, k, map[], [], false);
    var p1, p2 := Constant(0), Constant(1);
    var v1, v2 := EvalArgs(Args(i), s.regs, p1, 0, b, k), EvalArgs(Args(i), s.regs, p2, 0, b, k);
    assert v1[j][l] == 0 && v2[j][l] == 1;
    var m1, m2 := Step(prog, Recorder(), g, p1, 0, s).mem, Step(prog, Recorder(), g, p2, 0, s).mem;
    assert m1 == s.mem + [v1] && m2 == s.mem + [v2];
    assert m1[0] == v1 && m2[0] == v2;
  }

  /** A lane that an insertelement writes is no dead lane of its result. */
  lemma WrittenIsLive(lines: seq<Instr>, i: Instr)
    requires SSA(lines) && i in lines && i.Insert?
    ensures !DeadLane(lines, i.dst, i.lane)
  {
    if DeadLane(lines, i.dst, i.lane) {
      var chain, pos: nat :| DeadAt(lines, chain, pos, i.dst, i.lane);
      SameDefinition(lines, i, chain[pos]);
    }
  }

  /** An inserted poison element is seen: after one step the lane it is written to differs, and it is live. */
  lemma PoisonElementObserved(prog: Program, g: (nat, nat) -> int)
    requires SSA(AllLines(prog)) && !ElementsClean(AllLines(prog))
    ensures exists p1: Oracle, p2: Oracle, s: State<seq<seq<Val>>> ::
      !Agree(AllLines(prog), Step(prog, Recorder(), g, p1, 0, s), Step(prog, Recorder(), g, p2, 0, s))
  {
    var lines := AllLines(prog);
    var i :| i in lines && i.Insert? && i.lane < i.n && PoisonLane(i.elt, 0);
    var b, k := PlaceOfLine(prog, i);
    WrittenIsLive(lines, i);
    var s: State<seq<seq<Val>>> := State(b, k, map[], [], false);
    var p1, p2 := Constant(0), Constant(1);
    var s1, s2 := Step(prog, Recorder(), g, p1, 0, s), Step(prog, Recorder(), g, p2, 0, s);
    var v, w := Get(s1.regs, i.dst), Get(s2.regs, i.dst);
    assert Args(i)[1] == i.elt;
    assert At(Eval(i.elt, s.regs, p1, 0, Site(b, k, 1)), 0) == 0 && At(Eval(i.elt, s.regs, p2, 0, Site(b, k, 1)), 0) == 1;
    assert |v| == i.n == |w| && v[i.lane] == 0 && w[i.lane] == 1;
    assert !SameLive(lines, i.dst, v, w);
  }

  /** The check accepts an inserted poison element. */
  lemma PoisonElementPasses()
    ensures var lines := [Insert(Named(0), 2, ConstVec([Def(1), Def(2)], 64), PoisonScalar, 0)];
      SSA(lines) && NeverRead(lines) && EffectsClean(lines) && !ElementsClean(lines)
  {
    var i := Insert(Named(0), 2, ConstVec([Def(1), Def(2)], 64), PoisonScalar, 0);
    var lines := [i];
    assert DeadChain(lines, [i]) && i in lines;
    assert PoisonLane(i.elt, 0);
  }

  /** Whatever the opaque instructions mean and the oracles answer, two runs from any state agree at every step. */
  ghost predicate Unobserved(prog: Program, g: (nat, nat) -> int) {
    forall m: Machine<seq<seq<Val>>>, p1: Oracle, p2: Oracle, s: State<seq<seq<Val>>>, n: nat ::
      Agree(AllLines(prog), Run(prog, m, g, p1, s, n), Run(prog, m, g, p2, s, n))
  }

  /** Of the functions that the check accepts, poison is unobserved exactly in those where no store, void call or
      terminator has a poison operand and no insertelement writes a poison element. */
  lemma PoisonIrrelevantIff(prog: Program, g: (nat, nat) -> int)
    requires SSA(AllLines(prog)) && NeverRead(AllLines(prog))
    ensures Unobserved(prog, g) <==> EffectsClean(AllLines(prog)) && ElementsClean(AllLines(prog))
  {
    hide Agree, SSA, NeverRead, EffectsClean, ElementsClean, AllLines;
    var lines := AllLines(prog);
    if EffectsClean(lines) && ElementsClean(lines) {
      forall m: Machine<seq<seq<Val>>>, p1: Oracle, p2: Oracle, s: State<seq<seq<Val>>>, n: nat
        ensures Agree(lines, Run(prog, m, g, p1, s, n), Run(prog, m, g, p2, s, n))
      {
        PoisonIrrelevant(prog, m, g, p1, p2, s, n);
      }
    } else {
      var p1, p2, s := Observed(prog, g);
      RunOne(prog, Recorder(), g, p1, s, 0);
      RunOne(prog, Recorder(), g, p2, s, 0);
      assert !Agree(lines, Run(prog, Recorder(), g, p1, s, 1), Run(prog, Recorder(), g, p2, s, 1));
    }
  }

  lemma Observed(prog: Program, g: (nat, nat) -> int) returns (p1: Oracle, p2: Oracle, s: State<seq<seq<Val>>>)
    requires SSA(AllLines(prog)) && !(EffectsClean(AllLines(prog)) && ElementsClean(AllLines(prog)))
    ensures !Agree(AllLines(prog), Step(prog, Recorder(), g, p1, 0, s), Step(prog, Recorder(), g, p2, 0, s))
  {
    hide SSA, EffectsClean, ElementsClean, AllLines;
    if !EffectsClean(AllLines(prog)) {
      PoisonEffectObserved(prog, g);
      p1, p2, s :| Step(prog, Recorder(), g, p1, 0, s).mem != Step(prog, Recorder(), g, p2, 0, s).mem;
    } else {
      PoisonElementObserved(prog, g);
      p1, p2, s :| !Agree(AllLines(prog), Step(prog, Recorder(), g, p1, 0, s), Step(prog, Recorder(), g, p2, 0, s));
    }
  }
}
