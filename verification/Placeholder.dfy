/** The vectorizer's poison placeholders rewritten to zero, and why no observed lane changes. */
module Placeholder {
  import opened Common
  import opened LaneIr
  import opened PoisonCheck

  function ZeroVec(n: nat): Operand {
    ConstVec(seq(n, _ => Def(0)), 0)
  }

  /** A broadcast of lane 0 of register v. */
  predicate Broadcast(i: Instr, v: Reg, n: nat) {
    i.Shuffle? && i.n == n && i.a == R(v) && i.b.PoisonVec? && i.b.n == n && i.mask == ZeroMask
  }

  /** Shape 1: insertelement of a scalar into lane 0 of poison. */
  predicate InsertIntoPoison(i: Instr) {
    i.Insert? && i.base.PoisonVec? && i.base.n == i.n && (i.elt.R? || i.elt.Scalar?) && i.lane == 0
  }

  /** Its result is used once, by a broadcast of lane 0. */
  ghost predicate BroadcastOnly(lines: seq<Instr>, i: Instr) {
    && InsertIntoPoison(i)
    && exists w :: w in lines && Broadcast(w, i.dst, i.n) && Uses(lines, i.dst) == [Dst(w)]
  }

  /** Shape 2: the unused operand of a broadcast. */
  predicate UnusedOperand(i: Instr) {
    i.Shuffle? && i.a.R? && i.b.PoisonVec? && i.b.n == i.n && i.mask == ZeroMask
  }

  /** Shape 3: a constant whose poison lane 0 is overwritten. */
  predicate OverwrittenLane(i: Instr) {
    && i.Insert? && i.base.ConstVec? && |i.base.lanes| == i.n && i.n >= 2
    && i.base.lanes[0] == Poison && (forall l :: 1 <= l < |i.base.lanes| ==> i.base.lanes[l].Def?)
    && (i.elt.R? || i.elt.Scalar?) && i.lane == 0
  }

  ghost predicate Recognized(lines: seq<Instr>, i: Instr) {
    HasPoison(i) ==> BroadcastOnly(lines, i) || UnusedOperand(i) || OverwrittenLane(i)
  }

  /** The line with zero in place of poison. */
  function Zeroed(i: Instr): Instr {
    if InsertIntoPoison(i) then i.(base := ZeroVec(i.n))
    else if UnusedOperand(i) then i.(b := ZeroVec(i.n))
    else if OverwrittenLane(i) then i.(base := i.base.(lanes := i.base.lanes[0 := Def(0)]))
    else i
  }

  function ZeroedBlock(block: seq<Instr>): (r: seq<Instr>)
    ensures |r| == |block|
  {
    seq(|block|, k requires 0 <= k < |block| => Zeroed(block[k]))
  }

  function ZeroedProg(prog: Program): (r: Program)
    ensures |r| == |prog|
  {
    seq(|prog|, b requires 0 <= b < |prog| => ZeroedBlock(prog[b]))
  }

  /** One block; stops at the first poison in an unrecognized shape. */
  method ZeroBlock(block: seq<Instr>, uses: map<Reg, seq<Option<Reg>>>, defs: map<Reg, Instr>, ghost lines: seq<Instr>)
    returns (ok: bool, out: seq<Instr>, n: nat)
    requires SSA(lines) && Describes(uses, defs, lines)
    ensures ok <==> forall i :: i in block ==> Recognized(lines, i)
    ensures ok ==> out == ZeroedBlock(block) && n <= |block|
  {
    hide Uses, SSA;
    ok, out, n := true, block, 0;
    for k := 0 to |block|
      invariant |out| == |block| && n <= k
      invariant forall j :: 0 <= j < k ==> out[j] == Zeroed(block[j]) && Recognized(lines, block[j])
      invariant forall j :: k <= j < |block| ==> out[j] == block[j]
    {
      var l := block[k];
      if HasPoison(l) {
        var good := UnusedOperand(l) || OverwrittenLane(l);
        if InsertIntoPoison(l) {
          var us := UsesOf(uses, l.dst);
          good := |us| == 1 && us[0].Some? && us[0].value in defs && Broadcast(defs[us[0].value], l.dst, l.n);
          OnlyBroadcast(lines, uses, defs, l);
        }
        if !good {
          assert !Recognized(lines, l);
          ok := false;
          return;
        }
        out := out[k := Zeroed(l)];
        n := n + 1;
      } else {
        NoPoisonSame(l);
      }
    }
    assert out == ZeroedBlock(block);
  }

  lemma OnlyBroadcast(lines: seq<Instr>, uses: map<Reg, seq<Option<Reg>>>, defs: map<Reg, Instr>, l: Instr)
    requires SSA(lines) && Describes(uses, defs, lines) && InsertIntoPoison(l)
    ensures BroadcastOnly(lines, l) <==>
      var us := UsesOf(uses, l.dst);
      |us| == 1 && us[0].Some? && us[0].value in defs && Broadcast(defs[us[0].value], l.dst, l.n)
  {
    var us := UsesOf(uses, l.dst);
    if |us| == 1 && us[0].Some? && us[0].value in defs && Broadcast(defs[us[0].value], l.dst, l.n) {
      var w := defs[us[0].value];
      assert us == [Dst(w)];
    }
  }

  lemma NoPoisonSame(i: Instr)
    requires !HasPoison(i)
    ensures Zeroed(i) == i
  {
    if i.Insert? || i.Shuffle? {
      assert !PoisonText(Args(i)[0]) && !PoisonText(Args(i)[1]);
    }
  }

  /** The whole function: either every poison placeholder becomes zero or the rewriting stops. */
  method ZeroPlaceholders(prog: Program) returns (ok: bool, out: Program)
    requires SSA(AllLines(prog))
    ensures ok <==> forall i :: i in AllLines(prog) ==> Recognized(AllLines(prog), i)
    ensures ok ==> out == ZeroedProg(prog)
  {
    hide Uses, SSA, Recognized;
    var uses, defs := CollectAll(prog);
    ok, out := true, [];
    for b := 0 to |prog|
      invariant |out| == b && forall c :: 0 <= c < b ==> out[c] == ZeroedBlock(prog[c])
      invariant forall i :: i in AllLines(prog[..b]) ==> Recognized(AllLines(prog), i)
    {
      var good, lines, _ := ZeroBlock(prog[b], uses, defs, AllLines(prog));
      assert prog[..b + 1][..b] == prog[..b];
      if !good {
        forall i | i in prog[b] ensures i in AllLines(prog) {
          var k :| 0 <= k < |prog[b]| && prog[b][k] == i;
          LineOfProgram(prog, b, k);
        }
        ok := false;
        return;
      }
      out := out + [lines];
    }
    assert prog[..|prog|] == prog;
  }

  method CollectAll(prog: Program) returns (uses: map<Reg, seq<Option<Reg>>>, defs: map<Reg, Instr>)
    requires SSA(AllLines(prog))
    ensures Describes(uses, defs, AllLines(prog))
  {
    var lines := [];
    for b := 0 to |prog|
      invariant lines == AllLines(prog[..b])
    {
      assert prog[..b + 1][..b] == prog[..b];
      lines := lines + prog[b];
    }
    assert prog[..|prog|] == prog;
    uses, defs := Collect(lines);
  }

  // ---------- meaning ----------

  /** Lanes other than lane 0 of an insertelement that only a broadcast of lane 0 consumes. */
  ghost predicate Ignored(lines: seq<Instr>, r: Reg, l: nat) {
    l > 0 && exists i :: i in lines && BroadcastOnly(lines, i) && i.dst == r
  }

  ghost predicate SameSeen(lines: seq<Instr>, r: Reg, v: Val, w: Val) {
    |v| == |w| && forall l :: 0 <= l < |v| ==> v[l] == w[l] || Ignored(lines, r, l)
  }

  ghost predicate RegsMatch(lines: seq<Instr>, r1: map<Reg, Val>, r2: map<Reg, Val>) {
    forall r :: SameSeen(lines, r, Get(r1, r), Get(r2, r))
  }

  ghost predicate Match<M>(lines: seq<Instr>, s1: State<M>, s2: State<M>) {
    s1.block == s2.block && s1.index == s2.index && s1.mem == s2.mem && s1.outside == s2.outside
    && RegsMatch(lines, s1.regs, s2.regs)
  }

  /** A register with ignored lanes is read only by its broadcast, as the first operand. */
  lemma ReadersSeeAll(lines: seq<Instr>, i: Instr, j: nat, r: Reg, l: nat)
    requires SSA(lines) && i in lines && j < |Args(i)| && Args(i)[j] == R(r)
    requires !(j == 0 && i.Shuffle? && i.mask == ZeroMask && i.b.PoisonVec? && i.b.n == i.n)
    ensures !Ignored(lines, r, l)
  {
    if Ignored(lines, r, l) {
      var d :| d in lines && BroadcastOnly(lines, d) && d.dst == r;
      var w :| w in lines && Broadcast(w, d.dst, d.n) && Uses(lines, d.dst) == [Dst(w)];
      UsesOfLine(lines, i, r);
      MentionsAt(Args(i), r, j);
      SameDefinition(lines, i, w);
    }
  }

  lemma OperandMatches<M>(lines: seq<Instr>, i: Instr, j: nat, s1: State<M>, s2: State<M>,
                          p1: Oracle, p2: Oracle, t: nat, site: Site)
    requires SSA(lines) && i in lines && j < |Args(i)| && Match(lines, s1, s2) && !PoisonText(Args(i)[j])
    requires !(j == 0 && UnusedOperand(i))
    ensures Eval(Args(i)[j], s1.regs, p1, t, site) == Eval(Args(i)[j], s2.regs, p2, t, site)
  {
    var o := Args(i)[j];
    match o
    case R(r) =>
      var v, w := Get(s1.regs, r), Get(s2.regs, r);
      assert SameSeen(lines, r, v, w);
      forall l | 0 <= l < |v| ensures v[l] == w[l] { ReadersSeeAll(lines, i, j, r, l); }
    case ConstVec(lanes, _) => assert forall l :: 0 <= l < |lanes| ==> lanes[l] != Poison;
    case _ =>
  }

  lemma SetMatches(lines: seq<Instr>, d: Reg, r1: map<Reg, Val>, r2: map<Reg, Val>, v: Val, w: Val)
    requires RegsMatch(lines, r1, r2) && SameSeen(lines, d, v, w)
    ensures RegsMatch(lines, r1[d := v], r2[d := w])
  {
    var n1, n2 := r1[d := v], r2[d := w];
    forall r ensures SameSeen(lines, r, Get(n1, r), Get(n2, r)) {
      assert SameSeen(lines, r, Get(r1, r), Get(r2, r));
    }
  }

  lemma BroadcastLanes(n: nat, a: Val, b: Val, u: nat -> int)
    ensures ShuffleLanes(n, a, b, ZeroMask, u) == seq(n, _ => At(a, 0))
  {
    var x := ShuffleLanes(n, a, b, ZeroMask, u);
    forall l | 0 <= l < n ensures x[l] == At(a, 0) {
      assert x[l] == Select(n, a, b, 0);
    }
  }

  /** A line the rewriting changes leaves the same value, or one that differs in ignored lanes. */
  lemma ChangedLine<M>(lines: seq<Instr>, i: Instr, m: Machine<M>, g: (nat, nat) -> int,
                       p1: Oracle, p2: Oracle, t: nat, s1: State<M>, s2: State<M>)
    requires SSA(lines) && i in lines && Recognized(lines, i) && HasPoison(i) && Match(lines, s1, s2)
    ensures Match(lines, Exec(i, EvalArgs(Args(i), s1.regs, p1, t, s1.block, s1.index), MaskLanes(p1, t, s1.block, s1.index), m, g, s1),
                         Exec(Zeroed(i), EvalArgs(Args(Zeroed(i)), s2.regs, p2, t, s2.block, s2.index), MaskLanes(p2, t, s2.block, s2.index), m, g, s2))
  {
    var v1 := EvalArgs(Args(i), s1.regs, p1, t, s1.block, s1.index);
    var v2 := EvalArgs(Args(Zeroed(i)), s2.regs, p2, t, s2.block, s2.index);
    if UnusedOperand(i) {
      var r := i.a.r;
      assert SameSeen(lines, r, Get(s1.regs, r), Get(s2.regs, r));
      assert At(v1[0], 0) == At(v2[0], 0);
      var u1, u2 := MaskLanes(p1, t, s1.block, s1.index), MaskLanes(p2, t, s2.block, s2.index);
      var x, y := ShuffleLanes(i.n, v1[0], v1[1], i.mask, u1), ShuffleLanes(i.n, v2[0], v2[1], i.mask, u2);
      BroadcastLanes(i.n, v1[0], v1[1], u1);
      BroadcastLanes(i.n, v2[0], v2[1], u2);
      SetMatches(lines, i.dst, s1.regs, s2.regs, x, y);
    } else {
      OperandMatches(lines, i, 1, s1, s2, p1, p2, t, Site(s1.block, s1.index, 1));
      assert v1[1] == v2[1];
      var x, y := InsertLane(i.n, v1[0], v1[1], i.lane), InsertLane(i.n, v2[0], v2[1], i.lane);
      if BroadcastOnly(lines, i) {
        assert forall l :: 0 < l < |x| ==> Ignored(lines, i.dst, l);
      } else {
        assert OverwrittenLane(i) && x == y;
      }
      SetMatches(lines, i.dst, s1.regs, s2.regs, x, y);
    }
  }

  lemma NotUnused(i: Instr)
    requires !HasPoison(i)
    ensures !UnusedOperand(i)
  {
    assert i.Shuffle? ==> !PoisonText(Args(i)[1]);
  }

  lemma KeptLine<M>(lines: seq<Instr>, i: Instr, m: Machine<M>, g: (nat, nat) -> int,
                    p1: Oracle, p2: Oracle, t: nat, s1: State<M>, s2: State<M>)
    requires SSA(lines) && i in lines && !HasPoison(i) && Match(lines, s1, s2)
    ensures Match(lines, Exec(i, EvalArgs(Args(i), s1.regs, p1, t, s1.block, s1.index), MaskLanes(p1, t, s1.block, s1.index), m, g, s1),
                         Exec(i, EvalArgs(Args(i), s2.regs, p2, t, s2.block, s2.index), MaskLanes(p2, t, s2.block, s2.index), m, g, s2))
  {
    var v1 := EvalArgs(Args(i), s1.regs, p1, t, s1.block, s1.index);
    var v2 := EvalArgs(Args(i), s2.regs, p2, t, s2.block, s2.index);
    forall j | 0 <= j < |v1| ensures v1[j] == v2[j] {
      assert !PoisonText(Args(i)[j]);
      NotUnused(i);
      OperandMatches(lines, i, j, s1, s2, p1, p2, t, Site(s1.block, s1.index, j));
    }
    assert v1 == v2;
    match i
    case Insert(d, n, _, _, lane) =>
      SetMatches(lines, d, s1.regs, s2.regs, InsertLane(n, v1[0], v1[1], lane), InsertLane(n, v1[0], v1[1], lane));
    case Shuffle(d, n, _, _, mask) =>
      var x := ShuffleLanes(n, v1[0], v1[1], mask, MaskLanes(p1, t, s1.block, s1.index));
      assert x == ShuffleLanes(n, v1[0], v1[1], mask, MaskLanes(p2, t, s2.block, s2.index));
      SetMatches(lines, d, s1.regs, s2.regs, x, x);
    case Value(d, op, _) =>
      SetMatches(lines, d, s1.regs, s2.regs, m.value(op, v1, s1.mem), m.value(op, v1, s1.mem));
    case Load(d, k, n) => SetMatches(lines, d, s1.regs, s2.regs, Loaded(g, k, n), Loaded(g, k, n));
    case _ =>
  }

  /** When the rewriting succeeds, original and rewritten function run in step: same path, same memory,
      same registers, except lanes above 0 of an insertelement consumed only by a lane-0 broadcast,
      whatever value poison takes in either. */
  lemma {:induction false} ZeroingPreserves<M>(prog: Program, m: Machine<M>, g: (nat, nat) -> int,
                                               p: Oracle, p': Oracle, s: State<M>, n: nat)
    requires SSA(AllLines(prog)) && forall i :: i in AllLines(prog) ==> Recognized(AllLines(prog), i)
    ensures Match(AllLines(prog), Run(prog, m, g, p, s, n), Run(ZeroedProg(prog), m, g, p', s, n))
  {
    hide Step, AllLines, ZeroedProg, SSA, Recognized, RegsMatch;
    if n > 0 {
      ZeroingPreserves(prog, m, g, p, p', s, n - 1);
      StepMatches(prog, m, g, p, p', n - 1, Run(prog, m, g, p, s, n - 1), Run(ZeroedProg(prog), m, g, p', s, n - 1));
    } else {
      MatchRefl(AllLines(prog), s);
    }
  }

  lemma MatchRefl<M>(lines: seq<Instr>, s: State<M>)
    ensures Match(lines, s, s)
  {
  }

  lemma StepMatches<M>(prog: Program, m: Machine<M>, g: (nat, nat) -> int, p: Oracle, p': Oracle, t: nat, s1: State<M>, s2: State<M>)
    requires SSA(AllLines(prog)) && forall i :: i in AllLines(prog) ==> Recognized(AllLines(prog), i)
    requires Match(AllLines(prog), s1, s2)
    ensures Match(AllLines(prog), Step(prog, m, g, p, t, s1), Step(ZeroedProg(prog), m, g, p', t, s2))
  {
    hide Exec, EvalArgs, AllLines, SSA, Recognized, RegsMatch, HasPoison, Zeroed;
    if Running(prog, s1) {
      var i := prog[s1.block][s1.index];
      LineOfProgram(prog, s1.block, s1.index);
      assert ZeroedProg(prog)[s2.block][s2.index] == Zeroed(i);
      if HasPoison(i) {
        ChangedLine(AllLines(prog), i, m, g, p, p', t, s1, s2);
      } else {
        NoPoisonSame(i);
        KeptLine(AllLines(prog), i, m, g, p, p', t, s1, s2);
      }
    }
  }

  /** The result has no poison left. */
  lemma NothingLeft(lines: seq<Instr>, i: Instr)
    requires Recognized(lines, i)
    ensures !HasPoison(Zeroed(i))
  {
    var z := Zeroed(i);
    if HasPoison(i) {
      forall j | 0 <= j < |Args(z)| ensures !PoisonText(Args(z)[j]) {
      }
    } else {
      NoPoisonSame(i);
    }
  }

  // ---------- the rewritten function is the original with poison read as zero ----------

  function AllZero(): Oracle { (t: nat, s: Site, l: nat) => 0 }

  lemma OperandZeroed(i: Instr, j: nat, regs: map<Reg, Val>, p: Oracle, t: nat, site: Site)
    requires j < |Args(i)| && (InsertIntoPoison(i) || UnusedOperand(i) || OverwrittenLane(i) || !HasPoison(i))
    ensures |Args(Zeroed(i))| == |Args(i)|
    ensures Eval(Args(Zeroed(i))[j], regs, p, t, site) == Eval(Args(i)[j], regs, AllZero(), t, site)
  {
    if !HasPoison(i) {
      NoPoisonSame(i);
      assert !PoisonText(Args(i)[j]);
      if Args(i)[j].ConstVec? { assert forall l :: 0 <= l < |Args(i)[j].lanes| ==> Args(i)[j].lanes[l] != Poison; }
    }
  }

  lemma LineZeroed<M>(i: Instr, m: Machine<M>, g: (nat, nat) -> int, p: Oracle, t: nat, s: State<M>)
    requires InsertIntoPoison(i) || UnusedOperand(i) || OverwrittenLane(i) || !HasPoison(i)
    ensures Exec(Zeroed(i), EvalArgs(Args(Zeroed(i)), s.regs, p, t, s.block, s.index), MaskLanes(p, t, s.block, s.index), m, g, s)
      == Exec(i, EvalArgs(Args(i), s.regs, AllZero(), t, s.block, s.index), MaskLanes(AllZero(), t, s.block, s.index), m, g, s)
  {
    hide Eval;
    var v := EvalArgs(Args(Zeroed(i)), s.regs, p, t, s.block, s.index);
    var w := EvalArgs(Args(i), s.regs, AllZero(), t, s.block, s.index);
    assert |v| == |w|;
    forall j | 0 <= j < |v| ensures v[j] == w[j] { OperandZeroed(i, j, s.regs, p, t, Site(s.block, s.index, j)); }
    assert v == w;
    if i.Shuffle? {
      var u, u' := MaskLanes(p, t, s.block, s.index), MaskLanes(AllZero(), t, s.block, s.index);
      assert !MaskPoison(i.mask);
      assert i.mask.Lanes? ==> forall l :: 0 <= l < |i.mask.sel| ==> i.mask.sel[l] != Poison;
      assert ShuffleLanes(i.n, v[0], v[1], i.mask, u) == ShuffleLanes(i.n, w[0], w[1], i.mask, u');
    }
  }

  /** Every poison placeholder is zero now, and nothing else has changed: on every run, whatever poison is in the one, the
      rewritten function is the original with all its poison read as zero. */
  lemma {:induction false} ZeroedIsZero<M>(prog: Program, m: Machine<M>, g: (nat, nat) -> int, p: Oracle, s: State<M>, n: nat)
    requires forall i :: i in AllLines(prog) ==> Recognized(AllLines(prog), i)
    ensures Run(ZeroedProg(prog), m, g, p, s, n) == Run(prog, m, g, AllZero(), s, n)
  {
    hide Exec, EvalArgs, AllLines, HasPoison;
    if n > 0 {
      ZeroedIsZero(prog, m, g, p, s, n - 1);
      var s1 := Run(prog, m, g, AllZero(), s, n - 1);
      if Running(prog, s1) {
        var i := prog[s1.block][s1.index];
        LineOfProgram(prog, s1.block, s1.index);
        assert ZeroedProg(prog)[s1.block][s1.index] == Zeroed(i);
        LineZeroed(i, m, g, p, n - 1, s1);
      }
    }
  }

  /** The three shapes, and a line without poison, are recognized. */
  lemma ShapesRecognized(lines: seq<Instr>, d: Reg, e: Reg, n: nat, bits: nat, elt: Operand, rest: seq<int>)
    requires elt.R? || elt.Scalar?
    ensures Shuffle(e, n, R(d), PoisonVec(n, bits), ZeroMask) in lines && Uses(lines, d) == [Some(e)]
      ==> Recognized(lines, Insert(d, n, PoisonVec(n, bits), elt, 0))
    ensures Recognized(lines, Shuffle(e, n, R(d), PoisonVec(n, bits), ZeroMask))
    ensures rest != [] ==> Recognized(lines,
      Insert(d, |rest| + 1, ConstVec([Poison] + seq(|rest|, k requires 0 <= k < |rest| => Def(rest[k])), bits), elt, 0))
  {
    if rest != [] {
      var lanes := [Poison] + seq(|rest|, k requires 0 <= k < |rest| => Def(rest[k]));
      assert OverwrittenLane(Insert(d, |rest| + 1, ConstVec(lanes, bits), elt, 0));
    }
    var w := Shuffle(e, n, R(d), PoisonVec(n, bits), ZeroMask);
    if w in lines && Uses(lines, d) == [Some(e)] {
      assert Broadcast(w, d, n) && Uses(lines, d) == [Dst(w)];
      assert BroadcastOnly(lines, Insert(d, n, PoisonVec(n, bits), elt, 0));
    }
  }
}
