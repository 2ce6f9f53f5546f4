/** The rewritten function simulates the original: loading poison lanes from globals is one way of
    choosing them. */
module RewriteSound {
  import opened LaneIr
  import opened PoisonCheck
  import opened PoisonSound
  import opened PoisonRewrite

  type Globals = (nat, nat) -> int

  // ---------- straight-line preludes ----------

  /** Instructions the rewriter adds: loads within a global, and insertelements of constants into registers. */
  predicate Added(i: Instr) {
    (i.Load? && i.n <= LANES) || (i.Insert? && i.base.R? && i.elt.Scalar?)
  }

  function ExecAdded(i: Instr, regs: map<Reg, Val>, g: Globals): map<Reg, Val>
    requires Added(i)
  {
    match i
    case Load(d, k, n) => regs[d := Loaded(g, k, n)]
    case Insert(d, n, base, elt, lane) => regs[d := InsertLane(n, Get(regs, base.r), [elt.v], lane)]
  }

  function ExecAll(pre: seq<Instr>, regs: map<Reg, Val>, g: Globals): map<Reg, Val>
    requires forall i :: i in pre ==> Added(i)
  {
    if pre == [] then regs
    else
      assert pre[|pre| - 1] in pre;
      assert forall i :: i in pre[..|pre| - 1] ==> i in pre;
      ExecAdded(pre[|pre| - 1], ExecAll(pre[..|pre| - 1], regs, g), g)
  }

  lemma ExecSnoc(a: seq<Instr>, i: Instr, regs: map<Reg, Val>, g: Globals)
    requires (forall x :: x in a ==> Added(x)) && Added(i)
    ensures (forall x :: x in a + [i] ==> Added(x)) && ExecAll(a + [i], regs, g) == ExecAdded(i, ExecAll(a, regs, g), g)
  {
    var all := a + [i];
    assert all[..|all| - 1] == a && all[|all| - 1] == i;
  }

  lemma {:induction false} ExecConcat(a: seq<Instr>, b: seq<Instr>, regs: map<Reg, Val>, g: Globals)
    requires forall i :: i in a ==> Added(i)
    requires forall i :: i in b ==> Added(i)
    ensures forall i :: i in a + b ==> Added(i)
    ensures ExecAll(a + b, regs, g) == ExecAll(b, ExecAll(a, regs, g), g)
  {
    if b == [] {
      assert a + b == a;
    } else {
      var init, last := b[..|b| - 1], b[|b| - 1];
      assert (a + b)[..|a + b| - 1] == a + init && (a + b)[|a + b| - 1] == last;
      assert forall i :: i in init ==> i in b;
      ExecConcat(a, init, regs, g);
    }
  }

  /** Running the added lines, from any point of a run. */
  lemma {:induction false} RunAdded<M>(prog: Program, m: Machine<M>, g: Globals, p: Oracle, s0: State<M>, c: nat, pre: seq<Instr>)
    requires forall i :: i in pre ==> Added(i)
    requires var s := Run(prog, m, g, p, s0, c);
      !s.outside && s.block < |prog| && s.index + |pre| <= |prog[s.block]|
      && prog[s.block][s.index..s.index + |pre|] == pre
    ensures var s := Run(prog, m, g, p, s0, c);
      Run(prog, m, g, p, s0, c + |pre|) == s.(index := s.index + |pre|, regs := ExecAll(pre, s.regs, g))
    decreases |pre|
  {
    hide Run, Step, ExecAdded;
    if pre != [] {
      var s := Run(prog, m, g, p, s0, c);
      var init, last := pre[..|pre| - 1], pre[|pre| - 1];
      assert forall i :: i in init ==> i in pre;
      assert last in pre;
      assert prog[s.block][s.index..s.index + |init|] == init;
      RunAdded(prog, m, g, p, s0, c, init);
      var s1 := Run(prog, m, g, p, s0, c + |init|);
      assert prog[s1.block][s1.index] == last;
      StepAdded(prog, m, g, p, c + |init|, s1, last);
      RunOne(prog, m, g, p, s0, c + |init|);
    }
  }

  lemma StepAdded<M>(prog: Program, m: Machine<M>, g: Globals, p: Oracle, t: nat, s: State<M>, i: Instr)
    requires Added(i) && Running(prog, s) && prog[s.block][s.index] == i
    ensures Step(prog, m, g, p, t, s) == s.(index := s.index + 1, regs := ExecAdded(i, s.regs, g))
  {
    var v := EvalArgs(Args(i), s.regs, p, t, s.block, s.index);
    if i.Insert? {
      assert v[0] == Get(s.regs, i.base.r) && v[1] == [i.elt.v];
    }
  }

  // ---------- what the added lines compute ----------

  /** The operand's value when its poison lanes are those of global k. */
  function Filled(o: Operand, g: Globals, k: nat): Val {
    match o
    case PoisonVec(n, _) => Loaded(g, k, n)
    case ConstVec(lanes, _) =>
      seq(|lanes|, l requires 0 <= l < |lanes| => if lanes[l].Def? then lanes[l].v else g(k, l))
    case _ => []
  }

  function Partial(lanes: seq<Lane>, n: nat, g: Globals, k: nat, li: nat): Val
    requires li <= |lanes|
  {
    seq(n, l requires 0 <= l < n => if l < li && lanes[l].Def? then lanes[l].v else g(k, l))
  }

  /** Only temporaries of global k changed. */
  ghost predicate OnlyTemps(before: map<Reg, Val>, after: map<Reg, Val>, k: nat) {
    forall r: Reg :: !(r.Temp? && r.k == k) ==> Get(after, r) == Get(before, r)
  }

  lemma {:induction false} ReinsertedValue(lanes: seq<Lane>, k: nat, li: nat, regs: map<Reg, Val>, g: Globals)
    requires li <= |lanes| && Get(regs, Temp(k, 0)) == Partial(lanes, |lanes|, g, k, 0)
    ensures forall i :: i in Reinserted(lanes, k, li) ==> Added(i)
    ensures var after := ExecAll(Reinserted(lanes, k, li), regs, g);
      Get(after, LastReg(lanes, k, li)) == Partial(lanes, |lanes|, g, k, li) && OnlyTemps(regs, after, k)
    ensures LastReg(lanes, k, li).Temp? && LastReg(lanes, k, li).k == k
  {
    hide ExecAll;
    ExecNothing(regs, g);
    if li > 0 {
      ReinsertedValue(lanes, k, li - 1, regs, g);
      var before := Reinserted(lanes, k, li - 1);
      if lanes[li - 1].Def? {
        ExecSnoc(before, Insert(Temp(k, li), |lanes|, R(LastReg(lanes, k, li - 1)), Scalar(lanes[li - 1].v), li - 1), regs, g);
        assert InsertLane(|lanes|, Partial(lanes, |lanes|, g, k, li - 1), [lanes[li - 1].v], li - 1)
            == Partial(lanes, |lanes|, g, k, li);
      } else {
        assert Reinserted(lanes, k, li) == before;
        assert Partial(lanes, |lanes|, g, k, li - 1) == Partial(lanes, |lanes|, g, k, li);
      }
    }
  }

  lemma ExecNothing(regs: map<Reg, Val>, g: Globals)
    ensures ExecAll([], regs, g) == regs
  {
  }

  /** The lines for one operand leave its filled value in the register that replaces it. */
  lemma PreludeValue(o: Operand, k: nat, regs: map<Reg, Val>, g: Globals)
    requires Rewritable(o) && Width(o) <= LANES
    ensures forall i :: i in Prelude(o, k) ==> Added(i)
    ensures Replacement(o, k).R? && Replacement(o, k).r.Temp? && Replacement(o, k).r.k == k
    ensures var after := ExecAll(Prelude(o, k), regs, g);
      Get(after, Replacement(o, k).r) == Filled(o, g, k) && OnlyTemps(regs, after, k)
  {
    var load := [Load(Temp(k, 0), k, Width(o))];
    var lanes := KnownLanes(o);
    ExecNothing(regs, g);
    ExecSnoc([], Load(Temp(k, 0), k, Width(o)), regs, g);
    assert [] + load == load;
    var mid := ExecAll(load, regs, g);
    assert mid == regs[Temp(k, 0) := Loaded(g, k, Width(o))];
    if o.ConstVec? {
      assert Get(mid, Temp(k, 0)) == Partial(lanes, |lanes|, g, k, 0);
      ReinsertedValue(lanes, k, |lanes|, mid, g);
      ExecConcat(load, Reinserted(lanes, k, |lanes|), regs, g);
      assert Partial(lanes, |lanes|, g, k, |lanes|) == Filled(o, g, k);
    } else {
      assert Prelude(o, k) == load;
    }
  }

  /** Only temporaries numbered k or more changed. */
  ghost predicate OnlyTempsFrom(before: map<Reg, Val>, after: map<Reg, Val>, k: nat) {
    forall r: Reg :: !(r.Temp? && r.k >= k) ==> Get(after, r) == Get(before, r)
  }

  /** No register of the original text is one of the rewriter's names. */
  predicate SourceNames(args: seq<Operand>) {
    forall j :: 0 <= j < |args| && args[j].R? ==> args[j].r.Named?
  }

  /** Value of operand j once the lines for all operands of its line have run. */
  ghost predicate ArgReady(args: seq<Operand>, k: nat, j: nat, after: map<Reg, Val>, g: Globals)
    requires j < |args|
  {
    if Rewritable(args[j])
    then NewArgs(args, k)[j].R? && Get(after, NewArgs(args, k)[j].r) == Filled(args[j], g, k + Count(args[..j]))
         && NewArgs(args, k)[j].r.Temp? && NewArgs(args, k)[j].r.k < k + Count(args)
    else NewArgs(args, k)[j] == args[j]
  }

  /** Every rewritten operand of a line fits the globals the rewriter declares. */
  predicate Narrow(args: seq<Operand>) {
    forall j :: 0 <= j < |args| && Rewritable(args[j]) ==> Width(args[j]) <= LANES
  }

  lemma {:induction false} ArgsValue(args: seq<Operand>, k: nat, regs: map<Reg, Val>, g: Globals)
    requires Narrow(args)
    ensures forall i :: i in ArgsPrelude(args, k) ==> Added(i)
    ensures OnlyTempsFrom(regs, ExecAll(ArgsPrelude(args, k), regs, g), k)
    ensures forall j :: 0 <= j < |args| ==> ArgReady(args, k, j, ExecAll(ArgsPrelude(args, k), regs, g), g)
  {
    hide ExecAll, Prelude, Replacement, Rewritable;
    ExecNothing(regs, g);
    if args != [] {
      var n := |args| - 1;
      var init, last := args[..n], args[n];
      ArgsValue(init, k, regs, g);
      var mid := ExecAll(ArgsPrelude(init, k), regs, g);
      var k' := k + Count(init);
      if Rewritable(last) {
        PreludeValue(last, k', mid, g);
        ExecConcat(ArgsPrelude(init, k), Prelude(last, k'), regs, g);
      } else {
        assert ArgsPrelude(args, k) == ArgsPrelude(init, k);
      }
      var after := ExecAll(ArgsPrelude(args, k), regs, g);
      forall j | 0 <= j < |args| ensures ArgReady(args, k, j, after, g) {
        if j < n {
          assert ArgReady(init, k, j, mid, g);
          ArgReadyLater(args, k, j, mid, after, g);
        }
      }
    }
  }

  lemma ArgReadyLater(args: seq<Operand>, k: nat, j: nat, mid: map<Reg, Val>, after: map<Reg, Val>, g: Globals)
    requires j < |args| - 1 && ArgReady(args[..|args| - 1], k, j, mid, g)
    requires OnlyTempsFrom(mid, after, k + Count(args[..|args| - 1]))
    ensures ArgReady(args, k, j, after, g)
  {
    assert args[..|args| - 1][..j] == args[..j];
  }

  // ---------- simulation ----------

  /** Number of the global that replaces the operand at a site. */
  function GlobalOf(prog: Program, site: Site): nat {
    if site.block < |prog| && site.index < |prog[site.block]| && site.arg <= |Args(prog[site.block][site.index])| then
      ProgCount(prog[..site.block]) + BlockCount(prog[site.block][..site.index])
      + Count(Args(prog[site.block][site.index])[..site.arg])
    else 0
  }

  /** The choice of poison lanes that reads every lane from the operand's own global. */
  function FromGlobals(prog: Program, g: Globals): Oracle {
    (t: nat, site: Site, l: nat) => g(GlobalOf(prog, site), l)
  }

  /** Line of the rewritten block where line i of block b begins. */
  function Offset(prog: Program, b: nat, i: nat): nat
    requires b < |prog| && i <= |prog[b]|
  {
    |RewriteBlock(prog[b][..i], ProgCount(prog[..b]))|
  }

  ghost predicate NamedEqual(r: map<Reg, Val>, r': map<Reg, Val>) {
    forall n :: Get(r', Named(n)) == Get(r, Named(n))
  }

  /** A state of the rewritten function that stands for a state of the original. */
  ghost predicate Related<M>(prog: Program, s: State<M>, s': State<M>) {
    && s'.block == s.block && s'.mem == s.mem && s'.outside == s.outside && NamedEqual(s.regs, s'.regs)
    && (if s.block < |prog| then s.index <= |prog[s.block]| && s'.index == Offset(prog, s.block, s.index)
        else s'.index == s.index)
  }

  /** The parsed text: source register names only, and no load of a rewriter's global. */
  ghost predicate SourceText(lines: seq<Instr>) {
    forall i :: i in lines ==> SourceNames(Args(i)) && !i.Load? && (Dst(i).Some? ==> Dst(i).value.Named?)
  }

  /** A vector of 32-bit or of 64-bit lanes. */
  predicate Vector32or64(o: Operand) { (o.PoisonVec? || o.ConstVec?) && (o.bits == 32 || o.bits == 64) }

  /** What the rewriter's last checks demand of the text: poison only in vectors of 32-bit or 64-bit lanes, and in no
      shuffle mask. */
  ghost predicate NoPoisonLeft(lines: seq<Instr>) {
    && (forall i, j :: i in lines && 0 <= j < |Args(i)| && HasPoisonLane(Args(i)[j]) ==> Vector32or64(Args(i)[j]))
    && (forall i :: i in lines && i.Shuffle? ==> !MaskPoison(i.mask))
  }

  /** No such vector is wider than the globals the rewriter declares. */
  ghost predicate NarrowPoison(lines: seq<Instr>) {
    forall i, j :: i in lines && 0 <= j < |Args(i)| && HasPoisonLane(Args(i)[j]) && Vector32or64(Args(i)[j])
      ==> Width(Args(i)[j]) <= LANES
  }

  /** These vectors are the operands that are rewritten. */
  lemma RewrittenAre(o: Operand)
    ensures HasPoisonLane(o) && Vector32or64(o) ==> Rewritable(o)
    ensures Rewritable(o) ==> Vector32or64(o) && (Width(o) == 0 || HasPoisonLane(o))
  {
    if HasPoisonLane(o) { var l: nat :| PoisonLane(o, l); }
    if Rewritable(o) && o.PoisonVec? && o.n > 0 { assert PoisonLane(o, 0); }
    if Rewritable(o) && o.ConstVec? {
      var i :| 0 <= i < |o.lanes| && o.lanes[i] == Poison;
      assert PoisonLane(o, i);
    }
  }

  lemma NarrowIs(lines: seq<Instr>)
    ensures NarrowPoison(lines) <==> forall i :: i in lines ==> Narrow(Args(i))
  {
    hide HasPoisonLane, Vector32or64, Rewritable;
    forall i, j | i in lines && 0 <= j < |Args(i)|
      ensures HasPoisonLane(Args(i)[j]) && Vector32or64(Args(i)[j]) ==> Rewritable(Args(i)[j])
      ensures Rewritable(Args(i)[j]) && Width(Args(i)[j]) > LANES ==> HasPoisonLane(Args(i)[j]) && Vector32or64(Args(i)[j])
    {
      RewrittenAre(Args(i)[j]);
    }
  }

  /** Typing: what an insertelement inserts is a scalar. */
  ghost predicate ScalarElements(lines: seq<Instr>) {
    forall i :: i in lines && i.Insert? ==> i.elt.R? || i.elt.Scalar? || i.elt.PoisonScalar?
  }

  /** The check ignores a scalar poison element; the rewriter's last check does not. */
  lemma NoScalarPoisonLeft(lines: seq<Instr>)
    requires NoPoisonLeft(lines) && ScalarElements(lines)
    ensures ElementsClean(lines)
  {
    forall i | i in lines && i.Insert? ensures !PoisonLane(i.elt, 0) {
      assert Args(i)[1] == i.elt;
      if PoisonLane(i.elt, 0) { assert HasPoisonLane(i.elt); }
    }
  }

  lemma {:induction false} BlockPrefix(block: seq<Instr>, k: nat, i: nat)
    requires i <= |block|
    ensures RewriteBlock(block[..i], k) <= RewriteBlock(block, k)
    decreases |block|
  {
    if i < |block| {
      var init := block[..|block| - 1];
      assert init[..i] == block[..i];
      BlockPrefix(init, k, i);
    } else {
      assert block[..i] == block;
    }
  }

  lemma NextLine(block: seq<Instr>, k: nat, i: nat)
    requires i < |block|
    ensures RewriteBlock(block[..i + 1], k)
         == RewriteBlock(block[..i], k) + RewriteLine(block[i], k + BlockCount(block[..i]))
  {
    hide RewriteLine, Count;
    var upto := block[..i + 1];
    assert upto[..|upto| - 1] == block[..i] && upto[|upto| - 1] == block[i];
  }

  lemma LineInBlock(block: seq<Instr>, k: nat, i: nat)
    requires i < |block|
    ensures var line := RewriteLine(block[i], k + BlockCount(block[..i]));
      var off := |RewriteBlock(block[..i], k)|;
      && off + |line| <= |RewriteBlock(block, k)|
      && RewriteBlock(block, k)[off..off + |line|] == line
  {
    hide RewriteBlock, RewriteLine, BlockCount;
    NextLine(block, k, i);
    BlockPrefix(block, k, i + 1);
  }

  lemma FilledIsEval(o: Operand, regs: map<Reg, Val>, g: Globals, k: nat, p: Oracle, t: nat, site: Site)
    requires Rewritable(o) && forall l: nat :: p(t, site, l) == g(k, l)
    ensures Eval(o, regs, p, t, site) == Filled(o, g, k)
  {
  }

  lemma SameWithoutPoison(o: Operand, r: map<Reg, Val>, r': map<Reg, Val>, p: Oracle, p': Oracle, t: nat, t': nat, x: Site, x': Site)
    requires !HasPoisonLane(o) && NamedEqual(r, r') && (o.R? ==> o.r.Named?)
    ensures Eval(o, r, p, t, x) == Eval(o, r', p', t', x')
  {
    if o.ConstVec? {
      forall i | 0 <= i < |o.lanes| ensures o.lanes[i] != Poison { assert !PoisonLane(o, i); }
    } else {
      assert !PoisonLane(o, 0);
    }
  }

  /** The operands of the rewritten line have the values of the original's. */
  lemma ArgsSameValue(prog: Program, b: nat, i: nat, g: Globals, p: Oracle, t: nat, t': nat, i': nat,
                      regs: map<Reg, Val>, regs': map<Reg, Val>)
    requires b < |prog| && i < |prog[b]| && NamedEqual(regs, regs') && Narrow(Args(prog[b][i]))
    requires SourceText(AllLines(prog)) && NoPoisonLeft(AllLines(prog))
    ensures var ins := prog[b][i];
      var k := ProgCount(prog[..b]) + BlockCount(prog[b][..i]);
      (forall x :: x in ArgsPrelude(Args(ins), k) ==> Added(x)) &&
      var after := ExecAll(ArgsPrelude(Args(ins), k), regs', g);
      && EvalArgs(NewArgs(Args(ins), k), after, p, t', b, i') == EvalArgs(Args(ins), regs, FromGlobals(prog, g), t, b, i)
      && NamedEqual(regs, after)
  {
    hide Eval, Filled, HasPoisonLane, Rewritable, Vector32or64;
    var ins := prog[b][i];
    var args := Args(ins);
    var k := ProgCount(prog[..b]) + BlockCount(prog[b][..i]);
    LineOfProgram(prog, b, i);
    ArgsValue(args, k, regs', g);
    var after := ExecAll(ArgsPrelude(args, k), regs', g);
    assert NamedEqual(regs, after);
    var v, v' := EvalArgs(args, regs, FromGlobals(prog, g), t, b, i), EvalArgs(NewArgs(args, k), after, p, t', b, i');
    forall j | 0 <= j < |args| ensures v'[j] == v[j] {
      assert ArgReady(args, k, j, after, g);
      assert ins in AllLines(prog) && (HasPoisonLane(args[j]) ==> Vector32or64(args[j]));
      RewrittenAre(args[j]);
      ArgSameValue(prog, b, i, j, g, p, t, t', i', regs, after);
    }
  }

  lemma ArgSameValue(prog: Program, b: nat, i: nat, j: nat, g: Globals, p: Oracle, t: nat, t': nat, i': nat,
                     regs: map<Reg, Val>, after: map<Reg, Val>)
    requires b < |prog| && i < |prog[b]| && j < |Args(prog[b][i])| && NamedEqual(regs, after)
    requires var args := Args(prog[b][i]);
      && ArgReady(args, ProgCount(prog[..b]) + BlockCount(prog[b][..i]), j, after, g)
      && (HasPoisonLane(args[j]) ==> Rewritable(args[j])) && (args[j].R? ==> args[j].r.Named?)
    ensures var args := Args(prog[b][i]);
      Eval(NewArgs(args, ProgCount(prog[..b]) + BlockCount(prog[b][..i]))[j], after, p, t', Site(b, i', j))
      == Eval(args[j], regs, FromGlobals(prog, g), t, Site(b, i, j))
  {
    hide Eval, Filled, HasPoisonLane, Rewritable, NewArgs, Count, ProgCount, BlockCount;
    var args := Args(prog[b][i]);
    var k := ProgCount(prog[..b]) + BlockCount(prog[b][..i]);
    var site := Site(b, i, j);
    if Rewritable(args[j]) {
      EvalRegister(NewArgs(args, k)[j], after, p, t', Site(b, i', j));
      assert GlobalOf(prog, site) == k + Count(args[..j]);
      FilledIsEval(args[j], regs, g, k + Count(args[..j]), FromGlobals(prog, g), t, site);
    } else {
      SameWithoutPoison(args[j], regs, after, FromGlobals(prog, g), p, t, t', site, Site(b, i', j));
    }
  }

  lemma EvalRegister(o: Operand, regs: map<Reg, Val>, p: Oracle, t: nat, site: Site)
    requires o.R?
    ensures Eval(o, regs, p, t, site) == Get(regs, o.r)
  {
  }

  lemma ExecSame<M>(i: Instr, args: seq<Operand>, v: seq<Val>, u: nat -> int, u': nat -> int, m: Machine<M>, g: Globals,
                    s: State<M>, s': State<M>)
    requires |args| == |Args(i)| == |v| && (i.Shuffle? ==> !MaskPoison(i.mask)) && !i.Load? && (Dst(i).Some? ==> Dst(i).value.Named?)
    requires s'.block == s.block && s'.mem == s.mem && s'.outside == s.outside && NamedEqual(s.regs, s'.regs)
    ensures var e, e' := Exec(i, v, u, m, g, s), Exec(WithArgs(i, args), v, u', m, g, s');
      && e'.block == e.block && e'.mem == e.mem && e'.outside == e.outside && NamedEqual(e.regs, e'.regs)
      && (if i.Jump? then e.index == e'.index == 0 else e.index == s.index + 1 && e'.index == s'.index + 1)
      && (!i.Jump? ==> e.block == s.block)
  {
    if i.Shuffle? { SameShuffle(i, v[0], v[1], v[1], u, u'); }
  }

  /** Where line i of block b and the lines added for it stand in the rewritten text. */
  lemma LineAt(prog: Program, b: nat, i: nat)
    requires b < |prog| && i < |prog[b]|
    ensures var k := ProgCount(prog[..b]) + BlockCount(prog[b][..i]);
      var pre := ArgsPrelude(Args(prog[b][i]), k);
      var off := Offset(prog, b, i);
      var q := RewriteProg(prog);
      && off + |pre| + 1 <= |q[b]|
      && q[b][off..off + |pre|] == pre
      && q[b][off + |pre|] == WithArgs(prog[b][i], NewArgs(Args(prog[b][i]), k))
      && Offset(prog, b, i + 1) == off + |pre| + 1
  {
    hide RewriteBlock, ArgsPrelude, NewArgs, BlockCount, ProgCount;
    var k0 := ProgCount(prog[..b]);
    var k := k0 + BlockCount(prog[b][..i]);
    LineInBlock(prog[b], k0, i);
    NextLine(prog[b], k0, i);
    var all, off := RewriteBlock(prog[b], k0), Offset(prog, b, i);
    var line := RewriteLine(prog[b][i], k);
    var pre := ArgsPrelude(Args(prog[b][i]), k);
    assert RewriteProg(prog)[b] == all;
    assert all[off..off + |pre|] == all[off..off + |line|][..|pre|] == line[..|pre|] == pre;
    assert all[off + |pre|] == all[off..off + |line|][|pre|] == line[|pre|];
  }

  /** One step of the original is the added lines and the rewritten line. */
  lemma StepSimulated<M>(prog: Program, m: Machine<M>, g: Globals, p: Oracle, t: nat, s: State<M>, s0': State<M>, c: nat)
    returns (c': nat)
    requires SourceText(AllLines(prog)) && NoPoisonLeft(AllLines(prog)) && Running(prog, s)
    requires Narrow(Args(prog[s.block][s.index]))
    requires Related(prog, s, Run(RewriteProg(prog), m, g, p, s0', c))
    ensures c' > c
    ensures Related(prog, Step(prog, m, g, FromGlobals(prog, g), t, s), Run(RewriteProg(prog), m, g, p, s0', c'))
  {
    hide Run, NewArgs, ArgsPrelude, ExecAll, Exec, FromGlobals, EvalArgs, Offset, RewriteProg, BlockCount, ProgCount;
    var q := RewriteProg(prog);
    var s' := Run(q, m, g, p, s0', c);
    var b, i := s.block, s.index;
    var ins := prog[b][i];
    var k := ProgCount(prog[..b]) + BlockCount(prog[b][..i]);
    var pre := ArgsPrelude(Args(ins), k);
    LineOfProgram(prog, b, i);
    LineAt(prog, b, i);
    ArgsSameValue(prog, b, i, g, p, t, c + |pre|, s'.index + |pre|, s.regs, s'.regs);
    RunAdded(q, m, g, p, s0', c, pre);
    RunOne(q, m, g, p, s0', c + |pre|);
    c' := c + |pre| + 1;
    ExecSame(ins, NewArgs(Args(ins), k), EvalArgs(Args(ins), s.regs, FromGlobals(prog, g), t, b, i),
             MaskLanes(FromGlobals(prog, g), t, b, i), MaskLanes(p, c + |pre|, b, s'.index + |pre|), m, g,
             s, Run(q, m, g, p, s0', c + |pre|));
    StartOffset(prog, Step(prog, m, g, FromGlobals(prog, g), t, s).block);
  }

  lemma StartOffset(prog: Program, b: nat)
    ensures b < |prog| ==> Offset(prog, b, 0) == 0
  {
  }

  lemma EmptyBlock()
    ensures forall k :: RewriteBlock([], k) == []
  {
  }

  lemma RelatedAtStart<M>(prog: Program, s: State<M>)
    requires s.index == 0
    ensures Related(prog, s, s)
  {
    EmptyBlock();
    if s.block < |prog| { assert prog[s.block][..0] == []; }
  }

  lemma Stuck<M>(prog: Program, m: Machine<M>, g: Globals, p: Oracle, t: nat, s: State<M>)
    requires !Running(prog, s)
    ensures Step(prog, m, g, p, t, s) == s
  {
  }

  /** For every number of steps of the original with its poison lanes taken from the globals there is a
      number of steps of the rewritten function that reaches the same point with the same registers. */
  lemma {:induction false} RewriteSimulates<M>(prog: Program, m: Machine<M>, g: Globals, p: Oracle, s: State<M>, n: nat)
    returns (c: nat)
    requires SourceText(AllLines(prog)) && NoPoisonLeft(AllLines(prog)) && NarrowPoison(AllLines(prog)) && s.index == 0
    ensures c >= n || !Running(prog, Run(prog, m, g, FromGlobals(prog, g), s, n))
    ensures Related(prog, Run(prog, m, g, FromGlobals(prog, g), s, n), Run(RewriteProg(prog), m, g, p, s, c))
  {
    NarrowIs(AllLines(prog));
    hide Step, RewriteProg, FromGlobals, AllLines, Narrow, SourceText, NoPoisonLeft, NarrowPoison, Related;
    if n == 0 {
      c := 0;
      RelatedAtStart(prog, s);
    } else {
      c := RewriteSimulates(prog, m, g, p, s, n - 1);
      var s1 := Run(prog, m, g, FromGlobals(prog, g), s, n - 1);
      if Running(prog, s1) {
        LineOfProgram(prog, s1.block, s1.index);
        c := StepSimulated(prog, m, g, p, n - 1, s1, s, c);
      } else {
        Stuck(prog, m, g, FromGlobals(prog, g), n - 1, s1);
      }
    }
  }

  /** The whole claim of the tool: when the check passes and the rewriter finishes, the rewritten
      function, with any contents of its globals, follows the original with any poison lanes: same
      path, same memory, same registers outside dead lanes. */
  lemma RewritePreserves<M>(prog: Program, m: Machine<M>, g: Globals, p: Oracle, p': Oracle, s: State<M>, n: nat)
    returns (c: nat)
    requires SSA(AllLines(prog)) && NeverRead(AllLines(prog))
    requires EffectsClean(AllLines(prog)) && ScalarElements(AllLines(prog))
    requires SourceText(AllLines(prog)) && NoPoisonLeft(AllLines(prog)) && NarrowPoison(AllLines(prog)) && s.index == 0
    ensures var o, r := Run(prog, m, g, p, s, n), Run(RewriteProg(prog), m, g, p', s, c);
      && r.block == o.block && r.mem == o.mem && r.outside == o.outside
      && (if o.block < |prog| then o.index <= |prog[o.block]| && r.index == Offset(prog, o.block, o.index) else r.index == o.index)
      && forall x :: SameLive(AllLines(prog), Named(x), Get(o.regs, Named(x)), Get(r.regs, Named(x)))
  {
    c := RewriteSimulates(prog, m, g, p', s, n);
    NoScalarPoisonLeft(AllLines(prog));
    PoisonIrrelevant(prog, m, g, p, FromGlobals(prog, g), s, n);
    var o, r := Run(prog, m, g, p, s, n), Run(RewriteProg(prog), m, g, p', s, c);
    var mid := Run(prog, m, g, FromGlobals(prog, g), s, n);
    forall x ensures SameLive(AllLines(prog), Named(x), Get(o.regs, Named(x)), Get(r.regs, Named(x))) {
      assert SameLive(AllLines(prog), Named(x), Get(o.regs, Named(x)), Get(mid.regs, Named(x)));
    }
  }
}
