/** No fault is missed: what every line of the region does in the variants that are written, on every run. */
module FaultCoverage {
  import opened Common
  import opened FaultIr
  import opened Faults
  import opened FaultOnce
  import opened FaultSites

  // ---------- the registers excluded from value faults ----------

  function DefinedBy(i: Instr): Option<Reg> {
    match i
    case Op(d, _, _) => Some(d)
    case Test(d, _, _) => Some(d)
    case LoadIdx(d, _) => Some(d)
    case Call(ret, _, _, _) => ret
    case _ => None
  }

  /** A comparison or an add that has r as an operand. */
  predicate ComputesFrom(i: Instr, c: Config, r: Reg) {
    (i.Test? && i.arg == r) || (i.Op? && i.op in c.addOrCompare && R(r) in i.args)
  }

  /** A chain of lines: a load of one of the indices, anywhere in the region, and then adds and comparisons before line
      i, in text order, each of the register the line before it defines. */
  ghost predicate Chain(prog: Program, s: nat, e: nat, i: nat, c: Config, cells: set<nat>, q: seq<nat>)
    requires i <= e <= |prog|
  {
    && q != [] && s <= q[0] < e && LoadsIndex(prog[q[0]], cells)
    && (forall m :: 0 < m < |q| ==> s <= q[m] < i)
    && (forall m :: 1 < m < |q| ==> q[m - 1] < q[m])
    && (forall m :: 0 < m < |q| ==> Linked(prog, c, q, m))
  }

  ghost predicate Linked(prog: Program, c: Config, q: seq<nat>, m: nat)
    requires 0 < m < |q|
  {
    && q[m - 1] < |prog| && q[m] < |prog| && DefinedBy(prog[q[m - 1]]).Some?
    && ComputesFrom(prog[q[m]], c, DefinedBy(prog[q[m - 1]]).value)
  }

  ghost predicate ChainTo(prog: Program, s: nat, e: nat, i: nat, c: Config, cells: set<nat>, q: seq<nat>, r: Reg)
    requires i <= e <= |prog|
  {
    Chain(prog, s, e, i, c, cells, q) && q[|q| - 1] < |prog| && DefinedBy(prog[q[|q| - 1]]) == Some(r)
  }

  /** Some chain of the region ends in a definition of r. */
  ghost predicate FromIndex(prog: Program, s: nat, e: nat, c: Config, cells: set<nat>, r: Reg)
    requires e <= |prog|
  {
    exists q :: ChainTo(prog, s, e, e, c, cells, q, r)
  }

  lemma {:induction false} IndexLoadsAre(prog: Program, s: nat, e: nat, cells: set<nat>, r: Reg)
    requires e <= |prog|
    ensures r in IndexLoads(prog, s, e, cells) <==> exists k :: s <= k < e && LoadsIndex(prog[k], cells) && prog[k].dst == r
  {
    if e > s { IndexLoadsAre(prog, s, e - 1, cells, r); }
  }

  lemma DerivesFrom(i: Instr, c: Config, regs: set<Reg>)
    ensures DerivesIndex(i, c, regs) <==> exists r :: r in regs && ComputesFrom(i, c, r)
    ensures DerivesIndex(i, c, regs) ==> i.Test? || i.Op?
  {
    if DerivesIndex(i, c, regs) {
      if i.Test? {
        assert ComputesFrom(i, c, i.arg);
      } else {
        var k :| 0 <= k < |i.args| && i.args[k].R? && i.args[k].r in regs;
        assert ComputesFrom(i, c, i.args[k].r);
      }
    }
    if r :| r in regs && ComputesFrom(i, c, r) {
      if i.Op? { var k :| 0 <= k < |i.args| && i.args[k] == R(r); }
    }
  }

  lemma ChainLonger(prog: Program, s: nat, e: nat, i: nat, c: Config, cells: set<nat>, q: seq<nat>, r: Reg)
    requires s < i <= e <= |prog| && ChainTo(prog, s, e, i - 1, c, cells, q, r) && ComputesFrom(prog[i - 1], c, r)
    ensures ChainTo(prog, s, e, i, c, cells, q + [i - 1], prog[i - 1].dst)
  {
    var p := q + [i - 1];
    forall m | 0 < m < |p| ensures Linked(prog, c, p, m) {
      if m < |q| { assert Linked(prog, c, q, m); }
    }
  }

  lemma ChainWiden(prog: Program, s: nat, e: nat, i: nat, c: Config, cells: set<nat>, q: seq<nat>, r: Reg)
    requires s < i <= e <= |prog| && ChainTo(prog, s, e, i - 1, c, cells, q, r)
    ensures ChainTo(prog, s, e, i, c, cells, q, r)
  {
  }

  /** A chain that does not end on line i - 1 ends before it. */
  lemma ChainNarrow(prog: Program, s: nat, e: nat, i: nat, c: Config, cells: set<nat>, q: seq<nat>, r: Reg)
    requires s < i <= e <= |prog| && ChainTo(prog, s, e, i, c, cells, q, r)
    requires |q| == 1 || q[|q| - 1] != i - 1
    ensures ChainTo(prog, s, e, i - 1, c, cells, q, r)
  {
    ChainOrder(prog, s, e, i, c, cells, q, |q| - 1);
  }

  lemma {:induction false} ChainOrder(prog: Program, s: nat, e: nat, i: nat, c: Config, cells: set<nat>, q: seq<nat>, m: nat)
    requires i <= e <= |prog| && Chain(prog, s, e, i, c, cells, q) && m < |q|
    ensures forall j :: 0 < j < m ==> q[j] < q[m]
  {
    if m > 1 { ChainOrder(prog, s, e, i, c, cells, q, m - 1); }
  }

  lemma ChainShorter(prog: Program, s: nat, e: nat, i: nat, c: Config, cells: set<nat>, q: seq<nat>, r: Reg)
    returns (r': Reg)
    requires s < i <= e <= |prog| && ChainTo(prog, s, e, i, c, cells, q, r) && |q| > 1 && q[|q| - 1] == i - 1
    ensures ChainTo(prog, s, e, i - 1, c, cells, q[..|q| - 1], r') && ComputesFrom(prog[i - 1], c, r')
  {
    var n := |q| - 1;
    ChainOrder(prog, s, e, i, c, cells, q, n);
    assert Linked(prog, c, q, n);
    r' := DefinedBy(prog[q[n - 1]]).value;
    forall m | 0 < m < n ensures Linked(prog, c, q[..n], m) { assert Linked(prog, c, q, m); }
  }

  /** The excluded registers are those that a chain of adds and comparisons leads to from a load of a loop index. */
  lemma {:induction false} IndexRegsAre(prog: Program, s: nat, e: nat, i: nat, c: Config, cells: set<nat>, r: Reg)
    requires i <= e <= |prog|
    ensures r in IndexRegs(prog, s, i, c, IndexLoads(prog, s, e, cells)) <==> exists q :: ChainTo(prog, s, e, i, c, cells, q, r)
  {
    hide IndexLoads, DerivesIndex, ComputesFrom, ChainTo;
    var loaded := IndexLoads(prog, s, e, cells);
    if i <= s {
      LoadChains(prog, s, e, i, c, cells, r);
    } else {
      var before := IndexRegs(prog, s, i - 1, c, loaded);
      IndexRegsAre(prog, s, e, i - 1, c, cells, r);
      DerivesFrom(prog[i - 1], c, before);
      if r in before {
        var q :| ChainTo(prog, s, e, i - 1, c, cells, q, r);
        ChainWiden(prog, s, e, i, c, cells, q, r);
      } else if DerivesIndex(prog[i - 1], c, before) && prog[i - 1].dst == r {
        var r' :| r' in before && ComputesFrom(prog[i - 1], c, r');
        IndexRegsAre(prog, s, e, i - 1, c, cells, r');
        var q :| ChainTo(prog, s, e, i - 1, c, cells, q, r');
        ChainLonger(prog, s, e, i, c, cells, q, r');
      }
      if q :| ChainTo(prog, s, e, i, c, cells, q, r) {
        NotEmpty(prog, s, e, i, c, cells, q, r);
        if |q| == 1 || q[|q| - 1] != i - 1 {
          ChainNarrow(prog, s, e, i, c, cells, q, r);
        } else {
          LastOf(prog, s, e, i, c, cells, q, r);
          var r' := ChainShorter(prog, s, e, i, c, cells, q, r);
          IndexRegsAre(prog, s, e, i - 1, c, cells, r');
        }
      }
    }
  }

  lemma NotEmpty(prog: Program, s: nat, e: nat, i: nat, c: Config, cells: set<nat>, q: seq<nat>, r: Reg)
    requires i <= e <= |prog| && ChainTo(prog, s, e, i, c, cells, q, r)
    ensures q != []
  {
  }

  lemma LastOf(prog: Program, s: nat, e: nat, i: nat, c: Config, cells: set<nat>, q: seq<nat>, r: Reg)
    requires s < i <= e <= |prog| && ChainTo(prog, s, e, i, c, cells, q, r) && |q| > 1 && q[|q| - 1] == i - 1
    ensures (prog[i - 1].Test? || prog[i - 1].Op?) && prog[i - 1].dst == r
  {
    assert Linked(prog, c, q, |q| - 1);
  }

  lemma LoadChains(prog: Program, s: nat, e: nat, i: nat, c: Config, cells: set<nat>, r: Reg)
    requires i <= s && i <= e <= |prog|
    ensures r in IndexLoads(prog, s, e, cells) <==> exists q :: ChainTo(prog, s, e, i, c, cells, q, r)
  {
    IndexLoadsAre(prog, s, e, cells, r);
    if r in IndexLoads(prog, s, e, cells) {
      var k :| s <= k < e && LoadsIndex(prog[k], cells) && prog[k].dst == r;
      assert ChainTo(prog, s, e, i, c, cells, [k], r);
    }
    if q :| ChainTo(prog, s, e, i, c, cells, q, r) {
      assert |q| == 1;
      assert prog[q[0]].dst == r;
    }
  }

  // ---------- one fault, and nothing else ----------

  /** The text runs as the function does for n steps; it is then in x, and goes on from there as the function does. */
  ghost predicate Instead<M>(prog: Program, text: Text, env: Env<M>, st: State<M>, n: nat, x: State<M>) {
    && (forall m: nat :: m <= n ==> Meets(text, env, st, Run(Plain(prog), env, st, m)))
    && (forall m: nat :: Meets(text, env, st, Run(Plain(prog), env, x, m)))
  }

  /** At some step the text is in this state, temporaries of the injector aside. */
  ghost predicate Meets<M>(text: Text, env: Env<M>, st: State<M>, y: State<M>) {
    exists k: nat :: Agree(Run(text, env, st, k), y)
  }

  ghost predicate SomeVariant<M>(prog: Program, texts: seq<Text>, env: Env<M>, st: State<M>, n: nat, x: State<M>) {
    exists text :: text in texts && Instead(prog, text, env, st, n, x)
  }

  /** Step n of the function's run from its start is on line k, and the fault number is the label of that instance: the
      index of the loop found around the line, or 0. */
  ghost predicate Reaches<M>(prog: Program, s: nat, e: nat, k: nat, env: Env<M>, st: State<M>, n: nat)
    requires s <= e <= |prog|
  {
    var p := Run(Plain(prog), env, st, n);
    && st.line == 0 && st.sub == 0 && st.fired == 0 && p.line == k
    && match LoopOf(LoopSeq(prog, s, e), k)
       case Outside => env.j == 0
       case Inside(l) => env.j == Cell(p.cells, l.cell)
  }

  lemma BeforeHit<M(!new)>(prog: Program, t: Site, env: Env<M>, st: State<M>, n: nat, m: nat)
    requires SiteOk(prog, t) && OneInstance(prog, t, env, st, m) && m <= n && HitAt(prog, t, env, st, n)
    ensures Meets(Injected(prog, t), env, st, Run(Plain(prog), env, st, m))
  {
    hide Run, AltRun, Agree, HitAt, Injected, Time;
    forall k: nat | k < m && HitAt(prog, t, env, st, k) ensures false {
    }
  }

  lemma AfterHit<M(!new)>(prog: Program, t: Site, env: Env<M>, st: State<M>, n: nat, m: nat)
    requires SiteOk(prog, t) && OneInstance(prog, t, env, st, n + 1 + m) && HitAt(prog, t, env, st, n)
    ensures Meets(Injected(prog, t), env, st, Run(Plain(prog), env, AltStep(prog, t, env, Run(Plain(prog), env, st, n)), m))
  {
    hide Run, AltRun, AltStep, Agree, Injected, Time, Hits;
    var k: nat :| AlteredAt(prog, t, env, st, n + 1 + m, k);
    assert HitAt(prog, t, env, st, k);
    assert k == n;
  }

  lemma SiteInstead<M(!new)>(prog: Program, t: Site, env: Env<M>, st: State<M>, n: nat)
    requires SiteOk(prog, t) && OnePass(prog, t) && Lawful(t.kind, env)
    requires st.line == 0 && st.sub == 0 && st.fired == 0 && HitAt(prog, t, env, st, n)
    ensures Instead(prog, Injected(prog, t), env, st, n, AltStep(prog, t, env, Run(Plain(prog), env, st, n)))
  {
    hide Run, AltStep, OneInstance, OnePass, HitAt, Injected, Meets, Lawful;
    var x := AltStep(prog, t, env, Run(Plain(prog), env, st, n));
    forall m: nat | m <= n ensures Meets(Injected(prog, t), env, st, Run(Plain(prog), env, st, m)) {
      ExactlyOneInstance(prog, t, env, st, m);
      BeforeHit(prog, t, env, st, n, m);
    }
    forall m: nat ensures Meets(Injected(prog, t), env, st, Run(Plain(prog), env, x, m)) {
      ExactlyOneInstance(prog, t, env, st, n + 1 + m);
      AfterHit(prog, t, env, st, n, m);
    }
  }

  /** The variant of a site that is written, where its line is reached under its label. */
  lemma WrittenInstead<M(!new)>(prog: Program, s: nat, e: nat, c: Config, sites: seq<Site>, texts: seq<Text>, t: Site,
                                env: Env<M>, st: State<M>, n: nat)
    requires s <= e <= |prog| && OwnProgram(prog) && Written(prog, s, e, c, sites, texts) && t in sites
    requires Unnested(prog, s, e, LoopSeq(prog, s, e)) && Lawful(t.kind, env) && Reaches(prog, s, e, t.line, env, st, n)
    ensures SiteOk(prog, t) && Run(Plain(prog), env, st, n).sub == 0
    ensures SomeVariant(prog, texts, env, st, n, AltStep(prog, t, env, Run(Plain(prog), env, st, n)))
  {
    hide Run, AltStep, OnePass, Injected, Instead, LoopSeq, IndexRegs, LoopsOf, Unnested, Lawful, LoopOf;
    var loops := LoopSeq(prog, s, e);
    var regs := IndexRegs(prog, s, e, c, IndexLoads(prog, s, e, Cells(loops)));
    assert IsSite(prog, c, loops, regs, t);
    SitesPassOnce(prog, s, e, c, loops, regs, t);
    assert HitAt(prog, t, env, st, n);
    SiteInstead(prog, t, env, st, n);
    SubStaysZero(false, prog, t, env, st, n);
    var i :| 0 <= i < |sites| && sites[i] == t;
    assert texts[i] in texts;
  }

  // ---------- every fault of the models is among the variants ----------

  /** What the claims below ask of the region: it is the one the variants were written for, its counted loops are laid
      out as compiled and not nested. */
  ghost predicate Covers(prog: Program, s: nat, e: nat, c: Config, sites: seq<Site>, texts: seq<Text>) {
    && s <= e <= |prog| && OwnProgram(prog) && Written(prog, s, e, c, sites, texts)
    && Unnested(prog, s, e, LoopSeq(prog, s, e))
  }

  /** A store: some variant leaves at this instance what memory held there, or, at the first write to the object, the
      fault value. */
  lemma StoreCovered<M(!new)>(prog: Program, s: nat, e: nat, c: Config, sites: seq<Site>, texts: seq<Text>, k: nat,
                              env: Env<M>, st: State<M>, n: nat)
    requires Covers(prog, s, e, c, sites, texts) && !c.stateSkip && s <= k < e && prog[k].Store?
    requires Reaches(prog, s, e, k, env, st, n)
    ensures var p, i := Run(Plain(prog), env, st, n), prog[k];
      var ptr := Eval(i.ptr, p.regs);
      var left := if k in c.firstWrites then env.fv(i.ty) else env.load(i.ty, ptr, p.mem);
      SomeVariant(prog, texts, env, st, n, p.(line := k + 1, mem := env.store(i.ty, ptr, left, p.mem), fired := 1))
  {
    hide Run, SomeVariant, Unnested, LoopSeq, IndexRegs, LoopsOf, Injected;
    var t := Site(k, Skip(prog[k].ty, k in c.firstWrites), LoopOf(LoopSeq(prog, s, e), k));
    assert t in sites;
    WrittenInstead(prog, s, e, c, sites, texts, t, env, st, n);
  }

  /** A loop test: for either outcome some variant forces it at this instance. */
  lemma TestCovered<M(!new)>(prog: Program, s: nat, e: nat, c: Config, sites: seq<Site>, texts: seq<Text>, k: nat,
                             forced: bool, env: Env<M>, st: State<M>, n: nat)
    requires Covers(prog, s, e, c, sites, texts) && !c.stateSkip && s <= k < e && prog[k].Test?
    requires Reaches(prog, s, e, k, env, st, n)
    ensures var p := Run(Plain(prog), env, st, n);
      SomeVariant(prog, texts, env, st, n,
        p.(line := k + 1, regs := p.regs[prog[k].dst := if forced then 1 else 0], fired := 1))
  {
    hide Run, SomeVariant, Unnested, LoopSeq, IndexRegs, LoopsOf, Injected;
    var t := Site(k, Exit(forced), LoopOf(LoopSeq(prog, s, e), k));
    assert t in sites;
    WrittenInstead(prog, s, e, c, sites, texts, t, env, st, n);
  }

  /** The state after a call that wrote its outputs to the scratch buffers. */
  function CalledAside<M>(i: Instr, env: Env<M>, p: State<M>): State<M>
    requires i.Call?
  {
    var bufs := seq(|i.outs|, b requires 0 <= b < |i.outs| => env.scratch(b));
    var args := EvalAll(i.args, p.regs);
    p.(regs := if i.ret.Some? then p.regs[i.ret.value := env.result(i.op, bufs, args, p.mem)] else p.regs,
       mem := env.call(i.op, bufs, args, p.mem))
  }

  /** A call that can be skipped: some variant sends its outputs elsewhere at this instance. */
  lemma CallCovered<M(!new)>(prog: Program, s: nat, e: nat, c: Config, sites: seq<Site>, texts: seq<Text>, k: nat,
                             env: Env<M>, st: State<M>, n: nat)
    requires Covers(prog, s, e, c, sites, texts) && !c.stateSkip && s <= k < e && prog[k].Call? && prog[k].op in c.skippable
    requires Reaches(prog, s, e, k, env, st, n)
    ensures SomeVariant(prog, texts, env, st, n,
      CalledAside(prog[k], env, Run(Plain(prog), env, st, n)).(line := k + 1, sub := 0, fired := 1))
  {
    hide Run, SomeVariant, Unnested, LoopSeq, IndexRegs, LoopsOf, Injected;
    var t := Site(k, CallSkip, LoopOf(LoopSeq(prog, s, e), k));
    assert t in sites;
    WrittenInstead(prog, s, e, c, sites, texts, t, env, st, n);
    assert Scratch(env, |prog[k].outs|) == seq(|prog[k].outs|, b requires 0 <= b < |prog[k].outs| => env.scratch(b));
  }

  /** With DEC_SKIP_STATE, a squeeze: some variant also puts the context back as it was, at this instance. */
  lemma SqueezeCovered<M(!new)>(prog: Program, s: nat, e: nat, c: Config, sites: seq<Site>, texts: seq<Text>, k: nat,
                                env: Env<M>, st: State<M>, n: nat)
    requires Covers(prog, s, e, c, sites, texts) && c.stateSkip && s <= k < e && prog[k].Call? && prog[k].op in c.squeeze
    requires Reaches(prog, s, e, k, env, st, n) && Lawful(StateSkip, env)
    ensures var p := Run(Plain(prog), env, st, n);
      var q, ctx := CalledAside(prog[k], env, p), if prog[k].args == [] then C(0) else prog[k].args[0];
      var back := env.store(CONTEXT, Eval(ctx, q.regs), env.load(CONTEXT, Eval(ctx, p.regs), p.mem), q.mem);
      SomeVariant(prog, texts, env, st, n, q.(line := k + 1, sub := 0, mem := back, fired := 1))
  {
    hide Run, SomeVariant, Unnested, LoopSeq, IndexRegs, LoopsOf, Injected;
    var t := Site(k, StateSkip, LoopOf(LoopSeq(prog, s, e), k));
    assert t in sites;
    WrittenInstead(prog, s, e, c, sites, texts, t, env, st, n);
    assert Scratch(env, |prog[k].outs|) == seq(|prog[k].outs|, b requires 0 <= b < |prog[k].outs| => env.scratch(b));
  }

  /** Line k defines a value of this integer type, and no index of a found loop is loaded there. */
  predicate DefinesInteger(i: Instr, c: Config, loops: seq<Loop>, ty: nat) {
    || (i.Op? && i.op in c.intType && c.intType[i.op] == ty)
    || (i.Call? && i.ret.Some? && i.op in c.intType && c.intType[i.op] == ty)
    || (i.LoadIdx? && ty == 64 && forall l :: l in loops ==> l.cell != i.cell)
  }

  /** An integer value that no chain of adds and comparisons leads to from a loop index: some variant replaces it by the
      fault value of its type at this instance. */
  lemma ValueCovered<M(!new)>(prog: Program, s: nat, e: nat, c: Config, sites: seq<Site>, texts: seq<Text>, k: nat, ty: nat,
                              env: Env<M>, st: State<M>, n: nat)
    requires Covers(prog, s, e, c, sites, texts) && !c.stateSkip && s <= k < e
    requires DefinesInteger(prog[k], c, LoopSeq(prog, s, e), ty) && DefinedBy(prog[k]).Some?
    requires !FromIndex(prog, s, e, c, Cells(LoopSeq(prog, s, e)), DefinedBy(prog[k]).value)
    requires Reaches(prog, s, e, k, env, st, n)
    ensures var d := Data(prog[k], env, Run(Plain(prog), env, st, n));
      SomeVariant(prog, texts, env, st, n,
        d.(line := k + 1, sub := 0, regs := d.regs[DefinedBy(prog[k]).value := env.fv(ty)], fired := 1))
  {
    hide Run, SomeVariant, Unnested, LoopSeq, IndexRegs, IndexLoads, LoopsOf, Injected, FromIndex;
    var loops := LoopSeq(prog, s, e);
    var t := Site(k, Value(ty), LoopOf(loops, k));
    var r := DefinedBy(prog[k]).value;
    NotExcluded(prog, s, e, c, Cells(loops), r);
    assert ValueType(prog[k], c, Cells(loops)) == Some(ty) && Defined(prog[k]) == r;
    assert t in sites;
    WrittenInstead(prog, s, e, c, sites, texts, t, env, st, n);
  }

  lemma NotExcluded(prog: Program, s: nat, e: nat, c: Config, cells: set<nat>, r: Reg)
    requires e <= |prog|
    ensures r in IndexRegs(prog, s, e, c, IndexLoads(prog, s, e, cells)) <==> FromIndex(prog, s, e, c, cells, r)
  {
    IndexRegsAre(prog, s, e, e, c, cells, r);
  }

  // ---------- and no others ----------

  /** A value fault never replaces what a chain of adds and comparisons computes from a loop index. */
  lemma NoIndexFaulted(prog: Program, s: nat, e: nat, c: Config, sites: seq<Site>, texts: seq<Text>, t: Site)
    requires Covers(prog, s, e, c, sites, texts) && t in sites && t.kind.Value?
    ensures t.line < |prog| && DefinedBy(prog[t.line]).Some?
    ensures !FromIndex(prog, s, e, c, Cells(LoopSeq(prog, s, e)), DefinedBy(prog[t.line]).value)
    ensures DefinesInteger(prog[t.line], c, LoopSeq(prog, s, e), t.kind.ty)
  {
    hide IndexRegs, IndexLoads, LoopSeq, FromIndex, Unnested, LoopsOf, Injected;
    var loops := LoopSeq(prog, s, e);
    assert IsSite(prog, c, loops, IndexRegs(prog, s, e, c, IndexLoads(prog, s, e, Cells(loops))), t);
    NotExcluded(prog, s, e, c, Cells(loops), DefinedBy(prog[t.line]).value);
    assert prog[t.line].LoadIdx? ==> forall l :: l in loops && l.cell == prog[t.line].cell ==> l.cell in Cells(loops);
  }

  // ---------- the loops of the region are found ----------

  lemma {:induction false} LaterLoops(prog: Program, s: nat, i: nat, e: nat, l: Loop)
    requires i <= e <= |prog| && l in LoopSeq(prog, s, i)
    ensures l in LoopSeq(prog, s, e)
  {
    hide LoopAt;
    if i < e { LaterLoops(prog, s, i, e - 1, l); }
  }

  /** A counted loop as the compiler lays it out, header and test in the region, is among the loops found. */
  lemma CountedLoopFound(prog: Program, s: nat, e: nat, l: Loop, b: nat)
    requires LoopForm(prog, l, b) && s < l.head && l.head + 1 < e <= |prog|
    ensures l in LoopSeq(prog, s, e)
  {
    var h := l.head;
    assert IndexLoad(prog, s, h + 1, prog[h + 1].arg) == Some(h);
    assert LoopAt(prog, s, h + 1) == Some(l);
    assert LoopSeq(prog, s, h + 2) == LoopSeq(prog, s, h + 1) + [l];
    hide LoopForm, LoopAt, LoopSeq;
    LaterLoops(prog, s, h + 2, e, l);
  }
}
