/** Where one label selects many instances: an uncounted loop, and a counted loop inside another. For these shapes
    the static condition is exact. */
module FaultShapes {
  import opened Common
  import opened FaultIr
  import opened Faults
  import opened FaultOnce
  import opened FaultSites

  predicate Straight(prog: Program, from: nat, to: nat) {
    to <= |prog| && forall k :: from <= k < to ==> !IsJump(prog[k])
  }

  lemma OneStep<M>(prog: Program, e: Env<M>, s: State<M>, n: nat)
    requires Run(Plain(prog), e, s, n).line < |prog| && Run(Plain(prog), e, s, n).sub == 0
    ensures var p, i := Run(Plain(prog), e, s, n), prog[Run(Plain(prog), e, s, n).line];
      Run(Plain(prog), e, s, n + 1) == Data(i, e, p).(
        line := if IsJump(i) then Target(i, p.regs, |prog|) else p.line + 1, sub := 0)
  {
    hide Data;
    var p := Run(Plain(prog), e, s, n);
    assert Plain(prog)[p.line] == [prog[p.line]];
  }

  // ---------- an uncounted loop ----------

  /** while (cond) body, with no other jump: the condition is computed on lines t .. h-1, line h leaves or goes on, the
      body runs on to line k, which goes back. */
  ghost predicate WhileForm(prog: Program, t: nat, h: nat, k: nat) {
    && t < h < k < |prog| && prog[k] == Goto(t)
    && prog[h - 1].Op? && prog[h].Br? && prog[h].cond == R(prog[h - 1].dst) && prog[h].yes == h + 1
    && Straight(prog, t, h) && Straight(prog, h + 1, k)
  }

  /** Steps that r rounds of len lines take. */
  function Rounds(r: nat, len: nat): nat { if r == 0 then 0 else Rounds(r - 1, len) + len }

  function ValueOf<M>(e: Env<M>, op: nat, v: seq<int>, m: M): int { e.value(op, v, m) }

  /** The condition computed by this instruction always holds. */
  ghost predicate AlwaysHolds<M(!new)>(e: Env<M>, op: nat) {
    forall v: seq<int>, m: M :: ValueOf(e, op, v, m) != 0
  }

  /** Once around, line by line, while the condition holds. */
  lemma {:induction false} AroundAt<M(!new)>(prog: Program, t: nat, h: nat, k: nat, e: Env<M>, s: State<M>, n: nat)
    requires WhileForm(prog, t, h, k) && s.line == t && s.sub == 0 && n <= k - t
    requires AlwaysHolds(e, prog[h - 1].op)
    ensures var p := Run(Plain(prog), e, s, n);
      p.line == t + n && p.sub == 0 && (p.line == h ==> Get(p.regs, prog[h - 1].dst) != 0)
  {
    if n > 0 {
      AroundAt(prog, t, h, k, e, s, n - 1);
      OneStep(prog, e, s, n - 1);
      hide Run;
      var p := Run(Plain(prog), e, s, n - 1);
      if p.line == h - 1 {
        var v := EvalAll(prog[h - 1].args, p.regs);
        assert ValueOf(e, prog[h - 1].op, v, p.mem) != 0;
      }
    }
  }

  lemma {:induction false} AroundAgain<M(!new)>(prog: Program, t: nat, h: nat, k: nat, e: Env<M>, s: State<M>, r: nat)
    requires WhileForm(prog, t, h, k) && s.line == t && s.sub == 0 && AlwaysHolds(e, prog[h - 1].op)
    ensures Run(Plain(prog), e, s, Rounds(r, k + 1 - t)).line == t
    ensures Run(Plain(prog), e, s, Rounds(r, k + 1 - t)).sub == 0
  {
    hide Run, Data, AlwaysHolds;
    if r == 0 {
      RunOnce(Plain(prog), e, s);
    } else {
      var before := Rounds(r - 1, k + 1 - t);
      AroundAgain(prog, t, h, k, e, s, r - 1);
      var p := Run(Plain(prog), e, s, before);
      AroundAt(prog, t, h, k, e, p, k - t);
      OneStep(prog, e, p, k - t);
      RunAdd(Plain(prog), e, s, before, k + 1 - t);
    }
  }

  /** In every iteration r the site's instance carries label 0. */
  lemma UncountedLoopRepeats<M(!new)>(prog: Program, t: nat, h: nat, k: nat, site: Site, e: Env<M>, s: State<M>, r: nat)
    requires WhileForm(prog, t, h, k) && t <= site.line < k && site.inside.Outside?
    requires s.line == t && s.sub == 0 && e.j == 0 && AlwaysHolds(e, prog[h - 1].op)
    ensures HitAt(prog, site, e, s, Rounds(r, k + 1 - t) + (site.line - t))
  {
    hide Run, AlwaysHolds, WhileForm;
    AroundAgain(prog, t, h, k, e, s, r);
    var p := Run(Plain(prog), e, s, Rounds(r, k + 1 - t));
    AroundAt(prog, t, h, k, e, p, site.line - t);
    RunAdd(Plain(prog), e, s, Rounds(r, k + 1 - t), site.line - t);
  }

  /** Every jump back over the line is the end of such a loop. */
  ghost predicate BacksAreWhiles(prog: Program, line: nat) {
    forall k, t: nat :: line <= k < |prog| && JumpsTo(prog[k], t) && t <= line ==> exists h: nat :: WhileForm(prog, t, h, k)
  }

  /** From every state and in every environment, each label is met at most once. */
  ghost predicate LabelUnique(prog: Program, site: Site) {
    forall e: Env<int>, s: State<int>, k: nat, n: nat :: s.sub == 0 && k < n
      ==> !(HitAt(prog, site, e, s, k) && HitAt(prog, site, e, s, n))
  }

  /** An environment in which every opaque condition holds and the fault number is 0. */
  function Steady(): Env<int> {
    Env((op: nat, v: seq<int>, m: int) => 1, (op: nat, v: seq<int>, m: int) => m, (ty: nat, p: int, m: int) => 0,
        (ty: nat, p: int, v: int, m: int) => m, (op: nat, o: seq<int>, a: seq<int>, m: int) => m,
        (op: nat, o: seq<int>, a: seq<int>, m: int) => 0, (n: nat) => 0, 0, (n: nat) => 0)
  }

  /** Outside counted loops the static condition is exact: a label is unique iff no jump goes back over the site. */
  lemma OutsideExact(prog: Program, site: Site)
    requires SiteOk(prog, site) && site.inside.Outside? && BacksAreWhiles(prog, site.line)
    ensures LabelUnique(prog, site) <==> OnePass(prog, site)
  {
    hide Run, Hits;
    if OnePass(prog, site) {
      forall e: Env<int>, s: State<int>, k: nat, n: nat |
        s.sub == 0 && k < n && HitAt(prog, site, e, s, k) && HitAt(prog, site, e, s, n) ensures false
      {
        SubStaysZero(false, prog, site, e, s, k);
        LinePasses(false, prog, site, e, s, k, n);
        NotBehind(prog, site, e, s, n);
      }
    } else {
      var k, t: nat :| site.line <= k < |prog| && JumpsTo(prog[k], t) && t <= site.line;
      var h: nat :| WhileForm(prog, t, h, k);
      var s := State(t, 0, map[], map[], 0, 0);
      assert site.line != k;
      UncountedLoopRepeats(prog, t, h, k, site, Steady(), s, 0);
      UncountedLoopRepeats(prog, t, h, k, site, Steady(), s, 1);
      assert Rounds(0, k + 1 - t) == 0 && Rounds(1, k + 1 - t) == k + 1 - t;
    }
  }

  lemma NotBehind<M>(prog: Program, site: Site, e: Env<M>, s: State<M>, n: nat)
    requires HitAt(prog, site, e, s, n)
    ensures Run(Plain(prog), e, s, n).line == site.line
  {
  }

  // ---------- a counted loop inside another ----------

  /** A counted loop whose body has no jump and writes neither its index nor cell o. */
  ghost predicate StraightLoop(prog: Program, l: Loop, b: nat, o: nat) {
    var h, x, c := l.head, l.exit, l.cell;
    && h + 2 < b && b + 1 < |prog| && o != c
    && prog[h].LoadIdx? && prog[h].cell == c
    && prog[h + 1].Test? && prog[h + 1].arg == prog[h].dst && prog[h + 1].bound + 1 < TWO64
    && prog[h + 2].Br? && prog[h + 2].cond == R(prog[h + 1].dst) && prog[h + 2].yes == h + 3 && prog[h + 2].no == x
    && Straight(prog, h + 3, b) && (forall k :: h + 2 < k < b ==> !Writes(prog[k], c) && !Writes(prog[k], o))
    && prog[b] == Next(c) && prog[b + 1] == Goto(h)
  }

  /** Where the loop stands after q lines of iteration i. */
  ghost predicate StandsAt<M>(prog: Program, l: Loop, b: nat, o: nat, i: nat, q: nat, s: State<M>, p: State<M>)
    requires StraightLoop(prog, l, b, o)
  {
    && p.line == l.head + q && p.sub == 0 && Cell(p.cells, o) == Cell(s.cells, o)
    && Cell(p.cells, l.cell) == (if q <= b - l.head then i else i + 1)
    && (q == 1 ==> Get(p.regs, prog[l.head].dst) == i)
    && (q == 2 ==> Get(p.regs, prog[l.head + 1].dst) == Bit(i < prog[l.head + 1].bound))
  }

  /** One step inside an iteration. */
  lemma IterationStep<M>(prog: Program, l: Loop, b: nat, o: nat, i: nat, q: nat, e: Env<M>, s: State<M>, n: nat)
    requires StraightLoop(prog, l, b, o) && StandsAt(prog, l, b, o, i, q, s, Run(Plain(prog), e, s, n))
    requires (i < prog[l.head + 1].bound && q < b + 1 - l.head) || (i == prog[l.head + 1].bound && q < 2)
    ensures StandsAt(prog, l, b, o, i, q + 1, s, Run(Plain(prog), e, s, n + 1))
  {
    hide Run, Plain;
    OneStep(prog, e, s, n);
    var k := l.head + q;
    assert q > 2 && k != b ==> !IsJump(prog[k]) && !Writes(prog[k], l.cell) && !Writes(prog[k], o);
    assert Run(Plain(prog), e, s, n).line == k;
  }

  /** Every step of the loop's run: iteration i, line q of P. */
  lemma {:induction false} LoopStands<M>(prog: Program, l: Loop, b: nat, o: nat, i: nat, q: nat, e: Env<M>, s: State<M>)
    requires StraightLoop(prog, l, b, o) && s.line == l.head && s.sub == 0 && Cell(s.cells, l.cell) == 0
    requires (i < prog[l.head + 1].bound && q < b + 2 - l.head) || (i == prog[l.head + 1].bound && q <= 2)
    ensures StandsAt(prog, l, b, o, i, q, s, Run(Plain(prog), e, s, Rounds(i, b + 2 - l.head) + q))
    decreases i, q
  {
    hide Run, StraightLoop, StandsAt, Bit;
    LoopHasLines(prog, l, b, o);
    var len := b + 2 - l.head;
    if q > 0 {
      LoopStands(prog, l, b, o, i, q - 1, e, s);
      IterationStep(prog, l, b, o, i, q - 1, e, s, Rounds(i, len) + (q - 1));
    } else if i > 0 {
      LoopStands(prog, l, b, o, i - 1, len - 1, e, s);
      IterationEnd(prog, l, b, o, i - 1, e, s, Rounds(i - 1, len) + (len - 1));
      assert Rounds(i - 1, len) + (len - 1) + 1 == Rounds(i, len) + 0;
    } else {
      RunOnce(Plain(prog), e, s);
      LoopStart(prog, l, b, o, s);
    }
  }

  lemma LoopHasLines(prog: Program, l: Loop, b: nat, o: nat)
    requires StraightLoop(prog, l, b, o)
    ensures l.head + 2 < b
  {
  }

  lemma LoopStart<M>(prog: Program, l: Loop, b: nat, o: nat, s: State<M>)
    requires StraightLoop(prog, l, b, o) && s.line == l.head && s.sub == 0 && Cell(s.cells, l.cell) == 0
    ensures StandsAt(prog, l, b, o, 0, 0, s, s)
  {
  }

  lemma IterationEnd<M>(prog: Program, l: Loop, b: nat, o: nat, i: nat, e: Env<M>, s: State<M>, n: nat)
    requires StraightLoop(prog, l, b, o)
    requires StandsAt(prog, l, b, o, i, b + 1 - l.head, s, Run(Plain(prog), e, s, n))
    ensures StandsAt(prog, l, b, o, i + 1, 0, s, Run(Plain(prog), e, s, n + 1))
  {
    OneStep(prog, e, s, n);
    hide Run;
  }

  /** A site in an inner loop that is labelled with the outer index: one instance in each inner iteration carries
      the same label, and there is no other; a loop test has one more, where the inner loop ends. */
  lemma InnerInstances<M>(prog: Program, l: Loop, b: nat, outer: Loop, site: Site, e: Env<M>, s: State<M>, i: nat, q: nat)
    requires StraightLoop(prog, l, b, outer.cell) && site.inside == Inside(outer) && l.head < site.line < b
    requires s.line == l.head && s.sub == 0 && Cell(s.cells, l.cell) == 0 && Cell(s.cells, outer.cell) == e.j
    requires (i < prog[l.head + 1].bound && q < b + 2 - l.head) || (i == prog[l.head + 1].bound && q <= 2)
    ensures HitAt(prog, site, e, s, Rounds(i, b + 2 - l.head) + q) <==> q == site.line - l.head
  {
    LoopStands(prog, l, b, outer.cell, i, q, e, s);
  }

  /** Entered once, the inner loop shows a label at most once iff it has at most one iteration; a test, iff none. */
  lemma InnerExact<M>(prog: Program, l: Loop, b: nat, outer: Loop, site: Site, e: Env<M>, s: State<M>)
    requires StraightLoop(prog, l, b, outer.cell) && site.inside == Inside(outer)
    requires l.head + 2 < site.line < b || site.line == l.head + 1
    requires s.line == l.head && s.sub == 0 && Cell(s.cells, l.cell) == 0 && Cell(s.cells, outer.cell) == e.j
    ensures var len, bound := b + 2 - l.head, prog[l.head + 1].bound;
      (forall m, n :: 0 <= m < n <= Rounds(bound, len) + 2 ==> !(HitAt(prog, site, e, s, m) && HitAt(prog, site, e, s, n)))
      <==> bound <= if site.line == l.head + 1 then 0 else 1
  {
    hide HitAt;
    var len, bound := b + 2 - l.head, prog[l.head + 1].bound;
    var at := site.line - l.head;
    if bound > 1 || (bound == 1 && at == 1) {
      InnerInstances(prog, l, b, outer, site, e, s, 0, at);
      InnerInstances(prog, l, b, outer, site, e, s, 1, at);
      assert Rounds(0, len) == 0 && Rounds(1, len) == len;
      TwoRounds(bound, len, at);
      assert HitAt(prog, site, e, s, at) && HitAt(prog, site, e, s, len + at);
    } else {
      forall n: nat | n <= Rounds(bound, len) + 2 && HitAt(prog, site, e, s, n) ensures n == at {
        assert Rounds(0, len) == 0 && Rounds(1, len) == len;
        if n < Rounds(bound, len) {
          InnerInstances(prog, l, b, outer, site, e, s, 0, n);
        } else {
          InnerInstances(prog, l, b, outer, site, e, s, bound, n - Rounds(bound, len));
        }
      }
    }
  }

  lemma {:induction false} TwoRounds(bound: nat, len: nat, at: nat)
    requires (bound > 1 && at < len) || (bound == 1 && at == 1)
    ensures len + at <= Rounds(bound, len) + 2
  {
    assert Rounds(1, len) == len;
    if bound == 2 {
      assert Rounds(2, len) == Rounds(1, len) + len;
    } else if bound > 2 {
      TwoRounds(bound - 1, len, at);
    }
  }

  /** Steps of all iterations. */
  ghost function LoopSteps(prog: Program, l: Loop, b: nat, o: nat): nat
    requires StraightLoop(prog, l, b, o)
  {
    Rounds(prog[l.head + 1].bound, b + 2 - l.head)
  }

  lemma LastTest<M>(prog: Program, l: Loop, b: nat, o: nat, e: Env<M>, s: State<M>)
    requires StraightLoop(prog, l, b, o) && s.line == l.head && s.sub == 0 && Cell(s.cells, l.cell) == 0
    ensures StandsAt(prog, l, b, o, prog[l.head + 1].bound, 2, s, Run(Plain(prog), e, s, LoopSteps(prog, l, b, o) + 2))
  {
    hide Run, StandsAt;
    LoopStands(prog, l, b, o, prog[l.head + 1].bound, 2, e, s);
  }

  /** When the test fails after the last iteration the loop is left. */
  lemma LoopLeft<M>(prog: Program, l: Loop, b: nat, o: nat, e: Env<M>, s: State<M>)
    requires StraightLoop(prog, l, b, o) && s.line == l.head && s.sub == 0 && Cell(s.cells, l.cell) == 0
    ensures var p := Run(Plain(prog), e, s, LoopSteps(prog, l, b, o) + 3);
      p.line == l.exit && p.sub == 0
  {
    hide Run, StraightLoop, StandsAt, LoopSteps;
    LastTest(prog, l, b, o, e, s);
    LeaveStep(prog, l, b, o, e, s, LoopSteps(prog, l, b, o) + 2);
  }

  lemma LeaveStep<M>(prog: Program, l: Loop, b: nat, o: nat, e: Env<M>, s: State<M>, n: nat)
    requires StraightLoop(prog, l, b, o)
    requires StandsAt(prog, l, b, o, prog[l.head + 1].bound, 2, s, Run(Plain(prog), e, s, n))
    ensures Run(Plain(prog), e, s, n + 1).line == l.exit && Run(Plain(prog), e, s, n + 1).sub == 0
  {
    OneStep(prog, e, s, n);
    hide Run;
  }

  // ---------- such functions pass through the tool ----------

  lemma {:induction false} NoMoreLoops(prog: Program, s: nat, i: nat, j: nat)
    requires s <= i <= j <= |prog| && forall k :: i <= k < j ==> !prog[k].Test?
    ensures LoopSeq(prog, s, j) == LoopSeq(prog, s, i)
  {
    if i < j { NoMoreLoops(prog, s, i, j - 1); }
  }

  /** A test right below its header load and right above its branch. */
  lemma HeaderAbove(prog: Program, s: nat, i: nat)
    requires s + 1 < i < |prog| - 1 && prog[i].Test? && prog[i + 1].Br? && i < prog[i + 1].no
    requires prog[i - 1].LoadIdx? && prog[i - 1].dst == prog[i].arg
    ensures LoopAt(prog, s, i) == Some(Loop(i - 1, prog[i + 1].no, prog[i - 1].cell))
  {
    assert IndexLoad(prog, s, i, prog[i].arg) == IndexLoad(prog, s, i - 1, prog[i].arg);
  }

  lemma {:induction false} NotLoaded(prog: Program, s: nat, e: nat, idxs: set<nat>, r: Reg)
    requires e <= |prog| && forall k :: s <= k < e && prog[k].LoadIdx? ==> prog[k].dst != r
    ensures r !in IndexLoads(prog, s, e, idxs)
  {
    if e > s { NotLoaded(prog, s, e - 1, idxs, r); }
  }

  lemma {:induction false} NotDerived(prog: Program, s: nat, e: nat, c: Config, loaded: set<Reg>, r: Reg)
    requires e <= |prog| && r !in loaded && c.addOrCompare == {}
    requires forall k :: s <= k < e && prog[k].Test? ==> prog[k].dst != r
    ensures r !in IndexRegs(prog, s, e, c, loaded)
  {
    hide DerivesIndex;
    if e > s {
      NotDerived(prog, s, e - 1, c, loaded, r);
      assert DerivesIndex(prog[e - 1], c, IndexRegs(prog, s, e - 1, c, loaded)) ==> prog[e - 1].Test? by {
        OnlyTests(prog[e - 1], c, IndexRegs(prog, s, e - 1, c, loaded));
      }
    }
  }

  lemma OnlyTests(i: Instr, c: Config, regs: set<Reg>)
    requires c.addOrCompare == {}
    ensures DerivesIndex(i, c, regs) ==> i.Test?
  {
  }

  /** The pass over the whole function finds these loops and makes line t.line a site. */
  ghost predicate Selected(prog: Program, c: Config, loops: seq<Loop>, t: Site) {
    && !NoLoops(prog, 0, |prog|) && LoopSeq(prog, 0, |prog|) == loops && t.line < |prog|
    && IsSite(prog, c, loops, IndexRegs(prog, 0, |prog|, c, IndexLoads(prog, 0, |prog|, Cells(loops))), t)
  }

  /** Opcode 1 is an i64 value. */
  function PlainConfig(): Config { Config({}, {}, false, map[1 := 64], {}, {}) }

  /** A counted loop of one iteration, then while (cond) work; the value on line 10 is a site. */
  function WhileAfterLoop(): (p: Program)
    ensures |p| == 13
  {
    [InitIdx(0), Goto(2), LoadIdx(Named(0), 0), Test(Named(1), Named(0), 1), Br(R(Named(1)), 5, 8), Op(Named(4), 2, []),
     Next(0), Goto(2), Op(Named(2), 0, []), Br(R(Named(2)), 10, 12), Op(Named(3), 1, []), Goto(8), Ret]
  }

  lemma WhileFound()
    ensures !NoLoops(WhileAfterLoop(), 0, 13) && LoopSeq(WhileAfterLoop(), 0, 13) == [Loop(2, 8, 0)]
  {
    var p := WhileAfterLoop();
    HeaderAbove(p, 0, 3);
    hide LoopAt;
    NoMoreLoops(p, 0, 0, 3);
    NoMoreLoops(p, 0, 4, 13);
    assert LoopSeq(p, 0, 4) == [Loop(2, 8, 0)];
    assert p[3].Test?;
  }

  lemma WhileSelected()
    ensures Selected(WhileAfterLoop(), PlainConfig(), [Loop(2, 8, 0)], Site(10, Value(64), Outside))
  {
    hide IndexRegs, IndexLoads, LoopSeq, NoLoops;
    WhileFound();
    var p, c, loops := WhileAfterLoop(), PlainConfig(), [Loop(2, 8, 0)];
    NotLoaded(p, 0, 13, Cells(loops), Named(3));
    NotDerived(p, 0, 13, c, IndexLoads(p, 0, 13, Cells(loops)), Named(3));
  }

  lemma WhileSteps()
    requires StraightLoop(WhileAfterLoop(), Loop(2, 8, 0), 6, 1)
    ensures LoopSteps(WhileAfterLoop(), Loop(2, 8, 0), 6, 1) == 6
  {
    OneRound(6);
  }

  lemma WhileShape()
    ensures WhileForm(WhileAfterLoop(), 8, 9, 11) && StraightLoop(WhileAfterLoop(), Loop(2, 8, 0), 6, 1)
  {
  }

  /** Both calls of index zero: two steps from the start of either function. */
  lemma AtHeader<M>(p: Program, e: Env<M>, s: State<M>)
    requires |p| > 2 && p[0] == InitIdx(0) && p[1] == Goto(2) && s.line == 0 && s.sub == 0
    ensures var q := Run(Plain(p), e, s, 2); q.line == 2 && q.sub == 0 && Cell(q.cells, 0) == 0
  {
    RunOnce(Plain(p), e, s);
    OneStep(p, e, s, 0);
    OneStep(p, e, s, 1);
  }

  /** A function the pass accepts, and a site it selects, where label 0 is met in every iteration. */
  lemma UncountedSiteRepeats<M(!new)>(e: Env<M>, s: State<M>, r: nat)
    requires s.line == 0 && s.sub == 0 && e.j == 0 && AlwaysHolds(e, 0)
    ensures Selected(WhileAfterLoop(), PlainConfig(), [Loop(2, 8, 0)], Site(10, Value(64), Outside))
    ensures HitAt(WhileAfterLoop(), Site(10, Value(64), Outside), e, s, 13 + Rounds(r, 4))
  {
    hide Run, AlwaysHolds, WhileForm, StraightLoop, Selected, Hits, Rounds, Plain;
    var p, t := WhileAfterLoop(), Site(10, Value(64), Outside);
    WhileSelected();
    WhileShape();
    AtHeader(p, e, s);
    var s1 := Run(Plain(p), e, s, 2);
    LoopLeft(p, Loop(2, 8, 0), 6, 1, e, s1);
    OneRound(6);
    WhileSteps();
    RunAdd(Plain(p), e, s, 2, 9);
    var s2 := Run(Plain(p), e, s, 11);
    UncountedLoopRepeats(p, 8, 9, 11, t, e, s2, r);
    RunAdd(Plain(p), e, s, 11, Rounds(r, 4) + 2);
    SameHit(p, t, e, s, 11, Rounds(r, 4) + 2);
  }

  lemma OneRound(len: nat)
    ensures Rounds(0, len) == 0 && Rounds(1, len) == len
  {
    assert Rounds(0, len) == 0;
  }

  lemma SameHit<M>(p: Program, t: Site, e: Env<M>, s: State<M>, n: nat, k: nat)
    ensures HitAt(p, t, e, Run(Plain(p), e, s, n), k) == HitAt(p, t, e, s, n + k)
  {
    hide Run, Hits;
    RunAdd(Plain(p), e, s, n, k);
  }

  /** Two iterations of a counted loop, each with two iterations of another; the value on line 10 is a site. */
  function LoopInLoop(): (p: Program)
    ensures |p| == 16
  {
    [InitIdx(0), Goto(2), LoadIdx(Named(0), 0), Test(Named(1), Named(0), 2), Br(R(Named(1)), 5, 15), InitIdx(1), Goto(7),
     LoadIdx(Named(2), 1), Test(Named(3), Named(2), 2), Br(R(Named(3)), 10, 13), Op(Named(4), 1, []), Next(1), Goto(7),
     Next(0), Goto(2), Ret]
  }

  lemma NestedFound()
    ensures !NoLoops(LoopInLoop(), 0, 16) && LoopSeq(LoopInLoop(), 0, 16) == [Loop(2, 15, 0), Loop(7, 13, 1)]
  {
    var p := LoopInLoop();
    HeaderAbove(p, 0, 3);
    HeaderAbove(p, 0, 8);
    hide LoopAt;
    NoMoreLoops(p, 0, 0, 3);
    NoMoreLoops(p, 0, 4, 8);
    NoMoreLoops(p, 0, 9, 16);
    assert LoopSeq(p, 0, 4) == [Loop(2, 15, 0)] && LoopSeq(p, 0, 9) == [Loop(2, 15, 0)] + [Loop(7, 13, 1)];
    assert p[3].Test? && p[8].Test?;
  }

  lemma NestedSelected()
    ensures Selected(LoopInLoop(), PlainConfig(), [Loop(2, 15, 0), Loop(7, 13, 1)],
      Site(10, Value(64), Inside(Loop(2, 15, 0))))
  {
    hide IndexRegs, IndexLoads, LoopSeq, NoLoops;
    NestedFound();
    var p, c, loops := LoopInLoop(), PlainConfig(), [Loop(2, 15, 0), Loop(7, 13, 1)];
    NotLoaded(p, 0, 16, Cells(loops), Named(4));
    NotDerived(p, 0, 16, c, IndexLoads(p, 0, 16, Cells(loops)), Named(4));
  }

  /** From the outer header to the inner one. */
  lemma EnterInner<M>(e: Env<M>, s: State<M>)
    requires s.line == 2 && s.sub == 0 && Cell(s.cells, 0) == 0
    ensures var q := Run(Plain(LoopInLoop()), e, s, 5);
      q.line == 7 && q.sub == 0 && Cell(q.cells, 0) == 0 && Cell(q.cells, 1) == 0
  {
    var p := LoopInLoop();
    hide LoopInLoop;
    NestedLines();
    RunOnce(Plain(p), e, s);
    OneStep(p, e, s, 0);
    OneStep(p, e, s, 1);
    hide Run;
    OneStep(p, e, s, 2);
    OneStep(p, e, s, 3);
    OneStep(p, e, s, 4);
  }

  lemma NestedLines()
    ensures var p := LoopInLoop();
      && p[2] == LoadIdx(Named(0), 0) && p[3] == Test(Named(1), Named(0), 2) && p[4] == Br(R(Named(1)), 5, 15)
      && p[5] == InitIdx(1) && p[6] == Goto(7) && StraightLoop(p, Loop(7, 13, 1), 11, 0)
  {
  }

  /** The outer loop's index labels the inner loop's instances: a function the pass accepts, a site it selects, and
      two instances with label 0. */
  lemma NestedSiteRepeats<M>(e: Env<M>, s: State<M>)
    requires s.line == 0 && s.sub == 0 && e.j == 0
    ensures var t := Site(10, Value(64), Inside(Loop(2, 15, 0)));
      && Selected(LoopInLoop(), PlainConfig(), [Loop(2, 15, 0), Loop(7, 13, 1)], t)
      && HitAt(LoopInLoop(), t, e, s, 10) && HitAt(LoopInLoop(), t, e, s, 16)
  {
    hide Run, StraightLoop, Selected, Hits, Rounds, Plain;
    var p, t := LoopInLoop(), Site(10, Value(64), Inside(Loop(2, 15, 0)));
    NestedSelected();
    AtHeader(p, e, s);
    EnterInner(e, Run(Plain(p), e, s, 2));
    RunAdd(Plain(p), e, s, 2, 5);
    var s1 := Run(Plain(p), e, s, 7);
    NestedLines();
    OneRound(6);
    InnerInstances(p, Loop(7, 13, 1), 11, Loop(2, 15, 0), t, e, s1, 0, 3);
    InnerInstances(p, Loop(7, 13, 1), 11, Loop(2, 15, 0), t, e, s1, 1, 3);
    SameHit(p, t, e, s, 7, 3);
    SameHit(p, t, e, s, 7, 9);
  }
}
