/** Outside counted loops a label is met once exactly where no control-flow cycle goes through the site, whatever the
    shape of the function around it. */
module FaultCycles {
  import opened FaultIr
  import opened Faults
  import opened FaultOnce
  import opened FaultShapes

  // ---------- the control flow of a function ----------

  /** Control may go from line k to line t. */
  predicate Flows(prog: Program, k: nat, t: nat) {
    k < |prog| && if IsJump(prog[k]) then JumpsTo(prog[k], t) else t == k + 1
  }

  ghost predicate Walk(prog: Program, p: seq<nat>) {
    p != [] && forall i :: 0 <= i < |p| - 1 ==> Flows(prog, p[i], p[i + 1])
  }

  ghost predicate Cycle(prog: Program, line: nat, p: seq<nat>) {
    |p| >= 2 && Walk(prog, p) && p[0] == line && p[|p| - 1] == line
  }

  /** No cycle goes through the line. */
  ghost predicate Acyclic(prog: Program, line: nat) {
    forall p :: !Cycle(prog, line, p)
  }

  /** A branch on an opaque value that the line before computes, and no jump comes in between. */
  ghost predicate FreeBranch(prog: Program, k: nat)
    requires k < |prog| && prog[k].Br?
  {
    && k > 0 && prog[k - 1].Op? && prog[k].cond == R(prog[k - 1].dst)
    && forall m :: 0 <= m < |prog| ==> !JumpsTo(prog[m], k)
  }

  /** Every branch on a cycle through the line is of this kind. */
  ghost predicate FreeCycles(prog: Program, line: nat) {
    forall p, k :: Cycle(prog, line, p) && k in p && k < |prog| && prog[k].Br? ==> FreeBranch(prog, k)
  }

  // ---------- a run is a walk ----------

  lemma StepFlows<M>(prog: Program, e: Env<M>, s: State<M>, n: nat)
    requires Run(Plain(prog), e, s, n).sub == 0 && Run(Plain(prog), e, s, n + 1).line < |prog|
    ensures Run(Plain(prog), e, s, n + 1).sub == 0
    ensures Flows(prog, Run(Plain(prog), e, s, n).line, Run(Plain(prog), e, s, n + 1).line)
  {
    if Run(Plain(prog), e, s, n).line < |prog| {
      OneStep(prog, e, s, n);
    }
  }

  lemma StaysPlain<M>(prog: Program, e: Env<M>, s: State<M>, n: nat)
    requires Run(Plain(prog), e, s, n).sub == 0
    ensures Run(Plain(prog), e, s, n + 1).sub == 0
    ensures Run(Plain(prog), e, s, n).line >= |prog| ==> Run(Plain(prog), e, s, n + 1).line >= |prog|
  {
    if Run(Plain(prog), e, s, n).line < |prog| {
      OneStep(prog, e, s, n);
    }
  }

  lemma {:induction false} RunSub<M>(prog: Program, e: Env<M>, s: State<M>, n: nat)
    requires s.sub == 0
    ensures Run(Plain(prog), e, s, n).sub == 0
  {
    if n > 0 {
      RunSub(prog, e, s, n - 1);
      StaysPlain(prog, e, s, n - 1);
    }
  }

  lemma {:induction false} RunWalks<M>(prog: Program, e: Env<M>, s: State<M>, k: nat, n: nat) returns (p: seq<nat>)
    requires s.sub == 0 && k <= n && Run(Plain(prog), e, s, n).line < |prog|
    ensures |p| == n - k + 1 && Walk(prog, p)
    ensures p[0] == Run(Plain(prog), e, s, k).line && p[n - k] == Run(Plain(prog), e, s, n).line
  {
    hide Run;
    if k == n {
      p := [Run(Plain(prog), e, s, n).line];
    } else {
      RunSub(prog, e, s, n - 1);
      StaysPlain(prog, e, s, n - 1);
      StepFlows(prog, e, s, n - 1);
      p := RunWalks(prog, e, s, k, n - 1);
      p := p + [Run(Plain(prog), e, s, n).line];
    }
  }

  // ---------- a walk is a run ----------

  /** What the opaque value computed at step i has to be for the walk to go on. */
  function Decision(prog: Program, p: seq<nat>, i: nat): int {
    if i + 2 < |p| && p[i + 1] < |prog| && prog[p[i + 1]].Br? && p[i + 2] == prog[p[i + 1]].yes then 1 else 0
  }

  predicate Opaque(prog: Program, k: nat) { k < |prog| && prog[k].Op? }

  /** The opaque values of the first i steps. */
  function Decisions(prog: Program, p: seq<nat>, i: nat): seq<int>
    requires i <= |p|
  {
    if i == 0 then []
    else Decisions(prog, p, i - 1) + if Opaque(prog, p[i - 1]) then [Decision(prog, p, i - 1)] else []
  }

  /** The memory counts the opaque instructions, and their values are looked up by that count. */
  function Steered(d: seq<int>): Env<int> {
    Env((op: nat, v: seq<int>, m: int) => if 0 <= m < |d| then d[m] else 0, (op: nat, v: seq<int>, m: int) => m + 1,
        (ty: nat, p: int, m: int) => 0, (ty: nat, p: int, v: int, m: int) => m,
        (op: nat, o: seq<int>, a: seq<int>, m: int) => m, (op: nat, o: seq<int>, a: seq<int>, m: int) => 0,
        (n: nat) => 0, 0, (n: nat) => 0)
  }

  lemma {:induction false} DecisionsGrow(prog: Program, p: seq<nat>, i: nat, n: nat)
    requires i <= n <= |p|
    ensures Decisions(prog, p, i) <= Decisions(prog, p, n)
  {
    if i < n { DecisionsGrow(prog, p, i, n - 1); }
  }

  /** Where the steered run stands after i steps of the walk. */
  ghost predicate OnWalk(prog: Program, p: seq<nat>, i: nat, s: State<int>)
    requires i < |p|
  {
    && s.line == p[i] && s.sub == 0 && s.mem == |Decisions(prog, p, i)|
    && (i > 0 && Opaque(prog, p[i - 1]) ==> Get(s.regs, prog[p[i - 1]].dst) == Decision(prog, p, i - 1))
  }

  /** The line before a free branch on the walk is the one that computes its condition. */
  lemma BeforeBranch(prog: Program, p: seq<nat>, i: nat)
    requires Walk(prog, p) && 0 < i < |p| && p[i] < |prog| && prog[p[i]].Br? && FreeBranch(prog, p[i])
    ensures p[i - 1] == p[i] - 1 && Opaque(prog, p[i - 1])
  {
    assert Flows(prog, p[i - 1], p[i - 1 + 1]);
    assert !JumpsTo(prog[p[i - 1]], p[i]);
  }

  lemma DecisionsNext(prog: Program, p: seq<nat>, i: nat)
    requires i + 1 < |p|
    ensures var d, all := Decisions(prog, p, i), Decisions(prog, p, |p|);
      if Opaque(prog, p[i]) then |Decisions(prog, p, i + 1)| == |d| + 1 && |d| < |all| && all[|d|] == Decision(prog, p, i)
      else Decisions(prog, p, i + 1) == d
  {
    DecisionsGrow(prog, p, i + 1, |p|);
  }

  lemma {:induction false} WalkRuns(prog: Program, line: nat, p: seq<nat>, s: State<int>, i: nat)
    requires Cycle(prog, line, p) && FreeCycles(prog, line) && i < |p| && line < |prog| && !prog[line].Br?
    requires s.line == line && s.sub == 0 && s.mem == 0
    ensures OnWalk(prog, p, i, Run(Plain(prog), Steered(Decisions(prog, p, |p|)), s, i))
  {
    if i == 0 {
      RunOnce(Plain(prog), Steered(Decisions(prog, p, |p|)), s);
    } else {
      WalkRuns(prog, line, p, s, i - 1);
      WalkStep(prog, line, p, s, i - 1);
    }
  }

  lemma WalkStep(prog: Program, line: nat, p: seq<nat>, s: State<int>, i: nat)
    requires Cycle(prog, line, p) && FreeCycles(prog, line) && i + 1 < |p| && line < |prog| && !prog[line].Br?
    requires OnWalk(prog, p, i, Run(Plain(prog), Steered(Decisions(prog, p, |p|)), s, i))
    ensures OnWalk(prog, p, i + 1, Run(Plain(prog), Steered(Decisions(prog, p, |p|)), s, i + 1))
  {
    hide Run, Plain, Decisions, Decision;
    var e := Steered(Decisions(prog, p, |p|));
    assert Flows(prog, p[i], p[i + 1]);
    OneStep(prog, e, s, i);
    DecisionsNext(prog, p, i);
    if prog[p[i]].Br? {
      assert i > 0;
      assert p[i] in p && FreeBranch(prog, p[i]);
      BeforeBranch(prog, p, i);
      DecisionTaken(prog, p, i - 1);
    }
  }

  lemma DecisionTaken(prog: Program, p: seq<nat>, i: nat)
    requires i + 2 < |p| && p[i + 1] < |prog| && prog[p[i + 1]].Br?
    ensures Decision(prog, p, i) == if p[i + 2] == prog[p[i + 1]].yes then 1 else 0
  {
  }

  // ---------- the exact condition ----------

  lemma TwoHitsCycle<M>(prog: Program, site: Site, e: Env<M>, s: State<M>, k: nat, n: nat)
    requires s.sub == 0 && k < n && site.line < |prog| && HitAt(prog, site, e, s, k) && HitAt(prog, site, e, s, n)
    ensures !Acyclic(prog, site.line)
  {
    var p := RunWalks(prog, e, s, k, n);
    hide Run;
    assert Cycle(prog, site.line, p);
  }

  /** From every line, in every environment, each label of a site outside counted loops is met at most once iff no
      control-flow cycle goes through the site. */
  lemma CycleExact(prog: Program, site: Site)
    requires SiteOk(prog, site) && site.inside.Outside? && FreeCycles(prog, site.line)
    ensures LabelUnique(prog, site) <==> Acyclic(prog, site.line)
  {
    hide Run;
    if Acyclic(prog, site.line) {
      forall e: Env<int>, s: State<int>, k: nat, n: nat |
        s.sub == 0 && k < n && HitAt(prog, site, e, s, k) && HitAt(prog, site, e, s, n) ensures false
      {
        TwoHitsCycle(prog, site, e, s, k, n);
      }
    } else {
      var p :| Cycle(prog, site.line, p);
      var s: State<int> := State(site.line, 0, map[], map[], 0, 0);
      var e := Steered(Decisions(prog, p, |p|));
      WalkRuns(prog, site.line, p, s, 0);
      WalkRuns(prog, site.line, p, s, |p| - 1);
      assert HitAt(prog, site, e, s, 0) && HitAt(prog, site, e, s, |p| - 1);
    }
  }
}
