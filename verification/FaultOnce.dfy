/** How many instances one fault number selects: at most one, for a site in a counted loop that is not nested
    and for a site outside any loop; and the run is then the original one but for that instance. */
module FaultOnce {
  import opened FaultIr
  import opened Faults

  predicate JumpsTo(i: Instr, t: nat) {
    (i.Br? && (i.yes == t || i.no == t)) || (i.Goto? && i.target == t)
  }

  predicate Writes(i: Instr, c: nat) { (i.InitIdx? || i.Next?) && i.cell == c }

  // ---------- the shape of the function around a site ----------

  /** Lines h-2 .. x of a counted loop as the compiler lays it out without optimisation: index = 0, then header
      (load, compare, branch), body, index = index + 1 at line b, back to the header. */
  ghost predicate LoopForm(prog: Program, l: Loop, b: nat) {
    var h, x, c := l.head, l.exit, l.cell;
    && 2 <= h && h + 2 < b && b + 1 < x <= |prog|
    && prog[h - 2] == InitIdx(c) && prog[h - 1] == Goto(h)
    && prog[h].LoadIdx? && prog[h].cell == c
    && prog[h + 1].Test? && prog[h + 1].arg == prog[h].dst && prog[h + 1].bound + 1 < TWO64
    && prog[h + 2].Br? && prog[h + 2].cond == R(prog[h + 1].dst)
    && h + 2 < prog[h + 2].yes < x && prog[h + 2].yes != b + 1 && prog[h + 2].no == x
    && prog[b] == Next(c) && prog[b + 1] == Goto(h)
    && (forall k :: h + 2 < k < x && k != b ==> !Writes(prog[k], c))
    && (forall k, t: nat :: h + 2 < k < x && k != b + 1 && JumpsTo(prog[k], t) ==> k < t && t != b + 1)
    && (forall k, t: nat :: 0 <= k < h - 1 && JumpsTo(prog[k], t) ==> t < h - 1 || x <= t)
    && (forall k, t: nat :: x <= k < |prog| && JumpsTo(prog[k], t) ==> x <= t)
  }

  /** No jump at or after the line goes back to it. */
  ghost predicate NoReturn(prog: Program, line: nat) {
    forall k, t: nat :: line <= k < |prog| && JumpsTo(prog[k], t) ==> line < t
  }

  /** The static condition under which a site has at most one instance per label. */
  ghost predicate OnePass(prog: Program, site: Site) {
    match site.inside
    case Outside => NoReturn(prog, site.line)
    case Inside(l) => l.head < site.line < l.exit && exists b: nat :: LoopForm(prog, l, b)
  }

  // ---------- one step, faulted or not ----------

  /** What any step of the function does to the line, the index cells and the registers of a loop header. */
  ghost predicate Advances<M>(prog: Program, site: Site, e: Env<M>, s: State<M>, n: State<M>) {
    && n.sub == 0
    && (s.line >= |prog| ==> n == s)
    && (s.line < |prog| ==>
      var i := prog[s.line];
      && (if i.Ret? then n.line == |prog| else if IsJump(i) then JumpsTo(i, n.line) else n.line == s.line + 1)
      && (i.Br? ==> n.line == if Eval(i.cond, s.regs) != 0 then i.yes else i.no)
      && (forall c: nat :: !Writes(i, c) ==> Cell(n.cells, c) == Cell(s.cells, c))
      && (i.InitIdx? ==> Cell(n.cells, i.cell) == 0)
      && (i.Next? ==> Cell(n.cells, i.cell) == (Cell(s.cells, i.cell) + 1) % TWO64)
      && (i.LoadIdx? && !Hits(site, e, s) ==> Get(n.regs, i.dst) == Cell(s.cells, i.cell))
      && (i.Test? && !Hits(site, e, s) ==> Get(n.regs, i.dst) == Bit(0 <= Get(s.regs, i.arg) < i.bound)))
  }

  lemma StepAdvances<M>(prog: Program, site: Site, e: Env<M>, s: State<M>)
    requires SiteOk(prog, site) && s.sub == 0
    ensures Advances(prog, site, e, s, Step(Plain(prog), e, s))
    ensures Step(Plain(prog), e, s).fired == s.fired
  {
    if s.line < |prog| {
      assert Plain(prog)[s.line] == [prog[s.line]];
      assert OwnInstr(prog[s.line]);
    }
  }

  lemma AltAdvances<M>(prog: Program, site: Site, e: Env<M>, s: State<M>)
    requires SiteOk(prog, site) && s.sub == 0
    ensures Advances(prog, site, e, s, AltStep(prog, site, e, s))
  {
    hide Step;
    StepAdvances(prog, site, e, s);
    if Hits(site, e, s) {
      FaultedKeeps(site.kind, prog[site.line], e, s);
    }
  }

  // ---------- a site in a loop ----------

  /** Bounds on the index around the loop; only an overrun of the last test takes it past the bound. */
  ghost predicate Bounded<M>(prog: Program, l: Loop, b: nat, e: Env<M>, s: State<M>)
    requires LoopForm(prog, l, b)
  {
    var h, x, n, i := l.head, l.exit, prog[l.head + 1].bound, Cell(s.cells, l.cell);
    && s.sub == 0
    && (s.line == h - 1 ==> i == 0)
    && (h <= s.line <= h + 2 || s.line == b + 1 ==> 0 <= i <= n || (i == n + 1 && e.j == n))
    && (s.line == h + 1 ==> Get(s.regs, prog[h].dst) == i)
    && (s.line == h + 2 && Get(s.regs, prog[h + 1].dst) != 0 ==> 0 <= i < n || i == e.j == n)
    && (h + 2 < s.line < x && s.line != b + 1 ==> 0 <= i < n || i == e.j == n)
  }

  /** The instance labelled with the fault number is behind. */
  ghost predicate Passed<M>(site: Site, b: nat, e: Env<M>, s: State<M>)
    requires site.inside.Inside?
  {
    var l := site.inside.loop;
    s.line >= l.exit || (s.line >= l.head
      && (Cell(s.cells, l.cell) > e.j || (Cell(s.cells, l.cell) == e.j && site.line < s.line && s.line != b + 1)))
  }

  lemma BoundedStep<M>(prog: Program, site: Site, b: nat, e: Env<M>, s: State<M>, n: State<M>)
    requires site.inside.Inside? && LoopForm(prog, site.inside.loop, b)
    requires site.inside.loop.head < site.line < site.inside.loop.exit
    requires Bounded(prog, site.inside.loop, b, e, s) && Advances(prog, site, e, s, n)
    ensures Bounded(prog, site.inside.loop, b, e, n)
  {
  }

  lemma PassedStep<M>(prog: Program, site: Site, b: nat, e: Env<M>, s: State<M>, n: State<M>)
    requires SiteOk(prog, site) && site.inside.Inside? && LoopForm(prog, site.inside.loop, b)
    requires site.inside.loop.head < site.line < site.inside.loop.exit
    requires Bounded(prog, site.inside.loop, b, e, s) && Advances(prog, site, e, s, n)
    requires Passed(site, b, e, s) || Hits(site, e, s)
    ensures Passed(site, b, e, n) && !Hits(site, e, n)
  {
  }

  // ---------- runs ----------

  /** The original run, or the run with faulted instances. */
  function Either<M>(faulty: bool, prog: Program, site: Site, e: Env<M>, s: State<M>, n: nat): State<M>
    requires SiteOk(prog, site)
  {
    if faulty then AltRun(prog, site, e, s, n) else Run(Plain(prog), e, s, n)
  }

  lemma EitherAdvances<M>(faulty: bool, prog: Program, site: Site, e: Env<M>, s: State<M>, n: nat)
    requires SiteOk(prog, site) && Either(faulty, prog, site, e, s, n).sub == 0
    ensures Advances(prog, site, e, Either(faulty, prog, site, e, s, n), Either(faulty, prog, site, e, s, n + 1))
  {
    hide Step, AltStep, Advances;
    var c := Either(faulty, prog, site, e, s, n);
    if faulty { AltAdvances(prog, site, e, c); } else { StepAdvances(prog, site, e, c); }
  }

  lemma {:induction false} RunsBounded<M>(faulty: bool, prog: Program, site: Site, b: nat, e: Env<M>, s: State<M>, n: nat)
    requires SiteOk(prog, site) && site.inside.Inside? && LoopForm(prog, site.inside.loop, b)
    requires site.inside.loop.head < site.line < site.inside.loop.exit
    requires s.line == 0 && s.sub == 0
    ensures Bounded(prog, site.inside.loop, b, e, Either(faulty, prog, site, e, s, n))
  {
    if n > 0 {
      RunsBounded(faulty, prog, site, b, e, s, n - 1);
      EitherAdvances(faulty, prog, site, e, s, n - 1);
      hide Either, LoopForm, Advances;
      BoundedStep(prog, site, b, e, Either(faulty, prog, site, e, s, n - 1), Either(faulty, prog, site, e, s, n));
    }
  }

  lemma {:induction false} LoopPasses<M>(faulty: bool, prog: Program, site: Site, b: nat, e: Env<M>, s: State<M>,
                                         k: nat, n: nat)
    requires SiteOk(prog, site) && site.inside.Inside? && LoopForm(prog, site.inside.loop, b)
    requires site.inside.loop.head < site.line < site.inside.loop.exit
    requires s.line == 0 && s.sub == 0 && k < n
    requires Hits(site, e, Either(faulty, prog, site, e, s, k))
    ensures var m := Either(faulty, prog, site, e, s, n); Passed(site, b, e, m) && !Hits(site, e, m)
    decreases n
  {
    hide Either, Advances, Hits, Passed;
    if k < n - 1 { LoopPasses(faulty, prog, site, b, e, s, k, n - 1); }
    RunsBounded(faulty, prog, site, b, e, s, n - 1);
    assert Either(faulty, prog, site, e, s, n - 1).sub == 0;
    EitherAdvances(faulty, prog, site, e, s, n - 1);
    hide LoopForm, Bounded;
    PassedStep(prog, site, b, e, Either(faulty, prog, site, e, s, n - 1), Either(faulty, prog, site, e, s, n));
  }

  lemma {:induction false} LinePasses<M>(faulty: bool, prog: Program, site: Site, e: Env<M>, s: State<M>, k: nat, n: nat)
    requires SiteOk(prog, site) && site.inside.Outside? && NoReturn(prog, site.line)
    requires Either(faulty, prog, site, e, s, k).sub == 0 && k < n
    requires Hits(site, e, Either(faulty, prog, site, e, s, k))
    ensures var m := Either(faulty, prog, site, e, s, n); m.line > site.line && m.sub == 0
    decreases n
  {
    if k < n - 1 { LinePasses(faulty, prog, site, e, s, k, n - 1); }
    EitherAdvances(faulty, prog, site, e, s, n - 1);
    hide Either;
  }

  lemma {:induction false} SubStaysZero<M>(faulty: bool, prog: Program, site: Site, e: Env<M>, s: State<M>, n: nat)
    requires SiteOk(prog, site) && s.sub == 0
    ensures Either(faulty, prog, site, e, s, n).sub == 0
  {
    if n > 0 {
      SubStaysZero(faulty, prog, site, e, s, n - 1);
      EitherAdvances(faulty, prog, site, e, s, n - 1);
      hide Either;
    }
  }

  /** A label is met at most once, in the original run and in the faulted one. */
  lemma LabelMetOnce<M>(faulty: bool, prog: Program, site: Site, e: Env<M>, s: State<M>, k: nat, n: nat)
    requires SiteOk(prog, site) && OnePass(prog, site) && s.line == 0 && s.sub == 0 && k < n
    requires Hits(site, e, Either(faulty, prog, site, e, s, k))
    ensures !Hits(site, e, Either(faulty, prog, site, e, s, n))
  {
    hide LoopForm, Either, NoReturn;
    match site.inside {
      case Outside =>
        SubStaysZero(faulty, prog, site, e, s, k);
        LinePasses(faulty, prog, site, e, s, k, n);
      case Inside(l) =>
        var b: nat :| LoopForm(prog, l, b);
        LoopPasses(faulty, prog, site, b, e, s, k, n);
    }
  }

  /** The faulted run is the original run up to step k, one faulted instance there, and the original
      program from then on. */
  ghost predicate AlteredAt<M>(prog: Program, site: Site, e: Env<M>, s: State<M>, n: nat, k: nat)
    requires SiteOk(prog, site)
  {
    && k < n && Hits(site, e, Run(Plain(prog), e, s, k))
    && AltRun(prog, site, e, s, n) == Run(Plain(prog), e, AltStep(prog, site, e, Run(Plain(prog), e, s, k)), n - k - 1)
  }

  lemma {:induction false} AfterTheHit<M>(prog: Program, site: Site, e: Env<M>, s: State<M>, n: nat, k: nat)
    requires SiteOk(prog, site) && OnePass(prog, site) && s.line == 0 && s.sub == 0
    requires k < n && Hits(site, e, Run(Plain(prog), e, s, k))
    ensures AlteredAt(prog, site, e, s, n, k)
    ensures AltRun(prog, site, e, s, n).fired == 1
    decreases n
  {
    hide OnePass, Hits, Step;
    var mid := AltStep(prog, site, e, Run(Plain(prog), e, s, k));
    forall m: nat | m < k ensures !Hits(site, e, Run(Plain(prog), e, s, m)) {
      if Hits(site, e, Run(Plain(prog), e, s, m)) { LabelMetOnce(false, prog, site, e, s, m, k); }
    }
    NoHitNoChange(prog, site, e, s, k);
    if k == n - 1 {
      assert Run(Plain(prog), e, mid, 0) == mid;
    } else {
      AfterTheHit(prog, site, e, s, n - 1, k);
      LabelMetOnce(true, prog, site, e, s, k, n - 1);
      SubStaysZero(true, prog, site, e, s, n - 1);
      StepAdvances(prog, site, e, AltRun(prog, site, e, s, n - 1));
    }
  }

  lemma {:induction false} PlainKeepsFired<M>(prog: Program, site: Site, e: Env<M>, s: State<M>, n: nat)
    requires SiteOk(prog, site) && s.sub == 0
    ensures Run(Plain(prog), e, s, n).fired == s.fired
  {
    if n > 0 {
      PlainKeepsFired(prog, site, e, s, n - 1);
      SubStaysZero(false, prog, site, e, s, n - 1);
      StepAdvances(prog, site, e, Run(Plain(prog), e, s, n - 1));
    }
  }

  ghost predicate HitAt<M>(prog: Program, site: Site, e: Env<M>, s: State<M>, k: nat) {
    Hits(site, e, Run(Plain(prog), e, s, k))
  }

  /** The instrumented function, after any number n of steps of the original: either the original run meets no
      instance with this label and the variant agrees with it, fault_fired still 0; or exactly one instance k
      carries the label, the variant is the original with that instance faulted, and fault_fired is 1. */
  ghost predicate OneInstance<M>(prog: Program, site: Site, e: Env<M>, s: State<M>, n: nat)
    requires SiteOk(prog, site)
  {
    var v := Run(Injected(prog, site), e, s, Time(prog, site, e, s, n));
    && Agree(v, AltRun(prog, site, e, s, n))
    && v.fired == (if exists k: nat :: k < n && HitAt(prog, site, e, s, k) then 1 else 0)
    && (v.fired == 0 ==> Agree(v, Run(Plain(prog), e, s, n)))
    && (v.fired == 1 ==> exists k: nat :: AlteredAt(prog, site, e, s, n, k))
    && (forall k: nat, m: nat :: HitAt(prog, site, e, s, k) && HitAt(prog, site, e, s, m) ==> k == m)
  }

  lemma ExactlyOneInstance<M(!new)>(prog: Program, site: Site, e: Env<M>, s: State<M>, n: nat)
    requires SiteOk(prog, site) && OnePass(prog, site) && Lawful(site.kind, e)
    requires s.line == 0 && s.sub == 0 && s.fired == 0
    ensures OneInstance(prog, site, e, s, n)
  {
    InjectedRuns(prog, site, e, s, n);
    hide Run, AltRun, OnePass, Hits, Injected, Time, AltStep;
    if k: nat :| k < n && HitAt(prog, site, e, s, k) {
      AfterTheHit(prog, site, e, s, n, k);
    } else {
      forall k: nat | k < n ensures !Hits(site, e, Run(Plain(prog), e, s, k)) {
        assert !HitAt(prog, site, e, s, k);
      }
      NoHitNoChange(prog, site, e, s, n);
      PlainKeepsFired(prog, site, e, s, n);
    }
    forall k: nat, m: nat | HitAt(prog, site, e, s, k) && HitAt(prog, site, e, s, m) ensures k == m {
      if k < m { LabelMetOnce(false, prog, site, e, s, k, m); }
      if m < k { LabelMetOnce(false, prog, site, e, s, m, k); }
    }
  }

  // ---------- the index a loop is tested on ----------

  lemma ComesFromHead<M>(prog: Program, site: Site, l: Loop, b: nat, e: Env<M>, p: State<M>, m: State<M>)
    requires LoopForm(prog, l, b) && site.line != l.head && Advances(prog, site, e, p, m) && m.line == l.head + 1
    ensures Get(m.regs, prog[l.head].dst) == Cell(m.cells, l.cell)
  {
    assert p.line == l.head;
  }

  /** Whatever the fault, a loop whose header load is not the site is tested on its true index. */
  lemma TestReadsIndex<M>(faulty: bool, prog: Program, site: Site, l: Loop, b: nat, e: Env<M>, s: State<M>, n: nat)
    requires SiteOk(prog, site) && LoopForm(prog, l, b) && site.line != l.head
    requires s.line == 0 && s.sub == 0
    ensures var m := Either(faulty, prog, site, e, s, n);
      m.line == l.head + 1 ==> Get(m.regs, prog[l.head].dst) == Cell(m.cells, l.cell)
  {
    if n > 0 {
      SubStaysZero(faulty, prog, site, e, s, n - 1);
      EitherAdvances(faulty, prog, site, e, s, n - 1);
      hide Either;
      hide Advances;
      var p, m := Either(faulty, prog, site, e, s, n - 1), Either(faulty, prog, site, e, s, n);
      if m.line == l.head + 1 { ComesFromHead(prog, site, l, b, e, p, m); }
    }
  }
}
