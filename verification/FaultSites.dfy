/** Which lines become fault sites: loop discovery, index registers, site selection; and the guarantee that
    every variant made from a function of non-nested counted loops alters one instance. */
module FaultSites {
  import opened Common
  import opened FaultIr
  import opened Faults
  import opened FaultOnce

  /** What the injector reads off the text of an opaque line. */
  datatype Config = Config(
    skippable: set<nat>,            // calls that can be skipped
    squeeze: set<nat>,              // calls that squeeze a hash state
    stateSkip: bool,                // DEC_SKIP_STATE: squeeze calls only, skipped with their state
    intType: map<nat, nat>,         // integer type of a value definition or call result, if it has one
    addOrCompare: set<nat>,         // value definitions that are an add or a comparison
    firstWrites: set<nat>)          // store lines whose object nothing wrote before

  // ---------- loops ----------

  /** The last load of a register's index at or before line j, never as far back as line s. */
  function IndexLoad(prog: Program, s: nat, j: nat, r: Reg): (l: Option<nat>)
    requires j < |prog|
    ensures l.Some? ==> s < l.value <= j && prog[l.value].LoadIdx? && prog[l.value].dst == r
    ensures forall k :: s < k <= j && prog[k].LoadIdx? && prog[k].dst == r ==> l.Some? && k <= l.value
  {
    if j <= s then None
    else if prog[j].LoadIdx? && prog[j].dst == r then Some(j)
    else IndexLoad(prog, s, j - 1, r)
  }

  /** The loop tested at line i, if the lines around it have the expected form. */
  function LoopAt(prog: Program, s: nat, i: nat): (l: Option<Loop>)
    requires i < |prog| && prog[i].Test?
  {
    var ld := IndexLoad(prog, s, i, prog[i].arg);
    if ld.Some? && i + 1 < |prog| && prog[i + 1].Br? && i < prog[i + 1].no
    then Some(Loop(ld.value, prog[i + 1].no, prog[ld.value].cell))
    else None
  }

  /** The loops tested on lines s .. i-1 that can be made out, in text order: the first that spans a line wins. */
  function LoopSeq(prog: Program, s: nat, i: nat): seq<Loop>
    requires i <= |prog|
  {
    if i <= s then []
    else
      LoopSeq(prog, s, i - 1)
      + if prog[i - 1].Test? && LoopAt(prog, s, i - 1).Some? then [LoopAt(prog, s, i - 1).value] else []
  }

  /** A test whose loop cannot be made out, or no test at all. */
  ghost predicate NoLoops(prog: Program, s: nat, e: nat)
    requires s <= e <= |prog|
  {
    (exists k :: s <= k < e && prog[k].Test? && LoopAt(prog, s, k).None?) || (forall k :: s <= k < e ==> !prog[k].Test?)
  }

  /** Exactly the loops tested on lines s .. i-1. */
  ghost predicate LoopsOf(prog: Program, s: nat, i: nat, loops: seq<Loop>)
    requires i <= |prog|
  {
    && (forall k :: s <= k < i && prog[k].Test? ==> LoopAt(prog, s, k).Some? && LoopAt(prog, s, k).value in loops)
    && (forall l :: l in loops ==> exists k :: s <= k < i && prog[k].Test? && LoopAt(prog, s, k) == Some(l))
  }

  lemma LoopsNone(prog: Program, s: nat)
    requires s <= |prog|
    ensures LoopsOf(prog, s, s, [])
  {
  }

  lemma LoopsNext(prog: Program, s: nat, i: nat, loops: seq<Loop>)
    requires s <= i < |prog| && LoopsOf(prog, s, i, loops)
    ensures !prog[i].Test? ==> LoopsOf(prog, s, i + 1, loops)
    ensures prog[i].Test? && LoopAt(prog, s, i).Some? ==> LoopsOf(prog, s, i + 1, loops + [LoopAt(prog, s, i).value])
  {
    hide LoopAt;
    if prog[i].Test? && LoopAt(prog, s, i).Some? {
      var more := loops + [LoopAt(prog, s, i).value];
      assert more[|more| - 1] == LoopAt(prog, s, i).value;
      assert forall l :: l in loops ==> l in more;
    }
  }

  lemma AllFound(prog: Program, s: nat, e: nat, loops: seq<Loop>)
    requires s <= e <= |prog| && LoopsOf(prog, s, e, loops)
    ensures NoLoops(prog, s, e) <==> loops == []
  {
    hide LoopAt;
    if loops != [] { assert loops[0] in loops; }
  }

  lemma CannotFind(prog: Program, s: nat, e: nat, k: nat)
    requires s <= k < e <= |prog| && prog[k].Test? && LoopAt(prog, s, k).None?
    ensures NoLoops(prog, s, e)
  {
  }

  /** The search backwards for the header. */
  method FindLoad(prog: Program, s: nat, i: nat, r: Reg) returns (ld: nat)
    requires s <= i < |prog|
    ensures s <= ld <= i
    ensures IndexLoad(prog, s, i, r) == if ld == s then None else Some(ld)
  {
    ld := i;
    while ld > s && !(prog[ld].LoadIdx? && prog[ld].dst == r)
      invariant s <= ld <= i
      invariant IndexLoad(prog, s, i, r) == IndexLoad(prog, s, ld, r)
    {
      ld := ld - 1;
    }
  }

  /** The loop tested at line i, read off the lines around it. */
  method ReadLoop(prog: Program, s: nat, i: nat) returns (l: Option<Loop>)
    requires s <= i < |prog| && prog[i].Test?
    ensures l == LoopAt(prog, s, i)
  {
    var ld := FindLoad(prog, s, i, prog[i].arg);
    if ld == s { return None; }
    if i + 1 >= |prog| || !prog[i + 1].Br? || prog[i + 1].no <= i { return None; }
    return Some(Loop(ld, prog[i + 1].no, prog[ld].cell));
  }

  method FindLoops(prog: Program, s: nat, e: nat) returns (r: Option<seq<Loop>>)
    requires s <= e <= |prog|
    ensures r.Some? ==> r.value == LoopSeq(prog, s, e) && LoopsOf(prog, s, e, r.value)
    ensures r.None? <==> NoLoops(prog, s, e)
  {
    hide IndexLoad, LoopAt, LoopsOf, NoLoops;
    var loops := [];
    LoopsNone(prog, s);
    var i := s;
    while i < e
      invariant s <= i <= e
      invariant loops == LoopSeq(prog, s, i) && LoopsOf(prog, s, i, loops)
    {
      LoopsNext(prog, s, i, loops);
      if prog[i].Test? {
        var l := ReadLoop(prog, s, i);
        if l.None? {
          CannotFind(prog, s, e, i);
          return None;
        }
        loops := loops + [l.value];
      }
      i := i + 1;
    }
    AllFound(prog, s, e, loops);
    if loops == [] { return None; }
    return Some(loops);
  }

  /** The first loop that spans line i. */
  function LoopOf(loops: seq<Loop>, i: nat): (r: InLoop)
    ensures r.Inside? ==> r.loop in loops && r.loop.head <= i < r.loop.exit
    ensures r.Outside? <==> forall l :: l in loops ==> !(l.head <= i < l.exit)
  {
    if loops == [] then Outside
    else if loops[0].head <= i < loops[0].exit then Inside(loops[0])
    else LoopOf(loops[1..], i)
  }

  // ---------- registers that carry an index ----------

  predicate LoadsIndex(i: Instr, idxs: set<nat>) { i.LoadIdx? && i.cell in idxs }

  /** An add or comparison with an operand in regs. */
  predicate DerivesIndex(i: Instr, c: Config, regs: set<Reg>) {
    || (i.Test? && i.arg in regs)
    || (i.Op? && i.op in c.addOrCompare && exists k :: 0 <= k < |i.args| && i.args[k].R? && i.args[k].r in regs)
  }

  function IndexLoads(prog: Program, s: nat, i: nat, idxs: set<nat>): set<Reg>
    requires i <= |prog|
  {
    if i <= s then {}
    else IndexLoads(prog, s, i - 1, idxs) + if LoadsIndex(prog[i - 1], idxs) then {prog[i - 1].dst} else {}
  }

  /** One pass in text order: a definition counts when an operand already does. */
  function IndexRegs(prog: Program, s: nat, i: nat, c: Config, loaded: set<Reg>): set<Reg>
    requires i <= |prog|
  {
    if i <= s then loaded
    else
      var r := IndexRegs(prog, s, i - 1, c, loaded);
      r + if DerivesIndex(prog[i - 1], c, r) then {prog[i - 1].dst} else {}
  }

  method FindIndexRegs(prog: Program, s: nat, e: nat, c: Config, loops: seq<Loop>) returns (regs: set<Reg>)
    requires s <= e <= |prog|
    ensures regs == IndexRegs(prog, s, e, c, IndexLoads(prog, s, e, Cells(loops)))
  {
    var idxs := Cells(loops);
    regs := {};
    var i := s;
    while i < e
      invariant s <= i <= e
      invariant regs == IndexLoads(prog, s, i, idxs)
    {
      if prog[i].LoadIdx? && prog[i].cell in idxs { regs := regs + {prog[i].dst}; }
      i := i + 1;
    }
    ghost var loaded := regs;
    i := s;
    while i < e
      invariant s <= i <= e
      invariant regs == IndexRegs(prog, s, i, c, loaded)
    {
      if DerivesIndex(prog[i], c, regs) { regs := regs + {prog[i].dst}; }
      i := i + 1;
    }
  }

  function Cells(loops: seq<Loop>): set<nat> { set l | l in loops :: l.cell }

  // ---------- sites ----------

  /** Width of a loaded index. */
  const INDEX_TYPE := 64

  /** The integer type of the value that line i defines, unless it is loaded from a loop index. */
  function ValueType(i: Instr, c: Config, idxs: set<nat>): Option<nat> {
    match i
    case Op(_, op, _) => if op in c.intType then Some(c.intType[op]) else None
    case Call(ret, op, _, _) => if ret.Some? && op in c.intType then Some(c.intType[op]) else None
    case LoadIdx(_, cell) => if cell in idxs then None else Some(INDEX_TYPE)
    case _ => None
  }

  /** A fault site of line i: a skippable call; a loop test, forced either way; an integer value that does not
      carry an index; a store. With DEC_SKIP_STATE, the squeeze calls alone. */
  predicate IsSite(prog: Program, c: Config, loops: seq<Loop>, regs: set<Reg>, t: Site)
    requires t.line < |prog|
  {
    var i := prog[t.line];
    && t.inside == LoopOf(loops, t.line)
    && match t.kind
       case StateSkip => c.stateSkip && i.Call? && i.op in c.squeeze
       case CallSkip => !c.stateSkip && i.Call? && i.op in c.skippable
       case Exit(_) => !c.stateSkip && i.Test?
       case Value(ty) => !c.stateSkip && ValueType(i, c, Cells(loops)) == Some(ty) && Defined(i) !in regs
       case Skip(ty, first) => !c.stateSkip && i.Store? && i.ty == ty && first == (t.line in c.firstWrites)
  }

  /** The sites of one line, in the order they are added. */
  method LineSites(prog: Program, i: nat, c: Config, loops: seq<Loop>, regs: set<Reg>) returns (sites: seq<Site>)
    requires i < |prog|
    ensures forall t :: t in sites <==> t.line == i && IsSite(prog, c, loops, regs, t)
    ensures forall k, m :: 0 <= k < m < |sites| ==> sites[k] != sites[m]
  {
    var ins, inside := prog[i], LoopOf(loops, i);
    if c.stateSkip {
      if ins.Call? && ins.op in c.squeeze { return [Site(i, StateSkip, inside)]; }
      return [];
    }
    sites := [];
    if ins.Call? && ins.op in c.skippable { sites := [Site(i, CallSkip, inside)]; }
    if ins.Test? { return [Site(i, Exit(false), inside), Site(i, Exit(true), inside)]; }
    var ty := ValueType(ins, c, Cells(loops));
    if ty.Some? && Defined(ins) !in regs { return sites + [Site(i, Value(ty.value), inside)]; }
    if ins.Store? { return [Site(i, Skip(ins.ty, i in c.firstWrites), inside)]; }
  }

  method FindSites(prog: Program, s: nat, e: nat, c: Config, loops: seq<Loop>, regs: set<Reg>) returns (sites: seq<Site>)
    requires s <= e <= |prog|
    ensures forall t :: t in sites <==> s <= t.line < e && IsSite(prog, c, loops, regs, t)
    ensures forall k, m :: 0 <= k < m < |sites| ==> sites[k].line <= sites[m].line && sites[k] != sites[m]
  {
    hide IsSite;
    sites := [];
    var i := s;
    while i < e
      invariant s <= i <= e
      invariant forall t :: t in sites <==> s <= t.line < i && IsSite(prog, c, loops, regs, t)
      invariant forall k, m :: 0 <= k < m < |sites| ==> sites[k].line <= sites[m].line && sites[k] != sites[m]
    {
      var added := LineSites(prog, i, c, loops, regs);
      assert forall k :: 0 <= k < |sites| ==> sites[k] in sites;
      assert forall k :: 0 <= k < |added| ==> added[k] in added;
      sites := sites + added;
      i := i + 1;
    }
  }

  // ---------- all variants ----------

  /** The counted loops of the region are laid out as compiled and not nested, and no other jump at or after the
      region's start goes back, unless it stays behind the region. */
  ghost predicate Unnested(prog: Program, s: nat, e: nat, loops: seq<Loop>) {
    && (forall l :: l in loops ==> exists b: nat :: LoopForm(prog, l, b))
    && (forall k, t: nat :: s <= k < |prog| && JumpsTo(prog[k], t) ==>
        k < t || e <= t || exists l :: l in loops && l.head == t && l.head <= k < l.exit)
  }

  /** Every selected site sits on an instruction its fault fits, and has one instance per label. */
  lemma SitesPassOnce(prog: Program, s: nat, e: nat, c: Config, loops: seq<Loop>, regs: set<Reg>, t: Site)
    requires OwnProgram(prog) && s <= t.line < e <= |prog| && IsSite(prog, c, loops, regs, t)
    requires Unnested(prog, s, e, loops)
    ensures SiteOk(prog, t) && OnePass(prog, t)
  {
    match t.inside {
      case Outside =>
        forall k, u: nat | t.line <= k < |prog| && JumpsTo(prog[k], u) ensures t.line < u {
          if u <= k && u < e {
            var l :| l in loops && l.head == u && l.head <= k < l.exit;
            assert !(l.head <= t.line < l.exit);
          }
        }
      case Inside(l) => IndexLoadNotSited(prog, s, e, c, loops, regs, t, l);
    }
  }

  lemma SiteFits(prog: Program, c: Config, loops: seq<Loop>, regs: set<Reg>, t: Site)
    requires OwnProgram(prog) && t.line < |prog| && IsSite(prog, c, loops, regs, t)
    ensures SiteOk(prog, t) && (t.kind.CallSkip? || t.kind.StateSkip? ==> prog[t.line].Call?)
  {
  }

  /** A call to skip with nothing to redirect. */
  predicate NoOutput(i: Instr, c: Config) {
    i.Call? && i.outs == [] && i.op in if c.stateSkip then c.squeeze else c.skippable
  }

  predicate SkipsCall(k: Kind) { k.CallSkip? || k.StateSkip? }

  /** What the pass writes for a region: its sites, and one variant for each. */
  ghost predicate Written(prog: Program, s: nat, e: nat, c: Config, sites: seq<Site>, texts: seq<Text>)
    requires s <= e <= |prog| && OwnProgram(prog)
  {
    var loops := LoopSeq(prog, s, e);
    var regs := IndexRegs(prog, s, e, c, IndexLoads(prog, s, e, Cells(loops)));
    && LoopsOf(prog, s, e, loops)
    && (forall t :: t in sites <==> s <= t.line < e && IsSite(prog, c, loops, regs, t))
    && |texts| == |sites|
    && forall k :: 0 <= k < |sites| ==> SiteOk(prog, sites[k]) && texts[k] == Injected(prog, sites[k])
  }

  /** The whole pass: one variant per site, or an error when the loops or an output cannot be found. */
  method Variants(prog: Program, s: nat, e: nat, c: Config) returns (r: Option<(seq<Site>, seq<Text>)>)
    requires s <= e <= |prog| && OwnProgram(prog)
    ensures r.None? <==> NoLoops(prog, s, e) || exists k :: s <= k < e && NoOutput(prog[k], c)
    ensures r.Some? ==> Written(prog, s, e, c, r.value.0, r.value.1)
  {
    hide Injected, OwnProgram, LoopsOf, Cells, LoopSeq, NoLoops, IndexRegs, IndexLoads, LoopOf;
    var found := FindLoops(prog, s, e);
    if found.None? { return None; }
    var loops := found.value;
    var regs := FindIndexRegs(prog, s, e, c, loops);
    var sites := FindSites(prog, s, e, c, loops, regs);
    var texts := [];
    var n := 0;
    while n < |sites|
      invariant 0 <= n <= |sites| && |texts| == n
      invariant forall k :: 0 <= k < n ==> SiteOk(prog, sites[k]) && texts[k] == Injected(prog, sites[k])
      invariant forall k :: 0 <= k < n ==> !(SkipsCall(sites[k].kind) && NoOutput(prog[sites[k].line], c))
    {
      var site := sites[n];
      assert site in sites;
      SiteFits(prog, c, loops, regs, site);
      if SkipsCall(site.kind) && prog[site.line].outs == [] {
        assert NoOutput(prog[site.line], c);
        return None;
      }
      var text := Variant(prog, site);
      texts := texts + [text];
      n := n + 1;
    }
    forall k | s <= k < e ensures !NoOutput(prog[k], c) {
      var t := Site(k, if c.stateSkip then StateSkip else CallSkip, LoopOf(loops, k));
      assert IsSite(prog, c, loops, regs, t) ==> t in sites;
    }
    return Some((sites, texts));
  }

  /** Every variant the pass writes alters one dynamic instance of the original, the one whose label is the
      fault number, or none. */
  lemma EveryVariantFaultsOnce<M(!new)>(prog: Program, s: nat, e: nat, c: Config, loops: seq<Loop>, regs: set<Reg>, t: Site,
                                  env: Env<M>, st: State<M>, n: nat)
    requires OwnProgram(prog) && s <= t.line < e <= |prog| && IsSite(prog, c, loops, regs, t)
    requires Unnested(prog, s, e, loops) && Lawful(t.kind, env)
    requires st.line == 0 && st.sub == 0 && st.fired == 0
    ensures SiteOk(prog, t) && OneInstance(prog, t, env, st, n)
  {
    SitesPassOnce(prog, s, e, c, loops, regs, t);
    hide OnePass, OneInstance;
    ExactlyOneInstance(prog, t, env, st, n);
  }

  // ---------- what is never corrupted ----------

  /** No selected site is the load of a found loop's index: its cell is excluded, whatever registers are. */
  lemma IndexLoadNotSited(prog: Program, s: nat, e: nat, c: Config, loops: seq<Loop>, regs: set<Reg>, t: Site, l: Loop)
    requires s <= t.line < e <= |prog| && IsSite(prog, c, loops, regs, t)
    requires Unnested(prog, s, e, loops) && l in loops
    ensures t.line != l.head
  {
    var b: nat :| LoopForm(prog, l, b);
    assert l.cell in Cells(loops);
  }

  /** So no value fault reaches a loop index: on every run of every variant, every loop the pass found is tested on
      the index it counts with. */
  lemma LoopsTestTrueIndex<M>(prog: Program, s: nat, e: nat, c: Config, loops: seq<Loop>, regs: set<Reg>, t: Site, l: Loop,
                              env: Env<M>, st: State<M>, n: nat)
    requires OwnProgram(prog) && s <= t.line < e <= |prog| && IsSite(prog, c, loops, regs, t)
    requires Unnested(prog, s, e, loops) && l in loops && st.line == 0 && st.sub == 0
    ensures SiteOk(prog, t) && l.head < |prog| && prog[l.head].LoadIdx?
    ensures var m := AltRun(prog, t, env, st, n);
      m.line == l.head + 1 ==> Get(m.regs, prog[l.head].dst) == Cell(m.cells, l.cell)
  {
    SiteFits(prog, c, loops, regs, t);
    IndexLoadNotSited(prog, s, e, c, loops, regs, t, l);
    var b: nat :| LoopForm(prog, l, b);
    TestReadsIndex(true, prog, t, l, b, env, st, n);
  }

  /** A definition that adds to or compares a register excluded by an earlier line, or loaded from an index anywhere
      in the region, is excluded too; one pass in text order sees no later exclusion. */
  lemma {:induction false} IndexRegsClosed(prog: Program, s: nat, e: nat, c: Config, loaded: set<Reg>, k: nat)
    requires s <= k < e <= |prog|
    ensures loaded <= IndexRegs(prog, s, k, c, loaded) <= IndexRegs(prog, s, e, c, loaded)
    ensures DerivesIndex(prog[k], c, IndexRegs(prog, s, k, c, loaded)) ==> prog[k].dst in IndexRegs(prog, s, e, c, loaded)
  {
    if k < e - 1 {
      IndexRegsClosed(prog, s, e - 1, c, loaded, k);
    } else {
      IndexRegsGrow(prog, s, k, c, loaded);
    }
  }

  lemma {:induction false} IndexRegsGrow(prog: Program, s: nat, e: nat, c: Config, loaded: set<Reg>)
    requires e <= |prog|
    ensures loaded <= IndexRegs(prog, s, e, c, loaded)
  {
    if e > s { IndexRegsGrow(prog, s, e - 1, c, loaded); }
  }
}
