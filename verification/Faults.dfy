/** One fault site turned into instrumented text, and what the instrumented text means: the original
    function in which the site behaves differently at the instances labelled with the fault number. */
module Faults {
  import opened Common
  import opened FaultIr

  /** A counted loop as the injector finds it: header line, exit line, index cell. */
  datatype Loop = Loop(head: nat, exit: nat, cell: nat)
  datatype InLoop = Outside | Inside(loop: Loop)

  datatype Kind =
    | Value(ty: nat)                  // V: an integer value is replaced
    | Exit(forced: bool)              // E: a loop test is forced
    | Skip(ty: nat, first: bool)      // S: a store writes back what was there, or anything at all
    | CallSkip                        // C: a call writes to scratch buffers
    | StateSkip                       // C with DEC_SKIP_STATE: and its context is put back

  datatype Site = Site(line: nat, kind: Kind, inside: InLoop)

  // ---------- the original function uses its own names ----------

  predicate Own(o: Operand) { o.R? ==> o.r.Named? }

  predicate OwnAll(os: seq<Operand>) { forall k :: 0 <= k < |os| ==> Own(os[k]) }

  predicate OwnInstr(i: Instr) {
    match i
    case Op(d, _, args) => d.Named? && OwnAll(args)
    case Test(d, a, _) => d.Named? && a.Named?
    case LoadIdx(d, _) => d.Named?
    case Store(_, v, p) => Own(v) && Own(p)
    case Call(ret, _, outs, args) => (ret.Some? ==> ret.value.Named?) && OwnAll(outs) && OwnAll(args)
    case Br(c, _, _) => Own(c)
    case _ => !Added(i)
  }

  predicate OwnProgram(prog: Program) { forall k :: 0 <= k < |prog| ==> OwnInstr(prog[k]) }

  /** The instruction a site of this kind sits on. */
  predicate Fits(kind: Kind, i: Instr) {
    match kind
    case Value(_) => i.Op? || i.LoadIdx? || (i.Call? && i.ret.Some?)
    case Exit(_) => i.Test?
    case Skip(ty, _) => i.Store? && i.ty == ty
    case CallSkip => i.Call?
    case StateSkip => i.Call?
  }

  /** The register a value site's instruction defines. */
  function Defined(i: Instr): Reg
    requires Fits(Value(0), i)
  {
    match i
    case Call(ret, _, _, _) => ret.value
    case _ => i.dst
  }

  /** The same instruction with another result register. */
  function Retarget(i: Instr, r: Reg): Instr
    requires Fits(Value(0), i)
  {
    match i
    case Op(_, op, args) => Op(r, op, args)
    case LoadIdx(_, c) => LoadIdx(r, c)
    case Call(_, op, outs, args) => Call(Some(r), op, outs, args)
  }

  /** Type of the 208-byte context that a squeeze reads and advances: its first pointer argument. */
  const CONTEXT := 208

  function Context(i: Instr): Operand
    requires i.Call?
  {
    if i.args == [] then C(0) else i.args[0]
  }

  predicate SiteOk(prog: Program, site: Site) {
    OwnProgram(prog) && site.line < |prog| && Fits(site.kind, prog[site.line])
  }

  // ---------- the instrumented line ----------

  function T(t: Temp): Operand { R(Tmp(t)) }

  /** Read the fault number, compare it with the label of this instance, record a hit. */
  function Prelude(inside: InLoop): seq<Instr> {
    Compare(inside) + [LoadFired(Tmp(TF0))] + [Sel(Tmp(TF1), T(THit), C(1), T(TF0))] + [StoreFired(T(TF1))]
  }

  function Compare(inside: InLoop): seq<Instr> {
    match inside
    case Outside => [LoadJ(Tmp(TJ))] + [Eq(Tmp(THit), T(TJ), C(0))]
    case Inside(l) => [LoadJ(Tmp(TJ))] + [LoadIdx(Tmp(TIt), l.cell)] + [Eq(Tmp(THit), T(TJ), T(TIt))]
  }

  /** Scratch buffer and destination of each output of a skipped call. */
  function Redirects(outs: seq<Operand>, n: nat): seq<Instr>
    requires n <= |outs|
  {
    if n == 0 then []
    else
      Redirects(outs, n - 1) + [Alloca(Tmp(TScratch(n - 1)), n - 1)]
      + [Sel(Tmp(TDst(n - 1)), T(THit), T(TScratch(n - 1)), outs[n - 1])]
  }

  function Redirected(n: nat): (o: seq<Operand>)
    ensures |o| == n
  {
    seq(n, k requires 0 <= k < n => T(TDst(k)))
  }

  function Chunk(site: Site, i: Instr): (l: seq<Instr>)
    requires Fits(site.kind, i)
  {
    var pre := Prelude(site.inside);
    match site.kind
    case Value(ty) =>
      [Retarget(i, Tmp(TOrig))] + pre + [LoadV(Tmp(TFv), ty)] + [Sel(Defined(i), T(THit), T(TFv), T(TOrig))]
    case Exit(forced) =>
      [Test(Tmp(TOrig), i.arg, i.bound)] + pre + [Sel(i.dst, T(THit), C(Bit(forced)), T(TOrig))]
    case Skip(ty, first) =>
      pre + [if first then LoadV(Tmp(TOld), ty) else LoadMem(Tmp(TOld), ty, i.ptr)]
      + [Sel(Tmp(TVal), T(THit), T(TOld), i.val)] + [Store(ty, T(TVal), i.ptr)]
    case CallSkip =>
      pre + Redirects(i.outs, |i.outs|) + [Call(i.ret, i.op, Redirected(|i.outs|), i.args)]
    case StateSkip =>
      pre + [LoadMem(Tmp(TCtx), CONTEXT, Context(i))] + Redirects(i.outs, |i.outs|)
      + [Call(i.ret, i.op, Redirected(|i.outs|), i.args)] + [LoadMem(Tmp(TNew), CONTEXT, Context(i))]
      + [Sel(Tmp(TCv), T(THit), T(TCtx), T(TNew))] + [Store(CONTEXT, T(TCv), Context(i))]
  }

  function Injected(prog: Program, site: Site): (t: Text)
    requires SiteOk(prog, site)
    ensures |t| == |prog|
  {
    Plain(prog)[site.line := Chunk(site, prog[site.line])]
  }

  /** The outputs of a skipped call, one scratch buffer each. */
  method RedirectOutputs(outs: seq<Operand>) returns (added: seq<Instr>, dsts: seq<Operand>)
    ensures added == Redirects(outs, |outs|)
    ensures dsts == Redirected(|outs|)
  {
    added, dsts := [], [];
    var j := 0;
    while j < |outs|
      invariant 0 <= j <= |outs|
      invariant added == Redirects(outs, j)
      invariant dsts == Redirected(j)
    {
      added := added + [Alloca(Tmp(TScratch(j)), j)] + [Sel(Tmp(TDst(j)), T(THit), T(TScratch(j)), outs[j])];
      dsts := dsts + [T(TDst(j))];
      j := j + 1;
    }
  }

  /** One variant: a copy of the function's lines with one line replaced. */
  method Variant(prog: Program, site: Site) returns (text: Text)
    requires SiteOk(prog, site)
    ensures text == Injected(prog, site)
  {
    text := [];
    var k := 0;
    while k < |prog|
      invariant 0 <= k <= |prog| && |text| == k
      invariant forall m :: 0 <= m < k ==> text[m] == [prog[m]]
    {
      text := text + [[prog[k]]];
      k := k + 1;
    }
    var i := prog[site.line];
    var pre := Prelude(site.inside);
    var line: seq<Instr>;
    match site.kind {
      case Value(ty) =>
        line := [Retarget(i, Tmp(TOrig))] + pre + [LoadV(Tmp(TFv), ty)] + [Sel(Defined(i), T(THit), T(TFv), T(TOrig))];
      case Exit(forced) =>
        line := [Test(Tmp(TOrig), i.arg, i.bound)] + pre + [Sel(i.dst, T(THit), C(Bit(forced)), T(TOrig))];
      case Skip(ty, first) =>
        var prior := if first then LoadV(Tmp(TOld), ty) else LoadMem(Tmp(TOld), ty, i.ptr);
        line := pre + [prior] + [Sel(Tmp(TVal), T(THit), T(TOld), i.val)] + [Store(ty, T(TVal), i.ptr)];
      case CallSkip =>
        var added, dsts := RedirectOutputs(i.outs);
        line := pre + added + [Call(i.ret, i.op, dsts, i.args)];
      case StateSkip =>
        var save := LoadMem(Tmp(TCtx), CONTEXT, Context(i));
        var added, dsts := RedirectOutputs(i.outs);
        line := pre + [save] + added + [Call(i.ret, i.op, dsts, i.args)] + [LoadMem(Tmp(TNew), CONTEXT, Context(i))]
          + [Sel(Tmp(TCv), T(THit), T(TCtx), T(TNew))] + [Store(CONTEXT, T(TCv), Context(i))];
    }
    text := text[site.line := line];
  }

  // ---------- what a faulted instance does ----------

  /** The label of the instance about to run: the loop index, or 0 outside any loop. */
  function Label<M>(site: Site, s: State<M>): int {
    match site.inside
    case Outside => 0
    case Inside(l) => Cell(s.cells, l.cell)
  }

  predicate Hits<M>(site: Site, e: Env<M>, s: State<M>) {
    s.line == site.line && Label(site, s) == e.j
  }

  function Scratch<M>(e: Env<M>, n: nat): (s: seq<int>)
    ensures |s| == n
  {
    seq(n, k requires 0 <= k < n => e.scratch(k))
  }

  /** The data effect of a faulted instance. */
  function Faulted<M>(kind: Kind, i: Instr, e: Env<M>, s: State<M>): State<M>
    requires Fits(kind, i)
  {
    match kind
    case Value(ty) => var d := Data(i, e, s); d.(regs := d.regs[Defined(i) := e.fv(ty)])
    case Exit(forced) => s.(regs := s.regs[i.dst := Bit(forced)])
    case Skip(ty, first) =>
      var p := Eval(i.ptr, s.regs);
      s.(mem := e.store(ty, p, if first then e.fv(ty) else e.load(ty, p, s.mem), s.mem))
    case CallSkip => Called(i.ret, i.op, Scratch(e, |i.outs|), EvalAll(i.args, s.regs), e, s)
    case StateSkip =>
      var d := Called(i.ret, i.op, Scratch(e, |i.outs|), EvalAll(i.args, s.regs), e, s);
      d.(mem := e.store(CONTEXT, Eval(Context(i), d.regs), e.load(CONTEXT, Eval(Context(i), s.regs), s.mem), d.mem))
  }

  /** Writing a context back as it stands changes nothing: memory holds what was written. */
  ghost predicate Lawful<M(!new)>(kind: Kind, e: Env<M>) {
    kind.StateSkip? ==> forall p: int, m: M :: e.store(CONTEXT, p, e.load(CONTEXT, p, m), m) == m
  }

  /** A step of the original function, faulted where the site is hit. */
  function AltStep<M>(prog: Program, site: Site, e: Env<M>, s: State<M>): State<M>
    requires SiteOk(prog, site)
  {
    if Hits(site, e, s) then
      Faulted(site.kind, prog[site.line], e, s).(line := s.line + 1, sub := 0, fired := 1)
    else Step(Plain(prog), e, s)
  }

  function AltRun<M>(prog: Program, site: Site, e: Env<M>, s: State<M>, n: nat): State<M>
    requires SiteOk(prog, site)
  {
    if n == 0 then s else AltStep(prog, site, e, AltRun(prog, site, e, s, n - 1))
  }

  // ---------- the instrumented line behaves like the faulted step ----------

  /** Same state but for the injector's own temporaries. */
  ghost predicate Agree<M>(s: State<M>, a: State<M>) {
    && s.line == a.line && s.sub == a.sub && s.cells == a.cells && s.mem == a.mem && s.fired == a.fired
    && SameNamed(s.regs, a.regs)
  }

  ghost predicate SameNamed(s: map<Reg, int>, a: map<Reg, int>) {
    forall n: nat :: Get(s, Named(n)) == Get(a, Named(n))
  }

  lemma EvalAllAgrees(os: seq<Operand>, s: map<Reg, int>, a: map<Reg, int>)
    requires OwnAll(os) && SameNamed(s, a)
    ensures EvalAll(os, s) == EvalAll(os, a)
  {
    forall k | 0 <= k < |os| ensures EvalAll(os, s)[k] == EvalAll(os, a)[k] {
      assert Own(os[k]);
    }
  }

  lemma DataAgrees<M>(i: Instr, e: Env<M>, s: State<M>, a: State<M>)
    requires OwnInstr(i) && Agree(s, a)
    ensures Agree(Data(i, e, s), Data(i, e, a))
  {
    match i {
      case Op(_, _, args) => EvalAllAgrees(args, s.regs, a.regs);
      case Call(_, _, outs, args) => EvalAllAgrees(outs, s.regs, a.regs); EvalAllAgrees(args, s.regs, a.regs);
      case _ =>
    }
  }

  lemma FoldSnoc<M>(l: seq<Instr>, i: Instr, e: Env<M>, s: State<M>)
    ensures Fold(l + [i], e, s) == Data(i, e, Fold(l, e, s))
  {
    var m := l + [i];
    assert m[..|m| - 1] == l;
  }

  /** After the prelude: the hit bit, the recorded hit, nothing else of the function's own. */
  ghost predicate Prepared<M>(site: Site, e: Env<M>, s: State<M>, p: State<M>) {
    && Agree(p, s.(fired := if Label(site, s) == e.j then 1 else s.fired))
    && Get(p.regs, Tmp(THit)) == Bit(Label(site, s) == e.j)
    && Get(p.regs, Tmp(TOrig)) == Get(s.regs, Tmp(TOrig))
  }

  lemma FoldOne<M>(i: Instr, e: Env<M>, s: State<M>)
    ensures Fold([i], e, s) == Data(i, e, s)
  {
    assert [] + [i] == [i];
    FoldSnoc([], i, e, s);
  }

  lemma CompareDecides<M>(site: Site, e: Env<M>, s: State<M>)
    ensures var c := Fold(Compare(site.inside), e, s);
      Agree(c, s) && Get(c.regs, Tmp(THit)) == Bit(Label(site, s) == e.j)
      && Get(c.regs, Tmp(TOrig)) == Get(s.regs, Tmp(TOrig))
  {
    hide Fold;
    var l := LoadJ(Tmp(TJ));
    FoldOne(l, e, s);
    match site.inside {
      case Outside =>
        FoldSnoc([l], Eq(Tmp(THit), T(TJ), C(0)), e, s);
      case Inside(lo) =>
        FoldSnoc([l], LoadIdx(Tmp(TIt), lo.cell), e, s);
        FoldSnoc([l] + [LoadIdx(Tmp(TIt), lo.cell)], Eq(Tmp(THit), T(TJ), T(TIt)), e, s);
    }
  }

  lemma PreludePrepares<M>(site: Site, e: Env<M>, s: State<M>)
    ensures Prepared(site, e, s, Fold(Prelude(site.inside), e, s))
  {
    hide Fold, Compare;
    CompareDecides(site, e, s);
    var l := Compare(site.inside);
    FoldSnoc(l, LoadFired(Tmp(TF0)), e, s);
    FoldSnoc(l + [LoadFired(Tmp(TF0))], Sel(Tmp(TF1), T(THit), C(1), T(TF0)), e, s);
    FoldSnoc(l + [LoadFired(Tmp(TF0))] + [Sel(Tmp(TF1), T(THit), C(1), T(TF0))], StoreFired(T(TF1)), e, s);
  }

  /** The data effect a site's line has, hit or not. */
  function AltData<M>(site: Site, i: Instr, e: Env<M>, s: State<M>): State<M>
    requires Fits(site.kind, i)
  {
    if Label(site, s) == e.j then Faulted(site.kind, i, e, s).(fired := 1) else Data(i, e, s)
  }

  /** Moving the result elsewhere moves nothing else. */
  lemma Retargeted<M>(i: Instr, e: Env<M>, s: State<M>, a: State<M>)
    requires Fits(Value(0), i) && OwnInstr(i) && Agree(s, a)
    ensures var v := Get(Data(i, e, a).regs, Defined(i));
      && Data(i, e, a) == a.(regs := a.regs[Defined(i) := v], mem := Data(i, e, a).mem)
      && Data(Retarget(i, Tmp(TOrig)), e, s) == s.(regs := s.regs[Tmp(TOrig) := v], mem := Data(i, e, a).mem)
  {
    match i {
      case Op(_, _, args) => EvalAllAgrees(args, s.regs, a.regs);
      case Call(_, _, outs, args) => EvalAllAgrees(outs, s.regs, a.regs); EvalAllAgrees(args, s.regs, a.regs);
      case _ =>
    }
  }

  lemma ValueLine<M>(site: Site, i: Instr, e: Env<M>, s: State<M>, a: State<M>)
    requires site.kind.Value? && Fits(site.kind, i) && OwnInstr(i) && Agree(s, a)
    ensures Agree(Fold(Chunk(site, i), e, s), AltData(site, i, e, a))
  {
    hide Fold, Prelude, Redirects;
    var pre := Prelude(site.inside);
    var o, d := Retarget(i, Tmp(TOrig)), Defined(i);
    assert d.Named?;
    Retargeted(i, e, s, a);
    var s0 := Data(o, e, s);
    var v, m := Get(Data(i, e, a).regs, d), Data(i, e, a).mem;
    FoldOne(o, e, s);
    FoldConcat([o], pre, e, s);
    PreludePrepares(site, e, s0);
    FoldSnoc([o] + pre, LoadV(Tmp(TFv), site.kind.ty), e, s);
    FoldSnoc([o] + pre + [LoadV(Tmp(TFv), site.kind.ty)], Sel(d, T(THit), T(TFv), T(TOrig)), e, s);
    hide Fold, Data, Retarget, Defined, Prepared, AltData, Agree;
    ValueChosen(site, i, e, s, a, s0, Fold(pre, e, s0));
  }

  /** The select after the prelude. */
  lemma ValueChosen<M>(site: Site, i: Instr, e: Env<M>, s: State<M>, a: State<M>, s0: State<M>, p: State<M>)
    requires site.kind.Value? && Fits(site.kind, i) && Defined(i).Named? && Agree(s, a) && Prepared(site, e, s0, p)
    requires var v := Get(Data(i, e, a).regs, Defined(i));
      && Data(i, e, a) == a.(regs := a.regs[Defined(i) := v], mem := Data(i, e, a).mem)
      && s0 == s.(regs := s.regs[Tmp(TOrig) := v], mem := Data(i, e, a).mem)
    ensures var ty := site.kind.ty;
      Agree(Data(Sel(Defined(i), T(THit), T(TFv), T(TOrig)), e, Data(LoadV(Tmp(TFv), ty), e, p)), AltData(site, i, e, a))
  {
    var d, ty := Defined(i), site.kind.ty;
    var v, m := Get(Data(i, e, a).regs, d), Data(i, e, a).mem;
    var hit := Label(site, s0) == e.j;
    Picked(d, ty, e, p, hit);
    ValueEffect(site, i, e, a);
    hide Defined, Data, AltData, Faulted;
    SetNamed(p.regs[Tmp(TFv) := e.fv(ty)], a.regs, d, if hit then e.fv(ty) else v);
  }

  lemma Picked<M>(d: Reg, ty: nat, e: Env<M>, p: State<M>, hit: bool)
    requires Get(p.regs, Tmp(THit)) == Bit(hit)
    ensures Data(Sel(d, T(THit), T(TFv), T(TOrig)), e, Data(LoadV(Tmp(TFv), ty), e, p))
      == p.(regs := p.regs[Tmp(TFv) := e.fv(ty)][d := if hit then e.fv(ty) else Get(p.regs, Tmp(TOrig))])
  {
    assert Data(LoadV(Tmp(TFv), ty), e, p) == p.(regs := p.regs[Tmp(TFv) := e.fv(ty)]);
  }

  lemma ValueEffect<M>(site: Site, i: Instr, e: Env<M>, a: State<M>)
    requires site.kind.Value? && Fits(site.kind, i)
    requires Data(i, e, a) == a.(regs := a.regs[Defined(i) := Get(Data(i, e, a).regs, Defined(i))], mem := Data(i, e, a).mem)
    ensures var v := if Label(site, a) == e.j then e.fv(site.kind.ty) else Get(Data(i, e, a).regs, Defined(i));
      AltData(site, i, e, a) == a.(regs := AltData(site, i, e, a).regs, mem := Data(i, e, a).mem,
                                   fired := if Label(site, a) == e.j then 1 else a.fired)
      && SameNamed(AltData(site, i, e, a).regs, a.regs[Defined(i) := v])
  {
    hide Data;
  }

  lemma SetNamed(r: map<Reg, int>, s: map<Reg, int>, d: Reg, v: int)
    requires SameNamed(r, s)
    ensures SameNamed(r[d := v], s[d := v])
  {
  }

  lemma ExitLine<M>(site: Site, i: Instr, e: Env<M>, s: State<M>, a: State<M>)
    requires site.kind.Exit? && Fits(site.kind, i) && OwnInstr(i) && Agree(s, a)
    ensures Agree(Fold(Chunk(site, i), e, s), AltData(site, i, e, a))
  {
    hide Fold, Prelude, Redirects;
    var pre := Prelude(site.inside);
    var o := Test(Tmp(TOrig), i.arg, i.bound);
    var s0 := Data(o, e, s);
    FoldOne(o, e, s);
    FoldConcat([o], pre, e, s);
    PreludePrepares(site, e, s0);
    FoldSnoc([o] + pre, Sel(i.dst, T(THit), C(Bit(site.kind.forced)), T(TOrig)), e, s);
  }

  lemma SkipLine<M>(site: Site, i: Instr, e: Env<M>, s: State<M>, a: State<M>)
    requires site.kind.Skip? && Fits(site.kind, i) && OwnInstr(i) && Agree(s, a)
    ensures Agree(Fold(Chunk(site, i), e, s), AltData(site, i, e, a))
  {
    hide Fold, Prelude, Redirects, AltData, Prepared;
    var pre := Prelude(site.inside);
    var ty := site.kind.ty;
    PreludePrepares(site, e, s);
    assert Chunk(site, i) == pre + [if site.kind.first then LoadV(Tmp(TOld), ty) else LoadMem(Tmp(TOld), ty, i.ptr)]
      + [Sel(Tmp(TVal), T(THit), T(TOld), i.val)] + [Store(ty, T(TVal), i.ptr)];
    hide Chunk, Data;
    var o := if site.kind.first then LoadV(Tmp(TOld), ty) else LoadMem(Tmp(TOld), ty, i.ptr);
    FoldSnoc(pre, o, e, s);
    FoldSnoc(pre + [o], Sel(Tmp(TVal), T(THit), T(TOld), i.val), e, s);
    FoldSnoc(pre + [o] + [Sel(Tmp(TVal), T(THit), T(TOld), i.val)], Store(ty, T(TVal), i.ptr), e, s);
    SkipTail(site, i, e, s, a, Fold(pre, e, s));
  }

  /** The load, select and store after the prelude. */
  lemma SkipTail<M>(site: Site, i: Instr, e: Env<M>, s: State<M>, a: State<M>, p: State<M>)
    requires site.kind.Skip? && Fits(site.kind, i) && OwnInstr(i) && Agree(s, a) && Prepared(site, e, s, p)
    ensures var ty := site.kind.ty;
      var o := if site.kind.first then LoadV(Tmp(TOld), ty) else LoadMem(Tmp(TOld), ty, i.ptr);
      var q := Data(Sel(Tmp(TVal), T(THit), T(TOld), i.val), e, Data(o, e, p));
      Agree(Data(Store(ty, T(TVal), i.ptr), e, q), AltData(site, i, e, a))
  {
    var ptr, val := Eval(i.ptr, p.regs), Eval(i.val, p.regs);
    assert ptr == Eval(i.ptr, a.regs) && val == Eval(i.val, a.regs);
    var v := if site.kind.first then e.fv(site.kind.ty) else e.load(site.kind.ty, ptr, p.mem);
    var w := if Label(site, s) == e.j then v else val;
    var o := if site.kind.first then LoadV(Tmp(TOld), site.kind.ty) else LoadMem(Tmp(TOld), site.kind.ty, i.ptr);
    assert Data(o, e, p) == p.(regs := p.regs[Tmp(TOld) := v]);
    assert Data(Sel(Tmp(TVal), T(THit), T(TOld), i.val), e, Data(o, e, p))
      == p.(regs := p.regs[Tmp(TOld) := v][Tmp(TVal) := w]);
    assert AltData(site, i, e, a).mem == e.store(site.kind.ty, ptr, w, a.mem);
  }

  /** Each output's destination holds its scratch buffer on a hit, its own pointer otherwise. */
  ghost predicate Chosen<M>(outs: seq<Operand>, n: nat, e: Env<M>, p: State<M>, r: State<M>)
    requires n <= |outs|
  {
    && Agree(r, p) && Get(r.regs, Tmp(THit)) == Get(p.regs, Tmp(THit))
    && forall k: nat :: k < n ==>
      Get(r.regs, Tmp(TDst(k))) == if Get(p.regs, Tmp(THit)) != 0 then e.scratch(k) else Eval(outs[k], p.regs)
  }

  lemma FoldNothing<M>(e: Env<M>, p: State<M>)
    ensures Fold([], e, p) == p
  {
  }

  lemma NothingChosen<M>(outs: seq<Operand>, e: Env<M>, p: State<M>)
    ensures Chosen(outs, 0, e, p, Fold([], e, p))
  {
  }

  lemma OneRedirect<M>(outs: seq<Operand>, n: nat, e: Env<M>, p: State<M>, r: State<M>)
    requires n < |outs| && Own(outs[n]) && Chosen(outs, n, e, p, r)
    ensures Chosen(outs, n + 1, e, p,
      Data(Sel(Tmp(TDst(n)), T(THit), T(TScratch(n)), outs[n]), e, Data(Alloca(Tmp(TScratch(n)), n), e, r)))
  {
    var v := if Get(p.regs, Tmp(THit)) != 0 then e.scratch(n) else Eval(outs[n], p.regs);
    var q := r.(regs := r.regs[Tmp(TScratch(n)) := e.scratch(n)]);
    assert Data(Alloca(Tmp(TScratch(n)), n), e, r) == q;
    assert Data(Sel(Tmp(TDst(n)), T(THit), T(TScratch(n)), outs[n]), e, q) == q.(regs := q.regs[Tmp(TDst(n)) := v]);
  }

  /** Each output's destination holds its scratch buffer on a hit, its own pointer otherwise. */
  lemma {:induction false} RedirectsChoose<M>(outs: seq<Operand>, n: nat, e: Env<M>, p: State<M>)
    requires OwnAll(outs) && n <= |outs|
    ensures Chosen(outs, n, e, p, Fold(Redirects(outs, n), e, p))
  {
    hide Fold, Data, Chosen;
    if n == 0 {
      NothingChosen(outs, e, p);
    } else {
      RedirectsChoose(outs, n - 1, e, p);
      var l := Redirects(outs, n - 1);
      var sc := Alloca(Tmp(TScratch(n - 1)), n - 1);
      FoldSnoc(l, sc, e, p);
      FoldSnoc(l + [sc], Sel(Tmp(TDst(n - 1)), T(THit), T(TScratch(n - 1)), outs[n - 1]), e, p);
      assert Own(outs[n - 1]);
      OneRedirect(outs, n - 1, e, p, Fold(l, e, p));
    }
  }

  /** The call with its chosen outputs. */
  lemma ChosenCall<M>(i: Instr, e: Env<M>, p: State<M>, r: State<M>, a: State<M>, hit: bool)
    requires i.Call? && OwnInstr(i) && Chosen(i.outs, |i.outs|, e, p, r) && Get(p.regs, Tmp(THit)) == Bit(hit)
    requires SameNamed(p.regs, a.regs) && p.mem == a.mem
    ensures var outs := if hit then Scratch(e, |i.outs|) else EvalAll(i.outs, a.regs);
      Data(Call(i.ret, i.op, Redirected(|i.outs|), i.args), e, r)
      == Called(i.ret, i.op, outs, EvalAll(i.args, a.regs), e, r)
  {
    var n := |i.outs|;
    EvalAllAgrees(i.args, r.regs, a.regs);
    EvalAllAgrees(i.outs, p.regs, a.regs);
    var want := if hit then Scratch(e, n) else EvalAll(i.outs, a.regs);
    assert EvalAll(Redirected(n), r.regs) == want by {
      forall k | 0 <= k < n ensures EvalAll(Redirected(n), r.regs)[k] == want[k] {
        assert EvalAll(i.outs, p.regs)[k] == Eval(i.outs[k], p.regs);
      }
    }
  }

  lemma CallLine<M>(site: Site, i: Instr, e: Env<M>, s: State<M>, a: State<M>)
    requires site.kind.CallSkip? && Fits(site.kind, i) && OwnInstr(i) && Agree(s, a)
    ensures Agree(Fold(Chunk(site, i), e, s), AltData(site, i, e, a))
  {
    hide Fold, Prelude, Redirects, EvalAll, Scratch, Redirected;
    var pre := Prelude(site.inside);
    var n := |i.outs|;
    PreludePrepares(site, e, s);
    var p := Fold(pre, e, s);
    FoldConcat(pre, Redirects(i.outs, n), e, s);
    RedirectsChoose(i.outs, n, e, p);
    ChosenCall(i, e, p, Fold(Redirects(i.outs, n), e, p), a, Label(site, a) == e.j);
    FoldSnoc(pre + Redirects(i.outs, n), Call(i.ret, i.op, Redirected(n), i.args), e, s);
  }

  /** Up to the call: the saved context, the hit bit and the chosen outputs. */
  lemma SavedAndChosen<M>(site: Site, i: Instr, e: Env<M>, s: State<M>)
    requires i.Call? && OwnInstr(i)
    ensures var pre, save := Prelude(site.inside), LoadMem(Tmp(TCtx), CONTEXT, Context(i));
      var p := Data(save, e, Fold(pre, e, s));
      var r := Fold(pre + [save] + Redirects(i.outs, |i.outs|), e, s);
      && Prepared(site, e, s, p) && Chosen(i.outs, |i.outs|, e, p, r)
      && Get(r.regs, Tmp(TCtx)) == e.load(CONTEXT, Eval(Context(i), s.regs), s.mem)
  {
    hide Fold, Prelude, Redirects, Chosen;
    var pre, save := Prelude(site.inside), LoadMem(Tmp(TCtx), CONTEXT, Context(i));
    var n := |i.outs|;
    PreludePrepares(site, e, s);
    FoldSnoc(pre, save, e, s);
    FoldConcat(pre + [save], Redirects(i.outs, n), e, s);
    RedirectsChoose(i.outs, n, e, Data(save, e, Fold(pre, e, s)));
    RedirectsKeep(i.outs, n, e, Data(save, e, Fold(pre, e, s)));
    assert Own(Context(i));
  }

  lemma RedirectKeeps<M>(n: nat, o: Operand, e: Env<M>, r: State<M>)
    ensures Get(Data(Sel(Tmp(TDst(n)), T(THit), T(TScratch(n)), o), e, Data(Alloca(Tmp(TScratch(n)), n), e, r)).regs, Tmp(TCtx))
      == Get(r.regs, Tmp(TCtx))
  {
  }

  lemma {:induction false} RedirectsKeep<M>(outs: seq<Operand>, n: nat, e: Env<M>, p: State<M>)
    requires n <= |outs|
    ensures Get(Fold(Redirects(outs, n), e, p).regs, Tmp(TCtx)) == Get(p.regs, Tmp(TCtx))
  {
    hide Fold, Data;
    if n == 0 {
      FoldNothing(e, p);
    } else {
      RedirectsKeep(outs, n - 1, e, p);
      var l := Redirects(outs, n - 1);
      var sc := Alloca(Tmp(TScratch(n - 1)), n - 1);
      FoldSnoc(l, sc, e, p);
      FoldSnoc(l + [sc], Sel(Tmp(TDst(n - 1)), T(THit), T(TScratch(n - 1)), outs[n - 1]), e, p);
      RedirectKeeps(n - 1, outs[n - 1], e, Fold(l, e, p));
    }
  }

  /** The load, select and store after the call put the saved context back on a hit, and the new one otherwise. */
  lemma ContextPutBack<M>(ctx: Operand, e: Env<M>, q: State<M>, hit: bool)
    requires Own(ctx) && Get(q.regs, Tmp(THit)) == Bit(hit)
    ensures var ptr := Eval(ctx, q.regs);
      var back := if hit then Get(q.regs, Tmp(TCtx)) else e.load(CONTEXT, ptr, q.mem);
      var t := Data(Store(CONTEXT, T(TCv), ctx), e,
        Data(Sel(Tmp(TCv), T(THit), T(TCtx), T(TNew)), e, Data(LoadMem(Tmp(TNew), CONTEXT, ctx), e, q)));
      Agree(t, q.(mem := e.store(CONTEXT, ptr, back, q.mem)))
  {
    var ptr := Eval(ctx, q.regs);
    var latest := e.load(CONTEXT, ptr, q.mem);
    var back := if hit then Get(q.regs, Tmp(TCtx)) else latest;
    var q1 := q.(regs := q.regs[Tmp(TNew) := latest]);
    assert Data(LoadMem(Tmp(TNew), CONTEXT, ctx), e, q) == q1;
    assert Data(Sel(Tmp(TCv), T(THit), T(TCtx), T(TNew)), e, q1) == q1.(regs := q1.regs[Tmp(TCv) := back]);
  }

  lemma StateLine<M(!new)>(site: Site, i: Instr, e: Env<M>, s: State<M>, a: State<M>)
    requires site.kind.StateSkip? && Fits(site.kind, i) && OwnInstr(i) && Agree(s, a) && Lawful(site.kind, e)
    ensures Agree(Fold(Chunk(site, i), e, s), AltData(site, i, e, a))
  {
    hide Fold, Prelude, Redirects, EvalAll, Scratch, Redirected;
    var ctx, n := Context(i), |i.outs|;
    assert Own(ctx);
    var pre, save := Prelude(site.inside), LoadMem(Tmp(TCtx), CONTEXT, ctx);
    var hit := Label(site, a) == e.j;
    SavedAndChosen(site, i, e, s);
    var p := Data(save, e, Fold(pre, e, s));
    var upto := pre + [save] + Redirects(i.outs, n);
    var r := Fold(upto, e, s);
    ChosenCall(i, e, p, r, a, hit);
    var call := Call(i.ret, i.op, Redirected(n), i.args);
    var load, sel, store := LoadMem(Tmp(TNew), CONTEXT, ctx), Sel(Tmp(TCv), T(THit), T(TCtx), T(TNew)), Store(CONTEXT, T(TCv), ctx);
    FoldSnoc(upto, call, e, s);
    FoldSnoc(upto + [call], load, e, s);
    FoldSnoc(upto + [call] + [load], sel, e, s);
    FoldSnoc(upto + [call] + [load] + [sel], store, e, s);
    assert Chunk(site, i) == upto + [call] + [load] + [sel] + [store];
    hide Chunk;
    var q := Data(call, e, r);
    ContextPutBack(ctx, e, q, hit);
    StateMeets(site, i, e, s, a, p, r, q, hit);
  }

  lemma StateMeets<M(!new)>(site: Site, i: Instr, e: Env<M>, s: State<M>, a: State<M>, p: State<M>, r: State<M>, q: State<M>,
                      hit: bool)
    requires site.kind.StateSkip? && Fits(site.kind, i) && OwnInstr(i) && Agree(s, a) && Lawful(site.kind, e)
    requires hit == (Label(site, a) == e.j) && Prepared(site, e, s, p) && Agree(r, p)
    requires Get(r.regs, Tmp(TCtx)) == e.load(CONTEXT, Eval(Context(i), s.regs), s.mem)
    requires q == Called(i.ret, i.op, if hit then Scratch(e, |i.outs|) else EvalAll(i.outs, a.regs), EvalAll(i.args, a.regs), e, r)
    ensures var ptr := Eval(Context(i), q.regs);
      var back := if hit then Get(q.regs, Tmp(TCtx)) else e.load(CONTEXT, ptr, q.mem);
      Agree(q.(mem := e.store(CONTEXT, ptr, back, q.mem)), AltData(site, i, e, a))
  {
    hide EvalAll, Scratch;
    assert Own(Context(i));
    assert Eval(Context(i), s.regs) == Eval(Context(i), a.regs);
  }

  /** The instrumented line, run from its start, is one faulted or ordinary step of the original. */
  lemma LineIsStep<M(!new)>(site: Site, i: Instr, e: Env<M>, s: State<M>, a: State<M>)
    requires Fits(site.kind, i) && OwnInstr(i) && Agree(s, a) && Lawful(site.kind, e)
    ensures Agree(Fold(Chunk(site, i), e, s), AltData(site, i, e, a))
  {
    match site.kind {
      case Value(_) => ValueLine(site, i, e, s, a);
      case Exit(_) => ExitLine(site, i, e, s, a);
      case Skip(_, _) => SkipLine(site, i, e, s, a);
      case CallSkip => CallLine(site, i, e, s, a);
      case StateSkip => StateLine(site, i, e, s, a);
    }
  }

  lemma {:induction false} RedirectsStraight(outs: seq<Operand>, n: nat)
    requires n <= |outs|
    ensures forall k :: 0 <= k < |Redirects(outs, n)| ==> !IsJump(Redirects(outs, n)[k])
  {
    if n > 0 { RedirectsStraight(outs, n - 1); }
  }

  lemma ChunkStraight(site: Site, i: Instr)
    requires Fits(site.kind, i)
    ensures |Chunk(site, i)| > 0
    ensures forall k :: 0 <= k < |Chunk(site, i)| ==> !IsJump(Chunk(site, i)[k])
  {
    hide Redirects, Prelude;
    PreludeStraight(site.inside);
    if i.Call? { RedirectsStraight(i.outs, |i.outs|); }
  }

  lemma PreludeStraight(inside: InLoop)
    ensures |Prelude(inside)| > 0 && forall k :: 0 <= k < |Prelude(inside)| ==> !IsJump(Prelude(inside)[k])
  {
  }

  // ---------- whole runs ----------

  /** Instrumented steps one original step takes. */
  function Cost<M>(prog: Program, site: Site, s: State<M>): nat
    requires SiteOk(prog, site)
  {
    if s.line == site.line then |Chunk(site, prog[site.line])| else 1
  }

  function Time<M>(prog: Program, site: Site, e: Env<M>, s: State<M>, n: nat): nat
    requires SiteOk(prog, site)
  {
    if n == 0 then 0 else Time(prog, site, e, s, n - 1) + Cost(prog, site, AltRun(prog, site, e, s, n - 1))
  }

  lemma RunOnce<M>(text: Text, e: Env<M>, s: State<M>)
    ensures Run(text, e, s, 0) == s && Run(text, e, s, 1) == Step(text, e, s)
  {
    assert Run(text, e, s, 0) == s;
  }

  lemma AgreeFacts<M>(s: State<M>, a: State<M>)
    ensures Agree(s, s) && (Agree(s, a) ==> s.sub == a.sub)
  {
  }

  lemma StepMatches<M(!new)>(prog: Program, site: Site, e: Env<M>, s: State<M>, a: State<M>)
    requires SiteOk(prog, site) && Lawful(site.kind, e) && Agree(s, a) && s.sub == 0
    ensures Agree(Run(Injected(prog, site), e, s, Cost(prog, site, a)), AltStep(prog, site, e, a))
    ensures AltStep(prog, site, e, a).sub == 0
  {
    hide Chunk, Fold, Run, Faulted;
    var text := Injected(prog, site);
    if s.line == site.line {
      var i := prog[site.line];
      var l := Chunk(site, i);
      assert text[s.line] == l;
      ChunkStraight(site, i);
      LineIsStep(site, i, e, s, a);
      RunLine(text, e, s, |l|);
      FoldKeepsPlace(l, e, s);
      assert l[..|l|] == l;
      assert !IsJump(i);
      FaultedKeeps(site.kind, i, e, a);
    } else {
      RunOnce(text, e, s);
      if s.line < |prog| {
        DataAgrees(prog[s.line], e, s, a);
        assert text[s.line] == Plain(prog)[s.line] == [prog[s.line]];
        assert OwnInstr(prog[s.line]);
      }
    }
  }

  lemma FaultedKeeps<M>(kind: Kind, i: Instr, e: Env<M>, s: State<M>)
    requires Fits(kind, i)
    ensures var f := Faulted(kind, i, e, s); f.line == s.line && f.sub == s.sub && f.cells == s.cells
  {
  }

  /** The instrumented text runs exactly as the original with its faulted instances. */
  lemma {:induction false} InjectedRuns<M(!new)>(prog: Program, site: Site, e: Env<M>, s: State<M>, n: nat)
    requires Lawful(site.kind, e) && SiteOk(prog, site) && s.sub == 0
    ensures Agree(Run(Injected(prog, site), e, s, Time(prog, site, e, s, n)), AltRun(prog, site, e, s, n))
    ensures AltRun(prog, site, e, s, n).sub == 0
  {
    hide Chunk, AltStep, Injected, Agree, Run, Cost, Step;
    if n == 0 {
      AgreeFacts(s, s);
      RunOnce(Injected(prog, site), e, s);
    } else {
      InjectedRuns(prog, site, e, s, n - 1);
      var t := Time(prog, site, e, s, n - 1);
      var a := AltRun(prog, site, e, s, n - 1);
      var text := Injected(prog, site);
      RunAdd(text, e, s, t, Cost(prog, site, a));
      AgreeFacts(Run(text, e, s, t), a);
      StepMatches(prog, site, e, Run(text, e, s, t), a);
    }
  }

  /** A run with no hit is a run of the original. */
  lemma {:induction false} NoHitNoChange<M>(prog: Program, site: Site, e: Env<M>, s: State<M>, n: nat)
    requires SiteOk(prog, site)
    requires forall k: nat :: k < n ==> !Hits(site, e, Run(Plain(prog), e, s, k))
    ensures AltRun(prog, site, e, s, n) == Run(Plain(prog), e, s, n)
  {
    hide Step;
    if n > 0 {
      NoHitNoChange(prog, site, e, s, n - 1);
      assert !Hits(site, e, Run(Plain(prog), e, s, n - 1));
    }
  }

  /** For a fault number that labels no executed instance, the variant is the original program. */
  lemma UnhitVariantIsOriginal<M(!new)>(prog: Program, site: Site, e: Env<M>, s: State<M>, n: nat)
    requires Lawful(site.kind, e) && SiteOk(prog, site) && s.sub == 0
    requires forall k: nat :: k < n ==> !Hits(site, e, Run(Plain(prog), e, s, k))
    ensures Agree(Run(Injected(prog, site), e, s, Time(prog, site, e, s, n)), Run(Plain(prog), e, s, n))
  {
    hide Run, Agree, Injected;
    InjectedRuns(prog, site, e, s, n);
    NoHitNoChange(prog, site, e, s, n);
  }
}
