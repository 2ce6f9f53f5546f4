/** The scalar IR of the fault injector: numbered lines, a few interpreted instructions, everything else
    opaque. A rewritten text keeps the line numbers: each line becomes a list of instructions. */
module FaultIr {
  import opened Common

  /** Temporaries the injector adds; one site per variant, so one set of names. */
  datatype Temp = TJ | TIt | THit | TF0 | TF1 | TOrig | TFv | TOld | TVal | TCtx | TNew | TCv | TScratch(k: nat) | TDst(j: nat)
  datatype Reg = Named(n: nat) | Tmp(t: Temp)

  datatype Operand = R(r: Reg) | C(v: int)

  datatype Instr =
    | Op(dst: Reg, op: nat, args: seq<Operand>)           // value definition, opaque
    | Test(dst: Reg, arg: Reg, bound: nat)                // icmp ult i64 arg, bound
    | LoadIdx(dst: Reg, cell: nat)                        // load of a loop index
    | InitIdx(cell: nat)                                  // index = 0
    | Next(cell: nat)                                     // index = index + 1, in 64 bits
    | Store(ty: nat, val: Operand, ptr: Operand)
    | Call(ret: Option<Reg>, op: nat, outs: seq<Operand>, args: seq<Operand>)
    | Br(cond: Operand, yes: nat, no: nat)
    | Goto(target: nat)
    | Ret
    | LoadJ(dst: Reg)
    | LoadV(dst: Reg, ty: nat)
    | LoadFired(dst: Reg)
    | StoreFired(val: Operand)
    | LoadMem(dst: Reg, ty: nat, ptr: Operand)
    | Eq(dst: Reg, a: Operand, b: Operand)
    | Sel(dst: Reg, cond: Operand, a: Operand, b: Operand)
    | Alloca(dst: Reg, j: nat)                            // scratch buffer j

  /** Instructions only the injector emits. */
  predicate Added(i: Instr) {
    i.LoadJ? || i.LoadV? || i.LoadFired? || i.StoreFired? || i.LoadMem? || i.Eq? || i.Sel? || i.Alloca?
  }

  predicate IsJump(i: Instr) { i.Br? || i.Goto? || i.Ret? }

  /** The function before and after injection. */
  type Program = seq<Instr>
  type Text = seq<seq<Instr>>

  /** Meaning of the opaque parts, the scratch buffers, and the fault globals that are only read. */
  datatype Env<!M> = Env(
    value: (nat, seq<int>, M) -> int,
    effect: (nat, seq<int>, M) -> M,
    load: (nat, int, M) -> int,
    store: (nat, int, int, M) -> M,
    call: (nat, seq<int>, seq<int>, M) -> M,
    result: (nat, seq<int>, seq<int>, M) -> int,
    scratch: nat -> int,
    j: int,
    fv: nat -> int)

  datatype State<M> = State(line: nat, sub: nat, regs: map<Reg, int>, cells: map<nat, int>, mem: M, fired: int)

  const TWO64 := 0x1_0000_0000_0000_0000

  function Get(regs: map<Reg, int>, r: Reg): int { if r in regs then regs[r] else 0 }

  function Cell(cells: map<nat, int>, c: nat): int { if c in cells then cells[c] else 0 }

  function Eval(o: Operand, regs: map<Reg, int>): int {
    match o
    case R(r) => Get(regs, r)
    case C(v) => v
  }

  function EvalAll(os: seq<Operand>, regs: map<Reg, int>): (v: seq<int>)
    ensures |v| == |os|
  {
    seq(|os|, k requires 0 <= k < |os| => Eval(os[k], regs))
  }

  function Bit(b: bool): int { if b then 1 else 0 }

  /** A call writes its outputs and may have an integer result. */
  function Called<M>(ret: Option<Reg>, op: nat, outs: seq<int>, args: seq<int>, e: Env<M>, s: State<M>): State<M> {
    s.(regs := if ret.Some? then s.regs[ret.value := e.result(op, outs, args, s.mem)] else s.regs,
       mem := e.call(op, outs, args, s.mem))
  }

  /** What an instruction does to registers, memory and globals. */
  function Data<M>(i: Instr, e: Env<M>, s: State<M>): State<M> {
    match i
    case Op(d, op, args) =>
      var v := EvalAll(args, s.regs);
      s.(regs := s.regs[d := e.value(op, v, s.mem)], mem := e.effect(op, v, s.mem))
    case Test(d, a, n) => s.(regs := s.regs[d := Bit(0 <= Get(s.regs, a) < n)])
    case LoadIdx(d, c) => s.(regs := s.regs[d := Cell(s.cells, c)])
    case InitIdx(c) => s.(cells := s.cells[c := 0])
    case Next(c) => s.(cells := s.cells[c := (Cell(s.cells, c) + 1) % TWO64])
    case Store(ty, val, ptr) => s.(mem := e.store(ty, Eval(ptr, s.regs), Eval(val, s.regs), s.mem))
    case Call(ret, op, outs, args) => Called(ret, op, EvalAll(outs, s.regs), EvalAll(args, s.regs), e, s)
    case LoadJ(d) => s.(regs := s.regs[d := e.j])
    case LoadV(d, ty) => s.(regs := s.regs[d := e.fv(ty)])
    case LoadFired(d) => s.(regs := s.regs[d := s.fired])
    case StoreFired(v) => s.(fired := Eval(v, s.regs))
    case LoadMem(d, ty, ptr) => s.(regs := s.regs[d := e.load(ty, Eval(ptr, s.regs), s.mem)])
    case Eq(d, a, b) => s.(regs := s.regs[d := Bit(Eval(a, s.regs) == Eval(b, s.regs))])
    case Sel(d, c, a, b) => s.(regs := s.regs[d := if Eval(c, s.regs) != 0 then Eval(a, s.regs) else Eval(b, s.regs)])
    case Alloca(d, j) => s.(regs := s.regs[d := e.scratch(j)])
    case _ => s
  }

  /** The line a jump goes to; a return leaves the text. */
  function Target(i: Instr, regs: map<Reg, int>, end: nat): nat
    requires IsJump(i)
  {
    match i
    case Br(c, yes, no) => if Eval(c, regs) != 0 then yes else no
    case Goto(t) => t
    case Ret => end
  }

  predicate Running<M>(text: Text, s: State<M>) {
    s.line < |text| && s.sub < |text[s.line]|
  }

  function Step<M>(text: Text, e: Env<M>, s: State<M>): State<M> {
    if !Running(text, s) then s
    else
      var i := text[s.line][s.sub];
      var d := Data(i, e, s);
      if IsJump(i) then d.(line := Target(i, s.regs, |text|), sub := 0)
      else if s.sub + 1 < |text[s.line]| then d.(sub := s.sub + 1)
      else d.(line := s.line + 1, sub := 0)
  }

  function Run<M>(text: Text, e: Env<M>, s: State<M>, n: nat): State<M> {
    if n == 0 then s else Step(text, e, Run(text, e, s, n - 1))
  }

  /** The original function as a text of one instruction per line. */
  function Plain(prog: Program): (t: Text)
    ensures |t| == |prog|
  {
    seq(|prog|, k requires 0 <= k < |prog| => [prog[k]])
  }

  lemma {:induction false} RunAdd<M>(text: Text, e: Env<M>, s: State<M>, a: nat, b: nat)
    ensures Run(text, e, s, a + b) == Run(text, e, Run(text, e, s, a), b)
  {
    hide Step;
    if b > 0 { RunAdd(text, e, s, a, b - 1); }
  }

  // ---------- straight-line lists ----------

  /** Data effect of a list without jumps. */
  function Fold<M>(l: seq<Instr>, e: Env<M>, s: State<M>): State<M> {
    if l == [] then s else Data(l[|l| - 1], e, Fold(l[..|l| - 1], e, s))
  }

  lemma {:induction false} FoldConcat<M>(a: seq<Instr>, b: seq<Instr>, e: Env<M>, s: State<M>)
    ensures Fold(a + b, e, s) == Fold(b, e, Fold(a, e, s))
  {
    if b == [] {
      assert a + b == a;
    } else {
      var ab := a + b;
      assert ab[..|ab| - 1] == a + b[..|b| - 1] && ab[|ab| - 1] == b[|b| - 1];
      FoldConcat(a, b[..|b| - 1], e, s);
    }
  }

  lemma {:induction false} FoldKeepsPlace<M>(l: seq<Instr>, e: Env<M>, s: State<M>)
    ensures Fold(l, e, s).line == s.line && Fold(l, e, s).sub == s.sub
  {
    if l != [] { FoldKeepsPlace(l[..|l| - 1], e, s); }
  }

  /** A data effect does not look at the place. */
  lemma DataAnywhere<M>(i: Instr, e: Env<M>, s: State<M>, line: nat, sub: nat)
    ensures Data(i, e, s.(line := line, sub := sub)) == Data(i, e, s).(line := line, sub := sub)
  {
  }

  /** Running a line without jumps from its first instruction. */
  lemma {:induction false} RunLine<M>(text: Text, e: Env<M>, s: State<M>, k: nat)
    requires s.line < |text| && s.sub == 0 && 0 < |text[s.line]| && k <= |text[s.line]|
    requires forall i :: 0 <= i < |text[s.line]| ==> !IsJump(text[s.line][i])
    ensures var f := Fold(text[s.line][..k], e, s);
      Run(text, e, s, k) == if k < |text[s.line]| then f.(sub := k) else f.(line := s.line + 1, sub := 0)
  {
    var l := text[s.line];
    if k > 0 {
      RunLine(text, e, s, k - 1);
      var f := Fold(l[..k - 1], e, s);
      FoldKeepsPlace(l[..k - 1], e, s);
      assert l[..k][..k - 1] == l[..k - 1] && l[..k][k - 1] == l[k - 1];
      DataAnywhere(l[k - 1], e, f, s.line, k - 1);
    }
  }
}
