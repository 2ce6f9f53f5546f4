/** A lane-wise SSA form of the parsed LLVM IR: vectors are sequences of lanes, a scalar has one lane.
    insertelement and shufflevector are interpreted; every other instruction is opaque, and its meaning
    is a parameter, so what is proved holds for every meaning. Poison lanes take their values from an
    oracle that may answer differently at every step, site and lane. */
module LaneIr {
  import opened Common

  /** Temp(k, j) are the names the rewriter makes up: the load of global k and its j-th re-insertion. */
  datatype Reg = Named(n: nat) | Temp(k: nat, j: nat)

  type Val = seq<int>

  datatype Lane = Def(v: int) | Poison

  datatype Operand =
    | R(r: Reg)
    | Scalar(v: int)
    | PoisonScalar
    | ConstVec(lanes: seq<Lane>, bits: nat)
    | PoisonVec(n: nat, bits: nat)

  datatype Mask = ZeroMask | Lanes(sel: seq<Lane>)

  datatype Instr =
    | Insert(dst: Reg, n: nat, base: Operand, elt: Operand, lane: nat)
    | Shuffle(dst: Reg, n: nat, a: Operand, b: Operand, mask: Mask)
    | Value(dst: Reg, op: nat, args: seq<Operand>)
    | Effect(op: nat, args: seq<Operand>)
    | Jump(op: nat, args: seq<Operand>)
    | Load(dst: Reg, global: nat, n: nat)

  /** One function: its blocks, in file order. */
  type Program = seq<seq<Instr>>

  function Dst(i: Instr): Option<Reg> {
    match i
    case Effect(_, _) => None
    case Jump(_, _) => None
    case _ => Some(i.dst)
  }

  function Args(i: Instr): seq<Operand> {
    match i
    case Insert(_, _, base, elt, _) => [base, elt]
    case Shuffle(_, _, a, b, _) => [a, b]
    case Value(_, _, args) => args
    case Effect(_, args) => args
    case Jump(_, args) => args
    case Load(_, _, _) => []
  }

  function WithArgs(i: Instr, args: seq<Operand>): (r: Instr)
    requires |args| == |Args(i)|
    ensures Args(r) == args && Dst(r) == Dst(i)
  {
    match i
    case Insert(d, n, _, _, l) => Insert(d, n, args[0], args[1], l)
    case Shuffle(d, n, _, _, mask) => Shuffle(d, n, args[0], args[1], mask)
    case Value(d, op, _) => Value(d, op, args)
    case Effect(op, _) => Effect(op, args)
    case Jump(op, _) => Jump(op, args)
    case Load(_, _, _) => i
  }

  /** Lane l of the operand is poison. */
  predicate PoisonLane(o: Operand, l: nat) {
    match o
    case PoisonScalar => l == 0
    case ConstVec(lanes, _) => l < |lanes| && lanes[l] == Poison
    case PoisonVec(n, _) => l < n
    case _ => false
  }

  ghost predicate HasPoisonLane(o: Operand) { exists l: nat :: PoisonLane(o, l) }

  // ---------- semantics ----------

  datatype Site = Site(block: nat, index: nat, arg: nat)

  /** Value of a poison lane: step, place of the operand, lane. */
  type Oracle = (nat, Site, nat) -> int

  /** Place of a shuffle's mask, after its two operands. */
  const MASK_ARG := 2

  /** Meaning of the opaque instructions. The memory may also hold the predecessor block for phis. */
  datatype Machine<!M> = Machine(
    value: (nat, seq<Val>, M) -> Val,
    memory: (nat, seq<Val>, M) -> M,
    next: (nat, seq<Val>, M) -> nat)

  /** A run that has read past the end of a global is outside; nothing is known of it any more. */
  datatype State<M> = State(block: nat, index: nat, regs: map<Reg, Val>, mem: M, outside: bool)

  /** Lanes of every global the rewriter declares, whatever vector it loads from it. */
  const LANES := 4

  function Get(regs: map<Reg, Val>, r: Reg): Val {
    if r in regs then regs[r] else []
  }

  function At(v: Val, l: nat): int {
    if l < |v| then v[l] else 0
  }

  function Eval(o: Operand, regs: map<Reg, Val>, p: Oracle, t: nat, s: Site): Val {
    match o
    case R(r) => Get(regs, r)
    case Scalar(v) => [v]
    case PoisonScalar => [p(t, s, 0)]
    case ConstVec(lanes, _) =>
      seq(|lanes|, i requires 0 <= i < |lanes| => if lanes[i].Def? then lanes[i].v else p(t, s, i))
    case PoisonVec(n, _) => seq(n, i requires 0 <= i < n => p(t, s, i))
  }

  function EvalArgs(args: seq<Operand>, regs: map<Reg, Val>, p: Oracle, t: nat, block: nat, index: nat): (r: seq<Val>)
    ensures |r| == |args|
  {
    seq(|args|, j requires 0 <= j < |args| => Eval(args[j], regs, p, t, Site(block, index, j)))
  }

  function InsertLane(n: nat, base: Val, elt: Val, lane: nat): Val {
    seq(n, i requires 0 <= i < n => if i == lane then At(elt, 0) else At(base, i))
  }

  /** Lane of the two n-lane operands that a mask lane selects. */
  function Select(n: nat, a: Val, b: Val, m: int): int {
    if m < 0 then 0 else if m < n then At(a, m) else At(b, m - n)
  }

  /** A poison mask lane selects nothing: that lane of the result is poison, and u chooses its value. */
  function ShuffleLanes(n: nat, a: Val, b: Val, mask: Mask, u: nat -> int): Val {
    match mask
    case ZeroMask => seq(n, i requires 0 <= i < n => Select(n, a, b, 0))
    case Lanes(sel) =>
      seq(|sel|, i requires 0 <= i < |sel| => if sel[i].Def? then Select(n, a, b, sel[i].v) else u(i))
  }

  /** Contents of global k as an n-lane vector. */
  function Loaded(g: (nat, nat) -> int, k: nat, n: nat): Val {
    seq(n, l requires 0 <= l < n => g(k, l))
  }

  /** What an oracle answers for the mask of the shuffle at a place. */
  function MaskLanes(p: Oracle, t: nat, block: nat, index: nat): nat -> int {
    (l: nat) => p(t, Site(block, index, MASK_ARG), l)
  }

  function Running<M>(prog: Program, s: State<M>): bool {
    !s.outside && s.block < |prog| && s.index < |prog[s.block]|
  }

  /** Effect of one instruction on a state, given the values of its operands and of the poison lanes of its mask. */
  function Exec<M>(i: Instr, v: seq<Val>, u: nat -> int, m: Machine<M>, g: (nat, nat) -> int, s: State<M>): State<M>
    requires |v| == |Args(i)|
  {
    match i
    case Insert(d, n, _, _, lane) =>
      s.(index := s.index + 1, regs := s.regs[d := InsertLane(n, v[0], v[1], lane)])
    case Shuffle(d, n, _, _, mask) =>
      s.(index := s.index + 1, regs := s.regs[d := ShuffleLanes(n, v[0], v[1], mask, u)])
    case Value(d, op, _) =>
      s.(index := s.index + 1, regs := s.regs[d := m.value(op, v, s.mem)], mem := m.memory(op, v, s.mem))
    case Effect(op, _) =>
      s.(index := s.index + 1, mem := m.memory(op, v, s.mem))
    case Jump(op, _) =>
      s.(block := m.next(op, v, s.mem), index := 0, mem := m.memory(op, v, s.mem))
    case Load(d, k, n) =>
      if n > LANES then s.(outside := true) else s.(index := s.index + 1, regs := s.regs[d := Loaded(g, k, n)])
  }

  /** One step; a state past the program has returned and stays as it is. */
  function Step<M>(prog: Program, m: Machine<M>, g: (nat, nat) -> int, p: Oracle, t: nat, s: State<M>): State<M> {
    if Running(prog, s) then
      var i := prog[s.block][s.index];
      Exec(i, EvalArgs(Args(i), s.regs, p, t, s.block, s.index), MaskLanes(p, t, s.block, s.index), m, g, s)
    else s
  }

  function Run<M>(prog: Program, m: Machine<M>, g: (nat, nat) -> int, p: Oracle, s: State<M>, n: nat): State<M> {
    if n == 0 then s else Step(prog, m, g, p, n - 1, Run(prog, m, g, p, s, n - 1))
  }

  lemma RunOne<M>(prog: Program, m: Machine<M>, g: (nat, nat) -> int, p: Oracle, s: State<M>, n: nat)
    ensures Run(prog, m, g, p, s, n + 1) == Step(prog, m, g, p, n, Run(prog, m, g, p, s, n))
  {
  }

  // ---------- lines, definitions and uses ----------

  /** All instructions of the function, block after block. */
  function AllLines(prog: Program): seq<Instr> {
    if prog == [] then [] else AllLines(prog[..|prog| - 1]) + prog[|prog| - 1]
  }

  lemma {:induction false} LineOfProgram(prog: Program, b: nat, i: nat)
    requires b < |prog| && i < |prog[b]|
    ensures prog[b][i] in AllLines(prog)
  {
    if b < |prog| - 1 {
      LineOfProgram(prog[..|prog| - 1], b, i);
    }
  }

  /** Static single assignment: no register is defined on two lines. */
  ghost predicate SSA(lines: seq<Instr>) {
    forall i, j :: 0 <= i < j < |lines| && Dst(lines[i]).Some? ==> Dst(lines[i]) != Dst(lines[j])
  }

  lemma SameDefinition(lines: seq<Instr>, a: Instr, b: Instr)
    requires SSA(lines) && a in lines && b in lines && Dst(a).Some? && Dst(a) == Dst(b)
    ensures a == b
  {
  }

  /** Occurrences of register r among the operands. */
  function Mentions(args: seq<Operand>, r: Reg): nat {
    if args == [] then 0
    else Mentions(args[..|args| - 1], r) + (if args[|args| - 1] == R(r) then 1 else 0)
  }

  function Repeat<T>(x: T, k: nat): (s: seq<T>)
    ensures |s| == k && forall i :: 0 <= i < k ==> s[i] == x
  {
    seq(k, _ => x)
  }

  /** For every occurrence of r as an operand, in order, the register its line defines. */
  function Uses(lines: seq<Instr>, r: Reg): seq<Option<Reg>> {
    if lines == [] then []
    else var last := lines[|lines| - 1];
      Uses(lines[..|lines| - 1], r) + Repeat(Dst(last), Mentions(Args(last), r))
  }

  lemma {:induction false} UsesOfLine(lines: seq<Instr>, ins: Instr, r: Reg)
    requires ins in lines
    ensures |Uses(lines, r)| >= Mentions(Args(ins), r)
    ensures Mentions(Args(ins), r) > 0 ==> Dst(ins) in Uses(lines, r)
  {
    var last := lines[|lines| - 1];
    if ins == last {
      if Mentions(Args(ins), r) > 0 {
        assert Repeat(Dst(last), Mentions(Args(last), r))[0] == Dst(ins);
      }
    } else {
      UsesOfLine(lines[..|lines| - 1], ins, r);
    }
  }

  lemma {:induction false} MentionsAt(args: seq<Operand>, r: Reg, j: nat)
    requires j < |args| && args[j] == R(r)
    ensures Mentions(args, r) >= 1
  {
    if j < |args| - 1 { MentionsAt(args[..|args| - 1], r, j); }
  }

  lemma MentionedTwice(base: Operand, elt: Operand, r: Reg)
    requires base == R(r) && elt == R(r)
    ensures Mentions([base, elt], r) == 2
  {
    assert [base, elt][..1] == [base];
    assert Mentions([base], r) == 1;
  }
}
