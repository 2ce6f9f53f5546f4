/** The rewriting of poison operands into loads from fresh globals, line by line, and its meaning. */
module PoisonRewrite {
  import opened LaneIr
  import opened PoisonCheck

  /** The operands the rewriting pattern matches: vectors of 32- or 64-bit lanes with a poison lane. */
  predicate Rewritable(o: Operand) {
    PoisonText(o) && (o.PoisonVec? || o.ConstVec?) && (o.bits == 32 || o.bits == 64)
  }

  // ---------- the rewritten text ----------

  /** Re-insertion of the first li lanes that are defined, after the load of global k. */
  function Reinserted(lanes: seq<Lane>, k: nat, li: nat): seq<Instr>
    requires li <= |lanes|
  {
    if li == 0 then []
    else
      Reinserted(lanes, k, li - 1) +
      (if lanes[li - 1].Def?
       then [Insert(Temp(k, li), |lanes|, R(LastReg(lanes, k, li - 1)), Scalar(lanes[li - 1].v), li - 1)]
       else [])
  }

  /** The register that then holds the vector. */
  function LastReg(lanes: seq<Lane>, k: nat, li: nat): Reg
    requires li <= |lanes|
  {
    if li == 0 then Temp(k, 0) else if lanes[li - 1].Def? then Temp(k, li) else LastReg(lanes, k, li - 1)
  }

  function Width(o: Operand): nat {
    match o
    case PoisonVec(n, _) => n
    case ConstVec(lanes, _) => |lanes|
    case _ => 1
  }

  function KnownLanes(o: Operand): seq<Lane> {
    if o.ConstVec? then o.lanes else []
  }

  function Prelude(o: Operand, k: nat): seq<Instr> {
    [Load(Temp(k, 0), k, Width(o))] + Reinserted(KnownLanes(o), k, |KnownLanes(o)|)
  }

  function Replacement(o: Operand, k: nat): Operand {
    R(LastReg(KnownLanes(o), k, |KnownLanes(o)|))
  }

  /** Number of rewritten operands: each takes one fresh global. */
  function Count(args: seq<Operand>): nat {
    if args == [] then 0
    else Count(args[..|args| - 1]) + (if Rewritable(args[|args| - 1]) then 1 else 0)
  }

  function ArgsPrelude(args: seq<Operand>, k: nat): seq<Instr> {
    if args == [] then []
    else var init, last := args[..|args| - 1], args[|args| - 1];
      ArgsPrelude(init, k) + (if Rewritable(last) then Prelude(last, k + Count(init)) else [])
  }

  function NewArgs(args: seq<Operand>, k: nat): (r: seq<Operand>)
    ensures |r| == |args|
  {
    if args == [] then []
    else var init, last := args[..|args| - 1], args[|args| - 1];
      NewArgs(init, k) + [if Rewritable(last) then Replacement(last, k + Count(init)) else last]
  }

  function RewriteLine(i: Instr, k: nat): seq<Instr> {
    ArgsPrelude(Args(i), k) + [WithArgs(i, NewArgs(Args(i), k))]
  }

  function BlockCount(block: seq<Instr>): nat {
    if block == [] then 0 else BlockCount(block[..|block| - 1]) + Count(Args(block[|block| - 1]))
  }

  function RewriteBlock(block: seq<Instr>, k: nat): seq<Instr> {
    if block == [] then []
    else var init := block[..|block| - 1];
      RewriteBlock(init, k) + RewriteLine(block[|block| - 1], k + BlockCount(init))
  }

  function ProgCount(prog: Program): nat {
    if prog == [] then 0 else ProgCount(prog[..|prog| - 1]) + BlockCount(prog[|prog| - 1])
  }

  /** Globals are numbered through the whole text. */
  function RewriteProg(prog: Program): (r: Program)
    ensures |r| == |prog|
  {
    seq(|prog|, b requires 0 <= b < |prog| => RewriteBlock(prog[b], ProgCount(prog[..b])))
  }

  // ---------- the rewriting loop ----------

  /** The lines emitted for one poison operand, and the operand that replaces it. */
  method EmitLoad(o: Operand, k: nat) returns (out: seq<Instr>, r: Operand)
    ensures out == Prelude(o, k) && r == Replacement(o, k)
  {
    var cur := Temp(k, 0);
    out := [Load(cur, k, Width(o))];
    var lanes := KnownLanes(o);
    for li := 0 to |lanes|
      invariant out == [Load(Temp(k, 0), k, Width(o))] + Reinserted(lanes, k, li)
      invariant cur == LastReg(lanes, k, li)
    {
      if lanes[li].Def? {
        var nxt := Temp(k, li + 1);
        out := out + [Insert(nxt, |lanes|, R(cur), Scalar(lanes[li].v), li)];
        cur := nxt;
      }
    }
    r := R(cur);
  }

  /** One line: its operands are replaced from left to right. */
  method RewriteOneLine(line: Instr, k0: nat) returns (out: seq<Instr>, k: nat)
    ensures out == RewriteLine(line, k0) && k == k0 + Count(Args(line))
  {
    hide Prelude, Replacement, Rewritable;
    var args := Args(line);
    var newArgs: seq<Operand> := [];
    out, k := [], k0;
    for j := 0 to |args|
      invariant newArgs == NewArgs(args[..j], k0)
      invariant k == k0 + Count(args[..j])
      invariant out == ArgsPrelude(args[..j], k0)
    {
      assert args[..j + 1][..j] == args[..j];
      if Rewritable(args[j]) {
        var lines, r := EmitLoad(args[j], k);
        out, newArgs, k := out + lines, newArgs + [r], k + 1;
      } else {
        newArgs := newArgs + [args[j]];
      }
    }
    assert args[..|args|] == args;
    out := out + [WithArgs(line, newArgs)];
  }

  /** One pass over the lines of a block with the running counter k. */
  method RewriteLines(block: seq<Instr>, k0: nat) returns (out: seq<Instr>, k: nat)
    ensures out == RewriteBlock(block, k0) && k == k0 + BlockCount(block)
  {
    hide RewriteLine, Count;
    out, k := [], k0;
    for n := 0 to |block|
      invariant out == RewriteBlock(block[..n], k0) && k == k0 + BlockCount(block[..n])
    {
      assert block[..n + 1][..n] == block[..n];
      var lines, next := RewriteOneLine(block[n], k);
      out, k := out + lines, next;
    }
    assert block[..|block|] == block;
  }

  /** The rewriting of the whole text. */
  method Rewrite(prog: Program) returns (out: Program)
    ensures out == RewriteProg(prog)
  {
    hide RewriteBlock, BlockCount;
    out := [];
    var k := 0;
    for b := 0 to |prog|
      invariant |out| == b && k == ProgCount(prog[..b])
      invariant forall c :: 0 <= c < b ==> out[c] == RewriteBlock(prog[c], ProgCount(prog[..c]))
    {
      assert prog[..b + 1][..b] == prog[..b];
      var lines, next := RewriteLines(prog[b], k);
      out, k := out + [lines], next;
    }
  }
}
