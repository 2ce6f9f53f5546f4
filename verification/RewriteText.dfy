/** What the rewriting leaves of the text: which operands it takes, which it leaves alone, and one fresh global for
    each it takes. */
module RewriteText {
  import opened LaneIr
  import opened PoisonRewrite
  import opened PoisonSound
  import opened PoisonExact
  import opened RewriteSound

  ghost predicate NoLaneIn(i: Instr) { forall j :: 0 <= j < |Args(i)| ==> !HasPoisonLane(Args(i)[j]) }

  /** No operand of the rewritten function has a poison lane. */
  ghost predicate PoisonFree(prog: Program) {
    forall b, k :: 0 <= b < |prog| && 0 <= k < |RewriteProg(prog)[b]| ==> NoLaneIn(RewriteProg(prog)[b][k])
  }

  /** Every operand with a poison lane is a vector of 32-bit or of 64-bit lanes. */
  ghost predicate OnlyVectors(lines: seq<Instr>) {
    forall i, j :: i in lines && 0 <= j < |Args(i)| && HasPoisonLane(Args(i)[j]) ==> Vector32or64(Args(i)[j])
  }

  // ---------- one line ----------

  lemma {:induction false} NewArgAt(args: seq<Operand>, k: nat, j: nat)
    requires j < |args|
    ensures NewArgs(args, k)[j] == if Rewritable(args[j]) then Replacement(args[j], k + Count(args[..j])) else args[j]
  {
    hide Rewritable, Replacement;
    var n := |args| - 1;
    if j < n {
      assert args[..n][..j] == args[..j];
      NewArgAt(args[..n], k, j);
    }
  }

  lemma {:induction false} ReinsertedClean(lanes: seq<Lane>, k: nat, li: nat)
    requires li <= |lanes|
    ensures forall x :: x in Reinserted(lanes, k, li) ==> NoLaneIn(x)
  {
    if li > 0 { ReinsertedClean(lanes, k, li - 1); }
  }

  lemma {:induction false} PreludeClean(args: seq<Operand>, k: nat)
    ensures forall x :: x in ArgsPrelude(args, k) ==> NoLaneIn(x)
  {
    hide Rewritable;
    if args != [] {
      var init, last := args[..|args| - 1], args[|args| - 1];
      PreludeClean(init, k);
      ReinsertedClean(KnownLanes(last), k + Count(init), |KnownLanes(last)|);
    }
  }

  /** The line itself: an operand is taken if it is a vector of 32-bit or 64-bit lanes with a poison lane, and comes out
      as it is if it has no poison lane or is no such vector. */
  lemma OperandOut(i: Instr, k: nat, j: nat)
    requires j < |Args(i)| && HasLanes(Args(i)[j])
    ensures var o, o' := Args(i)[j], NewArgs(Args(i), k)[j];
      if HasPoisonLane(o) && Vector32or64(o) then o'.R? && o'.r.Temp? else o' == o
  {
    hide HasPoisonLane, Vector32or64, Rewritable, NewArgs;
    var o := Args(i)[j];
    NewArgAt(Args(i), k, j);
    RewrittenAre(o);
    LanesThere(o);
    ReplacementName(KnownLanes(o), k + Count(Args(i)[..j]), |KnownLanes(o)|);
  }

  lemma LanesThere(o: Operand)
    requires HasLanes(o)
    ensures Rewritable(o) ==> Width(o) > 0
  {
  }

  lemma {:induction false} ReplacementName(lanes: seq<Lane>, k: nat, li: nat)
    requires li <= |lanes|
    ensures LastReg(lanes, k, li).Temp? && LastReg(lanes, k, li).k == k
  {
    if li > 0 { ReplacementName(lanes, k, li - 1); }
  }

  // ---------- the whole text ----------

  lemma LineClean(i: Instr, k: nat)
    requires forall j :: 0 <= j < |Args(i)| && HasPoisonLane(Args(i)[j]) ==> Vector32or64(Args(i)[j])
    ensures forall x :: x in RewriteLine(i, k) ==> NoLaneIn(x)
  {
    hide Vector32or64, Rewritable;
    PreludeClean(Args(i), k);
    var out := WithArgs(i, NewArgs(Args(i), k));
    forall j | 0 <= j < |Args(out)| ensures !HasPoisonLane(Args(out)[j]) {
      NewArgAt(Args(i), k, j);
      RewrittenAre(Args(i)[j]);
    }
  }

  lemma {:induction false} BlockClean(block: seq<Instr>, k: nat)
    requires OnlyVectors(block)
    ensures forall x :: x in RewriteBlock(block, k) ==> NoLaneIn(x)
  {
    hide RewriteLine, NoLaneIn, HasPoisonLane, Vector32or64;
    if block != [] {
      var init, last := block[..|block| - 1], block[|block| - 1];
      assert last in block;
      BlockClean(init, k);
      LineClean(last, k + BlockCount(init));
    }
  }

  /** The rewritten function has no poison left iff every operand with poison is a vector of 32-bit or 64-bit lanes. */
  lemma PoisonFreeIff(prog: Program)
    ensures PoisonFree(prog) <==> OnlyVectors(AllLines(prog))
  {
    hide RewriteBlock, NewArgs, HasPoisonLane, Vector32or64, Rewritable;
    if OnlyVectors(AllLines(prog)) {
      forall b, k | 0 <= b < |prog| && 0 <= k < |RewriteProg(prog)[b]| ensures NoLaneIn(RewriteProg(prog)[b][k]) {
        BlockVectors(prog, b);
        BlockClean(prog[b], ProgCount(prog[..b]));
      }
    } else {
      var i, j :| i in AllLines(prog) && 0 <= j < |Args(i)| && HasPoisonLane(Args(i)[j]) && !Vector32or64(Args(i)[j]);
      var b, k := PlaceOfLine(prog, i);
      PoisonStays(prog, b, k, j);
    }
  }

  lemma PoisonStays(prog: Program, b: nat, k: nat, j: nat)
    requires b < |prog| && k < |prog[b]| && j < |Args(prog[b][k])|
    requires HasPoisonLane(Args(prog[b][k])[j]) && !Vector32or64(Args(prog[b][k])[j])
    ensures !PoisonFree(prog)
  {
    hide RewriteProg, ArgsPrelude, NewArgs, HasPoisonLane, Vector32or64, Rewritable, Offset, ProgCount, BlockCount;
    var i, c := prog[b][k], ProgCount(prog[..b]) + BlockCount(prog[b][..k]);
    LineAt(prog, b, k);
    NewArgAt(Args(i), c, j);
    RewrittenAre(Args(i)[j]);
    assert !NoLaneIn(RewriteProg(prog)[b][Offset(prog, b, k) + |ArgsPrelude(Args(i), c)|]);
  }

  lemma BlockVectors(prog: Program, b: nat)
    requires OnlyVectors(AllLines(prog)) && b < |prog|
    ensures OnlyVectors(prog[b])
  {
    forall i | i in prog[b] ensures i in AllLines(prog) {
      var k :| 0 <= k < |prog[b]| && prog[b][k] == i;
      LineOfProgram(prog, b, k);
    }
  }

  /** Line i of block b in the rewritten function: the same instruction, after the lines added for it, and operand by
      operand either a loaded register or what it was. */
  lemma LineOut(prog: Program, b: nat, i: nat)
    requires b < |prog| && i < |prog[b]| && forall j :: 0 <= j < |Args(prog[b][i])| ==> HasLanes(Args(prog[b][i])[j])
    ensures exists args: seq<Operand>, at: nat ::
      && at < |RewriteProg(prog)[b]| && |args| == |Args(prog[b][i])| && RewriteProg(prog)[b][at] == WithArgs(prog[b][i], args)
      && forall j :: 0 <= j < |args| ==>
        var o := Args(prog[b][i])[j];
        if HasPoisonLane(o) && Vector32or64(o) then args[j].R? && args[j].r.Temp? else args[j] == o
  {
    hide HasPoisonLane, Vector32or64, HasLanes, Rewritable, NewArgs, RewriteProg, ArgsPrelude, Offset, ProgCount, BlockCount;
    var ins, k := prog[b][i], ProgCount(prog[..b]) + BlockCount(prog[b][..i]);
    LineAt(prog, b, i);
    forall j | 0 <= j < |Args(ins)|
      ensures var o, o' := Args(ins)[j], NewArgs(Args(ins), k)[j];
        if HasPoisonLane(o) && Vector32or64(o) then o'.R? && o'.r.Temp? else o' == o
    {
      OperandOut(ins, k, j);
    }
  }

  // ---------- one global for each operand ----------

  /** The globals loaded, in text order. */
  function Loads(lines: seq<Instr>): seq<nat> {
    if lines == [] then []
    else Loads(lines[..|lines| - 1]) + if lines[|lines| - 1].Load? then [lines[|lines| - 1].global] else []
  }

  /** Operands with poison that are vectors of 32-bit or 64-bit lanes. */
  ghost function Taken(args: seq<Operand>): nat {
    if args == [] then 0
    else
      var last := args[|args| - 1];
      Taken(args[..|args| - 1]) + if HasPoisonLane(last) && Vector32or64(last) then 1 else 0
  }

  ghost function TakenIn(lines: seq<Instr>): nat {
    if lines == [] then 0 else TakenIn(lines[..|lines| - 1]) + Taken(Args(lines[|lines| - 1]))
  }

  function UpFrom(k: nat, n: nat): seq<nat> { seq(n, i requires 0 <= i < n => k + i) }

  lemma {:induction false} LoadsConcat(a: seq<Instr>, b: seq<Instr>)
    ensures Loads(a + b) == Loads(a) + Loads(b)
  {
    if b == [] {
      assert a + b == a;
    } else {
      LoadsConcat(a, b[..|b| - 1]);
      assert (a + b)[..|a + b| - 1] == a + b[..|b| - 1];
    }
  }

  lemma {:induction false} NoLoads(lines: seq<Instr>)
    requires forall x :: x in lines ==> !x.Load?
    ensures Loads(lines) == []
  {
    if lines != [] { NoLoads(lines[..|lines| - 1]); }
  }

  lemma {:induction false} ReinsertedInserts(lanes: seq<Lane>, k: nat, li: nat)
    requires li <= |lanes|
    ensures forall x :: x in Reinserted(lanes, k, li) ==> !x.Load?
  {
    if li > 0 { ReinsertedInserts(lanes, k, li - 1); }
  }

  lemma PreludeLoads(o: Operand, k: nat)
    ensures Loads(Prelude(o, k)) == [k]
  {
    var lanes, load := KnownLanes(o), Load(Temp(k, 0), k, Width(o));
    ReinsertedInserts(lanes, k, |lanes|);
    NoLoads(Reinserted(lanes, k, |lanes|));
    LoadsConcat([load], Reinserted(lanes, k, |lanes|));
    assert Loads([load]) == [k] by { assert [load][..0] == []; }
  }

  lemma {:induction false} ArgsLoads(args: seq<Operand>, k: nat)
    requires forall j :: 0 <= j < |args| ==> HasLanes(args[j])
    ensures Count(args) == Taken(args) && Loads(ArgsPrelude(args, k)) == UpFrom(k, Taken(args))
  {
    hide Rewritable, HasPoisonLane, Vector32or64, Prelude, HasLanes, Width, Loads, Count, ArgsPrelude;
    if args != [] {
      var init, last := args[..|args| - 1], args[|args| - 1];
      ArgsLoads(init, k);
      RewrittenAre(last);
      LanesThere(last);
      ArgsUnfolded(args, k);
      PreludeLoads(last, k + Count(init));
      LoadsConcat(ArgsPrelude(init, k), Prelude(last, k + Count(init)));
    } else {
      NoArgs(k);
    }
  }

  lemma NoArgs(k: nat)
    ensures Count([]) == 0 && ArgsPrelude([], k) == [] && Loads([]) == []
  {
  }

  lemma ArgsUnfolded(args: seq<Operand>, k: nat)
    requires args != []
    ensures var init, last := args[..|args| - 1], args[|args| - 1];
      if Rewritable(last)
      then Count(args) == Count(init) + 1 && ArgsPrelude(args, k) == ArgsPrelude(init, k) + Prelude(last, k + Count(init))
      else Count(args) == Count(init) && ArgsPrelude(args, k) == ArgsPrelude(init, k)
  {
    hide Rewritable, Prelude;
  }

  lemma LineLoads(i: Instr, k: nat)
    requires !i.Load? && forall j :: 0 <= j < |Args(i)| ==> HasLanes(Args(i)[j])
    ensures Loads(RewriteLine(i, k)) == UpFrom(k, Taken(Args(i)))
  {
    ArgsLoads(Args(i), k);
    var out := WithArgs(i, NewArgs(Args(i), k));
    hide Taken, ArgsPrelude, NewArgs;
    LoadsConcat(ArgsPrelude(Args(i), k), [out]);
    assert !out.Load?;
    NoLoads([out]);
  }

  /** What LLVM text always has: lanes in every vector; and no load of the rewriter's own. */
  ghost predicate SourceLines(lines: seq<Instr>) {
    forall i :: i in lines ==> !i.Load? && forall j :: 0 <= j < |Args(i)| ==> HasLanes(Args(i)[j])
  }

  lemma {:induction false} BlockLoads(block: seq<Instr>, k: nat)
    requires SourceLines(block)
    ensures BlockCount(block) == TakenIn(block) && Loads(RewriteBlock(block, k)) == UpFrom(k, TakenIn(block))
  {
    hide HasLanes, RewriteLine, Taken, Loads, BlockCount, TakenIn, RewriteBlock, Count;
    if block != [] {
      var init, last := block[..|block| - 1], block[|block| - 1];
      assert last in block;
      BlockUnfolded(block, k);
      BlockLoads(init, k);
      ArgsLoads(Args(last), k);
      LineLoads(last, k + BlockCount(init));
      LoadsConcat(RewriteBlock(init, k), RewriteLine(last, k + BlockCount(init)));
    } else {
      NoLines(k);
    }
  }

  lemma NoLines(k: nat)
    ensures BlockCount([]) == 0 && TakenIn([]) == 0 && RewriteBlock([], k) == [] && Loads([]) == []
  {
  }

  lemma BlockUnfolded(block: seq<Instr>, k: nat)
    requires block != []
    ensures var init, last := block[..|block| - 1], block[|block| - 1];
      && BlockCount(block) == BlockCount(init) + Count(Args(last)) && TakenIn(block) == TakenIn(init) + Taken(Args(last))
      && RewriteBlock(block, k) == RewriteBlock(init, k) + RewriteLine(last, k + BlockCount(init))
  {
    hide RewriteLine, Count, Taken;
  }

  lemma {:induction false} TakenConcat(a: seq<Instr>, b: seq<Instr>)
    ensures TakenIn(a + b) == TakenIn(a) + TakenIn(b)
  {
    if b == [] {
      assert a + b == a;
    } else {
      TakenConcat(a, b[..|b| - 1]);
      assert (a + b)[..|a + b| - 1] == a + b[..|b| - 1];
    }
  }

  /** The rewritten text loads the globals 0, 1, 2 and so on, each once: as many as there are vectors of 32-bit or
      64-bit lanes with poison among the operands. */
  lemma {:induction false} OneGlobalEach(prog: Program)
    requires SourceLines(AllLines(prog))
    ensures ProgCount(prog) == TakenIn(AllLines(prog))
    ensures Loads(AllLines(RewriteProg(prog))) == UpFrom(0, TakenIn(AllLines(prog)))
  {
    hide HasLanes, RewriteBlock, BlockCount, Loads, TakenIn, RewriteProg, AllLines, ProgCount;
    if prog != [] {
      var init, last := prog[..|prog| - 1], prog[|prog| - 1];
      LinesOut(prog);
      OneGlobalEach(init);
      BlockLoads(last, ProgCount(init));
      TakenConcat(AllLines(init), last);
      LoadsConcat(AllLines(RewriteProg(init)), RewriteBlock(last, ProgCount(init)));
    } else {
      NothingOut();
    }
  }

  lemma NothingOut()
    ensures ProgCount([]) == 0 && AllLines([]) == [] && TakenIn([]) == 0 && RewriteProg([]) == [] && Loads([]) == []
  {
  }

  lemma LinesOut(prog: Program)
    requires prog != []
    ensures var init, last := prog[..|prog| - 1], prog[|prog| - 1];
      && AllLines(prog) == AllLines(init) + last && ProgCount(prog) == ProgCount(init) + BlockCount(last)
      && AllLines(RewriteProg(prog)) == AllLines(RewriteProg(init)) + RewriteBlock(last, ProgCount(init))
  {
    PrefixOut(prog);
    hide RewriteProg, RewriteBlock, BlockCount;
  }

  lemma PrefixOut(prog: Program)
    requires prog != []
    ensures var n := |prog| - 1;
      RewriteProg(prog)[..n] == RewriteProg(prog[..n]) && RewriteProg(prog)[n] == RewriteBlock(prog[n], ProgCount(prog[..n]))
  {
    var n := |prog| - 1;
    forall b | 0 <= b < n ensures RewriteProg(prog)[b] == RewriteProg(prog[..n])[b] {
      assert prog[..n][..b] == prog[..b];
    }
  }
}
