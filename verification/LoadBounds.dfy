/** Every global is declared with four lanes, but a load takes as many lanes as the operand it replaces. The
    rewritten function stays inside its globals exactly when no poison operand is wider than that. */
module LoadBounds {
  import opened LaneIr
  import opened PoisonCheck
  import opened PoisonSound
  import opened PoisonRewrite
  import opened RewriteSound

  /** Terminators stand at the ends of blocks, as LLVM demands. */
  ghost predicate BlocksEnd(prog: Program) {
    forall b, i :: 0 <= b < |prog| && 0 <= i < |prog[b]| - 1 ==> !prog[b][i].Jump?
  }

  // ---------- narrow operands: no load leaves its global ----------

  ghost predicate LoadsFit(lines: seq<Instr>) {
    forall i :: i in lines && i.Load? ==> i.n <= LANES
  }

  lemma {:induction false} ReinsertedNoLoad(lanes: seq<Lane>, k: nat, li: nat)
    requires li <= |lanes|
    ensures forall i :: i in Reinserted(lanes, k, li) ==> !i.Load?
  {
    if li > 0 { ReinsertedNoLoad(lanes, k, li - 1); }
  }

  lemma {:induction false} ArgsPreludeFits(args: seq<Operand>, k: nat)
    requires Narrow(args)
    ensures LoadsFit(ArgsPrelude(args, k))
  {
    hide Rewritable;
    if args != [] {
      var init, last := args[..|args| - 1], args[|args| - 1];
      ArgsPreludeFits(init, k);
      ReinsertedNoLoad(KnownLanes(last), k + Count(init), |KnownLanes(last)|);
    }
  }

  lemma {:induction false} BlockFits(block: seq<Instr>, k: nat)
    requires forall i :: i in block ==> Narrow(Args(i)) && !i.Load?
    ensures LoadsFit(RewriteBlock(block, k))
  {
    hide ArgsPrelude, NewArgs, Narrow, BlockCount;
    if block != [] {
      var init, last := block[..|block| - 1], block[|block| - 1];
      BlockFits(init, k);
      assert last in block;
      ArgsPreludeFits(Args(last), k + BlockCount(init));
    }
  }

  lemma ProgFits(prog: Program, b: nat)
    requires SourceText(AllLines(prog)) && NarrowPoison(AllLines(prog)) && b < |prog|
    ensures LoadsFit(RewriteProg(prog)[b])
  {
    NarrowIs(AllLines(prog));
    forall i | i in prog[b] ensures Narrow(Args(i)) && !i.Load? {
      var k :| 0 <= k < |prog[b]| && prog[b][k] == i;
      LineOfProgram(prog, b, k);
    }
    BlockFits(prog[b], ProgCount(prog[..b]));
  }

  lemma {:induction false} NeverOutside<M>(prog: Program, m: Machine<M>, g: Globals, p: Oracle, s: State<M>, c: nat)
    requires SourceText(AllLines(prog)) && NarrowPoison(AllLines(prog)) && !s.outside
    ensures !Run(RewriteProg(prog), m, g, p, s, c).outside
  {
    hide RewriteProg, EvalArgs, LoadsFit;
    if c > 0 {
      NeverOutside(prog, m, g, p, s, c - 1);
      var r := Run(RewriteProg(prog), m, g, p, s, c - 1);
      if Running(RewriteProg(prog), r) {
        ProgFits(prog, r.block);
        FitsAt(RewriteProg(prog)[r.block], r.index);
      }
    }
  }

  lemma FitsAt(lines: seq<Instr>, i: nat)
    requires LoadsFit(lines) && i < |lines|
    ensures lines[i].Load? ==> lines[i].n <= LANES
  {
    assert lines[i] in lines;
  }

  // ---------- a wide operand: its load leaves the global ----------

  /** A line that is neither a terminator nor a load leads to the next one. */
  lemma StaysInBlock<M>(prog: Program, m: Machine<M>, g: Globals, p: Oracle, t: nat, o: State<M>)
    requires SourceText(AllLines(prog)) && BlocksEnd(prog)
    requires Running(prog, o) && o.index < |prog[o.block]| - 1
    ensures var n := Step(prog, m, g, p, t, o); n.block == o.block && n.index == o.index + 1 && !n.outside
  {
    LineOfProgram(prog, o.block, o.index);
    assert !prog[o.block][o.index].Jump? && !prog[o.block][o.index].Load?;
    hide EvalArgs, AllLines;
  }

  /** The lines of a block before index i have narrow operands: both functions get to line i. */
  lemma {:induction false} ReachLine<M>(prog: Program, m: Machine<M>, g: Globals, p: Oracle, s: State<M>, i: nat)
    returns (c: nat)
    requires SourceText(AllLines(prog)) && NoPoisonLeft(AllLines(prog)) && BlocksEnd(prog)
    requires s.block < |prog| && i < |prog[s.block]| && s.index == 0 && !s.outside
    requires forall j :: 0 <= j < i ==> Narrow(Args(prog[s.block][j]))
    ensures var o := Run(prog, m, g, FromGlobals(prog, g), s, i);
      && o.block == s.block && o.index == i && !o.outside
      && Related(prog, o, Run(RewriteProg(prog), m, g, p, s, c))
  {
    hide Run, Step, RewriteProg, FromGlobals, AllLines, Narrow, NoPoisonLeft, Related, SourceText, BlocksEnd;
    if i == 0 {
      c := 0;
      RunNone(prog, m, g, FromGlobals(prog, g), s);
      RunNone(RewriteProg(prog), m, g, p, s);
      RelatedAtStart(prog, s);
    } else {
      c := ReachLine(prog, m, g, p, s, i - 1);
      var o := Run(prog, m, g, FromGlobals(prog, g), s, i - 1);
      StaysInBlock(prog, m, g, FromGlobals(prog, g), i - 1, o);
      c := StepSimulated(prog, m, g, p, i - 1, o, s, c);
      RunOne(prog, m, g, FromGlobals(prog, g), s, i - 1);
    }
  }

  lemma RunNone<M>(prog: Program, m: Machine<M>, g: Globals, p: Oracle, s: State<M>)
    ensures Run(prog, m, g, p, s, 0) == s
  {
  }

  /** The lines for the operands before j, then the load for operand j, begin the lines for all operands. */
  lemma {:induction false} PreludePrefix(args: seq<Operand>, k: nat, j: nat)
    requires j < |args| && Rewritable(args[j])
    ensures ArgsPrelude(args[..j], k) + [Load(Temp(k + Count(args[..j]), 0), k + Count(args[..j]), Width(args[j]))]
      <= ArgsPrelude(args, k)
  {
    hide Rewritable, Width, Count;
    var n := |args| - 1;
    if j < n {
      assert args[..n][..j] == args[..j];
      PreludePrefix(args[..n], k, j);
    }
  }

  predicate WideAt(args: seq<Operand>, j: nat) {
    j < |args| && Rewritable(args[j]) && Width(args[j]) > LANES
  }

  /** The lines before the load run, then the load leaves its global. */
  lemma LoadLeaves<M>(q: Program, m: Machine<M>, g: Globals, p: Oracle, s: State<M>, c: nat,
                      all: seq<Instr>, pre: seq<Instr>, load: Instr)
    requires (forall x :: x in pre ==> Added(x)) && load.Load? && load.n > LANES && pre + [load] <= all
    requires var r := Run(q, m, g, p, s, c);
      !r.outside && r.block < |q| && r.index + |all| <= |q[r.block]| && q[r.block][r.index..r.index + |all|] == all
    ensures Run(q, m, g, p, s, c + |pre| + 1).outside
  {
    hide ExecAll, Run, Added;
    var r := Run(q, m, g, p, s, c);
    PrefixInText(q[r.block], r.index, all, pre, load);
    RunAdded(q, m, g, p, s, c, pre);
    RunOne(q, m, g, p, s, c + |pre|);
  }

  /** From the start of the block that holds it, the rewritten function gets to the first wide operand's load, and
      that load leaves its global. */
  lemma FirstWideLeaves<M>(prog: Program, m: Machine<M>, g: Globals, p: Oracle, s: State<M>, i: nat, j: nat)
    returns (c: nat)
    requires SourceText(AllLines(prog)) && NoPoisonLeft(AllLines(prog)) && BlocksEnd(prog)
    requires s.block < |prog| && i < |prog[s.block]| && s.index == 0 && !s.outside
    requires forall i' :: 0 <= i' < i ==> Narrow(Args(prog[s.block][i']))
    requires WideAt(Args(prog[s.block][i]), j) && Narrow(Args(prog[s.block][i])[..j])
    ensures Run(RewriteProg(prog), m, g, p, s, c).outside
  {
    hide RewriteProg, FromGlobals, AllLines, Narrow, NoPoisonLeft, SourceText, BlocksEnd, ArgsPrelude, ProgCount,
      BlockCount, Count, Run, ExecAll, Rewritable, Width, NewArgs, Offset, RewriteBlock, ArgReady;
    var b, q := s.block, RewriteProg(prog);
    c := ReachLine(prog, m, g, p, s, i);
    var args := Args(prog[b][i]);
    var k := ProgCount(prog[..b]) + BlockCount(prog[b][..i]);
    LineAt(prog, b, i);
    PreludePrefix(args, k, j);
    ArgsValue(args[..j], k, map[], g);
    LoadLeaves(q, m, g, p, s, c, ArgsPrelude(args, k), ArgsPrelude(args[..j], k),
               Load(Temp(k + Count(args[..j]), 0), k + Count(args[..j]), Width(args[j])));
    c := c + |ArgsPrelude(args[..j], k)| + 1;
  }

  lemma PrefixInText(text: seq<Instr>, at: nat, all: seq<Instr>, pre: seq<Instr>, load: Instr)
    requires at + |all| <= |text| && text[at..at + |all|] == all && pre + [load] <= all
    ensures at + |pre| < |text| && text[at..at + |pre|] == pre && text[at + |pre|] == load
  {
    assert all[..|pre|] == pre && all[|pre|] == load;
    assert text[at..at + |all|][..|pre|] == text[at..at + |pre|];
    assert text[at + |pre|] == text[at..at + |all|][|pre|];
  }

  lemma {:induction false} FirstWide(args: seq<Operand>, j: nat) returns (f: nat)
    requires WideAt(args, j)
    ensures f <= j && WideAt(args, f) && Narrow(args[..f])
  {
    if i: nat :| i < j && WideAt(args, i) {
      f := FirstWide(args, i);
    } else {
      f := j;
      forall x | 0 <= x < j && Rewritable(args[..j][x]) ensures Width(args[..j][x]) <= LANES {
        assert !WideAt(args, x);
      }
    }
  }

  lemma SomeWide(args: seq<Operand>) returns (j: nat)
    requires !Narrow(args)
    ensures WideAt(args, j)
  {
    j :| 0 <= j < |args| && Rewritable(args[j]) && Width(args[j]) > LANES;
  }

  lemma {:induction false} FirstWideLine(block: seq<Instr>, i: nat) returns (f: nat)
    requires i < |block| && !Narrow(Args(block[i]))
    ensures f <= i && !Narrow(Args(block[f])) && forall i' :: 0 <= i' < f ==> Narrow(Args(block[i']))
  {
    if i': nat :| i' < i && !Narrow(Args(block[i'])) { f := FirstWideLine(block, i'); } else { f := i; }
  }

  lemma WideLeaves<M>(prog: Program, m: Machine<M>, g: Globals, p: Oracle, mem: M) returns (s: State<M>, c: nat)
    requires SourceText(AllLines(prog)) && NoPoisonLeft(AllLines(prog)) && BlocksEnd(prog)
    requires !NarrowPoison(AllLines(prog))
    ensures s.index == 0 && !s.outside && Run(RewriteProg(prog), m, g, p, s, c).outside
  {
    hide RewriteProg, SourceText, NoPoisonLeft, BlocksEnd;
    NarrowIs(AllLines(prog));
    var wide :| wide in AllLines(prog) && !Narrow(Args(wide));
    var b, k := PlaceOfLine(prog, wide);
    var i := FirstWideLine(prog[b], k);
    var j := SomeWide(Args(prog[b][i]));
    j := FirstWide(Args(prog[b][i]), j);
    s := State(b, 0, map[], mem, false);
    c := FirstWideLeaves(prog, m, g, p, s, i, j);
  }

  // ---------- the exact condition ----------

  /** From the start of any block, the rewritten function reads only inside its globals. */
  ghost predicate StaysInside<M(!new)>(prog: Program, m: Machine<M>, g: Globals, p: Oracle) {
    forall s: State<M>, c: nat :: s.index == 0 && !s.outside ==> !Run(RewriteProg(prog), m, g, p, s, c).outside
  }

  /** Whatever the opaque instructions mean: the rewritten function stays inside its globals iff every rewritten
      operand has at most four lanes. */
  lemma StaysInsideIffNarrow<M(!new)>(prog: Program, m: Machine<M>, g: Globals, p: Oracle, mem: M)
    requires SourceText(AllLines(prog)) && NoPoisonLeft(AllLines(prog)) && BlocksEnd(prog)
    ensures StaysInside(prog, m, g, p) <==> NarrowPoison(AllLines(prog))
  {
    hide RewriteProg, SourceText, NoPoisonLeft, BlocksEnd, NarrowPoison;
    if NarrowPoison(AllLines(prog)) {
      forall s: State<M>, c: nat | s.index == 0 && !s.outside ensures !Run(RewriteProg(prog), m, g, p, s, c).outside {
        NeverOutside(prog, m, g, p, s, c);
      }
    } else {
      var s, c := WideLeaves(prog, m, g, p, mem);
    }
  }

  /** An eight-lane shuffle that passes the check, and whose rewriting reads past its global. */
  function EightLanes(): Program {
    [[Shuffle(Named(1), 8, R(Named(0)), PoisonVec(8, 32),
              Lanes([Def(0), Def(1), Def(2), Def(3), Def(4), Def(5), Def(6), Def(7)])), Jump(0, [])]]
  }

  lemma EightLanesText()
    ensures AllLines(EightLanes()) == [EightLanes()[0][0], EightLanes()[0][1]]
    ensures Args(EightLanes()[0][0]) == [R(Named(0)), PoisonVec(8, 32)] && Args(EightLanes()[0][1]) == []
  {
    var prog := EightLanes();
    assert prog[..0] == [] && AllLines([]) == [];
  }

  lemma EightLanesPass()
    ensures SSA(AllLines(EightLanes())) && NeverRead(AllLines(EightLanes())) && EffectsClean(AllLines(EightLanes()))
    ensures SourceText(AllLines(EightLanes())) && NoPoisonLeft(AllLines(EightLanes())) && BlocksEnd(EightLanes())
  {
    hide AllLines, HasDeadChain;
    EightLanesText();
    assert FirstOperandOnly(EightLanes()[0][0]);
  }

  lemma EightLanesLeave<M>(m: Machine<M>, g: Globals, p: Oracle, regs: map<Reg, Val>, mem: M)
    ensures NeverRead(AllLines(EightLanes()))
    ensures exists c: nat :: Run(RewriteProg(EightLanes()), m, g, p, State(0, 0, regs, mem, false), c).outside
  {
    hide AllLines, NeverRead, SSA, EffectsClean, SourceText, NoPoisonLeft, BlocksEnd, RewriteProg, Run;
    EightLanesPass();
    EightLanesText();
    assert WideAt(Args(EightLanes()[0][0]), 1) && Narrow(Args(EightLanes()[0][0])[..1]);
    var c := FirstWideLeaves(EightLanes(), m, g, p, State(0, 0, regs, mem, false), 0, 1);
  }
}
