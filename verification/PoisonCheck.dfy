/** The static check that no poison lane is ever read, and what it means. */
module PoisonCheck {
  import opened Common
  import opened LaneIr

  /** The word poison occurs in the operand's text. */
  predicate PoisonText(o: Operand) {
    o.PoisonScalar? || o.PoisonVec? || (o.ConstVec? && exists i :: 0 <= i < |o.lanes| && o.lanes[i] == Poison)
  }

  predicate MaskPoison(m: Mask) {
    m.Lanes? && exists i :: 0 <= i < |m.sel| && m.sel[i] == Poison
  }

  /** The word poison occurs in the instruction's text. */
  predicate HasPoison(i: Instr) {
    || (exists j :: 0 <= j < |Args(i)| && PoisonText(Args(i)[j]))
    || (i.Shuffle? && MaskPoison(i.mask))
  }

  /** An insertelement of the chain writes lane l before position k. */
  ghost predicate WrittenBy(chain: seq<Instr>, k: nat, l: nat) {
    exists i :: 0 <= i < k && i < |chain| && chain[i].Insert? && chain[i].lane == l
  }

  /** b continues a chain at a: its base is a's register, and that is the register's only use. */
  ghost predicate Linked(lines: seq<Instr>, a: Instr, b: Instr) {
    && a.Insert? && b.Insert?
    && b.base == R(a.dst)
    && Uses(lines, a.dst) == [Some(b.dst)]
  }

  /** A chain of insertelements from a constant base, each the only use of the one before, that
      together write every poison lane of the base. */
  ghost predicate DeadChain(lines: seq<Instr>, chain: seq<Instr>) {
    && |chain| > 0
    && (forall i :: 0 <= i < |chain| ==> chain[i].Insert? && chain[i] in lines)
    && (chain[0].base.ConstVec? || chain[0].base.PoisonVec?)
    && (forall i :: 0 <= i < |chain| - 1 ==> Linked(lines, chain[i], chain[i + 1]))
    && (forall l: nat :: PoisonLane(chain[0].base, l) ==> WrittenBy(chain, |chain|, l))
  }

  /** A shuffle with a poison second operand whose mask selects only lanes of the first. */
  predicate FirstOperandOnly(i: Instr) {
    && i.Shuffle? && i.a.R? && i.b.PoisonVec? && i.mask.Lanes?
    && forall k :: 0 <= k < |i.mask.sel| ==> i.mask.sel[k].Def? && i.mask.sel[k].v < i.n
  }

  /** What the check demands of a value definition. */
  ghost predicate LineOk(lines: seq<Instr>, i: Instr) {
    Dst(i).Some? && HasPoison(i) ==>
      || (i.Insert? && HasDeadChain(lines, i))
      || FirstOperandOnly(i)
  }

  ghost predicate NeverRead(lines: seq<Instr>) {
    forall i :: i in lines ==> LineOk(lines, i)
  }

  // ---------- the check ----------

  function UsesOf(uses: map<Reg, seq<Option<Reg>>>, r: Reg): seq<Option<Reg>> {
    if r in uses then uses[r] else []
  }

  lemma RepeatNext<T>(x: T, k: nat)
    ensures Repeat(x, k + 1) == Repeat(x, k) + [x]
  {
  }

  lemma UseStep<T>(args: seq<Operand>, j: nat, d: T, r: Reg, start: seq<T>, before: seq<T>, now: seq<T>)
    requires j < |args| && before == start + Repeat(d, Mentions(args[..j], r))
    requires now == if args[j] == R(r) then before + [d] else before
    ensures now == start + Repeat(d, Mentions(args[..j + 1], r))
  {
    hide Repeat;
    assert args[..j + 1][..j] == args[..j];
    RepeatNext(d, Mentions(args[..j], r));
  }

  /** One line's operands are appended to the use lists. */
  method AddUses(uses: map<Reg, seq<Option<Reg>>>, ins: Instr) returns (out: map<Reg, seq<Option<Reg>>>)
    ensures forall r :: UsesOf(out, r) == UsesOf(uses, r) + Repeat(Dst(ins), Mentions(Args(ins), r))
  {
    hide Repeat;
    out := uses;
    var args := Args(ins);
    for j := 0 to |args|
      invariant forall r :: UsesOf(out, r) == UsesOf(uses, r) + Repeat(Dst(ins), Mentions(args[..j], r))
    {
      ghost var before := out;
      if args[j].R? {
        out := out[args[j].r := UsesOf(out, args[j].r) + [Dst(ins)]];
      }
      forall r ensures UsesOf(out, r) == UsesOf(uses, r) + Repeat(Dst(ins), Mentions(args[..j + 1], r)) {
        assert UsesOf(before, r) == UsesOf(uses, r) + Repeat(Dst(ins), Mentions(args[..j], r));
        UseStep(args, j, Dst(ins), r, UsesOf(uses, r), UsesOf(before, r), UsesOf(out, r));
      }
    }
    assert args[..|args|] == args;
  }

  /** The two dictionaries of the check: definitions by register, and the lines that use each register. */
  method Collect(lines: seq<Instr>) returns (uses: map<Reg, seq<Option<Reg>>>, defs: map<Reg, Instr>)
    requires SSA(lines)
    ensures Describes(uses, defs, lines)
  {
    uses, defs := map[], map[];
    for k := 0 to |lines|
      invariant forall r :: UsesOf(uses, r) == Uses(lines[..k], r)
      invariant forall r :: r in defs ==> defs[r] in lines[..k] && Dst(defs[r]) == Some(r)
      invariant forall i :: i in lines[..k] && Dst(i).Some? ==> Dst(i).value in defs
    {
      var ins := lines[k];
      assert lines[..k + 1] == lines[..k] + [ins];
      match Dst(ins) {
        case Some(d) => defs := defs[d := ins];
        case None =>
      }
      uses := AddUses(uses, ins);
    }
    assert lines[..|lines|] == lines;
    forall i | i in lines && Dst(i).Some? ensures defs[Dst(i).value] == i {
      SameDefinition(lines, defs[Dst(i).value], i);
    }
  }

  function LaneCount(o: Operand): nat {
    match o
    case ConstVec(lanes, _) => |lanes|
    case PoisonVec(n, _) => n
    case _ => 0
  }

  /** The part of a chain walked so far. */
  ghost predicate Walked(lines: seq<Instr>, ch: seq<Instr>) {
    && |ch| > 0
    && (forall i :: 0 <= i < |ch| ==> ch[i].Insert? && ch[i] in lines)
    && (ch[0].base.ConstVec? || ch[0].base.PoisonVec?)
    && (forall i :: 0 <= i < |ch| - 1 ==> Linked(lines, ch[i], ch[i + 1]))
    && (forall i, j :: 0 <= i < j < |ch| ==> ch[i].dst != ch[j].dst)
  }

  /** seen is the set of registers defined along ch. */
  ghost predicate SeenIs(ch: seq<Instr>, seen: set<Reg>) {
    && (forall i :: 0 <= i < |ch| ==> Dst(ch[i]).Some? && Dst(ch[i]).value in seen)
    && (forall r :: r in seen ==> exists i :: 0 <= i < |ch| && Dst(ch[i]) == Some(r))
  }

  /** A register is reached once: the walk cannot come back to a line it has passed. */
  lemma NoReturn(lines: seq<Instr>, ch: seq<Instr>, nx: Instr, seen: set<Reg>)
    requires SSA(lines) && Walked(lines, ch) && nx in lines && Linked(lines, ch[|ch| - 1], nx) && SeenIs(ch, seen)
    ensures Walked(lines, ch + [nx]) && nx.dst !in seen && SeenIs(ch + [nx], seen + {nx.dst})
  {
    var c := ch + [nx];
    forall i | 0 <= i < |ch| ensures ch[i].dst != nx.dst {
      if i > 0 { assert Linked(lines, ch[i - 1], ch[i - 1 + 1]); }
      if ch[i].dst == nx.dst {
        SameDefinition(lines, ch[i], nx);
      }
    }
    forall i | 0 <= i < |c| - 1 ensures Linked(lines, c[i], c[i + 1]) {
      if i < |ch| - 1 { assert Linked(lines, ch[i], ch[i + 1]); }
    }
    forall r | r in seen + {nx.dst} ensures exists i :: 0 <= i < |c| && Dst(c[i]) == Some(r) {
      if r == nx.dst {
        assert Dst(c[|ch|]) == Some(r);
      } else {
        var i :| 0 <= i < |ch| && Dst(ch[i]) == Some(r);
        assert Dst(c[i]) == Some(r);
      }
    }
  }

  /** Every dead chain with this head has the walked part as its beginning. */
  ghost predicate Forced(lines: seq<Instr>, ch: seq<Instr>) {
    |ch| > 0 && ch[0].Insert? && forall c :: DeadChain(lines, c) && c[0] == ch[0] ==> ch <= c
  }

  ghost predicate HasDeadChain(lines: seq<Instr>, head: Instr) {
    exists chain :: DeadChain(lines, chain) && chain[0] == head
  }

  lemma WrittenInPrefix(ch: seq<Instr>, c: seq<Instr>, l: nat)
    requires ch <= c && WrittenBy(c, |c|, l)
    ensures WrittenBy(ch, |ch|, l) || |ch| < |c|
  {
    if |ch| == |c| { assert ch == c; }
  }

  /** Where the walked part leaves a poison lane unwritten, a dead chain must go on past it. */
  lemma MustContinue(lines: seq<Instr>, ch: seq<Instr>, c: seq<Instr>, l: nat)
    requires DeadChain(lines, c) && |ch| > 0 && ch <= c
    requires PoisonLane(ch[0].base, l) && !WrittenBy(ch, |ch|, l)
    ensures |ch| < |c| && Linked(lines, ch[|ch| - 1], c[|ch|]) && c[|ch|] in lines
  {
    WrittenInPrefix(ch, c, l);
    assert Linked(lines, c[|ch| - 1], c[|ch| - 1 + 1]);
  }

  lemma ForcedNext(lines: seq<Instr>, ch: seq<Instr>, nx: Instr, l: nat)
    requires SSA(lines) && Forced(lines, ch) && nx in lines && Linked(lines, ch[|ch| - 1], nx)
    requires PoisonLane(ch[0].base, l) && !WrittenBy(ch, |ch|, l)
    ensures Forced(lines, ch + [nx])
  {
    forall c | DeadChain(lines, c) && c[0] == ch[0] ensures ch + [nx] <= c {
      MustContinue(lines, ch, c, l);
      SameDefinition(lines, nx, c[|ch|]);
    }
  }

  /** No link from the end of the walked part: no dead chain. */
  lemma NoLinkNoChain(lines: seq<Instr>, ch: seq<Instr>, l: nat)
    requires Forced(lines, ch)
    requires PoisonLane(ch[0].base, l) && !WrittenBy(ch, |ch|, l)
    requires forall nx :: nx in lines ==> !Linked(lines, ch[|ch| - 1], nx)
    ensures !HasDeadChain(lines, ch[0])
  {
    if HasDeadChain(lines, ch[0]) {
      var c :| DeadChain(lines, c) && c[0] == ch[0];
      MustContinue(lines, ch, c, l);
    }
  }

  lemma WrittenExtend(ch: seq<Instr>, nx: Instr, l: nat)
    ensures WrittenBy(ch + [nx], |ch|, l) == WrittenBy(ch, |ch|, l)
  {
    if WrittenBy(ch, |ch|, l) {
      var i :| 0 <= i < |ch| && ch[i].Insert? && ch[i].lane == l;
      assert (ch + [nx])[i].lane == l;
    }
  }

  lemma WrittenLast(ch: seq<Instr>, l: nat)
    requires |ch| > 0 && ch[|ch| - 1].Insert?
    ensures WrittenBy(ch, |ch|, l) == (WrittenBy(ch, |ch| - 1, l) || ch[|ch| - 1].lane == l)
  {
  }

  /** The dictionaries the walk reads describe these lines. */
  ghost predicate Describes(uses: map<Reg, seq<Option<Reg>>>, defs: map<Reg, Instr>, lines: seq<Instr>) {
    && (forall r :: UsesOf(uses, r) == Uses(lines, r))
    && (forall r :: r in defs ==> defs[r] in lines && Dst(defs[r]) == Some(r))
    && (forall i :: i in lines && Dst(i).Some? ==> Dst(i).value in defs && defs[Dst(i).value] == i)
  }

  /** Follow the chain from head until every poison lane of its base is written. */
  method Walk(lines: seq<Instr>, uses: map<Reg, seq<Option<Reg>>>, defs: map<Reg, Instr>, head: Instr)
    returns (ok: bool)
    requires SSA(lines) && Describes(uses, defs, lines)
    requires head in lines && head.Insert? && (head.base.ConstVec? || head.base.PoisonVec?)
    ensures ok <==> HasDeadChain(lines, head)
  {
    hide Uses, WrittenBy, SSA;
    var undef := set l: nat | l < LaneCount(head.base) && PoisonLane(head.base, l);
    var cur, dd := head.dst, head;
    ghost var ch, seen := [head], {head.dst};
    assert forall l :: !WrittenBy(ch, 0, l) by { NothingWritten(ch); }
    assert Forced(lines, ch);
    while true
      invariant Walked(lines, ch) && ch[0] == head && ch[|ch| - 1] == dd && dd.dst == cur
      invariant Forced(lines, ch)
      invariant forall l: nat :: l in undef <==> PoisonLane(head.base, l) && !WrittenBy(ch, |ch| - 1, l)
      invariant SeenIs(ch, seen) && seen <= defs.Keys
      decreases defs.Keys - seen
    {
      undef := undef - {dd.lane};
      forall l: nat ensures l in undef <==> PoisonLane(head.base, l) && !WrittenBy(ch, |ch|, l) {
        WrittenLast(ch, l);
      }
      if undef == {} {
        assert DeadChain(lines, ch);
        return true;
      }
      ghost var l: nat :| l in undef;
      var us := UsesOf(uses, cur);
      if |us| != 1 || us[0] == None || us[0].value !in defs
         || !(defs[us[0].value].Insert? && defs[us[0].value].base == R(cur)) {
        NoLinkNoChain(lines, ch, l);
        return false;
      }
      var nx := defs[us[0].value];
      assert us == [Some(nx.dst)];
      assert Linked(lines, dd, nx);
      ForcedNext(lines, ch, nx, l);
      NoReturn(lines, ch, nx, seen);
      forall l: nat ensures WrittenBy(ch + [nx], |ch|, l) == WrittenBy(ch, |ch|, l) {
        WrittenExtend(ch, nx, l);
      }
      ch, seen := ch + [nx], seen + {nx.dst};
      cur, dd := nx.dst, nx;
    }
  }

  lemma NothingWritten(ch: seq<Instr>)
    ensures forall l :: !WrittenBy(ch, 0, l)
  {
  }

  /** poison_never_read on the lines of one function. */
  method PoisonNeverRead(lines: seq<Instr>) returns (ok: bool)
    requires SSA(lines)
    ensures ok <==> NeverRead(lines)
  {
    var uses, defs := Collect(lines);
    ok := true;
    for k := 0 to |lines|
      invariant ok <==> forall i :: 0 <= i < k ==> LineOk(lines, lines[i])
    {
      var d := lines[k];
      if Dst(d).Some? && HasPoison(d) {
        if d.Insert? && (d.base.ConstVec? || d.base.PoisonVec?) {
          var dead := Walk(lines, uses, defs, d);
          ok := ok && dead;
        } else if !FirstOperandOnly(d) {
          ok := false;
        }
      }
    }
  }
}
