/** What the replaced operator means, and which lines have no mutants. */
module MutantMeaning {
  import opened Comments
  import opened Lexer
  import opened Mutants

  // ---------- operators ----------

  predicate IsOrdering(op: string) { op in [">=", "<=", ">", "<"] }

  predicate IsEquality(op: string) { op in ["==", "!="] }

  predicate IsLogical(op: string) { op in ["&&", "||"] }

  /** An operator between two numbers. */
  predicate Compares(op: string, x: int, y: int)
    requires IsOrdering(op) || IsEquality(op)
  {
    if op == ">=" then x >= y else if op == "<=" then x <= y else if op == ">" then x > y else if op == "<" then x < y
    else if op == "==" then x == y else x != y
  }

  /** An operator between two truth values. */
  predicate Joins(op: string, p: bool, q: bool)
    requires IsLogical(op)
  {
    if op == "&&" then p && q else p || q
  }

  /** rep is the mutation of op: an ordering that changes at equal sides alone, the opposite of an equality, or the
      logical operator that differs where the sides do. */
  ghost predicate Mutation(op: string, rep: string) {
    || (IsOrdering(op) && IsOrdering(rep) && forall x, y :: Compares(op, x, y) != Compares(rep, x, y) <==> x == y)
    || (IsEquality(op) && IsEquality(rep) && forall x, y :: Compares(op, x, y) != Compares(rep, x, y))
    || (IsLogical(op) && IsLogical(rep) && forall p, q :: Joins(op, p, q) != Joins(rep, p, q) <==> p != q)
  }

  /** Each operator of the list has one mutation. */
  lemma MutationUnique(op: string, a: string, b: string)
    requires Mutation(op, a) && Mutation(op, b)
    ensures a == b
  {
    if IsOrdering(op) {
      SeparatesOrderings(a, b);
      forall x: int, y: int ensures Compares(a, x, y) == Compares(b, x, y) {
        assert Compares(op, x, y) != Compares(a, x, y) <==> x == y;
        assert Compares(op, x, y) != Compares(b, x, y) <==> x == y;
      }
    } else if IsEquality(op) {
      assert Compares(op, 0, 0) != Compares(a, 0, 0) && Compares(op, 0, 0) != Compares(b, 0, 0);
    } else {
      assert Joins(op, true, false) != Joins(a, true, false) && Joins(op, true, false) != Joins(b, true, false);
    }
  }

  lemma SeparatesOrderings(a: string, b: string)
    requires IsOrdering(a) && IsOrdering(b) && forall x, y :: Compares(a, x, y) == Compares(b, x, y)
    ensures a == b
  {
    assert Compares(a, 0, 0) == Compares(b, 0, 0);
    assert Compares(a, 0, 1) == Compares(b, 0, 1);
  }

  lemma SwapIsMutation(op: string)
    requires op in Ops()
    ensures Mutation(op, Swap(op)) && Swap(op) in Ops() && Swap(Swap(op)) == op
  {
    if op == ">=" || op == "<=" || op == ">" || op == "<" {
      assert IsOrdering(op) && IsOrdering(Swap(op));
    } else if op == "==" || op == "!=" {
      assert IsEquality(op) && IsEquality(Swap(op));
    } else {
      assert IsLogical(op) && IsLogical(Swap(op));
    }
  }

  /** Every mutant replaces its operator by the one mutation it has, and replacing that gives the operator back. */
  lemma MutantMutates(text: string, c: Config, m: Mutant)
    requires Aligned(Split(text), Split(Mask(text, Code)))
    requires m in MutantsOf(Split(text), Split(Mask(text, Code)), |Split(text)|, c)
    ensures Mutation(m.op, m.rep) && forall r :: Mutation(m.op, r) ==> r == m.rep
    ensures m.op in Ops() && m.rep in Ops() && Mutation(m.rep, m.op)
  {
    hide Mutation, Ops, Swap, Split, Mask, OneOperator, Skipped, Clear, MutantsOf;
    MutantIsOneOperator(text, c, m);
    var k: nat, pos: nat :| OneOperator(text, m, k, pos);
    OpOfMutant(text, m, k, pos);
    SwapIsMutation(m.op);
    SwapIsMutation(m.rep);
    forall r | Mutation(m.op, r) ensures r == m.rep { MutationUnique(m.op, r, m.rep); }
  }

  lemma OpOfMutant(text: string, m: Mutant, k: nat, pos: nat)
    requires OneOperator(text, m, k, pos)
    ensures m.op in Ops() && m.rep == Swap(m.op)
  {
  }

  // ---------- lines without mutants ----------

  /** A preprocessor line: a hash after nothing but white space. */
  lemma {:induction false} DirectiveIff(line: string, c: Config)
    requires !c.blank('#')
    ensures Directive(line, c) <==> exists k :: 0 <= k < |line| && line[k] == '#' && forall i :: 0 <= i < k ==> c.blank(line[i])
  {
    if line != [] && c.blank(line[0]) {
      DirectiveIff(line[1..], c);
      if k :| 0 <= k < |line[1..]| && line[1..][k] == '#' && forall i :: 0 <= i < k ==> c.blank(line[1..][i]) {
        assert line[k + 1] == '#' && forall i :: 0 < i < k + 1 ==> line[i] == line[1..][i - 1];
      }
      if k :| 0 <= k < |line| && line[k] == '#' && forall i :: 0 <= i < k ==> c.blank(line[i]) {
        assert k > 0;
        assert line[1..][k - 1] == '#' && forall i :: 0 <= i < k - 1 ==> line[1..][i] == line[i + 1];
      }
    }
  }

  lemma {:induction false} CountIs(line: string, x: char)
    ensures Count(line, x) == multiset(line)[x]
  {
    if line != [] {
      CountIs(line[..|line| - 1], x);
      assert line == line[..|line| - 1] + [line[|line| - 1]];
    }
  }

  /** Braces opened less braces closed on the lines before k. */
  function Depth(ls: seq<string>, k: nat): int
    requires k <= |ls|
  {
    if k == 0 then 0 else Depth(ls, k - 1) + multiset(ls[k - 1])['{'] - multiset(ls[k - 1])['}']
  }

  /** Line k is the one that closes a function. */
  predicate Closes(ls: seq<string>, k: nat)
    requires k < |ls|
  {
    Depth(ls, k) > 0 && Depth(ls, k + 1) <= 0
  }

  /** A function begins on line h, outside any other. */
  predicate Begins(ls: seq<string>, h: nat, c: Config)
    requires h < |ls|
  {
    Depth(ls, h) == 0 && c.header(ls[h])
  }

  /** Line h begins an excluded function that reaches past line k: none of the lines between closes it or begins
      another. */
  ghost predicate Excludes(ls: seq<string>, h: nat, k: nat, c: Config)
    requires h <= k < |ls|
  {
    && Begins(ls, h, c) && c.excluded(ls[h])
    && (forall i :: h <= i <= k ==> !Closes(ls, i)) && (forall i :: h < i <= k ==> !Begins(ls, i, c))
  }

  ghost predicate Excluded(ls: seq<string>, k: nat, c: Config)
    requires k < |ls|
  {
    exists h :: 0 <= h <= k && Excludes(ls, h, k, c)
  }

  lemma {:induction false} StateIs(ls: seq<string>, k: nat, c: Config)
    requires k <= |ls|
    ensures State(ls, k, c).0 == Depth(ls, k)
    ensures State(ls, k, c).1 <==> k > 0 && Excluded(ls, k - 1, c)
  {
    if k > 0 {
      StateIs(ls, k - 1, c);
      CountIs(ls[k - 1], '{');
      CountIs(ls[k - 1], '}');
      hide Depth, Count;
      ExcludedNext(ls, k - 1, c);
    }
  }

  lemma ExcludedNext(ls: seq<string>, k: nat, c: Config)
    requires k < |ls|
    ensures Excluded(ls, k, c) <==>
      !Closes(ls, k) && if Begins(ls, k, c) then c.excluded(ls[k]) else k > 0 && Excluded(ls, k - 1, c)
  {
    hide Depth, Closes, Begins;
    if Begins(ls, k, c) && c.excluded(ls[k]) && !Closes(ls, k) { assert Excludes(ls, k, k, c); }
    if h :| 0 <= h <= k && Excludes(ls, h, k, c) {
      if h < k { assert Excludes(ls, h, k - 1, c); }
    }
    if k > 0 && Excluded(ls, k - 1, c) && !Closes(ls, k) && !Begins(ls, k, c) {
      var h :| 0 <= h <= k - 1 && Excludes(ls, h, k - 1, c);
      assert Excludes(ls, h, k, c);
    }
  }

  /** A line has no mutants iff it is a preprocessor line or in an excluded function, before the line that closes it. */
  lemma SkippedIff(ls: seq<string>, k: nat, c: Config)
    requires k < |ls| && !c.blank('#')
    ensures Skipped(ls, k, c) <==>
      || Excluded(ls, k, c)
      || exists j :: 0 <= j < |ls[k]| && ls[k][j] == '#' && forall i :: 0 <= i < j ==> c.blank(ls[k][i])
  {
    StateIs(ls, k + 1, c);
    DirectiveIff(ls[k], c);
    hide Excluded, Directive, State;
  }

  /** The line that closes an excluded function is not left out: unless it has a hash, its operators are mutated. */
  lemma ClosingLineKept(ls: seq<string>, k: nat, c: Config)
    requires k < |ls| && Closes(ls, k) && '#' !in ls[k] && !c.blank('#')
    ensures !Skipped(ls, k, c)
  {
    SkippedIff(ls, k, c);
    hide Depth, Begins, Skipped, Closes;
    assert !Excluded(ls, k, c);
  }

  /** An excluded function on one line is never seen to close: what follows is left out too, up to the next function or
      the next closing line. */
  lemma OneLineRunsOn(ls: seq<string>, h: nat, k: nat, c: Config)
    requires h < k < |ls| && Begins(ls, h, c) && c.excluded(ls[h]) && Depth(ls, h + 1) == 0 && !c.blank('#')
    requires forall i :: h < i <= k ==> !Closes(ls, i) && !Begins(ls, i, c)
    ensures Skipped(ls, k, c)
  {
    SkippedIff(ls, k, c);
    assert !Closes(ls, h);
    assert Excludes(ls, h, k, c);
  }
}
