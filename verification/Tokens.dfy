/** The operators the mutation scan finds against the operator tokens of C: longest match first, literals and
    digraphs included. The two agree exactly on lines where no token is misread. */
module Tokens {
  import opened Comments
  import opened Lexer
  import opened Mutants

  // ---------- tokens ----------

  predicate Two(line: string, j: nat, a: char, b: char) {
    j + 1 < |line| && line[j] == a && line[j + 1] == b
  }

  predicate CharAt(line: string, j: nat, a: char) { j < |line| && line[j] == a }

  predicate Angle(c: char) { c == '<' || c == '>' }

  /** Where a literal ends that is open at k. */
  function LiteralEnd(line: string, k: nat, quote: char): (n: nat)
    requires k <= |line|
    ensures k <= n <= |line|
  {
    var n := k + LitBody(line[k..], quote);
    if n < |line| && line[n] == quote then n + 1 else n
  }

  /** The relational and logical operators of two characters. */
  predicate TwoOp(line: string, j: nat) {
    || Two(line, j, '>', '=') || Two(line, j, '<', '=') || Two(line, j, '=', '=') || Two(line, j, '!', '=')
    || Two(line, j, '&', '&') || Two(line, j, '|', '|')
  }

  /** The compound assignments of two characters. */
  predicate Assigns(line: string, j: nat) {
    CharAt(line, j + 1, '=') && j < |line| && line[j] in "+-*/%&|^"
  }

  predicate Shifts(line: string, j: nat) { Two(line, j, '<', '<') || Two(line, j, '>', '>') }

  /** Digraphs that open with an angle, and those that close with one. */
  predicate OpensAngle(line: string, j: nat) { Two(line, j, '<', ':') || Two(line, j, '<', '%') }

  predicate ClosesAngle(line: string, j: nat) { Two(line, j, ':', '>') || Two(line, j, '%', '>') }

  /** The other punctuators of two characters. */
  predicate TwoOther(line: string, j: nat) {
    Two(line, j, '-', '>') || Two(line, j, '+', '+') || Two(line, j, '-', '-') || Two(line, j, '%', ':')
  }

  /** Length of the token at j. */
  function Munch(line: string, j: nat): (n: nat)
    requires j < |line|
    ensures 1 <= n && j + n <= |line|
  {
    if Quote(line[j]) then LiteralEnd(line, j + 1, line[j]) - j
    else if Shifts(line, j) then if CharAt(line, j + 2, '=') then 3 else 2
    else if TwoOp(line, j) || Assigns(line, j) || OpensAngle(line, j) || ClosesAngle(line, j) || TwoOther(line, j) then 2
    else 1
  }

  /** A token that is a relational or logical operator. */
  predicate Relational(line: string, j: nat)
    requires j < |line|
  {
    TwoOp(line, j) || (Angle(line[j]) && Munch(line, j) == 1)
  }

  /** The relational and logical operator tokens from j on. */
  function RelationalTokens(line: string, j: nat): seq<Occurrence>
    decreases |line| - j
  {
    if j >= |line| then []
    else
      var n := Munch(line, j);
      (if Relational(line, j) then [Occurrence(j, line[j..j + n])] else []) + RelationalTokens(line, j + n)
  }

  // ---------- what the scan sees at one place ----------

  /** The first operator of the list at j, character by character. */
  function OpAt(line: string, j: nat): string {
    if TwoOp(line, j) then [line[j], line[j + 1]]
    else if j < |line| && Angle(line[j]) then [line[j]]
    else ""
  }

  lemma HasTwo(line: string, j: nat, op: string)
    requires |op| == 2
    ensures HasAt(line, j, op) <==> Two(line, j, op[0], op[1])
  {
    if j + 2 <= |line| { assert line[j..j + 2] == [line[j], line[j + 1]]; }
  }

  lemma HasOne(line: string, j: nat, op: string)
    requires |op| == 1
    ensures HasAt(line, j, op) <==> CharAt(line, j, op[0])
  {
    if j + 1 <= |line| { assert line[j..j + 1] == [line[j]]; }
  }

  /** The list from index n on, unrolled. */
  lemma FirstOpNext(line: string, j: nat, n: nat)
    requires n < |Ops()|
    ensures FirstOp(line, j, n) == if HasAt(line, j, Ops()[n]) then Ops()[n] else FirstOp(line, j, n + 1)
    ensures FirstOp(line, j, |Ops()|) == ""
  {
  }

  lemma FirstOpIs(line: string, j: nat)
    ensures FirstOp(line, j, 0) == OpAt(line, j)
  {
    assert |Ops()| == 8;
    HasTwo(line, j, ">=");
    HasTwo(line, j, "<=");
    HasTwo(line, j, "==");
    HasTwo(line, j, "!=");
    HasTwo(line, j, "&&");
    HasTwo(line, j, "||");
    HasOne(line, j, ">");
    HasOne(line, j, "<");
    hide HasAt, FirstOp;
    FirstOpNext(line, j, 0);
    FirstOpNext(line, j, 1);
    FirstOpNext(line, j, 2);
    FirstOpNext(line, j, 3);
    FirstOpNext(line, j, 4);
    FirstOpNext(line, j, 5);
    FirstOpNext(line, j, 6);
    FirstOpNext(line, j, 7);
  }

  /** An operator the scan would mutate if it got to j. */
  predicate OperatorAt(line: string, j: nat) {
    OpAt(line, j) != "" && !TakenForArrow(line, j, OpAt(line, j))
  }

  /** One step of the scan. */
  lemma ScanStep(line: string, j: nat)
    requires j < |line|
    ensures OperatorAt(line, j) ==>
      Occurrences(line, j) == [Occurrence(j, OpAt(line, j))] + Occurrences(line, j + |OpAt(line, j)|)
    ensures !OperatorAt(line, j) ==> Occurrences(line, j) == Occurrences(line, j + 1)
  {
    hide FirstOp, Ops, HasAt, TwoOp, IsAny;
    FirstOpIs(line, j);
  }

  /** Where there is no operator the scan passes. */
  lemma {:induction false} ScanPasses(line: string, j: nat, e: nat)
    requires j <= e <= |line| && forall q :: j <= q < e ==> !OperatorAt(line, q)
    ensures Occurrences(line, j) == Occurrences(line, e)
    decreases e - j
  {
    hide Occurrences, OperatorAt;
    if j < e {
      ScanStep(line, j);
      ScanPasses(line, j + 1, e);
    }
  }

  // ---------- misread tokens ----------

  /** The ways a token is read as something else. */
  predicate Misread(line: string, j: nat)
    requires j < |line|
  {
    var n := Munch(line, j);
    if Quote(line[j]) then exists q :: j <= q < j + n && OperatorAt(line, q)         // an operator inside a literal
    else if n == 3 then true                                                        // a shift-assignment
    else if Assigns(line, j) || Two(line, j, '-', '>') then CharAt(line, j + 2, '=')  // += directly before = or ==
    else if OpensAngle(line, j) then !TakenForArrow(line, j, "<")
    else if ClosesAngle(line, j) then CharAt(line, j + 2, '=') || !TakenForArrow(line, j + 1, ">")
    else n == 1 && Angle(line[j]) && TakenForArrow(line, j, [line[j]])               // a lost comparison
  }

  /** No token from j on is misread. */
  predicate AllRead(line: string, j: nat)
    decreases |line| - j
  {
    j >= |line| || (!Misread(line, j) && AllRead(line, j + Munch(line, j)))
  }

  function Own(line: string, j: nat): seq<Occurrence>
    requires j < |line|
  {
    if Relational(line, j) then [Occurrence(j, line[j..j + Munch(line, j)])] else []
  }

  lemma LiteralRead(line: string, j: nat)
    requires j < |line| && Quote(line[j]) && !Misread(line, j)
    ensures Occurrences(line, j) == Own(line, j) + Occurrences(line, j + Munch(line, j))
  {
    hide Occurrences, OperatorAt;
    ScanPasses(line, j, j + Munch(line, j));
  }

  /** A relational token that is not misread is one step of the scan. */
  lemma RelationalRead(line: string, j: nat)
    requires j < |line| && !Quote(line[j]) && Relational(line, j) && !Misread(line, j)
    ensures Occurrences(line, j) == Own(line, j) + Occurrences(line, j + Munch(line, j))
  {
    hide Occurrences;
    ScanStep(line, j);
    assert line[j..j + Munch(line, j)] == OpAt(line, j);
  }

  /** Nothing is seen inside another token that is not misread. */
  lemma OtherQuiet(line: string, j: nat, q: nat)
    requires j < |line| && !Quote(line[j]) && !Relational(line, j) && !Misread(line, j)
    requires j <= q < j + Munch(line, j)
    ensures !OperatorAt(line, q)
  {
  }

  lemma TokenRead(line: string, j: nat)
    requires j < |line| && !Misread(line, j)
    ensures Occurrences(line, j) == Own(line, j) + Occurrences(line, j + Munch(line, j))
  {
    hide Occurrences, OperatorAt, Misread, Munch, Relational, Own;
    if Quote(line[j]) {
      LiteralRead(line, j);
    } else if Relational(line, j) {
      RelationalRead(line, j);
    } else {
      forall q | j <= q < j + Munch(line, j) ensures !OperatorAt(line, q) { OtherQuiet(line, j, q); }
      ScanPasses(line, j, j + Munch(line, j));
      OwnNone(line, j);
    }
  }

  lemma OwnNone(line: string, j: nat)
    requires j < |line| && !Relational(line, j)
    ensures Own(line, j) == [] && Own(line, j) + Occurrences(line, j + Munch(line, j)) == Occurrences(line, j + Munch(line, j))
  {
  }

  // ---------- a misread token shows ----------

  lemma {:induction false} TokensFrom(line: string, j: nat, o: Occurrence)
    requires o in RelationalTokens(line, j)
    ensures o.col >= j
    decreases |line| - j
  {
    hide Relational;
    var n := Munch(line, j);
    if o in RelationalTokens(line, j + n) { TokensFrom(line, j + n, o); }
  }

  lemma OccurrencesFrom(line: string, j: nat, o: Occurrence)
    requires o in Occurrences(line, j)
    ensures o.col >= j
  {
    var k :| 0 <= k < |Occurrences(line, j)| && Occurrences(line, j)[k] == o;
    OccurrencesSound(line, j, k);
  }

  lemma {:induction false} FirstOperator(line: string, j: nat, q: nat) returns (f: nat)
    requires j <= q && OperatorAt(line, q)
    ensures j <= f <= q && OperatorAt(line, f) && forall x :: j <= x < f ==> !OperatorAt(line, x)
    decreases q - j
  {
    hide OperatorAt;
    if OperatorAt(line, j) { f := j; } else { f := FirstOperator(line, j + 1, q); }
  }

  lemma OperatorFits(line: string, q: nat)
    requires OperatorAt(line, q)
    ensures q < |line|
  {
  }

  /** An operator seen inside a token that is none of its own. */
  lemma SeenInside(line: string, j: nat, q: nat)
    requires j < |line| && !Relational(line, j) && j <= q < j + Munch(line, j) && OperatorAt(line, q)
    ensures Occurrences(line, j) != RelationalTokens(line, j)
  {
    hide OperatorAt, Munch, Relational, Occurrences, RelationalTokens;
    var f := FirstOperator(line, j, q);
    OperatorFits(line, f);
    ScanPasses(line, j, f);
    ScanStep(line, f);
    var o := Occurrence(f, OpAt(line, f));
    assert o in Occurrences(line, j);
    if o in RelationalTokens(line, j) {
      TokensSkip(line, j);
      TokensFrom(line, j + Munch(line, j), o);
    }
  }

  lemma TokensSkip(line: string, j: nat)
    requires j < |line| && !Relational(line, j)
    ensures RelationalTokens(line, j) == RelationalTokens(line, j + Munch(line, j))
  {
  }

  /** A comparison taken for part of an arrow or a shift. */
  lemma LostAngle(line: string, j: nat)
    requires j < |line| && Angle(line[j]) && Munch(line, j) == 1 && TakenForArrow(line, j, [line[j]])
    ensures Occurrences(line, j) != RelationalTokens(line, j)
  {
    ScanStep(line, j);
    hide Occurrences, OperatorAt;
    var o := Occurrence(j, line[j..j + 1]);
    assert !OperatorAt(line, j) by { AngleNotSeen(line, j); }
    assert RelationalTokens(line, j)[0] == o;
    if o in Occurrences(line, j) { OccurrencesFrom(line, j + 1, o); }
  }

  lemma AngleNotSeen(line: string, j: nat)
    requires j < |line| && Angle(line[j]) && Munch(line, j) == 1 && TakenForArrow(line, j, [line[j]])
    ensures !OperatorAt(line, j)
  {
    assert OpAt(line, j) == [line[j]];
  }

  /** The second character of a misread punctuator, or the first of a digraph, is seen as an operator. */
  lemma PunctuatorSeen(line: string, j: nat) returns (q: nat)
    requires j < |line| && !Quote(line[j]) && Misread(line, j) && !(Angle(line[j]) && Munch(line, j) == 1)
    ensures j <= q < j + Munch(line, j) && OperatorAt(line, q) && !Relational(line, j)
  {
    q := if OpensAngle(line, j) then j else j + 1;
  }

  lemma MisreadShows(line: string, j: nat)
    requires j < |line| && Misread(line, j)
    ensures Occurrences(line, j) != RelationalTokens(line, j)
  {
    if Quote(line[j]) {
      var q :| j <= q < j + Munch(line, j) && OperatorAt(line, q);
      SeenInside(line, j, q);
    } else if Angle(line[j]) && Munch(line, j) == 1 {
      LostAngle(line, j);
    } else {
      hide Occurrences, RelationalTokens, OperatorAt;
      var q := PunctuatorSeen(line, j);
      SeenInside(line, j, q);
    }
  }

  // ---------- the exact condition ----------

  lemma Unfolded(line: string, j: nat)
    requires j < |line|
    ensures RelationalTokens(line, j) == Own(line, j) + RelationalTokens(line, j + Munch(line, j))
    ensures AllRead(line, j) <==> !Misread(line, j) && AllRead(line, j + Munch(line, j))
  {
  }

  /** The scan finds exactly the relational and logical operator tokens of a line iff no token is misread. */
  lemma {:induction false} ScanIsTokensIff(line: string, j: nat)
    ensures Occurrences(line, j) == RelationalTokens(line, j) <==> AllRead(line, j)
    decreases |line| - j
  {
    hide Misread, Relational, Own, Munch, Occurrences, RelationalTokens, AllRead;
    if j >= |line| {
      NothingBeyond(line, j);
    } else {
      Unfolded(line, j);
      if Misread(line, j) {
        MisreadShows(line, j);
      } else {
        var k := j + Munch(line, j);
        TokenRead(line, j);
        ScanIsTokensIff(line, k);
        SameTail(Own(line, j), Occurrences(line, k), RelationalTokens(line, k));
      }
    }
  }

  lemma SameTail(p: seq<Occurrence>, a: seq<Occurrence>, b: seq<Occurrence>)
    ensures p + a == p + b <==> a == b
  {
    if p + a == p + b {
      assert (p + a)[|p|..] == a && (p + b)[|p|..] == b;
    }
  }

  // ---------- ordinary lines ----------

  predicate SingleAngle(line: string, j: nat) { j < |line| && Angle(line[j]) && Munch(line, j) == 1 }

  /** The shift-assignments. */
  predicate ShiftAssign(line: string, j: nat)
    requires j < |line|
  {
    !Quote(line[j]) && Munch(line, j) == 3
  }

  /** A decrement directly followed by a comparison, as in n-->0. */
  predicate DecrementThenAngle(line: string, j: nat) { Two(line, j, '-', '-') && SingleAngle(line, j + 2) }

  /** What no C expression contains, and digraphs and operators inside literals. */
  predicate Odd(line: string, j: nat)
    requires j < |line|
  {
    || (Quote(line[j]) && Misread(line, j))
    || (!Quote(line[j]) && (Assigns(line, j) || Two(line, j, '-', '>')) && CharAt(line, j + 2, '='))
    || OpensAngle(line, j) || ClosesAngle(line, j)
    || (SingleAngle(line, j) && (IsAny(line, j - 1, "<>") || IsAny(line, j + 1, "<>")))
    || (Munch(line, j) == 1 && Two(line, j, '-', '<'))
  }

  predicate Ordinary(line: string, j: nat)
    decreases |line| - j
  {
    j >= |line| || (!Odd(line, j) && Ordinary(line, j + Munch(line, j)))
  }

  /** No token from j on is a shift-assignment, or a decrement directly before a comparison. */
  predicate NeitherFamily(line: string, j: nat)
    decreases |line| - j
  {
    j >= |line| || (!ShiftAssign(line, j) && !DecrementThenAngle(line, j) && NeitherFamily(line, j + Munch(line, j)))
  }

  /** A comparison right after a minus. */
  predicate AfterMinus(line: string, j: nat) { SingleAngle(line, j) && IsAny(line, j - 1, "-") }

  lemma OrdinaryMisread(line: string, j: nat)
    requires j < |line| && !Odd(line, j)
    ensures Misread(line, j) <==> ShiftAssign(line, j) || AfterMinus(line, j)
  {
    if AfterMinus(line, j) { assert line[j - 1] in "-<>"; }
  }

  /** In an ordinary line only a decrement stands right before a comparison and ends in a minus. */
  lemma MinusBefore(line: string, j: nat)
    requires j < |line| && !Odd(line, j)
    ensures DecrementThenAngle(line, j) <==> AfterMinus(line, j + Munch(line, j))
  {
    var k := j + Munch(line, j);
    if Quote(line[j]) && k < |line| { LiteralClosed(line, j + 1, line[j]); }
  }

  /** A literal that ends before the line does ends in its quote, or at a newline. */
  lemma LiteralClosed(line: string, k: nat, quote: char)
    requires k <= |line| && LiteralEnd(line, k, quote) < |line|
    ensures var n := LiteralEnd(line, k, quote);
      line[n] == '\n' || (n > k && line[n - 1] == quote)
  {
    hide LitBody;
    var m := LitBody(line[k..], quote);
    assert m < |line[k..]| ==> line[k..][m] == line[k + m];
  }

  lemma {:induction false} OrdinaryRead(line: string, j: nat)
    requires Ordinary(line, j) && !AfterMinus(line, j)
    ensures AllRead(line, j) <==> NeitherFamily(line, j)
    decreases |line| - j
  {
    hide Misread, Odd, Munch, ShiftAssign, DecrementThenAngle, AfterMinus;
    if j < |line| {
      var k := j + Munch(line, j);
      OrdinaryMisread(line, j);
      MinusBefore(line, j);
      if AfterMinus(line, k) {
        AfterMinusMisread(line, k);
      } else {
        OrdinaryRead(line, k);
      }
    }
  }

  lemma AfterMinusMisread(line: string, k: nat)
    requires AfterMinus(line, k)
    ensures k < |line| && Misread(line, k)
  {
    assert line[k - 1] in "-<>";
  }

  /** On ordinary lines: the scan finds exactly the operator tokens iff there is no shift-assignment and no decrement
      directly before a comparison. */
  lemma OrdinaryIff(line: string)
    requires Ordinary(line, 0)
    ensures Occurrences(line, 0) == RelationalTokens(line, 0) <==> NeitherFamily(line, 0)
  {
    ScanIsTokensIff(line, 0);
    OrdinaryRead(line, 0);
  }

  // ---------- the two families ----------

  lemma ShiftSeen(line: string, j: nat)
    requires j < |line| && ShiftAssign(line, j)
    ensures !OperatorAt(line, j) && OperatorAt(line, j + 1) && OpAt(line, j + 1) == [line[j], '=']
    ensures !Relational(line, j) && Munch(line, j) == 3
  {
  }

  /** A shift-assignment is mutated, although it is no comparison. */
  lemma ShiftAssignIsMutated(line: string, j: nat)
    requires j < |line| && ShiftAssign(line, j)
    ensures Occurrences(line, j) == [Occurrence(j + 1, [line[j], '='])] + Occurrences(line, j + 3)
    ensures Occurrence(j + 1, [line[j], '=']) !in RelationalTokens(line, j)
  {
    hide Occurrences, OperatorAt, OpAt, Relational, Munch, RelationalTokens, ShiftAssign;
    ShiftSeen(line, j);
    ScanStep(line, j);
    ScanStep(line, j + 1);
    var o := Occurrence(j + 1, [line[j], '=']);
    TokensSkip(line, j);
    if o in RelationalTokens(line, j) { TokensFrom(line, j + 3, o); }
  }

  lemma DecrementQuiet(line: string, j: nat)
    requires DecrementThenAngle(line, j)
    ensures !OperatorAt(line, j) && !OperatorAt(line, j + 1) && !OperatorAt(line, j + 2)
    ensures !Relational(line, j) && Munch(line, j) == 2 && Relational(line, j + 2) && Munch(line, j + 2) == 1
    ensures line[j + 2..j + 3] == [line[j + 2]]
  {
    assert line[j + 1] in "-<>";
    AngleNotSeen(line, j + 2);
  }

  /** A comparison directly after a decrement is not, although it is one. */
  lemma DecrementHidesComparison(line: string, j: nat)
    requires DecrementThenAngle(line, j)
    ensures Occurrence(j + 2, [line[j + 2]]) !in Occurrences(line, j)
    ensures Occurrence(j + 2, [line[j + 2]]) in RelationalTokens(line, j)
  {
    hide Occurrences, OperatorAt, Relational, Munch;
    DecrementQuiet(line, j);
    ScanPasses(line, j, j + 3);
    var o := Occurrence(j + 2, [line[j + 2]]);
    if o in Occurrences(line, j + 3) { OccurrencesFrom(line, j + 3, o); }
    Unfolded(line, j);
    Unfolded(line, j + 2);
    hide RelationalTokens;
  }

  lemma ShiftFacts(x: string)
    requires x == "x>>=1"
    ensures ShiftAssign(x, 1) && [x[1], '='] == ">="
    ensures !OperatorAt(x, 0) && !OperatorAt(x, 4) && Munch(x, 0) == 1 && Munch(x, 4) == 1
    ensures !Relational(x, 0) && !Relational(x, 4)
  {
  }

  /** The shortest lines of either family. */
  lemma ShiftLine()
    ensures Occurrences("x>>=1", 0) == [Occurrence(2, ">=")] && RelationalTokens("x>>=1", 0) == []
  {
    hide Occurrences, OperatorAt, OpAt, Munch, Relational, RelationalTokens, ShiftAssign;
    var x := "x>>=1";
    ShiftFacts(x);
    ShiftSeen(x, 1);
    ShiftAssignIsMutated(x, 1);
    ScanPasses(x, 0, 1);
    ScanPasses(x, 4, 5);
    NothingBeyond(x, 5);
    TokensSkip(x, 0);
    TokensSkip(x, 1);
    TokensSkip(x, 4);
  }

  lemma DecrementLine()
    ensures Occurrences("n-->0", 0) == [] && RelationalTokens("n-->0", 0) == [Occurrence(3, ">")]
  {
    var n := "n-->0";
    assert n[3..4] == ">" && DecrementThenAngle(n, 1);
    assert !OperatorAt(n, 0) && !OperatorAt(n, 4) && Munch(n, 0) == 1 && Munch(n, 4) == 1;
    assert !Relational(n, 0) && !Relational(n, 4);
    hide Occurrences, OperatorAt, Munch, Relational, RelationalTokens;
    DecrementQuiet(n, 1);
    ScanPasses(n, 0, 5);
    NothingBeyond(n, 5);
    TokensSkip(n, 0);
    TokensSkip(n, 1);
    TokensSkip(n, 4);
    Unfolded(n, 3);
  }

  lemma NothingBeyond(line: string, j: nat)
    requires j >= |line|
    ensures Occurrences(line, j) == [] && RelationalTokens(line, j) == [] && AllRead(line, j)
  {
  }

  // ---------- mutants and tokens ----------

  /** Some mutant changes the operator at this place of line k. */
  ghost predicate Mutated(text: string, c: Config, k: nat, o: Occurrence) {
    MaskedLines(text);
    exists m ::
      m in MutantsOf(Split(text), Split(Mask(text, Code)), |Split(text)|, c)
      && m.line == k + 1 && m.col == o.col + 1 && m.op == o.op
  }

  lemma MutatedOccurrence(text: string, c: Config, k: nat, o: Occurrence)
    requires Aligned(Split(text), Split(Mask(text, Code))) && k < |Split(text)|
    requires !Skipped(Split(Mask(text, Code)), k, c)
    ensures Mutated(text, c, k, o) <==> o in Occurrences(Split(Mask(text, Code))[k], 0)
  {
    hide Split, Mask, MutantsOf, Occurrences, Skipped;
    MutatedIff(text, c, k, o);
  }

  /** On a line that is not skipped, what is mutated is exactly the relational and logical operator tokens of its
      masked form iff no token of that is misread. */
  lemma MaskedTokensIff(text: string, c: Config, k: nat)
    requires Aligned(Split(text), Split(Mask(text, Code))) && k < |Split(text)|
    requires !Skipped(Split(Mask(text, Code)), k, c)
    ensures var mline := Split(Mask(text, Code))[k];
      (forall o: Occurrence :: Mutated(text, c, k, o) <==> o in RelationalTokens(mline, 0)) <==> AllRead(mline, 0)
  {
    hide Split, Mask, Skipped, Occurrences, RelationalTokens, AllRead, Mutated;
    var mline := Split(Mask(text, Code))[k];
    forall o: Occurrence ensures Mutated(text, c, k, o) <==> o in Occurrences(mline, 0) { MutatedOccurrence(text, c, k, o); }
    ScanIsTokensIff(mline, 0);
    if forall o: Occurrence :: Mutated(text, c, k, o) <==> o in RelationalTokens(mline, 0) {
      forall o: Occurrence ensures o in Occurrences(mline, 0) <==> o in RelationalTokens(mline, 0) {
        assert Mutated(text, c, k, o) <==> o in Occurrences(mline, 0);
      }
      SortedSame(mline);
    }
  }

  lemma BlankedLines(text: string)
    ensures Aligned(Split(text), Split(Stripped(text)))
  {
    hide Pieces, Render, RenderKept, CommentAt;
    PiecesEnd(text);
    KeptAt(Pieces(text), 0);
    forall k | 0 <= k < |text| ensures text[k] == '\n' <==> Stripped(text)[k] == '\n' {
      KeptAt(Pieces(text), k);
    }
    SplitAligned(text, Stripped(text));
  }

  /** The lines of a text with its comments blanked. */
  ghost function CodeLines(text: string): (ls: seq<string>)
    ensures Aligned(Split(text), ls)
  {
    BlankedLines(text);
    Split(Stripped(text))
  }

  lemma MaskIsStripped(text: string)
    requires Clear(text)
    ensures Mask(text, Code) == Stripped(text)
  {
    hide Mask, Pieces, PlainLiterals, Lexical, RenderKept, Render;
    PiecesEnd(text);
    MaskedPieces(Pieces(text));
  }

  /** On a line of a text whose literals hold no comment opener, when it is not skipped: what is mutated is exactly
      its relational and logical operator tokens, outside comments, iff no token is misread. */
  lemma MutantsAreTokensIff(text: string, c: Config, k: nat)
    requires Clear(text) && k < |Split(text)| && !Skipped(CodeLines(text), k, c)
    ensures var line := CodeLines(text)[k];
      (forall o: Occurrence :: Mutated(text, c, k, o) <==> o in RelationalTokens(line, 0)) <==> AllRead(line, 0)
  {
    hide Split, Mask, Skipped, Occurrences, RelationalTokens, AllRead, Mutated, Stripped, Clear;
    MaskIsStripped(text);
    BlankedLines(text);
    MaskedTokensIff(text, c, k);
  }

  ghost predicate Increasing(s: seq<Occurrence>) {
    forall i, j :: 0 <= i < j < |s| ==> s[i].col < s[j].col
  }

  lemma {:induction false} SameIncreasing(a: seq<Occurrence>, b: seq<Occurrence>)
    requires Increasing(a) && Increasing(b) && forall o: Occurrence :: o in a <==> o in b
    ensures a == b
  {
    assert a != [] ==> a[0] in a;
    assert b != [] ==> b[0] in b;
    if a != [] && b != [] {
      var x, y := a[0], b[0];
      assert x in b && y in a;
      var i :| 0 <= i < |b| && b[i] == x;
      var j :| 0 <= j < |a| && a[j] == y;
      assert x == y;
      forall o: Occurrence ensures o in a[1..] <==> o in b[1..] {
        assert o in a <==> o in b;
        assert o in a <==> o == x || o in a[1..];
        assert o in b <==> o == x || o in b[1..];
        assert x !in a[1..] && x !in b[1..];
      }
      SameIncreasing(a[1..], b[1..]);
      assert a == [x] + a[1..] && b == [x] + b[1..];
    }
  }

  lemma {:induction false} TokensIncrease(line: string, j: nat)
    ensures Increasing(RelationalTokens(line, j))
    decreases |line| - j
  {
    hide Relational, Munch;
    if j < |line| {
      var k := j + Munch(line, j);
      TokensIncrease(line, k);
      Unfolded(line, j);
      forall o | o in RelationalTokens(line, k) ensures o.col >= k { TokensFrom(line, k, o); }
      assert forall i :: 0 <= i < |RelationalTokens(line, k)| ==> RelationalTokens(line, k)[i] in RelationalTokens(line, k);
    }
  }

  lemma SortedSame(line: string)
    requires forall o: Occurrence :: o in Occurrences(line, 0) <==> o in RelationalTokens(line, 0)
    ensures Occurrences(line, 0) == RelationalTokens(line, 0)
  {
    hide Occurrences, RelationalTokens;
    TokensIncrease(line, 0);
    forall i, j | 0 <= i < j < |Occurrences(line, 0)| ensures Occurrences(line, 0)[i].col < Occurrences(line, 0)[j].col {
      OccurrencesApart(line, 0, i, j);
      OccurrencesSound(line, 0, i);
      assert Occurrences(line, 0)[i].op != "";
    }
    SameIncreasing(Occurrences(line, 0), RelationalTokens(line, 0));
  }
}
