/** Mutant generation: one relational or logical operator changed at a time, outside comments. */
module Mutants {
  import opened Comments
  import opened Lexer

  // ---------- lines ----------

  /** Lines of a text, split at newlines; at least one. */
  function Split(t: string): (ls: seq<string>)
    ensures |ls| >= 1
  {
    if t == [] then [[]]
    else
      var r := Split(t[1..]);
      if t[0] == '\n' then [[]] + r else [[t[0]] + r[0]] + r[1..]
  }

  function Join(ls: seq<string>): string
    requires |ls| >= 1
  {
    if |ls| == 1 then ls[0] else ls[0] + ("\n" + Join(ls[1..]))
  }

  lemma JoinCons(c: char, r: seq<string>)
    requires |r| >= 1
    ensures Join([[c] + r[0]] + r[1..]) == [c] + Join(r)
    ensures Join([[]] + r) == "\n" + Join(r)
  {
    assert ([[c] + r[0]] + r[1..])[1..] == r[1..];
    assert ([[]] + r)[1..] == r;
    if |r| > 1 { Assoc([c], r[0], "\n" + Join(r[1..])); }
  }

  lemma {:induction false} JoinSplit(t: string)
    ensures Join(Split(t)) == t
  {
    if t != [] {
      JoinSplit(t[1..]);
      JoinCons(t[0], Split(t[1..]));
      hide Join;
      assert t == [t[0]] + t[1..];
    }
  }

  /** Where line k begins. */
  function Offset(ls: seq<string>, k: nat): nat
    requires k <= |ls|
  {
    if k == 0 then 0 else |ls[0]| + 1 + Offset(ls[1..], k - 1)
  }

  ghost predicate Replaced(t: string, o: nat, line: string, swapped: string, r: string) {
    o + |line| <= |t| && t[o..o + |line|] == line && r == t[..o] + swapped + t[o + |line|..]
  }

  lemma ReplacedFirst(line: string, swapped: string, tail: string)
    ensures Replaced(line + tail, 0, line, swapped, swapped + tail)
  {
    assert (line + tail)[|line|..] == tail && (line + tail)[..|line|] == line;
  }

  lemma ReplacedLater(head: string, t: string, o: nat, line: string, swapped: string, r: string)
    requires Replaced(t, o, line, swapped, r)
    ensures Replaced(head + t, |head| + o, line, swapped, head + r)
  {
    var u := head + t;
    assert u[..|head| + o] == head + t[..o];
    assert u[|head| + o + |line|..] == t[o + |line|..];
    assert u[|head| + o..|head| + o + |line|] == t[o..o + |line|];
  }

  /** Replacing a line replaces that stretch of the text. */
  lemma {:induction false} JoinReplace(ls: seq<string>, k: nat, swapped: string)
    requires k < |ls|
    ensures Replaced(Join(ls), Offset(ls, k), ls[k], swapped, Join(ls[k := swapped]))
  {
    hide Replaced;
    if |ls| == 1 {
      ReplacedFirst(ls[0], swapped, "");
      assert ls[0] + "" == ls[0] && swapped + "" == swapped;
    } else if k == 0 {
      assert ls[0 := swapped][1..] == ls[1..];
      ReplacedFirst(ls[0], swapped, "\n" + Join(ls[1..]));
    } else {
      var rest := ls[1..];
      JoinReplace(rest, k - 1, swapped);
      assert ls[k := swapped][1..] == rest[k - 1 := swapped];
      ReplacedLater("\n", Join(rest), Offset(rest, k - 1), ls[k], swapped, Join(rest[k - 1 := swapped]));
      ReplacedLater(ls[0], "\n" + Join(rest), 1 + Offset(rest, k - 1), ls[k], swapped, "\n" + Join(rest[k - 1 := swapped]));
    }
  }

  /** Texts with newlines in the same places have lines of the same lengths. */
  lemma {:induction false} SplitAligned(t: string, u: string)
    requires |t| == |u| && forall k :: 0 <= k < |t| ==> (t[k] == '\n' <==> u[k] == '\n')
    ensures |Split(t)| == |Split(u)|
    ensures forall k :: 0 <= k < |Split(t)| ==> |Split(t)[k]| == |Split(u)[k]|
  {
    if t != [] {
      SplitAligned(t[1..], u[1..]);
      assert t[0] == '\n' <==> u[0] == '\n';
    }
  }

  // ---------- operators ----------

  /** The operators in matching order, each with its replacement. */
  function Ops(): seq<string> { [">=", "<=", "==", "!=", "&&", "||", ">", "<"] }

  function Swap(op: string): string {
    if op == ">=" then ">" else if op == "<=" then "<" else if op == "==" then "!=" else if op == "!=" then "=="
    else if op == "&&" then "||" else if op == "||" then "&&" else if op == ">" then ">=" else "<="
  }

  predicate HasAt(line: string, j: nat, op: string) {
    j + |op| <= |line| && line[j..j + |op|] == op
  }

  /** The first operator of the list from index n on that stands at j; empty if none. */
  function FirstOp(line: string, j: nat, n: nat): (op: string)
    requires n <= |Ops()|
    decreases |Ops()| - n
    ensures op != "" ==> op in Ops() && HasAt(line, j, op)
    ensures |op| <= 2 && (op != "" ==> j + |op| <= |line|)
    ensures op == "" ==> forall o :: o in Ops()[n..] ==> !HasAt(line, j, o)
  {
    if n == |Ops()| then ""
    else if HasAt(line, j, Ops()[n]) then Ops()[n]
    else FirstOp(line, j, n + 1)
  }

  predicate IsAny(line: string, j: int, cs: string) { 0 <= j < |line| && line[j] in cs }

  /** An angle after a minus or beside another angle: the scan takes it for a part of an arrow or a shift. */
  predicate TakenForArrow(line: string, j: nat, op: string) {
    (op == ">" || op == "<") && (IsAny(line, j - 1, "-<>") || IsAny(line, j + |op|, "<>"))
  }

  datatype Occurrence = Occurrence(col: nat, op: string)

  /** The operators a line is mutated at, found from left to right. */
  function Occurrences(line: string, j: nat): (r: seq<Occurrence>)
    decreases |line| - j
    ensures forall o :: o in r ==> o.col + |o.op| <= |line|
  {
    hide Ops, HasAt, TakenForArrow;
    if j >= |line| then []
    else
      var op := FirstOp(line, j, 0);
      if op == "" then Occurrences(line, j + 1)
      else if TakenForArrow(line, j, op) then Occurrences(line, j + |op|)
      else [Occurrence(j, op)] + Occurrences(line, j + |op|)
  }

  // ---------- functions left out ----------

  /** What the text-level patterns decide about a line. */
  datatype Config = Config(
    header: string -> bool,     // the line starts a function definition
    excluded: string -> bool,      // that function is a deliberate mutant
    blank: char -> bool)           // white space

  function Count(line: string, c: char): nat {
    if line == [] then 0 else Count(line[..|line| - 1], c) + if line[|line| - 1] == c then 1 else 0
  }

  function Directive(line: string, c: Config): bool {
    if line == [] then false else if c.blank(line[0]) then Directive(line[1..], c) else line[0] == '#'
  }

  /** Brace depth and "inside an excluded function" before line k. */
  function State(ls: seq<string>, k: nat, c: Config): (int, bool)
    requires k <= |ls|
    decreases k, 0
  {
    if k == 0 then (0, false)
    else
      var (d, _) := State(ls, k - 1, c);
      var after := d + Count(ls[k - 1], '{') - Count(ls[k - 1], '}');
      (after, if d > 0 && after <= 0 then false else Enters(ls, k - 1, c))
  }

  /** Whether line k counts as inside an excluded function when it is read. */
  function Enters(ls: seq<string>, k: nat, c: Config): bool
    requires k < |ls|
    decreases k, 1
  {
    var (d, skip) := State(ls, k, c);
    if d == 0 && c.header(ls[k]) then c.excluded(ls[k]) else skip
  }

  /** Lines with no mutants: in an excluded function up to the line that closes it, or a preprocessor line. */
  predicate Skipped(ls: seq<string>, k: nat, c: Config)
    requires k < |ls|
  {
    State(ls, k + 1, c).1 || Directive(ls[k], c)
  }

  // ---------- mutants ----------

  datatype Mutant = Mutant(line: nat, col: nat, op: string, rep: string, text: string)

  /** Line k of the source with one operator replaced, joined up again. */
  function Apply(ls: seq<string>, k: nat, o: Occurrence): Mutant
    requires k < |ls| && o.col + |o.op| <= |ls[k]|
  {
    var swapped := ls[k][..o.col] + Swap(o.op) + ls[k][o.col + |o.op|..];
    Mutant(k + 1, o.col + 1, o.op, Swap(o.op), Join(ls[k := swapped]))
  }

  function ApplyAll(ls: seq<string>, k: nat, os: seq<Occurrence>): seq<Mutant>
    requires k < |ls| && forall o :: o in os ==> o.col + |o.op| <= |ls[k]|
  {
    if os == [] then [] else [Apply(ls, k, os[0])] + ApplyAll(ls, k, os[1..])
  }

  ghost predicate Aligned(ls: seq<string>, masked: seq<string>) {
    |ls| == |masked| && forall k :: 0 <= k < |ls| ==> |ls[k]| == |masked[k]|
  }

  /** The mutants of the lines before k. */
  ghost function MutantsOf(ls: seq<string>, masked: seq<string>, k: nat, c: Config): seq<Mutant>
    requires Aligned(ls, masked) && k <= |ls|
  {
    if k == 0 then []
    else
      MutantsOf(ls, masked, k - 1, c)
      + if Skipped(masked, k - 1, c) then [] else ApplyAll(ls, k - 1, Occurrences(masked[k - 1], 0))
  }

  lemma MaskedLines(text: string)
    ensures Aligned(Split(text), Split(Mask(text, Code)))
  {
    forall k | 0 <= k < |text| ensures text[k] == '\n' <==> Mask(text, Code)[k] == '\n' {
      MaskKeepsPlaces(text, Code, k);
    }
    SplitAligned(text, Mask(text, Code));
  }

  method MatchOp(line: string, j: nat) returns (matched: string)
    ensures matched == FirstOp(line, j, 0)
  {
    var n := 0;
    while n < |Ops()|
      invariant 0 <= n <= |Ops()|
      invariant FirstOp(line, j, 0) == FirstOp(line, j, n)
    {
      if HasAt(line, j, Ops()[n]) { return Ops()[n]; }
      n := n + 1;
    }
    return "";
  }

  lemma ApplyNothing(ls: seq<string>, k: nat)
    requires k < |ls|
    ensures ApplyAll(ls, k, []) == []
  {
  }

  lemma ApplyNext(ls: seq<string>, k: nat, line: string, j: nat, op: string, ms: seq<Mutant>)
    requires k < |ls| && |ls[k]| == |line| && j < |line| && op == FirstOp(line, j, 0)
    requires op != "" && !TakenForArrow(line, j, op)
    ensures ms + ApplyAll(ls, k, Occurrences(line, j))
      == (ms + [Apply(ls, k, Occurrence(j, op))]) + ApplyAll(ls, k, Occurrences(line, j + |op|))
  {
    hide Apply, FirstOp, TakenForArrow, Ops;
    var rest := Occurrences(line, j + |op|);
    assert Occurrences(line, j) == [Occurrence(j, op)] + rest;
    assert ([Occurrence(j, op)] + rest)[1..] == rest;
  }

  lemma LineUpdated(ls: seq<string>, k: nat, line: string)
    requires k < |ls|
    ensures ls[..k] + [line] + ls[k + 1..] == ls[k := line]
  {
  }

  method LineMutants(ls: seq<string>, ln: nat, mline: string) returns (ms: seq<Mutant>)
    requires ln < |ls| && |ls[ln]| == |mline|
    ensures ms == ApplyAll(ls, ln, Occurrences(mline, 0))
  {
    hide Ops, HasAt, TakenForArrow, FirstOp, Swap, Join, ApplyAll;
    var line := ls[ln];
    var j := 0;
    ms := [];
    while j < |mline|
      invariant 0 <= j
      invariant ms + ApplyAll(ls, ln, Occurrences(mline, j)) == ApplyAll(ls, ln, Occurrences(mline, 0))
      decreases |mline| - j
    {
      var matched := MatchOp(mline, j);
      if matched == "" {
        j := j + 1;
        continue;
      }
      if TakenForArrow(mline, j, matched) {
        j := j + |matched|;
        continue;
      }
      var rep := Swap(matched);
      var newLine := line[..j] + rep + line[j + |matched|..];
      var mutated := Join(ls[..ln] + [newLine] + ls[ln + 1..]);
      LineUpdated(ls, ln, newLine);
      ApplyNext(ls, ln, mline, j, matched, ms);
      ms := ms + [Mutant(ln + 1, j + 1, matched, rep, mutated)];
      j := j + |matched|;
    }
    ApplyNothing(ls, ln);
  }

  method GenMutants(text: string, c: Config) returns (ms: seq<Mutant>)
    ensures Aligned(Split(text), Split(Mask(text, Code)))
    ensures ms == MutantsOf(Split(text), Split(Mask(text, Code)), |Split(text)|, c)
  {
    hide Split, Count, Directive, ApplyAll, Occurrences, Mask;
    MaskedLines(text);
    var lines := Split(text);
    var blanked := MaskComments(text);
    var masked := Split(blanked);
    var depth, skip := 0, false;
    var ln := 0;
    ms := [];
    while ln < |masked|
      invariant 0 <= ln <= |masked|
      invariant (depth, skip) == State(masked, ln, c)
      invariant ms == MutantsOf(lines, masked, ln, c)
    {
      var mline := masked[ln];
      var prevDepth := depth;
      if depth == 0 && c.header(mline) { skip := c.excluded(mline); }
      assert skip == Enters(masked, ln, c);
      depth := depth + Count(mline, '{') - Count(mline, '}');
      if prevDepth > 0 && depth <= 0 { skip := false; }
      assert (depth, skip) == State(masked, ln + 1, c);
      if !skip && !Directive(mline, c) {
        var more := LineMutants(lines, ln, mline);
        ms := ms + more;
      }
      ln := ln + 1;
    }
  }

  // ---------- what a mutant is ----------

  lemma {:induction false} OccurrencesSound(line: string, j: nat, k: nat)
    requires k < |Occurrences(line, j)|
    ensures var o := Occurrences(line, j)[k];
      && o.col >= j && o.op in Ops() && HasAt(line, o.col, o.op) && !TakenForArrow(line, o.col, o.op)
      && FirstOp(line, o.col, 0) == o.op
    decreases |line| - j
  {
    hide Ops, HasAt, TakenForArrow, FirstOp;
    var op := FirstOp(line, j, 0);
    if op == "" {
      OccurrencesSound(line, j + 1, k);
    } else if TakenForArrow(line, j, op) {
      OccurrencesSound(line, j + |op|, k);
    } else if k > 0 {
      OccurrencesSound(line, j + |op|, k - 1);
    }
  }

  /** No operator character is mutated twice. */
  lemma {:induction false} OccurrencesApart(line: string, j: nat, k: nat, m: nat)
    requires k < m < |Occurrences(line, j)|
    ensures Occurrences(line, j)[k].col + |Occurrences(line, j)[k].op| <= Occurrences(line, j)[m].col
    decreases |line| - j
  {
    hide Ops, HasAt, TakenForArrow, FirstOp;
    var op := FirstOp(line, j, 0);
    if op == "" {
      OccurrencesApart(line, j + 1, k, m);
    } else if TakenForArrow(line, j, op) {
      OccurrencesApart(line, j + |op|, k, m);
    } else if k > 0 {
      OccurrencesApart(line, j + |op|, k - 1, m - 1);
    } else {
      OccurrencesSound(line, j + |op|, m - 1);
    }
  }

  /** Every operator is found unless it is the second character of another one, or taken for part of an arrow
      or shift. */
  lemma {:induction false} OccurrencesComplete(line: string, from: nat, j: nat)
    requires from <= j < |line| && FirstOp(line, j, 0) != "" && !TakenForArrow(line, j, FirstOp(line, j, 0))
    requires j > 0 ==> |FirstOp(line, j - 1, 0)| <= 1
    ensures Occurrence(j, FirstOp(line, j, 0)) in Occurrences(line, from)
    decreases j - from
  {
    hide Ops, HasAt, TakenForArrow, FirstOp;
    var op := FirstOp(line, from, 0);
    if from < j {
      assert op == "" || from + |op| <= j;
      OccurrencesComplete(line, if op == "" then from + 1 else from + |op|, j);
    }
  }

  /** A mutant changes one operator, at pos, which masking keeps. */
  ghost predicate OneOperator(text: string, m: Mutant, k: nat, pos: nat) {
    var masked := Mask(text, Code);
    var end := pos + |m.op|;
    && m.op in Ops() && m.rep == Swap(m.op) && end <= |text|
    && masked[pos..end] == m.op && text[pos..end] == m.op
    && m.text == text[..pos] + m.rep + text[end..]
    && m.line == k + 1 && k < |Split(text)| && m.col >= 1 && pos == Offset(Split(text), k) + (m.col - 1)
  }

  lemma SwapDiffers(text: string, pos: nat, op: string)
    requires op in Ops() && pos + |op| <= |text| && text[pos..pos + |op|] == op
    ensures text[..pos] + Swap(op) + text[pos + |op|..] != text
  {
    var r := text[..pos] + Swap(op) + text[pos + |op|..];
    if |op| == |Swap(op)| {
      assert r[pos] == Swap(op)[0] && text[pos..pos + |op|][0] == op[0];
    } else {
      assert |r| != |text|;
    }
  }

  lemma {:induction false} ApplyAllAt(ls: seq<string>, k: nat, os: seq<Occurrence>)
    requires k < |ls| && forall o :: o in os ==> o.col + |o.op| <= |ls[k]|
    ensures |ApplyAll(ls, k, os)| == |os|
    ensures forall i :: 0 <= i < |os| ==> ApplyAll(ls, k, os)[i] == Apply(ls, k, os[i])
  {
    hide Apply;
    if os != [] { ApplyAllAt(ls, k, os[1..]); }
  }

  /** Each mutant comes from one occurrence on one line that is not skipped. */
  lemma {:induction false} MutantOrigin(ls: seq<string>, masked: seq<string>, k: nat, c: Config, m: Mutant)
      returns (line: nat, o: Occurrence)
    requires Aligned(ls, masked) && k <= |ls| && m in MutantsOf(ls, masked, k, c)
    ensures line < k && !Skipped(masked, line, c) && o in Occurrences(masked[line], 0) && m == Apply(ls, line, o)
  {
    hide Apply, Skipped, Occurrences, ApplyAll;
    var os := Occurrences(masked[k - 1], 0);
    if m in MutantsOf(ls, masked, k - 1, c) {
      line, o := MutantOrigin(ls, masked, k - 1, c, m);
    } else {
      ApplyAllAt(ls, k - 1, os);
      var i :| 0 <= i < |os| && ApplyAll(ls, k - 1, os)[i] == m;
      line, o := k - 1, os[i];
    }
  }

  lemma {:induction false} OriginHasMutant(ls: seq<string>, masked: seq<string>, k: nat, c: Config, line: nat, o: Occurrence)
    requires Aligned(ls, masked) && line < k <= |ls|
    requires !Skipped(masked, line, c) && o in Occurrences(masked[line], 0)
    ensures Apply(ls, line, o) in MutantsOf(ls, masked, k, c)
  {
    hide Apply, Skipped, Occurrences;
    if line < k - 1 {
      OriginHasMutant(ls, masked, k - 1, c, line, o);
    } else {
      ApplyAllAt(ls, line, Occurrences(masked[line], 0));
    }
  }

  lemma SubSlice(t: string, a: nat, b: nat, c: nat, d: nat)
    requires a <= b <= |t| && c <= d <= b - a
    ensures t[a..b][c..d] == t[a + c..a + d]
  {
    var x, y := t[a..b][c..d], t[a + c..a + d];
    forall i | 0 <= i < d - c ensures x[i] == y[i] {
      assert t[a..b][c + i] == t[a + c + i];
    }
  }

  lemma ReplacedColumn(t: string, o: nat, line: string, col: nat, n: nat, rep: string, r: string)
    requires col + n <= |line| && Replaced(t, o, line, line[..col] + rep + line[col + n..], r)
    ensures Replaced(t, o + col, line[col..col + n], rep, r)
  {
    var p := o + col;
    var pre, post := t[..o], t[o + |line|..];
    SubSlice(t, o, o + |line|, col, col + n);
    SubSlice(t, o, o + |line|, 0, col);
    SubSlice(t, o, o + |line|, col + n, |line|);
    assert line[0..col] == line[..col] && line[col + n..|line|] == line[col + n..];
    assert t[..p] == pre + t[o..p];
    assert t[p + n..] == t[p + n..o + |line|] + post;
    assert r == (pre + (line[..col] + rep + line[col + n..])) + post;
  }

  /** Replacing columns col .. col+n of a line, seen in the whole text. */
  lemma ColumnInText(text: string, ls: seq<string>, k: nat, col: nat, n: nat, rep: string)
    requires ls == Split(text) && k < |ls| && col + n <= |ls[k]|
    ensures Replaced(text, Offset(ls, k) + col, ls[k][col..col + n], rep,
      Join(ls[k := ls[k][..col] + rep + ls[k][col + n..]]))
  {
    hide Replaced, Split, Join, Offset;
    JoinSplit(text);
    var line := ls[k];
    var swapped := line[..col] + rep + line[col + n..];
    JoinReplace(ls, k, swapped);
    ReplacedColumn(text, Offset(ls, k), line, col, n, rep, Join(ls[k := swapped]));
  }

  lemma {:induction false} SameOffset(ls: seq<string>, masked: seq<string>, k: nat)
    requires Aligned(ls, masked) && k <= |ls|
    ensures Offset(ls, k) == Offset(masked, k)
  {
    if k > 0 { SameOffset(ls[1..], masked[1..], k - 1); }
  }

  lemma KeptChar(text: string, pos: nat, op: string, q: nat)
    requires op in Ops() && pos + |op| <= |text| && Mask(text, Code)[pos..pos + |op|] == op && q < |op|
    ensures text[pos + q] == op[q]
  {
    OpsNotBlank(op, q);
    hide Mask, Ops;
    var blanked := Mask(text, Code);
    assert blanked[pos..pos + |op|][q] == blanked[pos + q];
    MaskKeepsPlaces(text, Code, pos + q);
  }

  /** What survives masking as an operator is that operator in the source. */
  lemma OperatorKept(text: string, pos: nat, op: string)
    requires op in Ops() && pos + |op| <= |text| && Mask(text, Code)[pos..pos + |op|] == op
    ensures text[pos..pos + |op|] == op
  {
    hide Mask, Ops;
    forall q | 0 <= q < |op| ensures text[pos..pos + |op|][q] == op[q] {
      KeptChar(text, pos, op, q);
    }
  }

  lemma ReplacedFacts(t: string, pos: nat, line: string, o: Occurrence, r: string)
    requires o.col + |o.op| <= |line| && Replaced(t, pos, line[o.col..o.col + |o.op|], Swap(o.op), r)
    ensures pos + |o.op| <= |t| && r == t[..pos] + Swap(o.op) + t[pos + |o.op|..]
    ensures HasAt(line, o.col, o.op) ==> t[pos..pos + |o.op|] == o.op
  {
  }

  /** No character from pos on, n of them, lies in a comment. */
  ghost predicate OutsideComments(text: string, pos: nat, n: nat) {
    forall q :: pos <= q < pos + n ==> !CommentAt(Pieces(text), q)
  }

  lemma KeptOutside(text: string, pos: nat, op: string)
    requires Clear(text) && op in Ops() && pos + |op| <= |text| && Mask(text, Code)[pos..pos + |op|] == op
    ensures OutsideComments(text, pos, |op|)
  {
    assert PlainLiterals(Pieces(text));
    MaskKeepsCode(text);
    hide Mask, Ops, Clear, PlainLiterals, CommentAt, Pieces;
    forall q | pos <= q < pos + |op| ensures !CommentAt(Pieces(text), q) {
      OpsNotBlank(op, q - pos);
      assert Mask(text, Code)[pos..pos + |op|][q - pos] == Mask(text, Code)[q];
    }
  }

  /** Every mutant differs from the source in exactly one operator, on a line that is neither a preprocessor line nor
      in an excluded function; and outside comments, when no literal holds a comment opener. */
  lemma MutantIsOneOperator(text: string, c: Config, m: Mutant)
    requires Aligned(Split(text), Split(Mask(text, Code)))
    requires m in MutantsOf(Split(text), Split(Mask(text, Code)), |Split(text)|, c)
    ensures m.text != text
    ensures exists k: nat, pos: nat ::
      && OneOperator(text, m, k, pos) && !Skipped(Split(Mask(text, Code)), k, c)
      && (Clear(text) ==> OutsideComments(text, pos, |m.op|))
  {
    hide Clear, OutsideComments, Split, Mask, Skipped, Occurrences, FirstOp, Ops, Swap, Join, TakenForArrow, Replaced, Offset, MutantsOf, HasAt;
    var ls, blanked := Split(text), Mask(text, Code);
    var masked := Split(blanked);
    var k, o := MutantOrigin(ls, masked, |ls|, c, m);
    var i :| 0 <= i < |Occurrences(masked[k], 0)| && Occurrences(masked[k], 0)[i] == o;
    OccurrencesSound(masked[k], 0, i);
    var pos, n := Offset(ls, k) + o.col, |o.op|;
    ColumnInText(text, ls, k, o.col, n, Swap(o.op));
    ColumnInText(blanked, masked, k, o.col, n, Swap(o.op));
    SameOffset(ls, masked, k);
    assert pos + n <= |text| && blanked[pos..pos + n] == o.op && m.text == text[..pos] + Swap(o.op) + text[pos + n..] by {
      ReplacedFacts(text, pos, ls[k], o, m.text);
      ReplacedFacts(blanked, pos, masked[k], o, Join(masked[k := masked[k][..o.col] + Swap(o.op) + masked[k][o.col + n..]]));
    }
    OperatorKept(text, pos, o.op);
    SwapDiffers(text, pos, o.op);
    if Clear(text) { KeptOutside(text, pos, o.op); }
    assert OneOperator(text, m, k, pos);
  }

  lemma OpsNotBlank(op: string, q: nat)
    requires op in Ops() && q < |op|
    ensures op[q] != ' ' && op[q] != '\n'
  {
  }

  /** Every operator that masking keeps on such a line has its mutant, unless it is the second character of
      another one, or an angle after a minus or beside another angle. */
  lemma OperatorHasMutant(text: string, c: Config, k: nat, j: nat)
    requires Aligned(Split(text), Split(Mask(text, Code)))
    requires k < |Split(text)| && !Skipped(Split(Mask(text, Code)), k, c)
    requires var mline := Split(Mask(text, Code))[k];
      j < |mline| && FirstOp(mline, j, 0) != "" && !TakenForArrow(mline, j, FirstOp(mline, j, 0))
      && (j > 0 ==> |FirstOp(mline, j - 1, 0)| <= 1)
    ensures exists m ::
      m in MutantsOf(Split(text), Split(Mask(text, Code)), |Split(text)|, c) && m.line == k + 1 && m.col == j + 1 && m.op == FirstOp(Split(Mask(text, Code))[k], j, 0)
  {
    hide Split, Mask, Skipped, Occurrences, FirstOp, TakenForArrow, Swap, Join;
    var ls, masked := Split(text), Split(Mask(text, Code));
    OccurrencesComplete(masked[k], 0, j);
    OriginHasMutant(ls, masked, |ls|, c, k, Occurrence(j, FirstOp(masked[k], j, 0)));
  }

  lemma ApplyPlace(ls: seq<string>, k: nat, o: Occurrence)
    requires k < |ls| && o.col + |o.op| <= |ls[k]|
    ensures Apply(ls, k, o).line == k + 1 && Apply(ls, k, o).col == o.col + 1 && Apply(ls, k, o).op == o.op
  {
  }

  lemma LaterOnLine(ls: seq<string>, masked: seq<string>, k: nat, a: nat, b: nat)
    requires Aligned(ls, masked) && k < |ls| && a < b < |ApplyAll(ls, k, Occurrences(masked[k], 0))|
    ensures var ms := ApplyAll(ls, k, Occurrences(masked[k], 0));
      ms[a].line == ms[b].line && ms[a].col + |ms[a].op| <= ms[b].col
  {
    var os := Occurrences(masked[k], 0);
    ApplyAllAt(ls, k, os);
    OccurrencesApart(masked[k], 0, a, b);
    hide Apply, Occurrences, ApplyAll;
    ApplyPlace(ls, k, os[a]);
    ApplyPlace(ls, k, os[b]);
  }

  /** One mutant per occurrence: in reading order, never the same place twice. */
  lemma {:induction false} MutantsInOrder(ls: seq<string>, masked: seq<string>, k: nat, c: Config, a: nat, b: nat)
    requires Aligned(ls, masked) && k <= |ls| && a < b < |MutantsOf(ls, masked, k, c)|
    ensures var x, y := MutantsOf(ls, masked, k, c)[a], MutantsOf(ls, masked, k, c)[b];
      x.line < y.line || (x.line == y.line && x.col + |x.op| <= y.col)
  {
    hide Apply, Skipped, Occurrences, ApplyAll;
    var before := MutantsOf(ls, masked, k - 1, c);
    var os := Occurrences(masked[k - 1], 0);
    var swapped := ApplyAll(ls, k - 1, os);
    if b < |before| {
      MutantsInOrder(ls, masked, k - 1, c, a, b);
    } else if a < |before| {
      var line, o := MutantOrigin(ls, masked, k - 1, c, before[a]);
      ApplyPlace(ls, line, o);
      ApplyAllAt(ls, k - 1, os);
      ApplyPlace(ls, k - 1, os[b - |before|]);
    } else {
      LaterOnLine(ls, masked, k - 1, a - |before|, b - |before|);
    }
  }

  /** The mutants of a line are those of its occurrences, when it is not skipped. */
  lemma MutatedIff(text: string, c: Config, k: nat, o: Occurrence)
    requires Aligned(Split(text), Split(Mask(text, Code))) && k < |Split(text)|
    ensures (exists m ::
        m in MutantsOf(Split(text), Split(Mask(text, Code)), |Split(text)|, c)
        && m.line == k + 1 && m.col == o.col + 1 && m.op == o.op)
      <==> !Skipped(Split(Mask(text, Code)), k, c) && o in Occurrences(Split(Mask(text, Code))[k], 0)
  {
    hide Split, Mask, Skipped, Occurrences, MutantsOf, Apply;
    var ls, masked := Split(text), Split(Mask(text, Code));
    if m :| m in MutantsOf(ls, masked, |ls|, c) && m.line == k + 1 && m.col == o.col + 1 && m.op == o.op {
      var line, p := MutantOrigin(ls, masked, |ls|, c, m);
      ApplyPlace(ls, line, p);
    }
    if !Skipped(masked, k, c) && o in Occurrences(masked[k], 0) {
      OriginHasMutant(ls, masked, |ls|, c, k, o);
      ApplyPlace(ls, k, o);
    }
  }
}
