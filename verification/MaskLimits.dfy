/** Where masking and C part: a literal that holds a comment opener, and a line comment that goes on on the next
    line. */
module MaskLimits {
  import opened Comments
  import opened Lexer
  import opened Mutants
  import opened Tokens

  // ---------- a literal that holds an opener ----------

  lemma OpenLine(b: string, rest: string)
    requires '\n' !in b && (rest == [] || rest[0] == '\n')
    ensures Mask("//" + b + rest, Code) == "  " + Blanked(b) + Mask(rest, Code)
  {
    LinePiece(b, rest);
    hide Mask;
    Assoc("  ", Blanked(b), Mask(rest, Code));
  }

  lemma NewlineIsCode(w: string)
    ensures Mask("\n" + w, Code) == "\n" + Mask(w, Code)
  {
    CodeChar('\n', w);
  }

  /** Behind a literal that begins with two slashes the rest of the line is blanked, and the next line is read as
      code, whatever it is in C. */
  lemma LiteralHidesLine(b: string, w: string)
    requires '\n' !in b
    ensures Mask("\"" + ("//" + b + ("\n" + w)), Code) == "\"" + ("  " + Blanked(b) + ("\n" + Mask(w, Code)))
  {
    CodeChar('"', "//" + b + ("\n" + w));
    OpenLine(b, "\n" + w);
    NewlineIsCode(w);
  }

  // ---------- a line comment that goes on ----------

  /** In C a backslash at the end of a line comment takes the next line w into the comment. Masking reads w as code. */
  lemma SplicedReadAsCode(b: string, w: string)
    requires '\n' !in b
    ensures Mask("//" + (b + "\\") + ("\n" + w), Code) == "  " + Blanked(b + "\\") + ("\n" + Mask(w, Code))
  {
    OpenLine(b + "\\", "\n" + w);
    NewlineIsCode(w);
  }

  /** So with no opener on that line it is blanked, as the comment it is, iff it is blank already. */
  lemma SplicedIff(b: string, w: string, rest: string)
    requires '\n' !in b && '\n' !in w && !HasOpener(w) && (rest == [] || rest[0] == '\n')
    ensures Mask("//" + (b + "\\") + ("\n" + (w + rest)), Code)
        == "  " + Blanked(b + "\\") + ("\n" + (Blanked(w) + Mask(rest, Code)))
      <==> w == Blanked(w)
  {
    SplicedReadAsCode(b, w + rest);
    CodeRun(w, rest);
    hide Mask, HasOpener;
    SameAfter("  " + Blanked(b + "\\"), "\n" + (w + Mask(rest, Code)), "\n" + (Blanked(w) + Mask(rest, Code)));
    SameAfter("\n", w + Mask(rest, Code), Blanked(w) + Mask(rest, Code));
    SameBefore(w, Blanked(w), Mask(rest, Code));
  }

  lemma SameBefore(a: string, b: string, t: string)
    requires |a| == |b|
    ensures a + t == b + t <==> a == b
  {
    if a + t == b + t {
      assert (a + t)[..|a|] == a && (b + t)[..|b|] == b;
    }
  }

  // ---------- what becomes of the mutants ----------

  lemma {:induction false} SplitLineOff(a: string, b: string)
    requires '\n' !in a
    ensures Split(a + ("\n" + b)) == [a] + Split(b)
  {
    var t := a + ("\n" + b);
    if a == [] {
      assert t[1..] == b;
    } else {
      assert t[1..] == a[1..] + ("\n" + b);
      SplitLineOff(a[1..], b);
      assert a == [a[0]] + a[1..];
    }
  }

  lemma {:induction false} SplitOneLine(a: string)
    requires '\n' !in a
    ensures Split(a) == [a]
  {
    if a != [] {
      SplitOneLine(a[1..]);
      assert a == [a[0]] + a[1..];
    }
  }

  lemma StrippedPiece(p: Piece, rest: string)
    requires Ends(p, rest)
    ensures Stripped(Text(p) + rest) == Kept(p) + Stripped(rest)
  {
    hide Pieces, Ends, Text, Kept;
    PiecesStep(p, rest);
    assert ([p] + Pieces(rest))[1..] == Pieces(rest);
  }

  /** Code in front of a text stays. */
  lemma {:induction false} StrippedCode(s: string, rest: string)
    requires forall k :: 0 <= k < |s| ==> !Quote(s[k]) && s[k] != '/'
    ensures Stripped(s + rest) == s + Stripped(rest)
  {
    hide Stripped;
    if s == [] {
      assert s + rest == rest && s + Stripped(rest) == Stripped(rest);
    } else {
      StrippedPiece(Chr(s[0]), s[1..] + rest);
      StrippedCode(s[1..], rest);
      assert s + rest == [s[0]] + (s[1..] + rest);
      assert s + Stripped(rest) == [s[0]] + (s[1..] + Stripped(rest));
    }
  }

  /** A literal of two slashes, closed. */
  lemma SlashesEnd(rest: string)
    ensures Ends(Lit('"', "//", true), rest)
  {
    var t := "//\"" + rest;
    assert t[1..] == "/\"" + rest && t[1..][1..] == "\"" + rest;
    assert LitBody(t[1..][1..], '"') == 0;
    assert LitBody(t[1..], '"') == 1;
    assert ("//" + "\"") + rest == t;
  }

  lemma NothingStripped()
    ensures Stripped("") == ""
  {
    NoPieces();
  }

  /** In C the comparison in s="//";a<b is code. */
  lemma LostLine()
    ensures Stripped("s=\"//\";a<b") == "s=\"//\";a<b"
  {
    hide Stripped, Ends;
    SlashesEnd(";a<b");
    NothingStripped();
    StrippedCode(";a<b", "");
    StrippedPiece(Lit('"', "//", true), ";a<b");
    StrippedCode("s=", "\"//\"" + ";a<b");
    assert "s=\"//\";a<b" == "s=" + ("\"//\"" + ";a<b");
    assert Text(Lit('"', "//", true)) == "\"//\"";
    assert ";a<b" + "" == ";a<b";
  }

  /** Masking takes it away. */
  lemma LostMask()
    ensures Mask("s=\"//\";a<b", Code) == "s=\"       "
  {
    var b := "\";a<b";
    NothingMasked();
    hide Mask;
    assert "s=\"//\";a<b" == "s=\"" + ("//" + b + "");
    CodeRun("s=\"", "//" + b + "");
    OpenLine(b, "");
    assert Blanked(b) == "     ";
    assert "s=\"" + ("  " + "     " + "") == "s=\"       ";
  }

  lemma NothingMasked()
    ensures Mask("", Code) == ""
  {
  }

  /** A character that begins no operator is a token by itself. */
  lemma BlandToken(line: string, j: nat)
    requires j < |line| && (line[j] !in "<>=!&|+-*/%^:\"'" || (line[j] == '=' && !CharAt(line, j + 1, '=')))
    ensures Munch(line, j) == 1 && !Relational(line, j) && !Misread(line, j)
  {
  }

  lemma SlashesToken(line: string, rest: string)
    requires |line| > 6 && line[2..] == "\"//\"" + rest
    ensures Munch(line, 2) == 4 && !Relational(line, 2) && !Misread(line, 2)
  {
    SlashesEnd(rest);
    assert line[3..] == line[2..][1..] == ("//" + "\"") + rest;
    hide LitBody;
    assert line[2] == line[2..][0] && line[3] == line[2..][1] && line[4] == line[2..][2] && line[5] == line[2..][3];
    assert LiteralEnd(line, 3, '"') == 6;
    forall q | 2 <= q < 6 ensures !OperatorAt(line, q) {
      assert OpAt(line, q) == "";
    }
  }

  lemma OwnNothing(line: string, j: nat)
    requires j < |line| && !Relational(line, j)
    ensures Own(line, j) == []
  {
  }

  lemma BlandStep(line: string, j: nat)
    requires j < |line| && (line[j] !in "<>=!&|+-*/%^:\"'" || (line[j] == '=' && !CharAt(line, j + 1, '=')))
    ensures RelationalTokens(line, j) == RelationalTokens(line, j + 1) && (AllRead(line, j) <==> AllRead(line, j + 1))
  {
    hide Munch, Relational, Misread, Own, RelationalTokens, AllRead;
    BlandToken(line, j);
    Unfolded(line, j);
    OwnNothing(line, j);
  }

  lemma SlashesStep(line: string, rest: string)
    requires |line| > 6 && line[2..] == "\"//\"" + rest
    ensures RelationalTokens(line, 2) == RelationalTokens(line, 6) && (AllRead(line, 2) <==> AllRead(line, 6))
  {
    hide Munch, Relational, Misread, Own, RelationalTokens, AllRead;
    SlashesToken(line, rest);
    Unfolded(line, 2);
    OwnNothing(line, 2);
  }

  lemma FirstTokens(t: string)
    requires t == "s=\"//\";a<b"
    ensures RelationalTokens(t, 0) == RelationalTokens(t, 6) && (AllRead(t, 0) <==> AllRead(t, 6))
  {
    hide Munch, Relational, Misread, AllRead, RelationalTokens, Own;
    BlandStep(t, 0);
    BlandStep(t, 1);
    assert t[2..] == "\"//\"" + ";a<b";
    SlashesStep(t, ";a<b");
  }

  /** The tokens of that line, none of them misread. */
  lemma LostTokens(t: string)
    requires t == "s=\"//\";a<b"
    ensures RelationalTokens(t, 0) == [Occurrence(8, "<")] && AllRead(t, 0)
  {
    hide Munch, Relational, Misread, AllRead, RelationalTokens, Own;
    FirstTokens(t);
    BlandStep(t, 6);
    BlandStep(t, 7);
    BlandStep(t, 9);
    LostAngle8(t);
    Unfolded(t, 8);
    NothingBeyond(t, 10);
  }

  lemma LostAngle8(t: string)
    requires t == "s=\"//\";a<b"
    ensures Munch(t, 8) == 1 && !Misread(t, 8) && Own(t, 8) == [Occurrence(8, "<")]
  {
    assert t[8..9] == "<";
  }

  lemma NoBackslash(t: string)
    requires '\\' !in t
    ensures Lexical(Pieces(t))
  {
    hide Pieces, Lexical;
    assert NoSplice(t);
    EveryTextHasPieces(t);
  }

  /** A place of line k of the masked text is mutated, if the line is not skipped. */
  lemma SeenIsMutated(t: string, c: Config, k: nat, o: Occurrence)
    requires k < |Split(t)| && k < |Split(Mask(t, Code))|
    ensures Mutated(t, c, k, o) <==> !Skipped(Split(Mask(t, Code)), k, c) && o in Occurrences(Split(Mask(t, Code))[k], 0)
  {
    hide Split, Mask, Skipped, Occurrences, MutantsOf;
    MaskedLines(t);
    MutatedIff(t, c, k, o);
  }

  lemma BlankMask(t: string)
    requires t == "s=\"       "
    ensures Occurrences(t, 0) == []
  {
    assert forall q :: 0 <= q < |t| ==> !OperatorAt(t, q);
    ScanPasses(t, 0, |t|);
    hide Occurrences, OperatorAt;
    NothingBeyond(t, |t|);
  }

  lemma LostLines(t: string)
    requires t == "s=\"//\";a<b"
    ensures CodeLines(t) == [t] && Split(t) == [t] && Split(Mask(t, Code)) == ["s=\"       "]
  {
    LostLine();
    LostMask();
    hide Split, Mask, Stripped;
    SplitOneLine(t);
    SplitOneLine("s=\"       ");
  }

  lemma LostUnmutated(t: string, c: Config, o: Occurrence)
    requires t == "s=\"//\";a<b"
    ensures !Mutated(t, c, 0, o)
  {
    hide Split, Mask, Skipped, Occurrences, Mutated, CodeLines;
    LostLines(t);
    BlankMask("s=\"       ");
    SeenIsMutated(t, c, 0, o);
  }

  /** A comparison that C sees, in a line no token of which is misread, and no mutant of it: in every configuration. */
  lemma LostComparison(t: string, c: Config)
    requires t == "s=\"//\";a<b"
    ensures Lexical(Pieces(t)) && CodeLines(t) == [t]
    ensures RelationalTokens(t, 0) == [Occurrence(8, "<")] && AllRead(t, 0)
    ensures forall o: Occurrence :: !Mutated(t, c, 0, o)
  {
    NoBackslash(t);
    LostLines(t);
    LostTokens(t);
    hide Split, Mask, Skipped, Occurrences, RelationalTokens, AllRead, Mutated, CodeLines, Lexical, Pieces;
    forall o: Occurrence ensures !Mutated(t, c, 0, o) { LostUnmutated(t, c, o); }
  }

  lemma BlockEnds(q: Piece)
    requires q == BlockC(" a\n<")
    ensures Ends(q, "") && Text(q) + "" == "/* a\n<*/" && |Text(q)| == 8
  {
  }

  lemma LiteralText(p: Piece)
    requires p == Lit('"', "//", true)
    ensures Text(p) == "\"//\""
  {
  }

  lemma HiddenPieces(t: string)
    requires t == "\"//\"/* a\n<*/"
    ensures Pieces(t) == [Lit('"', "//", true), BlockC(" a\n<")]
  {
    hide Pieces, Ends, Text;
    var p, q, rest := Lit('"', "//", true), BlockC(" a\n<"), "/* a\n<*/";
    BlockEnds(q);
    LiteralText(p);
    NoPieces();
    PiecesStep(q, "");
    SlashesEnd(rest);
    PiecesStep(p, rest);
    assert t == "\"//\"" + rest;
  }

  lemma HiddenLines(t: string)
    requires t == "\"//\"/* a\n<*/"
    ensures Split(t) == ["\"//\"/* a", "<*/"] && Split(Mask(t, Code)) == ["\"       ", "<*/"]
  {
    hide Mask, Split;
    var b, w := "\"/* a", "<*/";
    assert t == "\"" + ("//" + b + ("\n" + w));
    LiteralHidesLine(b, w);
    assert !HasOpener(w);
    OpenerFreeUnchanged(w);
    assert Blanked(b) == "     ";
    assert Mask(t, Code) == "\"       " + ("\n" + w);
    SplitLineOff("\"       ", w);
    SplitOneLine(w);
    assert t == "\"//\"/* a" + ("\n" + w);
    SplitLineOff("\"//\"/* a", w);
  }

  lemma AngleSeen(line: string)
    requires line == "<*/"
    ensures Occurrence(0, "<") in Occurrences(line, 0)
  {
    ScanStep(line, 0);
    assert OpAt(line, 0) == "<";
  }

  lemma HiddenPlace(t: string)
    requires t == "\"//\"/* a\n<*/"
    ensures Lexical(Pieces(t)) && CommentAt(Pieces(t), 9) && Offset(Split(t), 1) == 9
  {
    NoBackslash(t);
    HiddenLines(t);
    HiddenPieces(t);
    hide Pieces, Split, Lexical, Text;
    var ps := Pieces(t);
    LiteralText(ps[0]);
    BlockEnds(ps[1]);
    assert ps[1..] == [ps[1]];
  }

  /** The angle on the second line is in a block comment, and it is mutated where that line is not skipped. */
  lemma CommentMutated(t: string, c: Config)
    requires t == "\"//\"/* a\n<*/" && |Split(Mask(t, Code))| == 2 && !Skipped(Split(Mask(t, Code)), 1, c)
    ensures Lexical(Pieces(t)) && CommentAt(Pieces(t), 9) && Offset(Split(t), 1) == 9
    ensures Mutated(t, c, 1, Occurrence(0, "<"))
  {
    hide Split, Mask, Skipped, Occurrences, Mutated, Lexical, Pieces, CommentAt, Offset;
    HiddenPlace(t);
    HiddenLines(t);
    AngleSeen("<*/");
    SeenIsMutated(t, c, 1, Occurrence(0, "<"));
  }

  lemma SplicedLines(t: string)
    requires t == "//a\\\nb<c"
    ensures Split(t) == ["//a\\", "b<c"] && Split(Mask(t, Code)) == ["    ", "b<c"]
  {
    hide Mask, Split;
    var w := "b<c";
    assert t == "//" + ("a" + "\\") + ("\n" + w);
    SplicedReadAsCode("a", w);
    assert !HasOpener(w);
    OpenerFreeUnchanged(w);
    assert Mask(t, Code) == "    " + ("\n" + w);
    SplitLineOff("    ", w);
    SplitOneLine(w);
    assert t == "//a\\" + ("\n" + w);
    SplitLineOff("//a\\", w);
  }

  lemma SplicedPieces(t: string)
    requires t == "//a\\\nb<c"
    ensures !Lexical(Pieces(t))
  {
    var p, rest := LineC("a\\"), "\nb<c";
    assert Ends(p, rest) && !Unspliced(p, rest);
    assert Text(p) + rest == t;
    hide Pieces, Ends, Text, Unspliced;
    PiecesStep(p, rest);
    PiecesEnd(rest);
    assert ([p] + Pieces(rest))[1..] == Pieces(rest);
  }

  lemma SecondSeen(line: string)
    requires line == "b<c"
    ensures !OperatorAt(line, 0) && OperatorAt(line, 1) && OpAt(line, 1) == "<"
  {
  }

  lemma SecondAngle(line: string)
    requires line == "b<c"
    ensures Occurrence(1, "<") in Occurrences(line, 0)
  {
    hide Occurrences, OperatorAt, OpAt;
    SecondSeen(line);
    ScanStep(line, 0);
    ScanStep(line, 1);
  }

  /** The angle on the second line belongs to the line comment in C, and it is mutated where that line is not
      skipped. */
  lemma SplicedMutated(t: string, c: Config)
    requires t == "//a\\\nb<c" && |Split(Mask(t, Code))| == 2 && !Skipped(Split(Mask(t, Code)), 1, c)
    ensures !Lexical(Pieces(t)) && Mutated(t, c, 1, Occurrence(1, "<"))
  {
    hide Split, Mask, Skipped, Occurrences, Mutated, Lexical, Pieces;
    SplicedPieces(t);
    SplicedLines(t);
    SecondAngle("b<c");
    SeenIsMutated(t, c, 1, Occurrence(1, "<"));
  }
}
