/** Comments and literals as a C lexer takes them, and when the masking scan agrees with it. */
module Lexer {
  import opened Comments

  predicate Quote(c: char) { c == '"' || c == '\'' }

  /** A text is a list of code characters, literals and comments. */
  datatype Piece =
    | Chr(c: char)                                   // code, not a quote
    | Lit(quote: char, body: string, closed: bool)   // a literal; one never closed runs to the end of its line
    | LineC(body: string)                            // two slashes, up to the end of the line
    | BlockC(body: string)                           // slash star .. star slash
    | OpenC(body: string)                            // a block comment that is never closed

  function Text(p: Piece): string {
    match p
    case Chr(c) => [c]
    case Lit(q, b, closed) => [q] + (b + if closed then [q] else [])
    case LineC(b) => "//" + b
    case BlockC(b) => "/*" + (b + "*/")
    case OpenC(b) => "/*" + b
  }

  /** Code and literals kept, comments blanked. */
  function Kept(p: Piece): (r: string)
    ensures |r| == |Text(p)|
  {
    match p
    case Chr(c) => [c]
    case Lit(_, _, _) => Text(p)
    case LineC(b) => "  " + Blanked(b)
    case BlockC(b) => "  " + (Blanked(b) + "  ")
    case OpenC(b) => "  " + Blanked(b)
  }

  function Render(ps: seq<Piece>): string { if ps == [] then [] else Text(ps[0]) + Render(ps[1..]) }

  function RenderKept(ps: seq<Piece>): string { if ps == [] then [] else Kept(ps[0]) + RenderKept(ps[1..]) }

  predicate NoCloser(c: string) { forall k :: 0 <= k < |c| - 1 ==> !(c[k] == '*' && c[k + 1] == '/') }

  /** Length of a literal's body at the start of t: up to the first quote that no backslash escapes, or the end of
      the line. */
  function LitBody(t: string, q: char): (n: nat)
    ensures n <= |t| && (n < |t| ==> t[n] == q || t[n] == '\n')
  {
    if t == [] || t[0] == '\n' || t[0] == q then 0
    else if t[0] == '\\' && |t| > 1 && t[1] != '\n' then 2 + LitBody(t[2..], q)
    else 1 + LitBody(t[1..], q)
  }

  /** The piece ends where the rest of the text begins: two code characters open no comment, a literal ends at its
      first quote without a backslash, a line comment at the end of the line, a block comment at its first closer. */
  predicate Ends(p: Piece, rest: string) {
    match p
    case Chr(c) => !Quote(c) && (c == '/' ==> rest == [] || (rest[0] != '/' && rest[0] != '*'))
    case Lit(q, b, closed) =>
      && Quote(q) && LitBody((b + if closed then [q] else []) + rest, q) == |b|
      && (closed || rest == [] || rest[0] == '\n')
    case LineC(b) => '\n' !in b && (rest == [] || rest[0] == '\n')
    case BlockC(b) => NoCloser(b)
    case OpenC(b) => NoCloser(b) && rest == []
  }

  /** A backslash at the end of a line joins it to the next one before a C lexer looks for comments. */
  predicate Splices(t: string, k: nat) { k + 1 < |t| && t[k] == '\\' && t[k + 1] == '\n' }

  predicate NoSplice(t: string) { forall k :: 0 <= k < |t| ==> !Splices(t, k) }

  /** No joining of lines changes where this piece ends: none after a slash of code or a star of a block comment, and
      none at the end of a line comment or an open literal. */
  predicate Unspliced(p: Piece, rest: string) {
    match p
    case Chr(c) => c == '/' ==> !Splices(rest, 0)
    case Lit(_, b, closed) => closed || b == [] || b[|b| - 1] != '\\' || rest == []
    case LineC(b) => b == [] || b[|b| - 1] != '\\' || rest == []
    case BlockC(b) => forall k :: 0 <= k < |b| && b[k] == '*' ==> !Splices(b, k + 1)
    case OpenC(b) => forall k :: 0 <= k < |b| && b[k] == '*' ==> !Splices(b, k + 1)
  }

  predicate Ended(ps: seq<Piece>) {
    ps == [] || (Ended(ps[1..]) && Ends(ps[0], Render(ps[1..])))
  }

  /** The pieces are what a C lexer sees. */
  predicate Lexical(ps: seq<Piece>) {
    ps == [] || (Lexical(ps[1..]) && Ends(ps[0], Render(ps[1..])) && Unspliced(ps[0], Render(ps[1..])))
  }

  /** No literal has two characters that would open a comment in code. */
  predicate PlainLiterals(ps: seq<Piece>) {
    forall k :: 0 <= k < |ps| && ps[k].Lit? ==> !HasOpener(Text(ps[k]))
  }

  predicate IsComment(p: Piece) { p.LineC? || p.BlockC? || p.OpenC? }

  /** Character i of the text lies in a comment. */
  predicate CommentAt(ps: seq<Piece>, i: nat) {
    ps != [] && if i < |Text(ps[0])| then IsComment(ps[0]) else CommentAt(ps[1..], i - |Text(ps[0])|)
  }

  // ---------- how the scan takes one piece ----------

  lemma {:induction false} LineBody(l: string, rest: string)
    requires '\n' !in l && (rest == [] || rest[0] == '\n')
    ensures Mask(l + rest, Line) == Blanked(l) + Mask(rest, Code)
  {
    if l == [] {
      assert l + rest == rest;
    } else {
      assert (l + rest)[1..] == l[1..] + rest;
      LineBody(l[1..], rest);
      hide Mask;
      assert Blanked(l) == [Blank(l[0])] + Blanked(l[1..]);
      Assoc([Blank(l[0])], Blanked(l[1..]), Mask(rest, Code));
    }
  }

  /** A character of a block comment's body is blanked, whatever follows it. */
  lemma BlockChar(c: string, rest: string)
    requires c != [] && NoCloser(c) && (rest == [] || Starts(rest, "*/"))
    ensures Mask(c + rest, Block) == [Blank(c[0])] + Mask(c[1..] + rest, Block) && NoCloser(c[1..])
  {
    var t := c + rest;
    assert t[1..] == c[1..] + rest;
    assert !Starts(t, "*/");
    forall k | 0 <= k < |c[1..]| - 1 ensures !(c[1..][k] == '*' && c[1..][k + 1] == '/') {
      assert !(c[k + 1] == '*' && c[k + 2] == '/');
    }
  }

  lemma {:induction false} BlockBody(c: string, rest: string)
    requires NoCloser(c) && (rest == [] || Starts(rest, "*/"))
    ensures Mask(c + rest, Block) == Blanked(c) + Mask(rest, Block)
  {
    if c == [] {
      assert c + rest == rest;
    } else {
      BlockChar(c, rest);
      BlockBody(c[1..], rest);
      hide Mask;
      assert Blanked(c) == [Blank(c[0])] + Blanked(c[1..]);
      Assoc([Blank(c[0])], Blanked(c[1..]), Mask(rest, Block));
    }
  }

  lemma Opened(body: string, m: Mode)
    requires m != Code
    ensures Mask((if m == Line then "//" else "/*") + body, Code) == "  " + Mask(body, m)
  {
    var o := if m == Line then "//" else "/*";
    var t := o + body;
    assert t[2..] == body;
  }

  lemma CloserEnds(b: string)
    ensures Mask("*/" + b, Block) == "  " + Mask(b, Code)
  {
    assert ("*/" + b)[2..] == b;
  }

  lemma LinePiece(b: string, rest: string)
    requires Ends(LineC(b), rest)
    ensures Mask(Text(LineC(b)) + rest, Code) == Kept(LineC(b)) + Mask(rest, Code)
  {
    hide Mask, Blanked;
    LineBody(b, rest);
    Opened(b + rest, Line);
    Assoc("//", b, rest);
    Assoc("  ", Blanked(b), Mask(rest, Code));
  }

  lemma BlockPiece(b: string, rest: string)
    requires NoCloser(b)
    ensures Mask(Text(BlockC(b)) + rest, Code) == Kept(BlockC(b)) + Mask(rest, Code)
  {
    var tail := "*/" + rest;
    BlockBody(b, tail);
    CloserEnds(rest);
    Opened(b + tail, Block);
    hide Mask, Blanked, NoCloser;
    Assoc("/*", b + "*/", rest);
    Assoc(b, "*/", rest);
    Assoc("  ", Blanked(b) + "  ", Mask(rest, Code));
    Assoc(Blanked(b), "  ", Mask(rest, Code));
  }

  lemma OpenPiece(b: string)
    requires NoCloser(b)
    ensures Mask(Text(OpenC(b)), Code) == Kept(OpenC(b))
  {
    BlockBody(b, "");
    Opened(b, Block);
    assert b + "" == b && Blanked(b) + "" == Blanked(b);
  }

  lemma LitPiece(p: Piece, rest: string)
    requires p.Lit? && Ends(p, rest) && !HasOpener(Text(p))
    ensures Mask(Text(p) + rest, Code) == Kept(p) + Mask(rest, Code)
  {
    hide Mask, LitBody, HasOpener;
    var t := Text(p);
    if p.closed { assert t[|t| - 1] == p.quote; }
    CodeRun(t, rest);
  }

  /** A piece is kept or blanked to its exact end, if it is not a literal with an opener. */
  lemma PieceMasked(p: Piece, rest: string)
    requires Ends(p, rest) && (p.Lit? ==> !HasOpener(Text(p)))
    ensures Mask(Text(p) + rest, Code) == Kept(p) + Mask(rest, Code)
  {
    hide HasOpener, Mask, LitBody;
    match p {
      case Chr(c) => CodeChar(c, rest);
      case Lit(_, _, _) => LitPiece(p, rest);
      case LineC(b) => LinePiece(b, rest);
      case BlockC(b) => BlockPiece(b, rest);
      case OpenC(b) =>
        OpenPiece(b);
        assert Text(p) + rest == Text(p) && Kept(p) + Mask("", Code) == Kept(p);
    }
  }

  lemma {:induction false} FirstOpener(s: string, k: nat) returns (f: nat)
    requires k < |s| && OpensAt(s, k)
    ensures f <= k && OpensAt(s, f) && !HasOpener(s[..f]) && (f > 0 ==> !OpensAt(s, f - 1))
    decreases k
  {
    if j: nat :| j < k && OpensAt(s, j) {
      f := FirstOpener(s, j);
    } else {
      f := k;
      forall j | 0 <= j < k ensures !OpensAt(s[..k], j) {
        assert !OpensAt(s, j);
      }
    }
  }

  /** Where a piece of code holds an opener, masking takes a slash away. */
  lemma OpenerBlanked(s: string, rest: string) returns (f: nat)
    requires HasOpener(s)
    ensures f < |s| && s[f] == '/' && Mask(s + rest, Code)[f] == ' '
  {
    var k :| 0 <= k < |s| && OpensAt(s, k);
    f := FirstOpener(s, k);
    var tail := s[f..] + rest;
    assert s + rest == s[..f] + tail;
    CodeRun(s[..f], tail);
    assert Starts(tail, "//") || Starts(tail, "/*");
  }

  // ---------- when masking keeps the code ----------

  /** Masking a text piece by piece: code is kept and each comment is blanked to its exact end iff no literal holds
      an opener. */
  lemma {:induction false} EndedMasked(ps: seq<Piece>)
    requires Ended(ps)
    ensures Mask(Render(ps), Code) == RenderKept(ps) <==> PlainLiterals(ps)
  {
    hide Text, Kept, Ends, HasOpener;
    if ps != [] {
      var p, rest := ps[0], Render(ps[1..]);
      EndedMasked(ps[1..]);
      PlainSplit(ps);
      hide Mask, PlainLiterals;
      if p.Lit? && HasOpener(Text(p)) {
        var f := OpenerBlanked(Text(p), rest);
        KeptLiteral(p);
        assert RenderKept(ps)[f] == '/';
      } else {
        PieceMasked(p, rest);
        SameAfter(Kept(p), Mask(rest, Code), RenderKept(ps[1..]));
      }
    }
  }

  lemma PlainSplit(ps: seq<Piece>)
    requires ps != []
    ensures PlainLiterals(ps) <==> (ps[0].Lit? ==> !HasOpener(Text(ps[0]))) && PlainLiterals(ps[1..])
  {
    hide HasOpener, Text;
    if PlainLiterals(ps[1..]) && (ps[0].Lit? ==> !HasOpener(Text(ps[0]))) {
      forall k | 0 <= k < |ps| && ps[k].Lit? ensures !HasOpener(Text(ps[k])) {
        assert k > 0 ==> ps[1..][k - 1] == ps[k];
      }
    }
    if PlainLiterals(ps) {
      forall k | 0 <= k < |ps[1..]| && ps[1..][k].Lit? ensures !HasOpener(Text(ps[1..][k])) {
        assert ps[1..][k] == ps[k + 1];
      }
    }
  }

  lemma KeptLiteral(p: Piece)
    requires p.Lit?
    ensures Kept(p) == Text(p)
  {
  }

  lemma SameAfter(p: string, a: string, b: string)
    ensures p + a == p + b <==> a == b
  {
    if p + a == p + b {
      assert (p + a)[|p|..] == a && (p + b)[|p|..] == b;
    }
  }

  /** Where a line ends. */
  function LineEnd(t: string): (n: nat)
    ensures n <= |t| && '\n' !in t[..n] && (n < |t| ==> t[n] == '\n')
  {
    if t == [] || t[0] == '\n' then 0 else
      var m := LineEnd(t[1..]);
      assert t[..m + 1] == [t[0]] + t[1..][..m];
      m + 1
  }

  /** Where the first closer is, or the length when there is none. */
  function Closer(t: string): (n: nat)
    ensures n <= |t| && (n < |t| ==> Starts(t[n..], "*/")) && NoCloser(t[..n])
  {
    if t == [] || Starts(t, "*/") then 0 else
      var m := Closer(t[1..]);
      assert t[m + 1..] == t[1..][m..];
      assert NoCloser(t[..m + 1]) by { CloserLater(t, m); }
      m + 1
  }

  lemma CloserLater(t: string, m: nat)
    requires t != [] && !Starts(t, "*/") && m <= |t[1..]| && NoCloser(t[1..][..m])
    ensures NoCloser(t[..m + 1])
  {
    forall k | 0 <= k < m ensures !(t[k] == '*' && t[k + 1] == '/') {
      if k == 0 {
        } else {
        assert t[1..][..m][k - 1] == t[k] && t[1..][..m][k] == t[k + 1];
      }
    }
  }

  function Pieces(t: string): seq<Piece> {
    if t == [] then []
    else if Starts(t, "//") then
      var n := 2 + LineEnd(t[2..]);
      [LineC(t[2..n])] + Pieces(t[n..])
    else if Starts(t, "/*") then
      var n := 2 + Closer(t[2..]);
      if n < |t| then [BlockC(t[2..n])] + Pieces(t[n + 2..]) else [OpenC(t[2..])]
    else if Quote(t[0]) then
      var n := 1 + LitBody(t[1..], t[0]);
      if n < |t| && t[n] == t[0] then [Lit(t[0], t[1..n], true)] + Pieces(t[n + 1..])
      else [Lit(t[0], t[1..n], false)] + Pieces(t[n..])
    else [Chr(t[0])] + Pieces(t[1..])
  }

  lemma FirstPiece(p: Piece, rest: string, t: string)
    requires Text(p) + rest == t && Ends(p, rest)
    requires Render(Pieces(rest)) == rest && Ended(Pieces(rest))
    ensures Render([p] + Pieces(rest)) == t && Ended([p] + Pieces(rest))
  {
    hide Ends, Pieces, Text;
    assert ([p] + Pieces(rest))[1..] == Pieces(rest);
  }

  lemma SplitLine(t: string)
    requires Starts(t, "//")
    ensures var n := 2 + LineEnd(t[2..]); Text(LineC(t[2..n])) + t[n..] == t && Ends(LineC(t[2..n]), t[n..])
  {
    var n := 2 + LineEnd(t[2..]);
    assert t[2..n] == t[2..][..n - 2];
    assert n < |t| ==> t[n] == t[2..][n - 2];
    assert t == "//" + t[2..n] + t[n..];
  }

  lemma SplitBlock(t: string)
    requires Starts(t, "/*")
    ensures var n := 2 + Closer(t[2..]);
      if n < |t| then n + 2 <= |t| && Text(BlockC(t[2..n])) + t[n + 2..] == t && Ends(BlockC(t[2..n]), t[n + 2..])
      else Text(OpenC(t[2..])) + "" == t && Ends(OpenC(t[2..]), "")
  {
    var n := 2 + Closer(t[2..]);
    assert t[2..n] == t[2..][..n - 2];
    if n < |t| {
      assert t[2..][n - 2..] == t[n..];
      assert t == "/*" + (t[2..n] + "*/") + t[n + 2..];
    } else {
      assert t[2..n] == t[2..];
      assert t == "/*" + t[2..];
    }
  }

  lemma SplitClosed(t: string, n: nat)
    requires t != [] && Quote(t[0]) && n == 1 + LitBody(t[1..], t[0]) && n < |t| && t[n] == t[0]
    ensures Text(Lit(t[0], t[1..n], true)) + t[n + 1..] == t && Ends(Lit(t[0], t[1..n], true), t[n + 1..])
  {
    hide LitBody;
    var q, body := t[0], t[1..n];
    assert (body + [q]) + t[n + 1..] == t[1..];
    assert ([q] + (body + [q])) + t[n + 1..] == [q] + t[1..];
  }

  lemma SplitUnclosed(t: string, n: nat)
    requires t != [] && Quote(t[0]) && n == 1 + LitBody(t[1..], t[0]) && (n < |t| ==> t[n] == '\n')
    ensures Text(Lit(t[0], t[1..n], false)) + t[n..] == t && Ends(Lit(t[0], t[1..n], false), t[n..])
  {
    hide LitBody;
    var q, body := t[0], t[1..n];
    assert (body + []) + t[n..] == t[1..];
    assert ([q] + (body + [])) + t[n..] == [q] + t[1..];
  }

  lemma BodyEnd(t: string)
    requires t != []
    ensures var n := 1 + LitBody(t[1..], t[0]); n < |t| ==> t[n] == t[0] || t[n] == '\n'
  {
    hide LitBody;
    var n := LitBody(t[1..], t[0]);
    assert n < |t[1..]| ==> t[1..][n] == t[n + 1];
  }

  lemma SplitChar(t: string)
    requires t != [] && !Starts(t, "//") && !Starts(t, "/*") && !Quote(t[0])
    ensures Text(Chr(t[0])) + t[1..] == t && Ends(Chr(t[0]), t[1..])
  {
  }

  lemma NoPieces()
    ensures Pieces("") == [] && Render([]) == [] && Ended([])
  {
  }

  lemma {:induction false} PiecesEnd(t: string)
    ensures Render(Pieces(t)) == t && Ended(Pieces(t))
  {
    hide Render, Ended, Text, Ends, LineEnd, Closer, NoCloser, LitBody;
    NoPieces();
    if t != [] {
      if Starts(t, "//") {
        SplitLine(t);
        var n := 2 + LineEnd(t[2..]);
        PiecesEnd(t[n..]);
        FirstPiece(LineC(t[2..n]), t[n..], t);
      } else if Starts(t, "/*") {
        SplitBlock(t);
        var n := 2 + Closer(t[2..]);
        if n < |t| {
          PiecesEnd(t[n + 2..]);
          FirstPiece(BlockC(t[2..n]), t[n + 2..], t);
        } else {
          FirstPiece(OpenC(t[2..]), "", t);
          assert [OpenC(t[2..])] + [] == [OpenC(t[2..])];
        }
      } else if Quote(t[0]) {
        BodyEnd(t);
        var n := 1 + LitBody(t[1..], t[0]);
        if n < |t| && t[n] == t[0] {
          SplitClosed(t, n);
          PiecesEnd(t[n + 1..]);
          FirstPiece(Lit(t[0], t[1..n], true), t[n + 1..], t);
        } else {
          SplitUnclosed(t, n);
          PiecesEnd(t[n..]);
          FirstPiece(Lit(t[0], t[1..n], false), t[n..], t);
        }
      } else {
        PiecesEnd(t[1..]);
        SplitChar(t);
        FirstPiece(Chr(t[0]), t[1..], t);
      }
    }
  }

  // ---------- the pieces of a text are unique ----------

  lemma {:induction false} LineOnce(b: string, rest: string)
    requires Ends(LineC(b), rest)
    ensures LineEnd(b + rest) == |b|
  {
    if b == [] {
      assert b + rest == rest;
    } else {
      assert (b + rest)[1..] == b[1..] + rest;
      LineOnce(b[1..], rest);
    }
  }

  lemma {:induction false} BlockOnce(b: string, rest: string)
    requires NoCloser(b)
    ensures Closer(b + ("*/" + rest)) == |b|
  {
    var t := b + ("*/" + rest);
    if b != [] {
      assert t[1..] == b[1..] + ("*/" + rest);
      assert |b| > 1 ==> t[1] == b[1];
      NoCloserLater(b);
      BlockOnce(b[1..], rest);
    }
  }

  lemma NoCloserLater(b: string)
    requires b != [] && NoCloser(b)
    ensures NoCloser(b[1..])
  {
    forall k | 0 <= k < |b[1..]| - 1 ensures !(b[1..][k] == '*' && b[1..][k + 1] == '/') {
      assert !(b[k + 1] == '*' && b[k + 2] == '/');
    }
  }

  lemma OpenOnce(b: string)
    requires NoCloser(b)
    ensures Closer(b) == |b|
  {
  }

  lemma PiecesOfLine(b: string, rest: string)
    requires Ends(LineC(b), rest)
    ensures Pieces(Text(LineC(b)) + rest) == [LineC(b)] + Pieces(rest)
  {
    var t := ("//" + b) + rest;
    assert t[2..] == b + rest;
    LineOnce(b, rest);
    hide LineEnd;
    assert t[2..2 + |b|] == b && t[2 + |b|..] == rest;
  }

  lemma PiecesOfBlock(b: string, rest: string)
    requires NoCloser(b)
    ensures Pieces(Text(BlockC(b)) + rest) == [BlockC(b)] + Pieces(rest)
  {
    var t := ("/*" + (b + "*/")) + rest;
    assert t[2..] == b + ("*/" + rest);
    BlockOnce(b, rest);
    hide Closer, NoCloser;
    assert t[2..2 + |b|] == b && t[2 + |b| + 2..] == rest;
  }

  lemma PiecesOfOpen(b: string)
    requires NoCloser(b)
    ensures Pieces(Text(OpenC(b)) + "") == [OpenC(b)]
  {
    var t := ("/*" + b) + "";
    assert t[2..] == b;
    OpenOnce(b);
    hide Closer, NoCloser;
  }

  lemma PiecesOfLit(q: char, b: string, closed: bool, rest: string)
    requires Ends(Lit(q, b, closed), rest)
    ensures Pieces(Text(Lit(q, b, closed)) + rest) == [Lit(q, b, closed)] + Pieces(rest)
  {
    var tail: string := if closed then [q] else [];
    var t := ([q] + (b + tail)) + rest;
    assert t[0] == q && t[1..] == (b + tail) + rest;
    hide LitBody;
    var n := 1 + |b|;
    assert t[1..n] == b;
    if closed {
      assert t[n] == q && t[n + 1..] == rest;
    } else {
      assert t[n..] == rest;
    }
  }

  lemma PiecesOfChr(c: char, rest: string)
    requires Ends(Chr(c), rest)
    ensures Pieces(Text(Chr(c)) + rest) == [Chr(c)] + Pieces(rest)
  {
    assert ([c] + rest)[1..] == rest;
  }

  lemma PiecesStep(p: Piece, rest: string)
    requires Ends(p, rest)
    ensures Pieces(Text(p) + rest) == [p] + Pieces(rest)
  {
    hide Pieces, Text, LitBody, NoCloser;
    match p {
      case Chr(c) => PiecesOfChr(c, rest);
      case Lit(q, b, closed) => PiecesOfLit(q, b, closed, rest);
      case LineC(b) => PiecesOfLine(b, rest);
      case BlockC(b) => PiecesOfBlock(b, rest);
      case OpenC(b) =>
        PiecesOfOpen(b);
        NoPieces();
    }
  }

  /** The pieces of a text are the only ones that end where they should. */
  lemma {:induction false} PiecesUnique(ps: seq<Piece>)
    requires Ended(ps)
    ensures Pieces(Render(ps)) == ps
  {
    if ps != [] {
      hide Pieces, Text, Ends;
      PiecesUnique(ps[1..]);
      PiecesStep(ps[0], Render(ps[1..]));
    }
  }

  // ---------- the C pieces of a text ----------

  lemma {:induction false} LexicalEnds(ps: seq<Piece>)
    requires Lexical(ps)
    ensures Ended(ps)
  {
    hide Ends, Unspliced, Render;
    if ps != [] { LexicalEnds(ps[1..]); }
  }

  lemma WholeUnspliced(p: Piece, rest: string)
    requires Ends(p, rest) && NoSplice(Text(p) + rest)
    ensures Unspliced(p, rest) && NoSplice(rest)
  {
    var t := Text(p) + rest;
    assert forall k :: 0 <= k < |rest| ==> (Splices(rest, k) ==> Splices(t, |Text(p)| + k));
    match p {
      case Chr(c) =>
      case Lit(_, b, closed) => assert !closed && b != [] ==> !Splices(t, |b|) && t[|b|] == b[|b| - 1];
      case LineC(b) => assert b != [] ==> !Splices(t, |b| + 1) && t[|b| + 1] == b[|b| - 1];
      case BlockC(b) => forall k | 0 <= k < |b| && b[k] == '*' ensures !Splices(b, k + 1) { assert !Splices(t, k + 3); }
      case OpenC(b) => forall k | 0 <= k < |b| && b[k] == '*' ensures !Splices(b, k + 1) { assert !Splices(t, k + 3); }
    }
  }

  lemma {:induction false} EndedLexical(ps: seq<Piece>)
    requires Ended(ps) && NoSplice(Render(ps))
    ensures Lexical(ps)
  {
    hide Ends, Unspliced, NoSplice, Text;
    if ps != [] {
      WholeUnspliced(ps[0], Render(ps[1..]));
      EndedLexical(ps[1..]);
    }
  }

  /** Every text is the text of its pieces, and of no others; they are what a C lexer sees when no line is joined to
      the next one. */
  lemma EveryTextHasPieces(t: string)
    ensures Render(Pieces(t)) == t && Ended(Pieces(t))
    ensures forall ps :: Ended(ps) && Render(ps) == t ==> ps == Pieces(t)
    ensures NoSplice(t) ==> Lexical(Pieces(t))
  {
    hide Pieces, Render, Ended, Lexical, NoSplice;
    PiecesEnd(t);
    forall ps | Ended(ps) && Render(ps) == t ensures ps == Pieces(t) { PiecesUnique(ps); }
    if NoSplice(t) { EndedLexical(Pieces(t)); }
  }

  /** Masking a C text: code and literals are kept and each comment is blanked to its exact end iff no literal holds
      an opener. */
  lemma MaskedPieces(ps: seq<Piece>)
    requires Lexical(ps)
    ensures Mask(Render(ps), Code) == RenderKept(ps) <==> PlainLiterals(ps)
  {
    LexicalEnds(ps);
    EndedMasked(ps);
  }

  lemma KeptOne(p: Piece, i: nat)
    requires i < |Text(p)|
    ensures Kept(p)[i] == if IsComment(p) then Blank(Text(p)[i]) else Text(p)[i]
  {
  }

  /** What is left of a text when its comments are blanked, character by character. */
  lemma {:induction false} KeptAt(ps: seq<Piece>, i: nat)
    ensures |RenderKept(ps)| == |Render(ps)|
    ensures i < |Render(ps)| ==> RenderKept(ps)[i] == if CommentAt(ps, i) then Blank(Render(ps)[i]) else Render(ps)[i]
  {
    hide Text, Kept, IsComment, Blank;
    if ps != [] {
      var n := |Text(ps[0])|;
      if i < n {
        KeptOne(ps[0], i);
        KeptAt(ps[1..], 0);
      } else {
        KeptAt(ps[1..], i - n);
      }
    }
  }

  /** Masking any text changes the characters of its comments and no others, iff none of its literals holds an
      opener. */
  lemma MaskKeepsCode(t: string)
    ensures (forall i :: 0 <= i < |t| ==> Mask(t, Code)[i] == if CommentAt(Pieces(t), i) then Blank(t[i]) else t[i])
      <==> PlainLiterals(Pieces(t))
  {
    hide Pieces, Mask, RenderKept, Render, CommentAt, Blank, PlainLiterals;
    var ps := Pieces(t);
    PiecesEnd(t);
    EndedMasked(ps);
    KeptAt(ps, 0);
    forall i | 0 <= i < |t| ensures RenderKept(ps)[i] == if CommentAt(ps, i) then Blank(t[i]) else t[i] { KeptAt(ps, i); }
    if forall i :: 0 <= i < |t| ==> Mask(t, Code)[i] == if CommentAt(ps, i) then Blank(t[i]) else t[i] {
      assert Mask(t, Code) == RenderKept(ps);
    }
  }

  /** The pieces of the text are what a C lexer sees, and no literal among them holds an opener. */
  predicate Clear(t: string) { Lexical(Pieces(t)) && PlainLiterals(Pieces(t)) }

  /** A text with its comments blanked, as C replaces each comment by white space. */
  function Stripped(t: string): string { RenderKept(Pieces(t)) }
}
