/** Blanking // and block comments in place, so that positions and lines stay where they were. */
module Comments {

  datatype Mode = Code | Line | Block

  /** t starts with these two characters. */
  predicate Starts(t: string, two: string) { |two| == 2 <= |t| && t[0] == two[0] && t[1] == two[1] }

  predicate HasOpener(t: string) {
    exists k :: 0 <= k < |t| && OpensAt(t, k)
  }

  predicate OpensAt(t: string, k: nat)
    requires k < |t|
  {
    t[k] == '/' && k + 1 < |t| && (t[k + 1] == '/' || t[k + 1] == '*')
  }

  function Blank(c: char): char { if c == '\n' then '\n' else ' ' }

  function Blanked(t: string): (r: string)
    ensures |r| == |t|
  {
    seq(|t|, k requires 0 <= k < |t| => Blank(t[k]))
  }

  /** Characters the scanner takes at once. */
  function Take(t: string, m: Mode): (k: nat)
    requires t != []
    ensures 1 <= k <= |t|
  {
    if (m == Code && (Starts(t, "//") || Starts(t, "/*"))) || (m == Block && Starts(t, "*/")) then 2 else 1
  }

  /** The mode after them. */
  function Next(t: string, m: Mode): Mode
    requires t != []
  {
    match m
    case Code => if Starts(t, "//") then Line else if Starts(t, "/*") then Block else Code
    case Line => if t[0] == '\n' then Code else Line
    case Block => if Starts(t, "*/") then Code else Block
  }

  /** What they become. */
  function Put(t: string, m: Mode): (p: string)
    requires t != []
    ensures |p| == Take(t, m)
  {
    if Take(t, m) == 2 then "  " else if m == Code then [t[0]] else [Blank(t[0])]
  }

  /** The text left when scanning starts in a mode. */
  function Mask(t: string, m: Mode): (r: string)
    ensures |r| == |t|
  {
    if t == [] then [] else Put(t, m) + Mask(t[Take(t, m)..], Next(t, m))
  }

  lemma Unfold(t: string, m: Mode)
    requires t != []
    ensures Mask(t, m) == Put(t, m) + Mask(t[Take(t, m)..], Next(t, m))
  {
  }

  lemma Assoc(a: string, b: string, c: string)
    ensures (a + b) + c == a + (b + c)
  {
  }

  /** The two-character window of the loop against the scanner's test. */
  lemma Window(text: string, i: nat)
    requires i < |text|
    ensures var two := if i + 2 <= |text| then text[i..i + 2] else text[i..];
      (two == "//" <==> Starts(text[i..], "//")) && (two == "/*" <==> Starts(text[i..], "/*"))
      && (two == "*/" <==> Starts(text[i..], "*/"))
  {
  }

  /** One turn of the loop, read off the window. */
  lemma Turn(text: string, i: nat, m: Mode)
    requires i < |text|
    ensures var two := if i + 2 <= |text| then text[i..i + 2] else text[i..];
      var c, rest := text[i], text[i..];
      && (m == Line ==> Take(rest, m) == 1 && Put(rest, m) == [Blank(c)] && Next(rest, m) == if c == '\n' then Code else Line)
      && (m == Block && two == "*/" ==> Take(rest, m) == 2 && Put(rest, m) == "  " && Next(rest, m) == Code)
      && (m == Block && two != "*/" ==> Take(rest, m) == 1 && Put(rest, m) == [Blank(c)] && Next(rest, m) == Block)
      && (m == Code && two == "//" ==> Take(rest, m) == 2 && Put(rest, m) == "  " && Next(rest, m) == Line)
      && (m == Code && two == "/*" ==> Take(rest, m) == 2 && Put(rest, m) == "  " && Next(rest, m) == Block)
      && (m == Code && two != "//" && two != "/*" ==> Take(rest, m) == 1 && Put(rest, m) == [c] && Next(rest, m) == Code)
  {
    Window(text, i);
    hide Starts;
  }

  /** Scanning stands at i in mode m, having produced done. */
  ghost predicate At(text: string, i: nat, m: Mode, done: string) {
    i <= |text| && |done| == i && done + Mask(text[i..], m) == Mask(text, Code)
  }

  lemma Advance(text: string, i: nat, m: Mode, done: string)
    requires At(text, i, m, done) && i < |text|
    ensures i + Take(text[i..], m) <= |text|
    ensures At(text, i + Take(text[i..], m), Next(text[i..], m), done + Put(text[i..], m))
  {
    var rest := text[i..];
    Unfold(rest, m);
    hide Mask, Take, Put, Next;
    var k := Take(rest, m);
    assert rest[k..] == text[i + k..];
    Assoc(done, Put(rest, m), Mask(text[i + k..], Next(rest, m)));
  }

  lemma AtStart(text: string)
    ensures At(text, 0, Code, "")
  {
    assert text[0..] == text;
  }

  lemma AtEnd(text: string, m: Mode, done: string)
    requires At(text, |text|, m, done)
    ensures done == Mask(text, Code)
  {
    assert text[|text|..] == [] && Mask([], m) == [];
  }

  method MaskComments(text: string) returns (masked: string)
    ensures masked == Mask(text, Code)
  {
    hide Mask, Take, Put, Next, Starts, At;
    var n := |text|;
    var out := new char[n](k requires 0 <= k < n => text[k]);
    var i := 0;
    var inLine, inBlock := false, false;
    ghost var m, done := Code, "";
    AtStart(text);
    while i < n
      invariant 0 <= i <= n && |done| == i
      invariant inLine == (m == Line) && inBlock == (m == Block)
      invariant forall k :: 0 <= k < n ==> out[k] == if k < i then done[k] else text[k]
      invariant At(text, i, m, done)
    {
      Advance(text, i, m, done);
      Turn(text, i, m);
      var c := text[i];
      var two := if i + 2 <= n then text[i..i + 2] else text[i..];
      done, m := done + Put(text[i..], m), Next(text[i..], m);
      if inLine {
        if c == '\n' { inLine := false; } else { out[i] := ' '; }
        i := i + 1;
      } else if inBlock {
        if two == "*/" {
          out[i], out[i + 1] := ' ', ' ';
          inBlock := false;
          i := i + 2;
        } else {
          if c != '\n' { out[i] := ' '; }
          i := i + 1;
        }
      } else if two == "//" {
        out[i], out[i + 1] := ' ', ' ';
        inLine := true;
        i := i + 2;
      } else if two == "/*" {
        out[i], out[i + 1] := ' ', ' ';
        inBlock := true;
        i := i + 2;
      } else {
        i := i + 1;
      }
    }
    masked := out[..];
    assert masked == done;
    AtEnd(text, m, done);
  }

  // ---------- what masking keeps and removes ----------

  /** Newlines stay, and every other character is kept or becomes a space. */
  lemma {:induction false} MaskKeepsPlaces(t: string, m: Mode, k: nat)
    requires k < |t|
    ensures Mask(t, m)[k] == '\n' <==> t[k] == '\n'
    ensures Mask(t, m)[k] == t[k] || Mask(t, m)[k] == ' '
  {
    var n := Take(t, m);
    if k >= n { MaskKeepsPlaces(t[n..], Next(t, m), k - n); }
  }

  /** A slash that stays was code on its own: nothing after it makes it an opener. */
  lemma {:induction false} NoOpenerAt(t: string, m: Mode, k: nat)
    requires k < |t|
    ensures !OpensAt(Mask(t, m), k)
  {
    var n := Take(t, m);
    var rest := t[n..];
    if k >= n {
      NoOpenerAt(rest, Next(t, m), k - n);
      Unfold(t, m);
      hide Mask, Take, Put, Next;
      assert forall j: nat :: n <= j < |t| ==> Mask(t, m)[j] == Mask(rest, Next(t, m))[j - n];
    } else {
      NoOpenerFirst(t, m);
    }
  }

  lemma NoOpenerFirst(t: string, m: Mode)
    requires t != []
    ensures forall k: nat :: k < Take(t, m) ==> !OpensAt(Mask(t, m), k)
  {
    Unfold(t, m);
    var rest := t[Take(t, m)..];
    if m == Code && Take(t, m) == 1 && t[0] == '/' && |t| > 1 {
      hide Mask;
      assert Mask(t, m)[1] == Mask(rest, Code)[0];
      MaskKeepsPlaces(rest, Code, 0);
    }
  }

  lemma MaskHasNoOpener(t: string, m: Mode)
    ensures !HasOpener(Mask(t, m))
  {
    forall k | 0 <= k < |t| ensures !OpensAt(Mask(t, m), k) { NoOpenerAt(t, m, k); }
  }

  lemma CodeChar(c: char, rest: string)
    requires c == '/' ==> rest == [] || (rest[0] != '/' && rest[0] != '*')
    ensures Mask([c] + rest, Code) == [c] + Mask(rest, Code)
  {
    var t := [c] + rest;
    assert t[1..] == rest;
  }

  /** Code without an opener is left as it is, when what follows makes no opener with its last slash. */
  lemma {:induction false} CodeRun(s: string, rest: string)
    requires !HasOpener(s)
    requires s != [] && s[|s| - 1] == '/' ==> rest == [] || (rest[0] != '/' && rest[0] != '*')
    ensures Mask(s + rest, Code) == s + Mask(rest, Code)
  {
    hide Mask, HasOpener;
    if s == [] {
      assert s + rest == rest && s + Mask(rest, Code) == Mask(rest, Code);
    } else {
      NoOpenerLater(s);
      var t := s[1..];
      assert s[0] == '/' && t != [] ==> t[0] != '/' && t[0] != '*';
      CodeChar(s[0], t + rest);
      CodeRun(t, rest);
      assert s + rest == [s[0]] + (t + rest);
      assert s + Mask(rest, Code) == [s[0]] + (t + Mask(rest, Code));
    }
  }

  lemma NoOpenerLater(s: string)
    requires s != [] && !HasOpener(s)
    ensures !HasOpener(s[1..]) && !OpensAt(s, 0)
  {
    assert !OpensAt(s, 0);
    forall k | 0 <= k < |s[1..]| ensures !OpensAt(s[1..], k) {
      assert !OpensAt(s, k + 1);
    }
  }

  lemma OpenerFreeUnchanged(t: string)
    requires !HasOpener(t)
    ensures Mask(t, Code) == t
  {
    CodeRun(t, "");
    assert t + "" == t && t + Mask("", Code) == t;
  }

  lemma MaskIdempotent(t: string)
    ensures Mask(Mask(t, Code), Code) == Mask(t, Code)
  {
    MaskHasNoOpener(t, Code);
    OpenerFreeUnchanged(Mask(t, Code));
  }
}
