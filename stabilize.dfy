/** `stabilizeCode` (utils/deobfuscationLogic.ts): a textual beautifier.
    A pre-pass breaks lines around `{`, `}` and `;`, puts a space after every
    `,`, trims every line and drops the blank ones; a second pass re-indents
    the lines with a brace-depth counter, two spaces per level. */
module Stabilize {
  import opened Text

  // ------------------------------------------------------------ pre-pass

  /** The four global replacements, applied in the order written. */
  function BreakLines(code: string): string {
    ReplaceChar(ReplaceChar(ReplaceChar(ReplaceChar(code, '{', " {\n"), '}', "\n}\n"), ';', ";\n"), ',', ", ")
  }

  /** What one input character becomes after the four replacements. */
  function ExpandChar(c: char): string {
    if c == '{' then " {\n"
    else if c == '}' then "\n}\n"
    else if c == ';' then ";\n"
    else if c == ',' then ", "
    else [c]
  }

  function ExpandAll(s: string): string {
    if |s| == 0 then "" else ExpandChar(s[0]) + ExpandAll(s[1..])
  }

  /** No replacement introduces a character a later one rewrites, so the
      chain acts character by character. */
  lemma {:induction false} BreakLinesPerChar(s: string)
    ensures BreakLines(s) == ExpandAll(s)
  {
    if |s| > 0 {
      var c, rest := s[0], s[1..];
      assert s == [c] + rest;
      var r1 := ReplaceChar([c], '{', " {\n");
      var r2 := ReplaceChar(r1, '}', "\n}\n");
      var r3 := ReplaceChar(r2, ';', ";\n");
      ReplaceCharConcat([c], rest, '{', " {\n");
      ReplaceCharConcat(r1, ReplaceChar(rest, '{', " {\n"), '}', "\n}\n");
      ReplaceCharConcat(r2, ReplaceChar(ReplaceChar(rest, '{', " {\n"), '}', "\n}\n"), ';', ";\n");
      ReplaceCharConcat(r3, ReplaceChar(ReplaceChar(ReplaceChar(rest, '{', " {\n"), '}', "\n}\n"), ';', ";\n"), ',', ", ");
      BreakLinesPerChar(rest);
      ChainOnChar(c);
    }
  }

  lemma ChainOnChar(c: char)
    ensures BreakLines([c]) == ExpandChar(c)
  {
    if c == '{' {
      assert ReplaceChar([c], '{', " {\n") == " {\n";
      assert ReplaceChar(" {\n", '}', "\n}\n") == " {\n";
      assert ReplaceChar(" {\n", ';', ";\n") == " {\n";
      assert ReplaceChar(" {\n", ',', ", ") == " {\n";
    } else if c == '}' {
      assert ReplaceChar([c], '{', " {\n") == "}";
      assert ReplaceChar("}", '}', "\n}\n") == "\n}\n";
      assert ReplaceChar("\n}\n", ';', ";\n") == "\n}\n";
      assert ReplaceChar("\n}\n", ',', ", ") == "\n}\n";
    } else if c == ';' {
      assert ReplaceChar([c], '{', " {\n") == ";";
      assert ReplaceChar(";", '}', "\n}\n") == ";";
      assert ReplaceChar(";", ';', ";\n") == ";\n";
      assert ReplaceChar(";\n", ',', ", ") == ";\n";
    } else if c == ',' {
      assert ReplaceChar([c], '{', " {\n") == ",";
      assert ReplaceChar(",", '}', "\n}\n") == ",";
      assert ReplaceChar(",", ';', ";\n") == ",";
      assert ReplaceChar(",", ',', ", ") == ", ";
    } else {
      assert ReplaceChar([c], '{', " {\n") == [c];
      assert ReplaceChar([c], '}', "\n}\n") == [c];
      assert ReplaceChar([c], ';', ";\n") == [c];
      assert ReplaceChar([c], ',', ", ") == [c];
    }
  }

  /** Every line trimmed at both ends. */
  function TrimAll(ls: seq<string>): (r: seq<string>)
    ensures |r| == |ls|
  {
    seq(|ls|, k requires 0 <= k < |ls| => Trim(ls[k]))
  }

  /** The lines that are not empty, in their order. */
  function NonEmptyLines(ls: seq<string>): (r: seq<string>)
    ensures forall k :: 0 <= k < |r| ==> |r[k]| > 0 && r[k] in ls
  {
    if |ls| == 0 then []
    else if |ls[0]| > 0 then [ls[0]] + NonEmptyLines(ls[1..])
    else NonEmptyLines(ls[1..])
  }

  /** The lines the pre-pass keeps. */
  function PrePassLines(code: string): seq<string> {
    NonEmptyLines(TrimAll(Split(BreakLines(code), '\n')))
  }

  /** The pre-pass result, joined with line breaks. */
  function PrePass(code: string): string {
    Join(PrePassLines(code), '\n')
  }

  // ----------------------------------------------------- re-indentation

  /** The value of the `indent` counter before line `k` is visited. */
  function DepthBefore(lines: seq<string>, k: nat): nat
    requires k <= |lines|
    decreases k, 0
  {
    if k == 0 then 0
    else Level(lines, k - 1) + (if '{' in lines[k - 1] then 1 else 0)
  }

  /** The indentation level line `k` is printed at: a line holding `}`
      dedents first, never below zero. */
  function Level(lines: seq<string>, k: nat): nat
    requires k < |lines|
    decreases k, 1
  {
    var d := DepthBefore(lines, k);
    if '}' in lines[k] then (if d > 0 then d - 1 else 0) else d
  }

  /** Every line prefixed by two spaces per level. */
  function Reindented(lines: seq<string>): (r: seq<string>)
    ensures |r| == |lines|
  {
    seq(|lines|, k requires 0 <= k < |lines| => Spaces(2 * Level(lines, k)) + lines[k])
  }

  /** The whole of `stabilizeCode` as one function of its input. */
  function Stabilized(code: string): string {
    Join(Reindented(Split(PrePass(code), '\n')), '\n')
  }

  /** The second pass of `stabilizeCode`: the mutable `indent` counter of
      the source walks the lines once. */
  method Reindent(lines: seq<string>) returns (indented: seq<string>)
    ensures indented == Reindented(lines)
  {
    var indent: nat := 0;
    indented := [];
    var i := 0;
    while i < |lines|
      invariant 0 <= i <= |lines|
      invariant indent == DepthBefore(lines, i)
      invariant indented == Reindented(lines)[..i]
    {
      var line := lines[i];
      if '}' in line {
        indent := if indent > 0 then indent - 1 else 0;
      }
      var shifted := Spaces(2 * indent) + line;
      if '{' in line {
        indent := indent + 1;
      }
      indented := indented + [shifted];
      i := i + 1;
    }
  }

  /** `stabilizeCode`: the pre-pass, then re-indentation of its lines. */
  method StabilizeCode(code: string) returns (result: string)
    ensures result == Stabilized(code)
  {
    var flat := PrePass(code);
    var indented := Reindent(Split(flat, '\n'));
    result := Join(indented, '\n');
  }

  // ------------------------------------- only white space is added or lost

  lemma {:induction false} SameVisibleLines(xs: seq<string>, ys: seq<string>)
    requires |xs| == |ys|
    requires forall k :: 0 <= k < |xs| ==> NonWhitespace(xs[k]) == NonWhitespace(ys[k])
    ensures NonWhitespaceOfLines(xs) == NonWhitespaceOfLines(ys)
  {
    if |xs| > 0 {
      SameVisibleLines(xs[1..], ys[1..]);
    }
  }

  lemma {:induction false} NonEmptyLinesKeepNonWhitespace(ls: seq<string>)
    ensures NonWhitespaceOfLines(NonEmptyLines(ls)) == NonWhitespaceOfLines(ls)
  {
    if |ls| > 0 {
      NonEmptyLinesKeepNonWhitespace(ls[1..]);
      if |ls[0]| == 0 {
        assert NonWhitespace(ls[0]) == "";
      } else {
        assert NonEmptyLines(ls) == [ls[0]] + NonEmptyLines(ls[1..]);
      }
    }
  }

  lemma BreakLinesKeepsNonWhitespace(code: string)
    ensures NonWhitespace(BreakLines(code)) == NonWhitespace(code)
  {
    var r1 := ReplaceChar(code, '{', " {\n");
    var r2 := ReplaceChar(r1, '}', "\n}\n");
    var r3 := ReplaceChar(r2, ';', ";\n");
    ReplaceCharKeepsNonWhitespace(code, '{', " {\n");
    ReplaceCharKeepsNonWhitespace(r1, '}', "\n}\n");
    ReplaceCharKeepsNonWhitespace(r2, ';', ";\n");
    ReplaceCharKeepsNonWhitespace(r3, ',', ", ");
  }

  /** `stabilizeCode` only inserts or removes white space: the sequence of
      visible characters is that of its input. */
  lemma StabilizeKeepsNonWhitespace(code: string)
    ensures NonWhitespace(Stabilized(code)) == NonWhitespace(code)
  {
    var pieces := Split(BreakLines(code), '\n');
    BreakLinesKeepsNonWhitespace(code);
    JoinSplit(BreakLines(code), '\n');
    JoinKeepsNonWhitespace(pieces, '\n');
    forall k | 0 <= k < |pieces| ensures NonWhitespace(TrimAll(pieces)[k]) == NonWhitespace(pieces[k]) {
      TrimKeepsNonWhitespace(pieces[k]);
    }
    SameVisibleLines(TrimAll(pieces), pieces);
    NonEmptyLinesKeepNonWhitespace(TrimAll(pieces));
    JoinKeepsNonWhitespace(PrePassLines(code), '\n');
    var lines := Split(PrePass(code), '\n');
    JoinSplit(PrePass(code), '\n');
    JoinKeepsNonWhitespace(lines, '\n');
    forall k | 0 <= k < |lines| ensures NonWhitespace(Reindented(lines)[k]) == NonWhitespace(lines[k]) {
      SpacesKeepNonWhitespace(2 * Level(lines, k), lines[k]);
    }
    SameVisibleLines(Reindented(lines), lines);
    JoinKeepsNonWhitespace(Reindented(lines), '\n');
  }

  // --------------------------------------------------------- line layout

  /** In the broken-up text every `{` and `;` ends a line, and every `}`
      stands between line breaks (or at an end). */
  ghost predicate BreaksOk(t: string) {
    forall i :: 0 <= i < |t| ==> BreakOkAt(t, i)
  }

  ghost predicate BreakOkAt(t: string, i: nat)
    requires i < |t|
  {
    && ((t[i] == '{' || t[i] == ';') ==> i + 1 == |t| || t[i + 1] == '\n')
    && (t[i] == '}' ==> (i == 0 || t[i - 1] == '\n') && (i + 1 == |t| || t[i + 1] == '\n'))
  }

  /** A line in which `}` can only stand alone and `{`, `;` only come last. */
  ghost predicate PieceOk(p: string) {
    && ('}' in p ==> p == "}")
    && forall j :: 0 <= j < |p| && (p[j] == '{' || p[j] == ';') ==> j == |p| - 1
  }

  /** The shape of every line the pre-pass keeps. */
  ghost predicate WellFormedLine(l: string) {
    && |l| > 0
    && !IsWhitespace(l[0]) && !IsWhitespace(l[|l| - 1])
    && '\n' !in l
    && PieceOk(l)
  }

  lemma BreaksOkConcat(a: string, b: string)
    requires BreaksOk(a) && BreaksOk(b)
    requires |a| > 0 ==> a[|a| - 1] != '{' && a[|a| - 1] != ';' && a[|a| - 1] != '}'
    requires |b| > 0 ==> b[0] != '}'
    ensures BreaksOk(a + b)
  {
    var t := a + b;
    forall i | 0 <= i < |t| ensures BreakOkAt(t, i) {
      if i < |a| {
        assert BreakOkAt(a, i);
        assert t[i] == a[i];
        if i + 1 < |a| { assert t[i + 1] == a[i + 1]; }
        if i > 0 { assert t[i - 1] == a[i - 1]; }
      } else {
        assert BreakOkAt(b, i - |a|);
        assert t[i] == b[i - |a|];
        if i + 1 < |t| { assert t[i + 1] == b[i + 1 - |a|]; }
        if i > |a| { assert t[i - 1] == b[i - 1 - |a|]; }
      }
    }
  }

  lemma {:induction false} ExpandAllBreaksOk(s: string)
    ensures BreaksOk(ExpandAll(s))
    ensures |ExpandAll(s)| > 0 ==> ExpandAll(s)[0] != '}'
  {
    if |s| > 0 {
      ExpandAllBreaksOk(s[1..]);
      var e := ExpandChar(s[0]);
      assert BreaksOk(e);
      BreaksOkConcat(e, ExpandAll(s[1..]));
    }
  }

  lemma BreaksOkTail(t: string)
    requires |t| > 0 && BreaksOk(t)
    ensures BreaksOk(t[1..])
  {
    var u := t[1..];
    forall i | 0 <= i < |u| ensures BreakOkAt(u, i) {
      assert BreakOkAt(t, i + 1);
      assert u[i] == t[i + 1];
      if i + 1 < |u| { assert u[i + 1] == t[i + 2]; }
      if i > 0 { assert u[i - 1] == t[i]; }
    }
  }

  /** Splitting broken-up text at line breaks yields only well-placed braces. */
  lemma {:induction false} SplitPiecesOk(t: string)
    requires BreaksOk(t)
    ensures forall k :: 0 <= k < |Split(t, '\n')| ==> PieceOk(Split(t, '\n')[k])
  {
    if |t| > 0 {
      BreaksOkTail(t);
      SplitPiecesOk(t[1..]);
      if t[0] != '\n' {
        var rest := Split(t[1..], '\n');
        var head := [t[0]] + rest[0];
        SplitHeadIsPrefix(t[1..], '\n');
        if t[0] == '{' || t[0] == ';' || t[0] == '}' {
          assert BreakOkAt(t, 0);
          assert rest[0] == "";
          assert head == [t[0]];
        } else {
          if |t| > 1 {
            assert BreakOkAt(t, 1);
          }
          assert PieceOk(rest[0]);
          assert '}' !in rest[0];
          forall j | 0 <= j < |head| && (head[j] == '{' || head[j] == ';') ensures j == |head| - 1 {
            assert j > 0 && head[j] == rest[0][j - 1];
          }
        }
        assert Split(t, '\n') == [head] + rest[1..];
      }
    }
  }

  lemma TrimPieceOk(p: string)
    requires PieceOk(p)
    ensures PieceOk(Trim(p))
  {
    var a, b := TrimIsSlice(p);
    var q := Trim(p);
    if '}' in q {
      var j :| 0 <= j < |q| && q[j] == '}';
      assert p[a + j] == '}';
      assert p == "}";
    }
    forall j | 0 <= j < |q| && (q[j] == '{' || q[j] == ';') ensures j == |q| - 1 {
      assert p[a + j] == q[j];
    }
  }

  /** Every line the pre-pass keeps is non-blank, has no white space at its
      ends, and holds `}` only alone and `{`, `;` only last. */
  lemma PrePassLinesWellFormed(code: string)
    ensures forall k :: 0 <= k < |PrePassLines(code)| ==> WellFormedLine(PrePassLines(code)[k])
  {
    BreakLinesPerChar(code);
    ExpandAllBreaksOk(code);
    var pieces := Split(BreakLines(code), '\n');
    SplitPiecesOk(BreakLines(code));
    forall k | 0 <= k < |pieces|
      ensures PieceOk(TrimAll(pieces)[k]) && '\n' !in TrimAll(pieces)[k]
      ensures |TrimAll(pieces)[k]| > 0 ==>
        !IsWhitespace(TrimAll(pieces)[k][0]) && !IsWhitespace(TrimAll(pieces)[k][|TrimAll(pieces)[k]| - 1])
    {
      TrimPieceOk(pieces[k]);
      var a, b := TrimIsSlice(pieces[k]);
      forall j | 0 <= j < b - a ensures Trim(pieces[k])[j] != '\n' {
        assert Trim(pieces[k])[j] == pieces[k][a + j];
      }
    }
  }

  lemma PrePassLinesBreakFree(code: string)
    ensures forall k :: 0 <= k < |PrePassLines(code)| ==> '\n' !in PrePassLines(code)[k]
  {
    PrePassLinesWellFormed(code);
  }

  /** The output of `stabilizeCode`, read line by line: empty when the
      pre-pass keeps no line, and otherwise one output line per kept line,
      namely that line behind two spaces per indentation level. */
  lemma StabilizeLayout(code: string)
    ensures |PrePassLines(code)| == 0 ==> Stabilized(code) == ""
    ensures |PrePassLines(code)| > 0 ==> |Split(Stabilized(code), '\n')| == |PrePassLines(code)|
    ensures |PrePassLines(code)| > 0 ==> forall k :: 0 <= k < |PrePassLines(code)| ==>
      && Split(Stabilized(code), '\n')[k] == Spaces(2 * Level(PrePassLines(code), k)) + PrePassLines(code)[k]
      && WellFormedLine(PrePassLines(code)[k])
  {
    var lines := PrePassLines(code);
    PrePassLinesWellFormed(code);
    if |lines| == 0 {
      assert Reindented([""]) == [""];
    } else {
      SplitJoin(lines, '\n');
      var r := Reindented(lines);
      forall k | 0 <= k < |r| ensures '\n' !in r[k] {
        assert r[k] == Spaces(2 * Level(lines, k)) + lines[k];
      }
      SplitJoin(r, '\n');
    }
  }

  // ------------------------------------------------ depth and nesting

  /** Number of lines among `ls` that contain `c`. */
  function CountLinesWith(ls: seq<string>, c: char): nat {
    if |ls| == 0 then 0
    else CountLinesWith(ls[..|ls| - 1], c) + (if c in ls[|ls| - 1] then 1 else 0)
  }

  /** The depth counter never falls below the number of opening lines minus
      the number of closing lines seen so far, and equals it as long as every
      closing line has an unmatched opening line before it. */
  lemma {:induction false} DepthCountsNesting(lines: seq<string>, k: nat)
    requires k <= |lines|
    ensures DepthBefore(lines, k) >= CountLinesWith(lines[..k], '{') - CountLinesWith(lines[..k], '}')
    ensures (forall j :: 0 <= j < k && '}' in lines[j] ==>
               CountLinesWith(lines[..j], '{') > CountLinesWith(lines[..j], '}'))
            ==> DepthBefore(lines, k) == CountLinesWith(lines[..k], '{') - CountLinesWith(lines[..k], '}')
  {
    if k > 0 {
      DepthCountsNesting(lines, k - 1);
      assert lines[..k][..k - 1] == lines[..k - 1];
      assert lines[..k][k - 1] == lines[k - 1];
    }
  }
}
