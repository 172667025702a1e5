/** The JavaScript string operations the deobfuscation code relies on:
    `trim`, `split`/`join` on one separator character, global replacement of
    a character or a literal, first-occurrence replacement and `indexOf`. */
module Text {

  /** White space as JavaScript's `String.prototype.trim` and the regular
      expression class `\s` define it (WhiteSpace and LineTerminator). */
  predicate IsWhitespace(c: char) {
    || c == '\t' || c == '\n' || c == '\U{B}' || c == '\U{C}' || c == '\r' || c == ' '
    || c == '\U{A0}' || c == '\U{1680}' || ('\U{2000}' <= c <= '\U{200A}')
    || c == '\U{2028}' || c == '\U{2029}' || c == '\U{202F}' || c == '\U{205F}'
    || c == '\U{3000}' || c == '\U{FEFF}'
  }

  /** `'  '.repeat(n / 2)`-style padding: `n` spaces. */
  function Spaces(n: nat): (r: string)
    ensures |r| == n && forall i :: 0 <= i < n ==> r[i] == ' '
  {
    seq(n, _ => ' ')
  }

  // ---------------------------------------------------------------- trim

  /** Where the content of `s[..b]` ends once the white space at its back
      is cut, never moving below `a`. */
  function ContentEnd(s: string, a: nat, b: nat): (e: nat)
    requires a <= b <= |s|
    ensures a <= e <= b
    ensures forall i :: e <= i < b ==> IsWhitespace(s[i])
    ensures e > a ==> !IsWhitespace(s[e - 1])
    decreases b
  {
    if b > a && IsWhitespace(s[b - 1]) then ContentEnd(s, a, b - 1) else b
  }

  /** `String.prototype.trim`: the text between the white space at its front
      and the white space at its back. */
  function Trim(s: string): string {
    var a := SpanWhile(s, 0, IsWhitespace);
    s[a..ContentEnd(s, a, |s|)]
  }

  /** The trimmed text is a contiguous piece of the input, and every character
      cut away on either side is white space. */
  lemma TrimIsSlice(s: string) returns (a: nat, b: nat)
    ensures a <= b <= |s| && Trim(s) == s[a..b]
    ensures forall i :: 0 <= i < a ==> IsWhitespace(s[i])
    ensures forall i :: b <= i < |s| ==> IsWhitespace(s[i])
    ensures |Trim(s)| > 0 ==> !IsWhitespace(Trim(s)[0]) && !IsWhitespace(Trim(s)[|Trim(s)| - 1])
  {
    a := SpanWhile(s, 0, IsWhitespace);
    b := ContentEnd(s, a, |s|);
    if b > a {
      assert Trim(s)[0] == s[a] && Trim(s)[|Trim(s)| - 1] == s[b - 1];
    }
  }

  /** Text without white space at either end is its own trim. */
  lemma TrimOfTrimmed(s: string)
    requires |s| > 0 ==> !IsWhitespace(s[0]) && !IsWhitespace(s[|s| - 1])
    ensures Trim(s) == s
  {
    assert SpanWhile(s, 0, IsWhitespace) == 0;
    assert ContentEnd(s, 0, |s|) == |s|;
  }

  /** Trimming twice is trimming once. */
  lemma TrimIdempotent(s: string)
    ensures Trim(Trim(s)) == Trim(s)
  {
    var _, _ := TrimIsSlice(s);
    TrimOfTrimmed(Trim(s));
  }

  // ------------------------------------------------ non-white-space content

  /** The characters of `s` that are not white space, in order. */
  function NonWhitespace(s: string): (r: string)
    ensures |r| <= |s|
  {
    if |s| == 0 then ""
    else if IsWhitespace(s[0]) then NonWhitespace(s[1..])
    else [s[0]] + NonWhitespace(s[1..])
  }

  lemma {:induction false} NonWhitespaceConcat(a: string, b: string)
    ensures NonWhitespace(a + b) == NonWhitespace(a) + NonWhitespace(b)
  {
    if |a| > 0 {
      assert (a + b)[1..] == a[1..] + b;
      NonWhitespaceConcat(a[1..], b);
    } else {
      assert a + b == b;
    }
  }

  lemma {:induction false} NonWhitespaceOfBlank(s: string)
    requires forall i :: 0 <= i < |s| ==> IsWhitespace(s[i])
    ensures NonWhitespace(s) == ""
  {
    if |s| > 0 {
      NonWhitespaceOfBlank(s[1..]);
    }
  }

  /** Cutting white space off the front of a text keeps its content. */
  lemma {:induction false} NonWhitespaceDropFront(s: string, a: nat)
    requires a <= |s| && forall i :: 0 <= i < a ==> IsWhitespace(s[i])
    ensures NonWhitespace(s[a..]) == NonWhitespace(s)
  {
    if a > 0 {
      assert IsWhitespace(s[0]);
      assert s[1..][a - 1..] == s[a..];
      NonWhitespaceDropFront(s[1..], a - 1);
    }
  }

  /** Cutting white space off the back of a text keeps its content. */
  lemma NonWhitespaceDropBack(s: string, b: nat)
    requires b <= |s| && forall i :: b <= i < |s| ==> IsWhitespace(s[i])
    ensures NonWhitespace(s[..b]) == NonWhitespace(s)
  {
    var front, back := s[..b], s[b..];
    assert front + back == s;
    NonWhitespaceConcat(front, back);
    NonWhitespaceOfBlank(back);
  }

  /** Trimming removes only white space. */
  lemma TrimKeepsNonWhitespace(s: string)
    ensures NonWhitespace(Trim(s)) == NonWhitespace(s)
  {
    var a, b := TrimIsSlice(s);
    NonWhitespaceDropFront(s, a);
    NonWhitespaceDropBack(s[a..], b - a);
    assert s[a..][..b - a] == s[a..b];
  }

  /** Indentation adds only white space. */
  lemma SpacesKeepNonWhitespace(n: nat, s: string)
    ensures NonWhitespace(Spaces(n) + s) == NonWhitespace(s)
  {
    NonWhitespaceConcat(Spaces(n), s);
    NonWhitespaceOfBlank(Spaces(n));
  }

  // ------------------------------------------------------- split and join

  /** `s.split(d)` for a one-character separator: never empty, and no piece
      contains the separator. */
  function Split(s: string, d: char): (r: seq<string>)
    ensures |r| >= 1
    ensures forall k :: 0 <= k < |r| ==> d !in r[k]
  {
    if |s| == 0 then [""]
    else if s[0] == d then [""] + Split(s[1..], d)
    else
      var rest := Split(s[1..], d);
      [[s[0]] + rest[0]] + rest[1..]
  }

  /** `ls.join(d)`. */
  function Join(ls: seq<string>, d: char): string {
    if |ls| == 0 then ""
    else if |ls| == 1 then ls[0]
    else ls[0] + [d] + Join(ls[1..], d)
  }

  /** The first piece of a split is a prefix of the text. */
  lemma {:induction false} SplitHeadIsPrefix(s: string, d: char)
    ensures |Split(s, d)[0]| <= |s| && Split(s, d)[0] == s[..|Split(s, d)[0]|]
    ensures |Split(s, d)[0]| < |s| ==> s[|Split(s, d)[0]|] == d
  {
    if |s| > 0 && s[0] != d {
      SplitHeadIsPrefix(s[1..], d);
    }
  }

  /** Joining the pieces of a split gives the text back. */
  lemma {:induction false} JoinSplit(s: string, d: char)
    ensures Join(Split(s, d), d) == s
  {
    if |s| == 0 {
    } else if s[0] == d {
      JoinSplit(s[1..], d);
      assert Split(s, d) == [""] + Split(s[1..], d);
    } else {
      var rest := Split(s[1..], d);
      JoinSplit(s[1..], d);
      if |rest| == 1 {
        assert Join(Split(s, d), d) == [s[0]] + rest[0];
      } else {
        assert Join(rest, d) == rest[0] + [d] + Join(rest[1..], d);
        assert Split(s, d)[1..] == rest[1..];
        assert Join(Split(s, d), d) == [s[0]] + rest[0] + [d] + Join(rest[1..], d);
      }
    }
  }

  lemma {:induction false} SplitWithoutSeparator(a: string, d: char)
    requires d !in a
    ensures Split(a, d) == [a]
  {
    if |a| > 0 {
      SplitWithoutSeparator(a[1..], d);
      assert [a[0]] + a[1..] == a;
    }
  }

  lemma {:induction false} SplitAtSeparator(a: string, t: string, d: char)
    requires d !in a
    ensures Split(a + [d] + t, d) == [a] + Split(t, d)
  {
    if |a| == 0 {
      assert a + [d] + t == [d] + t;
    } else {
      assert (a + [d] + t)[1..] == a[1..] + [d] + t;
      SplitAtSeparator(a[1..], t, d);
      assert [a[0]] + a[1..] == a;
    }
  }

  /** Splitting a join of separator-free pieces gives the pieces back. */
  lemma {:induction false} SplitJoin(ls: seq<string>, d: char)
    requires |ls| >= 1
    requires forall k :: 0 <= k < |ls| ==> d !in ls[k]
    ensures Split(Join(ls, d), d) == ls
  {
    if |ls| == 1 {
      SplitWithoutSeparator(ls[0], d);
    } else {
      SplitJoin(ls[1..], d);
      SplitAtSeparator(ls[0], Join(ls[1..], d), d);
      assert [ls[0]] + ls[1..] == ls;
    }
  }

  /** The non-white-space characters of each piece, concatenated. */
  function NonWhitespaceOfLines(ls: seq<string>): string {
    if |ls| == 0 then "" else NonWhitespace(ls[0]) + NonWhitespaceOfLines(ls[1..])
  }

  /** Joining with a white-space separator adds no visible character. */
  lemma {:induction false} JoinKeepsNonWhitespace(ls: seq<string>, d: char)
    requires IsWhitespace(d)
    ensures NonWhitespace(Join(ls, d)) == NonWhitespaceOfLines(ls)
  {
    if |ls| == 1 {
      assert ls[1..] == [];
    } else if |ls| > 1 {
      JoinKeepsNonWhitespace(ls[1..], d);
      NonWhitespaceConcat(ls[0] + [d], Join(ls[1..], d));
      NonWhitespaceConcat(ls[0], [d]);
    }
  }

  // ------------------------------------------------------------ replace

  /** `s.replace(/c/g, rep)` for a single character `c`. */
  function ReplaceChar(s: string, c: char, rep: string): string {
    if |s| == 0 then ""
    else (if s[0] == c then rep else [s[0]]) + ReplaceChar(s[1..], c, rep)
  }

  lemma {:induction false} ReplaceCharConcat(a: string, b: string, c: char, rep: string)
    ensures ReplaceChar(a + b, c, rep) == ReplaceChar(a, c, rep) + ReplaceChar(b, c, rep)
  {
    if |a| == 0 {
      assert a + b == b;
    } else {
      assert (a + b)[1..] == a[1..] + b;
      ReplaceCharConcat(a[1..], b, c, rep);
    }
  }

  /** Replacing a character by text with the same visible content keeps the
      visible content. */
  lemma {:induction false} ReplaceCharKeepsNonWhitespace(s: string, c: char, rep: string)
    requires NonWhitespace(rep) == NonWhitespace([c])
    ensures NonWhitespace(ReplaceChar(s, c, rep)) == NonWhitespace(s)
  {
    if |s| > 0 {
      ReplaceCharKeepsNonWhitespace(s[1..], c, rep);
      var head := if s[0] == c then rep else [s[0]];
      NonWhitespaceConcat(head, ReplaceChar(s[1..], c, rep));
      NonWhitespaceConcat([s[0]], s[1..]);
      assert [s[0]] + s[1..] == s;
    }
  }

  /** Whether `p` occurs in `s` at position `i`. */
  predicate OccursAt(s: string, p: string, i: nat) {
    i + |p| <= |s| && s[i..i + |p|] == p
  }

  /** `s.indexOf(p, from)`, with `None` for -1. */
  function IndexOfFrom(s: string, p: string, from: nat): (r: Option<nat>)
    ensures r.Some? ==> from <= r.value && OccursAt(s, p, r.value)
    ensures forall i :: from <= i && (r.None? || i < r.value) ==> !OccursAt(s, p, i)
    decreases |s| - from
  {
    if from + |p| > |s| then None
    else if s[from..from + |p|] == p then Some(from)
    else IndexOfFrom(s, p, from + 1)
  }

  function IndexOf(s: string, p: string): Option<nat> {
    IndexOfFrom(s, p, 0)
  }

  /** `s.replace(p, rep)` with a string pattern: the first occurrence of `p`
      is replaced; without one, `s` comes back unchanged. */
  function ReplaceFirst(s: string, p: string, rep: string): (r: string)
    ensures IndexOf(s, p).None? ==> r == s
    ensures IndexOf(s, p).Some? ==>
      var i := IndexOf(s, p).value;
      r == s[..i] + rep + s[i + |p|..] && forall j: nat :: j < i ==> !OccursAt(s, p, j)
  {
    match IndexOf(s, p)
    case None => s
    case Some(i) => s[..i] + rep + s[i + |p|..]
  }

  predicate StartsWith(s: string, p: string) {
    |p| <= |s| && s[..|p|] == p
  }

  predicate EndsWith(s: string, p: string) {
    |p| <= |s| && s[|s| - |p|..] == p
  }

  /** `s.replace(/p/g, '')` for a literal, non-empty `p`: occurrences are
      removed left to right without overlapping. */
  function RemoveAll(s: string, p: string): string
    requires |p| > 0
  {
    if |s| == 0 then ""
    else if StartsWith(s, p) then RemoveAll(s[|p|..], p)
    else [s[0]] + RemoveAll(s[1..], p)
  }

  /** Without an occurrence of `p`, removing `p` changes nothing. */
  lemma {:induction false} RemoveAllAbsent(s: string, p: string)
    requires |p| > 0
    requires forall i :: 0 <= i <= |s| ==> !OccursAt(s, p, i)
    ensures RemoveAll(s, p) == s
  {
    if |s| > 0 {
      assert !OccursAt(s, p, 0);
      forall i | 0 <= i <= |s[1..]| ensures !OccursAt(s[1..], p, i) {
        assert !OccursAt(s, p, i + 1);
        if i + |p| <= |s[1..]| {
          assert s[1..][i..i + |p|] == s[i + 1..i + 1 + |p|];
        }
      }
      RemoveAllAbsent(s[1..], p);
    }
  }

  /** The end of the run of characters satisfying `p` that starts at `j`. */
  function SpanWhile(s: string, j: nat, p: char -> bool): (k: nat)
    requires j <= |s|
    ensures j <= k <= |s|
    ensures forall m :: j <= m < k ==> p(s[m])
    ensures k == |s| || !p(s[k])
    decreases |s| - j
  {
    if j < |s| && p(s[j]) then SpanWhile(s, j + 1, p) else j
  }

  /** A run is determined by where it starts and what ends it. */
  lemma {:induction false} SpanWhileAt(s: string, j: nat, k: nat, p: char -> bool)
    requires j <= k <= |s|
    requires forall m :: j <= m < k ==> p(s[m])
    requires k == |s| || !p(s[k])
    ensures SpanWhile(s, j, p) == k
    decreases k - j
  {
    if j < k {
      SpanWhileAt(s, j + 1, k, p);
    }
  }

  // -------------------------------------------------------- letter case

  /** `toLowerCase` on ASCII letters; other characters are kept. */
  function ToLowerAscii(s: string): (r: string)
    ensures |r| == |s|
  {
    seq(|s|, i requires 0 <= i < |s| => if 'A' <= s[i] <= 'Z' then (s[i] as int + 32) as char else s[i])
  }

  import opened Wrappers
}
