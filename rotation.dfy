/** `resolveArrayRotations` and `extractStringPool`
    (utils/deobfuscationLogic.ts). The resolver finds the first string-pool
    declaration `const NAME = [...];`, reads the pool, finds the rotation
    routine `(function(a, n){ ... push(x.shift()) ... })(NAME, OFF)`, turns
    the pool left exactly `OFF` times, writes the turned pool back into the
    declaration and replaces the routine by a marker comment. Every failure
    returns the code unchanged. */
module ArrayRotation {
  import opened Wrappers
  import opened Text
  import HexDecode

  // ------------------------------------------- the declaration pattern

  /** The two declaration patterns: `const`, white space, a name, `=`, a
      bracketed literal and `;`. The resolver accepts any identifier-like
      name; `extractStringPool` wants `_0x` and hex digits, in any letter case. */
  datatype DeclPattern = AnyName | HexName

  /** One match of a declaration pattern: where it starts, the matched text,
      the array name (group 1) and the bracketed literal (group 2). */
  datatype PoolDecl = PoolDecl(start: nat, text: string, name: string, literal: string)

  predicate IsNameChar(c: char) {
    c == '_' || c == '$' || 'a' <= c <= 'z' || 'A' <= c <= 'Z' || '0' <= c <= '9'
  }

  predicate NotCloseBracket(c: char) {
    c != ']'
  }

  /** Character `c` matches the lower-case pattern letter `k`; under the
      `i` flag of the hexadecimal-name pattern its upper-case form does too. */
  predicate LetterMatches(c: char, k: char, pat: DeclPattern) {
    c == k || (pat == HexName && c as int == k as int - 32)
  }

  /** `const` at position `i`; the hexadecimal-name pattern ignores ASCII case. */
  predicate KeywordAt(code: string, i: nat, pat: DeclPattern) {
    && i + 5 <= |code|
    && LetterMatches(code[i], 'c', pat) && LetterMatches(code[i + 1], 'o', pat)
    && LetterMatches(code[i + 2], 'n', pat) && LetterMatches(code[i + 3], 's', pat)
    && LetterMatches(code[i + 4], 't', pat)
  }

  /** Where the name group ends when it starts at `b`, if a name starts there.
      Both name classes exclude white space and `=`, so the greedy run is the
      only one after which the rest of the pattern can match. */
  function NameEnd(code: string, b: nat, pat: DeclPattern): (r: Option<nat>)
    requires b <= |code|
    ensures r.Some? ==> b < r.value <= |code|
  {
    match pat
    case AnyName =>
      var e := SpanWhile(code, b, IsNameChar);
      if e == b then None else Some(e)
    case HexName =>
      if b + 3 <= |code| && code[b] == '_' && code[b + 1] == '0' && (code[b + 2] == 'x' || code[b + 2] == 'X') then
        var e := SpanWhile(code, b + 3, HexDecode.IsHexDigit);
        if e == b + 3 then None else Some(e)
      else None
  }

  /** The declaration pattern tried at position `i`. Every quantifier in it is
      greedy over a class that the next item of the pattern cannot start
      with, so at a given position there is at most one match. */
  function MatchDeclAt(code: string, i: nat, pat: DeclPattern): (r: Option<PoolDecl>)
    requires i <= |code|
    ensures r.Some? ==> r.value.start == i && KeywordAt(code, i, pat)
  {
    if !KeywordAt(code, i, pat) then None
    else
      var b := SpanWhile(code, i + 5, IsWhitespace);
      if b == i + 5 then None
      else match NameEnd(code, b, pat)
        case None => None
        case Some(n) => MatchRestAt(code, i, b, n)
  }

  /** The rest of the pattern once the name `[b, n)` is read:
      `\s*=\s*(\[[^\]]+\]);`. */
  function MatchRestAt(code: string, i: nat, b: nat, n: nat): (r: Option<PoolDecl>)
    requires i < b < n <= |code|
    ensures r.Some? ==> r.value.start == i
  {
    var c := SpanWhile(code, n, IsWhitespace);
    if c == |code| || code[c] != '=' then None
    else
      var d := SpanWhile(code, c + 1, IsWhitespace);
      if d == |code| || code[d] != '[' then None
      else
        var e := SpanWhile(code, d + 1, NotCloseBracket);
        if e == d + 1 || e + 1 >= |code| || code[e + 1] != ';' then None
        else Some(PoolDecl(i, code[i..e + 2], code[b..n], code[d..e + 1]))
  }

  /** A hexadecimal-pattern name is `_0x` and at least one hexadecimal digit. */
  lemma HexNameShape(code: string, b: nat, n: nat, name: string)
    requires b <= |code| && NameEnd(code, b, HexName) == Some(n) && name == code[b..n]
    ensures IsHexPoolName(name)
  {
    assert n == SpanWhile(code, b + 3, HexDecode.IsHexDigit);
    forall m | 3 <= m < |name| ensures HexDecode.IsHexDigit(name[m]) {
      assert name[m] == code[b + m];
    }
  }

  /** The positions a match is cut at: the name spans `[b, n)` and the
      literal `[d, e]`, and the match ends with `;` at `e + 1`. */
  lemma DeclCuts(code: string, i: nat, pat: DeclPattern) returns (b: nat, n: nat, d: nat, e: nat)
    requires i <= |code| && MatchDeclAt(code, i, pat).Some?
    ensures i < b < n <= d < e < |code| - 1
    ensures NameEnd(code, b, pat) == Some(n)
    ensures code[d] == '[' && code[e] == ']' && code[e + 1] == ';' && e > d + 1
    ensures forall m :: d < m < e ==> code[m] != ']'
    ensures MatchDeclAt(code, i, pat).value == PoolDecl(i, code[i..e + 2], code[b..n], code[d..e + 1])
  {
    b := SpanWhile(code, i + 5, IsWhitespace);
    n := NameEnd(code, b, pat).value;
    assert MatchDeclAt(code, i, pat) == MatchRestAt(code, i, b, n);
    d, e := RestCuts(code, i, b, n);
  }

  /** The cuts of the literal part of a match. */
  lemma RestCuts(code: string, i: nat, b: nat, n: nat) returns (d: nat, e: nat)
    requires i < b < n <= |code| && MatchRestAt(code, i, b, n).Some?
    ensures n <= d < e < |code| - 1
    ensures code[d] == '[' && code[e] == ']' && code[e + 1] == ';' && e > d + 1
    ensures forall m :: d < m < e ==> code[m] != ']'
    ensures MatchRestAt(code, i, b, n).value == PoolDecl(i, code[i..e + 2], code[b..n], code[d..e + 1])
  {
    var c := SpanWhile(code, n, IsWhitespace);
    d := SpanWhile(code, c + 1, IsWhitespace);
    e := SpanWhile(code, d + 1, NotCloseBracket);
  }

  /** What a match is made of: text of the code starting at the match
      position, a non-empty name, and a bracketed literal with no `]`
      inside, followed by `;` at the end of the match. */
  lemma DeclShape(code: string, i: nat, pat: DeclPattern, decl: PoolDecl)
    requires i <= |code| && MatchDeclAt(code, i, pat) == Some(decl)
    ensures i + |decl.text| <= |code| && decl.text == code[i..i + |decl.text|]
    ensures |decl.name| > 0 && (pat == HexName ==> IsHexPoolName(decl.name))
    ensures |decl.literal| >= 3 && decl.literal[0] == '[' && decl.literal[|decl.literal| - 1] == ']'
    ensures ']' !in decl.literal[..|decl.literal| - 1]
    ensures EndsWith(decl.text, decl.literal + ";")
  {
    var b, n, d, e := DeclCuts(code, i, pat);
    CutShape(code, i, pat, b, n, d, e, decl);
  }

  /** The shape of a match, from its cut positions. */
  lemma CutShape(code: string, i: nat, pat: DeclPattern, b: nat, n: nat, d: nat, e: nat, decl: PoolDecl)
    requires i < b < n <= d < e < |code| - 1
    requires NameEnd(code, b, pat) == Some(n)
    requires code[d] == '[' && code[e] == ']' && code[e + 1] == ';' && e > d + 1
    requires forall m :: d < m < e ==> code[m] != ']'
    requires decl == PoolDecl(i, code[i..e + 2], code[b..n], code[d..e + 1])
    ensures i + |decl.text| <= |code| && decl.text == code[i..i + |decl.text|]
    ensures |decl.name| > 0 && (pat == HexName ==> IsHexPoolName(decl.name))
    ensures |decl.literal| >= 3 && decl.literal[0] == '[' && decl.literal[|decl.literal| - 1] == ']'
    ensures ']' !in decl.literal[..|decl.literal| - 1]
    ensures EndsWith(decl.text, decl.literal + ";")
  {
    if pat == HexName {
      HexNameShape(code, b, n, decl.name);
    }
    LiteralShape(code, i, d, e, decl.text, decl.literal);
  }

  /** The literal cut at `[d, e]` and the text it ends. */
  lemma LiteralShape(code: string, i: nat, d: nat, e: nat, text: string, literal: string)
    requires i < d < e < |code| - 1 && e > d + 1
    requires code[d] == '[' && code[e] == ']' && code[e + 1] == ';'
    requires forall m :: d < m < e ==> code[m] != ']'
    requires text == code[i..e + 2] && literal == code[d..e + 1]
    ensures i + |text| <= |code| && text == code[i..i + |text|]
    ensures |literal| >= 3 && literal[0] == '[' && literal[|literal| - 1] == ']'
    ensures ']' !in literal[..|literal| - 1]
    ensures EndsWith(text, literal + ";")
  {
    forall m | 0 <= m < |literal| - 1 ensures literal[m] != ']' {
      assert literal[m] == code[d + m];
    }
    assert text[|text| - (|literal| + 1)..] == code[d..e + 2];
    assert code[d..e + 2] == code[d..e + 1] + [code[e + 1]];
  }

  /** The leftmost match at or after `from`. */
  function FindDeclFrom(code: string, from: nat, pat: DeclPattern): (r: Option<PoolDecl>)
    requires from <= |code|
    ensures r.Some? ==> from <= r.value.start <= |code| && MatchDeclAt(code, r.value.start, pat) == r
    ensures forall j :: from <= j <= |code| && (r.None? || j < r.value.start) ==> MatchDeclAt(code, j, pat).None?
    decreases |code| - from
  {
    match MatchDeclAt(code, from, pat)
    case Some(d) => Some(d)
    case None => if from == |code| then None else FindDeclFrom(code, from + 1, pat)
  }

  /** `code.match(pattern)` without the global flag: the leftmost match. */
  function FindDecl(code: string, pat: DeclPattern): Option<PoolDecl> {
    FindDeclFrom(code, 0, pat)
  }

  /** With the case-sensitive pattern, the keyword test is an occurrence of
      `const`. */
  lemma KeywordIsConst(code: string, j: nat)
    requires j + 5 <= |code|
    ensures KeywordAt(code, j, AnyName) <==> OccursAt(code, "const", j)
  {
    var w := code[j..j + 5];
    assert forall m :: 0 <= m < 5 ==> w[m] == code[j + m];
    if OccursAt(code, "const", j) {
      assert w == "const";
      assert w[0] == 'c' && w[1] == 'o' && w[2] == 'n' && w[3] == 's' && w[4] == 't';
    }
    if KeywordAt(code, j, AnyName) {
      assert w == "const" by {
        forall m | 0 <= m < 5 ensures w[m] == "const"[m] {
        }
      }
    }
  }

  /** Text in which `const` never occurs holds no pool declaration. */
  lemma NoKeywordNoDecl(code: string)
    requires IndexOf(code, "const").None?
    ensures FindDecl(code, AnyName).None?
  {
    forall j | 0 <= j <= |code| ensures MatchDeclAt(code, j, AnyName).None? {
      assert !OccursAt(code, "const", j);
      if j + 5 <= |code| {
        KeywordIsConst(code, j);
      }
    }
  }

  // ------------------------------------------------------ the pool literal

  /** White space JSON allows between tokens. */
  predicate IsJsonWhitespace(c: char) {
    c == ' ' || c == '\t' || c == '\n' || c == '\r'
  }

  /** A character that stands for itself inside a JSON string. */
  predicate IsPlainStringChar(c: char) {
    c != '"' && c != '\\' && c as int >= 0x20
  }

  predicate IsPlainString(s: string) {
    forall i :: 0 <= i < |s| ==> IsPlainStringChar(s[i])
  }

  predicate AllPlain(pool: seq<string>) {
    forall k :: 0 <= k < |pool| ==> IsPlainString(pool[k])
  }

  /** Requoting the literal: every apostrophe becomes a double quote. */
  function Requote(raw: string): string {
    ReplaceChar(raw, '\'', "\"")
  }

  /** The elements of an array whose text, from its first element on, is
      `t`: a string literal, then `,` and more elements or the closing `]`
      with nothing but white space after it. */
  function ParseItems(t: string): (r: Option<seq<string>>)
    ensures r.Some? ==> |r.value| > 0 && AllPlain(r.value)
    decreases |t|
  {
    if |t| == 0 || t[0] != '"' then None
    else
      var j := SpanWhile(t, 1, IsPlainStringChar);
      if j == |t| || t[j] != '"' then None
      else
        var item := t[1..j];
        var k := SpanWhile(t, j + 1, IsJsonWhitespace);
        if k < |t| && t[k] == ',' then
          match ParseItems(t[SpanWhile(t, k + 1, IsJsonWhitespace)..])
          case None => None
          case Some(rest) => Some([item] + rest)
        else if k < |t| && t[k] == ']' && SpanWhile(t, k + 1, IsJsonWhitespace) == |t| then
          Some([item])
        else None
  }

  /** `JSON.parse` on the requoted literal, for arrays of strings without
      escape sequences. */
  function ParsePool(s: string): (r: Option<seq<string>>)
    ensures r.Some? ==> AllPlain(r.value)
  {
    if |s| == 0 || s[0] != '[' then None
    else
      var i := SpanWhile(s, 1, IsJsonWhitespace);
      if i < |s| && s[i] == ']' then
        if SpanWhile(s, i + 1, IsJsonWhitespace) == |s| then Some([]) else None
      else ParseItems(s[i..])
  }

  function Quote(x: string): string {
    "\"" + x + "\""
  }

  /** The elements written out, separated by `,`, then the closing `]`. */
  function ItemsClosed(pool: seq<string>): string
    requires |pool| > 0
  {
    Quote(pool[0]) + (if |pool| == 1 then "]" else "," + ItemsClosed(pool[1..]))
  }

  /** `JSON.stringify` of an array of strings that need no escaping. */
  function Stringify(pool: seq<string>): string
    requires AllPlain(pool)
  {
    "[" + (if |pool| == 0 then "]" else ItemsClosed(pool))
  }

  /** Reading one quoted element at the start of `t`. */
  lemma ReadQuoted(t: string, x: string, rest: string)
    requires IsPlainString(x) && t == Quote(x) + rest
    ensures t[0] == '"' && t[1 + |x|] == '"' && t[2 + |x|..] == rest
    ensures SpanWhile(t, 1, IsPlainStringChar) == 1 + |x|
    ensures t[1..1 + |x|] == x
  {
    forall m | 1 <= m < 1 + |x| ensures IsPlainStringChar(t[m]) {
      assert t[m] == x[m - 1];
    }
    SpanWhileAt(t, 1, 1 + |x|, IsPlainStringChar);
  }

  /** One element followed by `,` and further elements. */
  lemma ParseItemsNext(x: string, rest: string)
    requires IsPlainString(x) && |rest| > 0 && rest[0] == '"'
    ensures var t := Quote(x) + ("," + rest);
      ParseItems(rest).Some? ==> ParseItems(t) == Some([x] + ParseItems(rest).value)
  {
    var t := Quote(x) + ("," + rest);
    ReadQuoted(t, x, "," + rest);
    var j := 1 + |x|;
    assert t[j + 1] == ',' && t[j + 2..] == rest && t[j + 2] == '"';
    SpanWhileAt(t, j + 1, j + 1, IsJsonWhitespace);
    SpanWhileAt(t, j + 2, j + 2, IsJsonWhitespace);
  }

  /** The last element, followed by the closing `]`. */
  lemma ParseItemsLast(x: string)
    requires IsPlainString(x)
    ensures ParseItems(Quote(x) + "]") == Some([x])
  {
    var t := Quote(x) + "]";
    ReadQuoted(t, x, "]");
    var j := 1 + |x|;
    SpanWhileAt(t, j + 1, j + 1, IsJsonWhitespace);
    SpanWhileAt(t, j + 2, j + 2, IsJsonWhitespace);
  }

  lemma AllPlainTail(pool: seq<string>)
    requires |pool| > 0 && AllPlain(pool)
    ensures IsPlainString(pool[0]) && AllPlain(pool[1..])
  {
    forall k | 0 <= k < |pool| - 1 ensures IsPlainString(pool[1..][k]) {
      assert IsPlainString(pool[k + 1]);
    }
  }

  /** The written elements read back as the pool. */
  lemma {:induction false} ParseItemsOfItems(pool: seq<string>)
    requires |pool| > 0 && AllPlain(pool)
    ensures ParseItems(ItemsClosed(pool)) == Some(pool)
  {
    AllPlainTail(pool);
    if |pool| == 1 {
      assert ItemsClosed(pool) == Quote(pool[0]) + "]";
      ParseItemsLast(pool[0]);
      assert pool == [pool[0]];
    } else {
      var rest := ItemsClosed(pool[1..]);
      assert ItemsClosed(pool) == Quote(pool[0]) + ("," + rest);
      ParseItemsOfItems(pool[1..]);
      assert rest[0] == '"';
      ParseItemsNext(pool[0], rest);
      assert [pool[0]] + pool[1..] == pool;
    }
  }

  /** The written-back pool reads back as the same pool. */
  lemma ParseStringify(pool: seq<string>)
    requires AllPlain(pool)
    ensures ParsePool(Stringify(pool)) == Some(pool)
  {
    var s := Stringify(pool);
    if |pool| == 0 {
      assert s == "[]";
      SpanWhileAt(s, 1, 1, IsJsonWhitespace);
      SpanWhileAt(s, 2, 2, IsJsonWhitespace);
    } else {
      assert s[1..] == ItemsClosed(pool);
      assert s[1] == '"';
      SpanWhileAt(s, 1, 1, IsJsonWhitespace);
      ParseItemsOfItems(pool);
    }
  }

  // ------------------------------------------------------------ the offset

  /** The offset literal the rotation pattern captures: `0x` and hexadecimal
      digits, or decimal digits. */
  datatype OffsetLiteral = HexOffset(hexDigits: string) | DecimalOffset(decimalDigits: string) {
    predicate Valid() {
      match this
      case HexOffset(h) => |h| > 0 && forall i :: 0 <= i < |h| ==> HexDecode.IsHexDigit(h[i])
      case DecimalOffset(d) => |d| > 0 && forall i :: 0 <= i < |d| ==> '0' <= d[i] <= '9'
    }

    /** The literal as it stands in the code (`rawOffset`). */
    function Raw(): string {
      match this
      case HexOffset(h) => "0x" + h
      case DecimalOffset(d) => d
    }
  }

  type Offset = o: OffsetLiteral | o.Valid() witness DecimalOffset("0")

  function HexNumber(h: string): nat
    requires forall i :: 0 <= i < |h| ==> HexDecode.IsHexDigit(h[i])
  {
    if |h| == 0 then 0 else 16 * HexNumber(h[..|h| - 1]) + HexDecode.HexValue(h[|h| - 1])
  }

  function DecimalNumber(d: string): nat
    requires forall i :: 0 <= i < |d| ==> '0' <= d[i] <= '9'
  {
    if |d| == 0 then 0 else 10 * DecimalNumber(d[..|d| - 1]) + (d[|d| - 1] as int - '0' as int)
  }

  /** `parseInt(rawOffset)` with no radix: a `0x` prefix selects base 16,
      otherwise base 10. Both forms the pattern admits parse, so the `isNaN`
      guard never fires. */
  function OffsetValue(o: Offset): nat {
    match o
    case HexOffset(h) => HexNumber(h)
    case DecimalOffset(d) => DecimalNumber(d)
  }

  /** What the rotation pattern yields: the whole matched routine text and
      the captured offset literal. */
  datatype RotationMatch = RotationMatch(text: string, offset: Offset)

  // ------------------------------------------------------------ rotation

  /** The pool turned left `k` times: element `i` of the result is element
      `(i + k) % n` of the pool. */
  function RotatedLeft(pool: seq<string>, k: nat): (r: seq<string>)
    ensures |r| == |pool|
  {
    if |pool| == 0 then [] else pool[k % |pool|..] + pool[..k % |pool|]
  }

  lemma RotatedLeftAt(pool: seq<string>, k: nat, i: nat)
    requires i < |pool|
    ensures RotatedLeft(pool, k)[i] == pool[(i + k) % |pool|]
  {
    var n, m := |pool|, k % |pool|;
    if i < n - m {
      assert RotatedLeft(pool, k)[i] == pool[m + i];
      ModuloShift(i, k, n, 0);
    } else {
      assert RotatedLeft(pool, k)[i] == pool[i - (n - m)];
      ModuloShift(i, k, n, 1);
    }
  }

  lemma MulAtLeast(x: int, n: int)
    requires x >= 1 && n > 0
    ensures x * n >= n
  {
  }

  lemma MulAtMost(x: int, n: int)
    requires x <= -1 && n > 0
    ensures x * n <= -n
  {
  }

  /** Euclidean division has one remainder. */
  lemma ModUnique(a: int, n: int, q: int, r: int)
    requires n > 0 && 0 <= r < n && a == q * n + r
    ensures a % n == r
  {
    var q2, r2 := a / n, a % n;
    assert a == q2 * n + r2;
    assert (q - q2) * n == r2 - r;
    if q - q2 >= 1 {
      MulAtLeast(q - q2, n);
    } else if q - q2 <= -1 {
      MulAtMost(q - q2, n);
    }
  }

  /** `(i + k) % n` when `i + k % n` lies in the `q`-th copy of `[0, n)`. */
  lemma ModuloShift(i: nat, k: nat, n: nat, q: nat)
    requires n > 0 && q <= 1 && q * n <= i + k % n < (q + 1) * n
    ensures (i + k) % n == i + k % n - q * n
  {
    var t := k / n;
    assert k == t * n + k % n;
    assert i + k == (t + q) * n + (i + k % n - q * n);
    ModUnique(i + k, n, t + q, i + k % n - q * n);
  }

  /** Adding `n` does not change the remainder modulo `n`. */
  lemma ModAddPeriod(k: nat, n: nat)
    requires n > 0
    ensures (k + n) % n == k % n
  {
    var q := k / n;
    assert k == q * n + k % n;
    assert (q + 1) * n == q * n + n;
    ModUnique(k + n, n, q + 1, k % n);
  }

  /** Element `i` of the pool turned once more. */
  lemma RotateOnceAt(pool: seq<string>, k: nat, i: nat)
    requires i < |pool|
    ensures RotatedLeft(pool, k + 1)[i]
         == if i + 1 < |pool| then RotatedLeft(pool, k)[i + 1] else RotatedLeft(pool, k)[0]
  {
    var n := |pool|;
    RotatedLeftAt(pool, k + 1, i);
    if i + 1 < n {
      RotatedLeftAt(pool, k, i + 1);
      assert i + (k + 1) == (i + 1) + k;
    } else {
      RotatedLeftAt(pool, k, 0);
      assert i + (k + 1) == k + n;
      ModAddPeriod(k, n);
    }
  }

  /** One `push(shift())` on a non-empty pool. */
  lemma RotateOnce(pool: seq<string>, k: nat)
    requires |pool| > 0
    ensures var r := RotatedLeft(pool, k); r[1..] + [r[0]] == RotatedLeft(pool, k + 1)
  {
    var r := RotatedLeft(pool, k);
    var t := r[1..] + [r[0]];
    forall i | 0 <= i < |pool| ensures t[i] == RotatedLeft(pool, k + 1)[i] {
      RotateOnceAt(pool, k, i);
    }
  }

  /** The rotation loop of the source: the counter is seeded at `offset + 1`
      and the loop is `while (--internalCount)`, so the body runs exactly
      `offset` times; `shift` on an empty pool yields `undefined`, which is
      not pushed back. */
  method RotatePool(pool: seq<string>, offset: nat) returns (rotated: seq<string>)
    ensures rotated == RotatedLeft(pool, offset)
  {
    rotated := pool;
    var internalCount := offset + 1;
    internalCount := internalCount - 1;  // the first `--internalCount` of the loop test
    while internalCount != 0
      invariant 0 <= internalCount <= offset
      invariant rotated == RotatedLeft(pool, offset - internalCount)
    {
      if |rotated| > 0 {
        RotateOnce(pool, offset - internalCount);
        var item := rotated[0];
        rotated := rotated[1..] + [item];
      }
      internalCount := internalCount - 1;  // the next `--internalCount`
    }
  }

  /** The worked case: `["a","b","c","d"]` with offset 1. */
  lemma RotationExample()
    ensures RotatedLeft(["a", "b", "c", "d"], 1) == ["b", "c", "d", "a"]
  {
  }

  // --------------------------------------------------------- rewriting

  /** The rewritten declaration: the same name bound to the rotated pool,
      printed as a JSON array. */
  function NewDeclaration(name: string, pool: seq<string>): string
    requires AllPlain(pool)
  {
    "const " + name + " = " + Stringify(pool) + ";"
  }

  /** The comment that replaces the rotation routine. */
  function Marker(o: Offset): string {
    "/* [DFIR] Array rotation of " + o.Raw() + " reversed & neutralized */"
  }

  /** `resolveArrayRotations`. `rotationRegex(code, name)` stands for the
      first match in `code` of the rotation pattern built for array `name`. */
  method ResolveArrayRotations(code: string, rotationRegex: (string, string) -> Option<RotationMatch>)
    returns (newCode: string)
    ensures FindDecl(code, AnyName).None? ==> newCode == code
    ensures FindDecl(code, AnyName).Some? ==>
      var decl := FindDecl(code, AnyName).value;
      match ParsePool(Requote(decl.literal))
      case None => newCode == code
      case Some(pool) =>
        match rotationRegex(code, decl.name)
        case None => newCode == code
        case Some(m) =>
          newCode == ReplaceFirst(
            ReplaceFirst(code, decl.text, NewDeclaration(decl.name, RotatedLeft(pool, OffsetValue(m.offset)))),
            m.text, Marker(m.offset))
  {
    var poolMatch := FindDecl(code, AnyName);
    if poolMatch.None? {
      return code;
    }
    var decl := poolMatch.value;
    var arrayContent := ParsePool(Requote(decl.literal));
    if arrayContent.None? {
      return code;
    }
    var rotMatch := rotationRegex(code, decl.name);
    if rotMatch.None? {
      return code;
    }
    var offset := OffsetValue(rotMatch.value.offset);
    var rotatedArray := RotatePool(arrayContent.value, offset);
    var newArrayString := NewDeclaration(decl.name, rotatedArray);
    newCode := ReplaceFirst(code, decl.text, newArrayString);
    newCode := ReplaceFirst(newCode, rotMatch.value.text, Marker(rotMatch.value.offset));
  }

  // ------------------------------------------------ extractStringPool

  datatype StringPool = StringPool(arrayName: string, strings: seq<string>)

  /** A name of the form `_0x` followed by hexadecimal digits, `x` in either case. */
  predicate IsHexPoolName(name: string) {
    && |name| > 3 && name[0] == '_' && name[1] == '0' && (name[2] == 'x' || name[2] == 'X')
    && forall i :: 3 <= i < |name| ==> HexDecode.IsHexDigit(name[i])
  }

  /** `extractStringPool`: the first `_0x…` pool declaration and its strings,
      or `None` (the source's `null`) when there is none or it does not parse. */
  function ExtractStringPool(code: string): (r: Option<StringPool>)
    ensures r.None? <==>
      FindDecl(code, HexName).None? || ParsePool(Requote(FindDecl(code, HexName).value.literal)).None?
    ensures r.Some? ==>
      var decl := FindDecl(code, HexName).value;
      && r.value.arrayName == decl.name && IsHexPoolName(r.value.arrayName)
      && Some(r.value.strings) == ParsePool(Requote(decl.literal))
      && AllPlain(r.value.strings)
  {
    match FindDecl(code, HexName)
    case None => None
    case Some(decl) =>
      match ParsePool(Requote(decl.literal))
      case None => None
      case Some(strings) =>
        DeclShape(code, decl.start, HexName, decl);
        Some(StringPool(decl.name, strings))
  }
}
