/** `staticIocScan` (utils/deobfuscationLogic.ts): six signature patterns run
    in a fixed order over the code; the matches of each pattern are made
    distinct (exactly, as a JavaScript `Set` does), DOMAIN hits that end in
    a JavaScript member access are dropped, and every hit is tagged
    'Static Signature Match'. */
module IocScan {
  import opened Text
  import HexDecode

  datatype IocType = IP | URL | DOMAIN | MD5 | SHA1 | SHA256

  /** The order of the `patterns` table. */
  const PatternOrder: seq<IocType> := [IP, URL, DOMAIN, MD5, SHA1, SHA256]

  /** Position of a type in the `patterns` table. */
  function Rank(t: IocType): (r: nat)
    ensures r < |PatternOrder| && PatternOrder[r] == t
  {
    match t
    case IP => 0
    case URL => 1
    case DOMAIN => 2
    case MD5 => 3
    case SHA1 => 4
    case SHA256 => 5
  }

  const SignatureContext: string := "Static Signature Match"

  /** One entry of the result: `{ type, value, context }`. */
  datatype Ioc = Ioc(kind: IocType, value: string, context: string)

  /** The three network patterns are regular expressions run with the global
      flag; each stands here for the list of its matches in the code, left
      to right (an empty list for the source's `null`). */
  datatype NetworkPatterns = NetworkPatterns(
    ip: string -> seq<string>,
    url: string -> seq<string>,
    domain: string -> seq<string>)

  // ------------------------------------------------------- hash patterns

  /** A character `\b` counts as part of a word. */
  predicate IsWordChar(c: char) {
    c == '_' || 'a' <= c <= 'z' || 'A' <= c <= 'Z' || '0' <= c <= '9'
  }

  /** `\b[a-fA-F0-9]{n}\b` matches at `p`. */
  predicate IsHashAt(code: string, p: nat, n: nat) {
    && p + n <= |code|
    && (p == 0 || !IsWordChar(code[p - 1]))
    && (forall m :: p <= m < p + n ==> HexDecode.IsHexDigit(code[m]))
    && (p + n == |code| || !IsWordChar(code[p + n]))
  }

  /** Position `i` is not inside a word that started before it. */
  predicate WordBoundaryBefore(code: string, i: nat) {
    i == 0 || i >= |code| || !IsWordChar(code[i - 1]) || !IsWordChar(code[i])
  }

  /** The start positions of the matches of `\b[a-fA-F0-9]{n}\b` from `i`
      on, in increasing order. A match starts at a word start, so the scan
      jumps over whole words. */
  function HashStarts(code: string, i: nat, n: nat): (r: seq<nat>)
    requires i <= |code| && n > 0
    requires WordBoundaryBefore(code, i)
    ensures forall k :: 0 <= k < |r| ==> i <= r[k] && IsHashAt(code, r[k], n)
    ensures forall k, l :: 0 <= k < l < |r| ==> r[k] < r[l]
    decreases |code| - i
  {
    if i == |code| then []
    else if !IsWordChar(code[i]) then HashStarts(code, i + 1, n)
    else
      var e := SpanWhile(code, i, IsWordChar);
      HashRunFacts(code, i, e, n);
      var rest := HashStarts(code, e, n);
      if IsHashAt(code, i, n) then [i] + rest else rest
  }

  /** The scan misses no match. */
  lemma {:induction false} HashStartsComplete(code: string, i: nat, n: nat, p: nat)
    requires i <= p <= |code| && n > 0 && WordBoundaryBefore(code, i) && IsHashAt(code, p, n)
    ensures p in HashStarts(code, i, n)
    decreases |code| - i
  {
    assert HexDecode.IsHexDigit(code[p]);
    if i == |code| {
    } else if !IsWordChar(code[i]) {
      HashStartsComplete(code, i + 1, n, p);
    } else {
      var e := SpanWhile(code, i, IsWordChar);
      HashRunFacts(code, i, e, n);
      if p >= e {
        HashStartsComplete(code, e, n, p);
      }
    }
  }

  /** Inside the word `[i, e)` only its first position can start a match,
      and it does exactly when the word is `n` hexadecimal digits. */
  lemma HashRunFacts(code: string, i: nat, e: nat, n: nat)
    requires i < e <= |code| && n > 0 && WordBoundaryBefore(code, i) && IsWordChar(code[i])
    requires e == SpanWhile(code, i, IsWordChar)
    ensures forall p :: i < p < e ==> !IsHashAt(code, p, n)
    ensures e == |code| || !IsWordChar(code[e])
  {
    forall p | i < p < e ensures !IsHashAt(code, p, n) {
      assert IsWordChar(code[p - 1]);
    }
    if IsHashAt(code, i, n) {
      SpanWhileAt(code, i, i + n, IsWordChar);
    }
  }

  /** The hash hits: every whole word of exactly `n` hex digits, left to right. */
  function HashMatches(code: string, n: nat): (r: seq<string>)
    requires n > 0
  {
    var starts := HashStarts(code, 0, n);
    seq(|starts|, k requires 0 <= k < |starts| => code[starts[k]..starts[k] + n])
  }

  /** Every hash match is `n` hexadecimal digits. */
  lemma HashMatchesSound(code: string, n: nat)
    requires n > 0
    ensures forall k :: 0 <= k < |HashMatches(code, n)| ==> IsHexWord(HashMatches(code, n)[k], n)
  {
    var starts := HashStarts(code, 0, n);
    var r := HashMatches(code, n);
    forall k | 0 <= k < |r| ensures IsHexWord(r[k], n) {
      HashMatchSound(code, starts[k], n);
    }
  }

  /** `n` hexadecimal digits. */
  predicate IsHexWord(w: string, n: nat) {
    |w| == n && forall m :: 0 <= m < n ==> HexDecode.IsHexDigit(w[m])
  }

  lemma HashMatchSound(code: string, p: nat, n: nat)
    requires IsHashAt(code, p, n)
    ensures IsHexWord(code[p..p + n], n)
  {
    var w := code[p..p + n];
    forall m | 0 <= m < n ensures HexDecode.IsHexDigit(w[m]) {
      assert w[m] == code[p + m];
    }
  }

  /** Every `n` hexadecimal digits standing as a whole word are matched. */
  lemma HashMatchesComplete(code: string, n: nat, p: nat)
    requires n > 0 && p <= |code| && IsHashAt(code, p, n)
    ensures code[p..p + n] in HashMatches(code, n)
  {
    var starts := HashStarts(code, 0, n);
    HashStartsComplete(code, 0, n, p);
    var k :| 0 <= k < |starts| && starts[k] == p;
    assert HashMatches(code, n)[k] == code[p..p + n];
  }

  /** `code.match(regex)` for each pattern of the table. */
  function Matches(code: string, t: IocType, net: NetworkPatterns): seq<string> {
    match t
    case IP => net.ip(code)
    case URL => net.url(code)
    case DOMAIN => net.domain(code)
    case MD5 => HashMatches(code, 32)
    case SHA1 => HashMatches(code, 40)
    case SHA256 => HashMatches(code, 64)
  }

  // ------------------------------------------------------ de-duplication

  /** `[...new Set(xs)]`: each value once, where it first occurs. */
  function Distinct(xs: seq<string>): (r: seq<string>)
    ensures forall i, j :: 0 <= i < j < |r| ==> r[i] != r[j]
    ensures forall x :: x in r <==> x in xs
  {
    if |xs| == 0 then []
    else
      var d := Distinct(xs[..|xs| - 1]);
      assert xs == xs[..|xs| - 1] + [xs[|xs| - 1]];
      if xs[|xs| - 1] in d then d else d + [xs[|xs| - 1]]
  }

  /** Where `x` first occurs in `xs`. */
  function FirstIndex(xs: seq<string>, x: string): (r: nat)
    requires x in xs
    ensures r < |xs| && xs[r] == x && forall k :: 0 <= k < r ==> xs[k] != x
  {
    if xs[0] == x then 0 else 1 + FirstIndex(xs[1..], x)
  }

  lemma FirstIndexUnique(xs: seq<string>, x: string, k: nat)
    requires k < |xs| && xs[k] == x && forall m :: 0 <= m < k ==> xs[m] != x
    ensures FirstIndex(xs, x) == k
  {
  }

  /** The values of `[...new Set(xs)]` come in the order of their first
      occurrences in `xs`. */
  lemma {:induction false} DistinctInFirstOccurrenceOrder(xs: seq<string>)
    ensures forall i, j :: 0 <= i < j < |Distinct(xs)| ==>
      FirstIndex(xs, Distinct(xs)[i]) < FirstIndex(xs, Distinct(xs)[j])
  {
    if |xs| > 0 {
      var ys, z := xs[..|xs| - 1], xs[|xs| - 1];
      assert xs == ys + [z];
      var d := Distinct(ys);
      DistinctInFirstOccurrenceOrder(ys);
      forall x | x in ys ensures FirstIndex(xs, x) == FirstIndex(ys, x) {
        FirstIndexUnique(xs, x, FirstIndex(ys, x));
      }
      var r := Distinct(xs);
      if z !in d {
        FirstIndexUnique(xs, z, |ys|);
      }
      forall i, j | 0 <= i < j < |r| ensures FirstIndex(xs, r[i]) < FirstIndex(xs, r[j]) {
        assert r[i] == d[i] && d[i] in ys;
        if j < |d| {
          assert r[j] == d[j] && d[j] in ys;
        } else {
          assert r[j] == z && z !in ys;
        }
      }
    }
  }

  /** The `Set` compares exactly: values differing only in case are kept apart. */
  lemma DistinctIsCaseSensitive()
    ensures Distinct(["A", "a", "A"]) == ["A", "a"]
  {
    assert ["A", "a", "A"][..2] == ["A", "a"];
    assert ["A", "a"][..1] == ["A"];
    assert ["A"][..0] == [];
  }

  /** Building the `Set` and spreading it: each value is added if not yet seen. */
  method Dedup(xs: seq<string>) returns (unique: seq<string>)
    ensures unique == Distinct(xs)
  {
    var seen: set<string> := {};
    unique := [];
    var i := 0;
    while i < |xs|
      invariant 0 <= i <= |xs|
      invariant unique == Distinct(xs[..i])
      invariant forall x :: x in seen <==> x in unique
    {
      assert xs[..i + 1][..i] == xs[..i];
      if xs[i] !in seen {
        seen := seen + {xs[i]};
        unique := unique + [xs[i]];
      }
      i := i + 1;
    }
    assert xs[..i] == xs;
  }

  // --------------------------------------------------------- filtering

  /** The six array-method suffixes whose DOMAIN hits are member accesses,
      not domains. */
  const JsMemberSuffixes: seq<string> := [".length", ".push", ".shift", ".slice", ".join", ".sort"]

  /** Whether the value, lower-cased, ends in one of those suffixes. */
  predicate EndsInJsMember(value: string) {
    exists k :: 0 <= k < |JsMemberSuffixes| && EndsWith(ToLowerAscii(value), JsMemberSuffixes[k])
  }

  /** Whether a hit of type `t` is reported. */
  predicate Reported(t: IocType, value: string) {
    !(t == DOMAIN && EndsInJsMember(value))
  }

  /** The entries pushed for the distinct matches `vs` of pattern `t`. */
  function Tagged(t: IocType, vs: seq<string>): (r: seq<Ioc>)
    ensures |r| <= |vs|
  {
    if |vs| == 0 then []
    else
      Tagged(t, vs[..|vs| - 1])
      + (if Reported(t, vs[|vs| - 1]) then [Ioc(t, vs[|vs| - 1], SignatureContext)] else [])
  }

  /** What each pattern contributes. */
  function ScanPattern(code: string, t: IocType, net: NetworkPatterns): seq<Ioc> {
    Tagged(t, Distinct(Matches(code, t, net)))
  }

  /** What the patterns `ts`, run in order, contribute. */
  function ScanPatterns(code: string, ts: seq<IocType>, net: NetworkPatterns): seq<Ioc> {
    if |ts| == 0 then []
    else ScanPatterns(code, ts[..|ts| - 1], net) + ScanPattern(code, ts[|ts| - 1], net)
  }

  /** The whole result of `staticIocScan`. */
  function StaticIocs(code: string, net: NetworkPatterns): seq<Ioc> {
    ScanPatterns(code, PatternOrder, net)
  }

  /** Running one more pattern of the table appends what it contributes. */
  lemma ScanPatternsNext(code: string, p: nat, net: NetworkPatterns)
    requires p < |PatternOrder|
    ensures ScanPatterns(code, PatternOrder[..p + 1], net)
         == ScanPatterns(code, PatternOrder[..p], net) + ScanPattern(code, PatternOrder[p], net)
  {
    assert PatternOrder[..p + 1][..p] == PatternOrder[..p];
  }

  /** The inner `unique.forEach` of `staticIocScan`: pushes an entry for
      each distinct match, skipping DOMAIN hits that end in a member access. */
  method PushEntries(iocs: seq<Ioc>, t: IocType, unique: seq<string>) returns (pushed: seq<Ioc>)
    ensures pushed == iocs + Tagged(t, unique)
  {
    pushed := iocs;
    var j := 0;
    while j < |unique|
      invariant 0 <= j <= |unique|
      invariant pushed == iocs + Tagged(t, unique[..j])
    {
      var m := unique[j];
      assert unique[..j + 1][..j] == unique[..j];
      if !(t == DOMAIN && EndsInJsMember(m)) {
        pushed := pushed + [Ioc(t, m, SignatureContext)];
      }
      j := j + 1;
    }
    assert unique[..j] == unique;
  }

  /** `staticIocScan`: `patterns.forEach` over the table, pushing the entries
      of each pattern's de-duplicated matches onto `iocs`. */
  method StaticIocScan(code: string, net: NetworkPatterns) returns (iocs: seq<Ioc>)
    ensures iocs == StaticIocs(code, net)
  {
    iocs := [];
    var p := 0;
    while p < |PatternOrder|
      invariant 0 <= p <= |PatternOrder|
      invariant iocs == ScanPatterns(code, PatternOrder[..p], net)
    {
      var t := PatternOrder[p];
      var unique := Dedup(Matches(code, t, net));
      iocs := PushEntries(iocs, t, unique);
      ScanPatternsNext(code, p, net);
      p := p + 1;
    }
    assert PatternOrder[..p] == PatternOrder;
  }

  // -------------------------------------------------------- properties

  /** Entries of one type never come after entries of a later type. */
  ghost predicate Grouped(r: seq<Ioc>) {
    forall i, j :: 0 <= i < j < |r| ==> Rank(r[i].kind) <= Rank(r[j].kind)
  }

  /** Within a type, no value is reported twice. */
  ghost predicate DistinctPerType(r: seq<Ioc>) {
    forall i, j :: 0 <= i < j < |r| && r[i].kind == r[j].kind ==> r[i].value != r[j].value
  }

  /** Within a type, values come in the order of their first occurrences
      among the pattern's matches. */
  ghost predicate OrderedPerType(code: string, net: NetworkPatterns, r: seq<Ioc>) {
    forall i, j :: 0 <= i < j < |r| && r[i].kind == r[j].kind ==>
      && r[i].value in Matches(code, r[i].kind, net) && r[j].value in Matches(code, r[j].kind, net)
      && FirstIndex(Matches(code, r[i].kind, net), r[i].value) < FirstIndex(Matches(code, r[j].kind, net), r[j].value)
  }

  /** Every entry carries the signature tag and is a reported match of its type. */
  ghost predicate EntriesSound(code: string, net: NetworkPatterns, r: seq<Ioc>) {
    forall k :: 0 <= k < |r| ==>
      r[k].context == SignatureContext && r[k].value in Matches(code, r[k].kind, net) && Reported(r[k].kind, r[k].value)
  }

  /** Every entry for one pattern has its type and the signature tag, and
      its value is one of the pattern's values that is reported. */
  lemma {:induction false} TaggedEntries(t: IocType, vs: seq<string>)
    ensures forall k :: 0 <= k < |Tagged(t, vs)| ==>
      && Tagged(t, vs)[k].kind == t && Tagged(t, vs)[k].context == SignatureContext
      && Tagged(t, vs)[k].value in vs && Reported(t, Tagged(t, vs)[k].value)
  {
    if |vs| > 0 {
      var us, v := vs[..|vs| - 1], vs[|vs| - 1];
      TaggedEntries(t, us);
      var q := Tagged(t, us);
      var r := Tagged(t, vs);
      forall k | 0 <= k < |r|
        ensures r[k].kind == t && r[k].context == SignatureContext && r[k].value in vs && Reported(t, r[k].value)
      {
        if k < |q| {
          assert r[k] == q[k];
          var m :| 0 <= m < |us| && us[m] == q[k].value;
          assert vs[m] == us[m];
        } else {
          assert r[k] == Ioc(t, v, SignatureContext) && Reported(t, v);
        }
      }
    }
  }

  /** Every reported value gets its entry. */
  lemma {:induction false} TaggedComplete(t: IocType, vs: seq<string>, v: string)
    requires v in vs && Reported(t, v)
    ensures Ioc(t, v, SignatureContext) in Tagged(t, vs)
  {
    var us := vs[..|vs| - 1];
    assert vs == us + [vs[|vs| - 1]];
    if v != vs[|vs| - 1] {
      TaggedComplete(t, us, v);
    }
  }

  /** Distinct values give entries with distinct values. */
  lemma {:induction false} TaggedDistinct(t: IocType, vs: seq<string>)
    requires forall i, j :: 0 <= i < j < |vs| ==> vs[i] != vs[j]
    ensures forall i, j :: 0 <= i < j < |Tagged(t, vs)| ==> Tagged(t, vs)[i].value != Tagged(t, vs)[j].value
  {
    if |vs| > 0 {
      var us, v := vs[..|vs| - 1], vs[|vs| - 1];
      TaggedDistinct(t, us);
      TaggedEntries(t, us);
      var q := Tagged(t, us);
      var r := Tagged(t, vs);
      forall i, j | 0 <= i < j < |r| ensures r[i].value != r[j].value {
        if j >= |q| {
          assert r[i] == q[i] && r[j].value == v;
          var m :| 0 <= m < |us| && us[m] == q[i].value;
          assert vs[m] == us[m] && vs[|vs| - 1] == v;
        } else {
          assert r[i] == q[i] && r[j] == q[j];
        }
      }
    }
  }

  /** Dropping the member accesses keeps the order: values that come in
      first-occurrence order in `xs` give entries in that order. */
  lemma {:induction false} TaggedOrder(t: IocType, xs: seq<string>, vs: seq<string>)
    requires forall v :: v in vs ==> v in xs
    requires forall i, j :: 0 <= i < j < |vs| ==> FirstIndex(xs, vs[i]) < FirstIndex(xs, vs[j])
    ensures forall i, j :: 0 <= i < j < |Tagged(t, vs)| ==>
      && Tagged(t, vs)[i].value in xs && Tagged(t, vs)[j].value in xs
      && FirstIndex(xs, Tagged(t, vs)[i].value) < FirstIndex(xs, Tagged(t, vs)[j].value)
  {
    if |vs| > 0 {
      var us, v := vs[..|vs| - 1], vs[|vs| - 1];
      assert forall m :: 0 <= m < |us| ==> us[m] == vs[m];
      TaggedOrder(t, xs, us);
      TaggedEntries(t, us);
      var q := Tagged(t, us);
      var r := Tagged(t, vs);
      forall i, j | 0 <= i < j < |r|
        ensures r[i].value in xs && r[j].value in xs && FirstIndex(xs, r[i].value) < FirstIndex(xs, r[j].value)
      {
        if j < |q| {
          assert r[i] == q[i] && r[j] == q[j];
        } else {
          assert r[i] == q[i] && r[j].value == v;
          var m :| 0 <= m < |us| && us[m] == q[i].value;
          assert vs[m] == q[i].value && vs[|vs| - 1] == v;
        }
      }
    } else {
      assert |Tagged(t, vs)| == 0;
    }
  }

  /** Over a run of patterns, every entry is sound. */
  lemma {:induction false} ScanPatternsSound(code: string, ts: seq<IocType>, net: NetworkPatterns)
    ensures EntriesSound(code, net, ScanPatterns(code, ts, net))
  {
    if |ts| > 0 {
      var t := ts[|ts| - 1];
      ScanPatternsSound(code, ts[..|ts| - 1], net);
      TaggedEntries(t, Distinct(Matches(code, t, net)));
      var q := ScanPatterns(code, ts[..|ts| - 1], net);
      var s := ScanPattern(code, t, net);
      var r := q + s;
      forall k | 0 <= k < |r|
        ensures r[k].context == SignatureContext && r[k].value in Matches(code, r[k].kind, net) && Reported(r[k].kind, r[k].value)
      {
        if k < |q| {
          assert r[k] == q[k];
        } else {
          assert r[k] == s[k - |q|];
        }
      }
    }
  }

  /** Entries of patterns all ranked below `b` are ranked below `b`. */
  lemma {:induction false} ScanPatternsBelow(code: string, ts: seq<IocType>, net: NetworkPatterns, b: nat)
    requires forall m :: 0 <= m < |ts| ==> Rank(ts[m]) < b
    ensures forall k :: 0 <= k < |ScanPatterns(code, ts, net)| ==> Rank(ScanPatterns(code, ts, net)[k].kind) < b
  {
    if |ts| > 0 {
      var t := ts[|ts| - 1];
      ScanPatternsBelow(code, ts[..|ts| - 1], net, b);
      TaggedEntries(t, Distinct(Matches(code, t, net)));
      var q := ScanPatterns(code, ts[..|ts| - 1], net);
      var s := ScanPattern(code, t, net);
      var r := q + s;
      forall k | 0 <= k < |r| ensures Rank(r[k].kind) < b {
        if k < |q| {
          assert r[k] == q[k];
        } else {
          assert r[k] == s[k - |q|];
        }
      }
    }
  }

  /** Over patterns of increasing rank, entries come grouped in the order
      of the patterns, and within a type no value appears twice. */
  lemma {:induction false} ScanPatternsGrouped(code: string, ts: seq<IocType>, net: NetworkPatterns)
    requires forall i, j :: 0 <= i < j < |ts| ==> Rank(ts[i]) < Rank(ts[j])
    ensures Grouped(ScanPatterns(code, ts, net)) && DistinctPerType(ScanPatterns(code, ts, net))
  {
    if |ts| > 0 {
      var us, t := ts[..|ts| - 1], ts[|ts| - 1];
      ScanPatternsGrouped(code, us, net);
      ScanPatternsBelow(code, us, net, Rank(t));
      var vs := Distinct(Matches(code, t, net));
      TaggedEntries(t, vs);
      TaggedDistinct(t, vs);
      var q := ScanPatterns(code, us, net);
      var s := ScanPattern(code, t, net);
      var r := q + s;
      forall i, j | 0 <= i < j < |r|
        ensures Rank(r[i].kind) <= Rank(r[j].kind)
        ensures r[i].kind == r[j].kind ==> r[i].value != r[j].value
      {
        if j < |q| {
          assert r[i] == q[i] && r[j] == q[j];
        } else if i < |q| {
          assert r[i] == q[i] && r[j] == s[j - |q|];
        } else {
          assert r[i] == s[i - |q|] && r[j] == s[j - |q|];
        }
      }
    }
  }

  /** Over patterns of increasing rank, the values of each type come in the
      order of their first occurrences among that type's matches. */
  lemma {:induction false} ScanPatternsOrdered(code: string, ts: seq<IocType>, net: NetworkPatterns)
    requires forall i, j :: 0 <= i < j < |ts| ==> Rank(ts[i]) < Rank(ts[j])
    ensures OrderedPerType(code, net, ScanPatterns(code, ts, net))
  {
    if |ts| > 0 {
      var us, t := ts[..|ts| - 1], ts[|ts| - 1];
      ScanPatternsOrdered(code, us, net);
      ScanPatternsBelow(code, us, net, Rank(t));
      var xs := Matches(code, t, net);
      var vs := Distinct(xs);
      TaggedEntries(t, vs);
      DistinctInFirstOccurrenceOrder(xs);
      TaggedOrder(t, xs, vs);
      var q := ScanPatterns(code, us, net);
      var s := ScanPattern(code, t, net);
      var r := q + s;
      forall i, j | 0 <= i < j < |r| && r[i].kind == r[j].kind
        ensures r[i].value in Matches(code, r[i].kind, net) && r[j].value in Matches(code, r[j].kind, net)
        ensures FirstIndex(Matches(code, r[i].kind, net), r[i].value) < FirstIndex(Matches(code, r[j].kind, net), r[j].value)
      {
        if j < |q| {
          assert r[i] == q[i] && r[j] == q[j];
        } else if i < |q| {
          assert false;
        } else {
          assert r[i] == s[i - |q|] && r[j] == s[j - |q|];
          assert r[i].kind == t && r[j].kind == t;
        }
      }
    }
  }

  /** The scan result as the source promises it: grouped IP, URL, DOMAIN,
      MD5, SHA1, SHA256; within a type no value twice, in the order of first
      occurrence; every context is
      'Static Signature Match'; every value a match of its type; no DOMAIN
      value ends in a member access. */
  lemma StaticIocsShape(code: string, net: NetworkPatterns)
    ensures Grouped(StaticIocs(code, net)) && DistinctPerType(StaticIocs(code, net))
    ensures OrderedPerType(code, net, StaticIocs(code, net))
    ensures EntriesSound(code, net, StaticIocs(code, net))
    ensures forall k :: 0 <= k < |StaticIocs(code, net)| && StaticIocs(code, net)[k].kind == DOMAIN ==>
      !EndsInJsMember(StaticIocs(code, net)[k].value)
  {
    assert forall i, j :: 0 <= i < j < |PatternOrder| ==> Rank(PatternOrder[i]) < Rank(PatternOrder[j]);
    ScanPatternsSound(code, PatternOrder, net);
    ScanPatternsGrouped(code, PatternOrder, net);
    ScanPatternsOrdered(code, PatternOrder, net);
  }

  /** Nothing reported is lost: every match of a pattern that is not a
      DOMAIN member access is in the result under its type. */
  lemma {:induction false} ScanPatternsComplete(code: string, ts: seq<IocType>, net: NetworkPatterns, t: IocType, v: string)
    requires t in ts && v in Matches(code, t, net) && Reported(t, v)
    ensures Ioc(t, v, SignatureContext) in ScanPatterns(code, ts, net)
  {
    var us := ts[..|ts| - 1];
    assert ts == us + [ts[|ts| - 1]];
    if t == ts[|ts| - 1] {
      TaggedComplete(t, Distinct(Matches(code, t, net)), v);
    } else {
      ScanPatternsComplete(code, us, net, t, v);
    }
  }

  lemma StaticIocsComplete(code: string, net: NetworkPatterns, t: IocType, v: string)
    requires v in Matches(code, t, net) && Reported(t, v)
    ensures Ioc(t, v, SignatureContext) in StaticIocs(code, net)
  {
    assert PatternOrder[Rank(t)] == t;
    ScanPatternsComplete(code, PatternOrder, net, t, v);
  }

  /** A DOMAIN hit such as `arr.length` is dropped, in any letter case. */
  lemma MemberAccessIsDropped()
    ensures !Reported(DOMAIN, "items.Length")
  {
    assert EndsWith(ToLowerAscii("items.Length"), JsMemberSuffixes[0]);
  }
}
