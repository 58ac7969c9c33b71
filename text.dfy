/**
 * The pieces of Python's `str` and `re` that the core relies on, over
 * `seq<char>`. Character classes are the ASCII parts of Python's Unicode
 * classes: `\w` is `[A-Za-z0-9_]`, `\s` and `str.isspace()` are
 * `[ \t\n\x0b\x0c\r\x1c-\x1f]`.
 */
module Text {

  predicate IsLetter(c: char) { 'a' <= c <= 'z' || 'A' <= c <= 'Z' }

  predicate IsDigit(c: char) { '0' <= c <= '9' }

  /** `\w` */
  predicate IsWordChar(c: char) { IsLetter(c) || IsDigit(c) || c == '_' }

  /** `\s`, and the characters `str.strip()` and `str.split()` treat as blank */
  predicate IsSpace(c: char) { c == ' ' || '\t' <= c <= '\r' || '\U{1c}' <= c <= '\U{1f}' }

  predicate AllSpace(s: string) { forall i :: 0 <= i < |s| ==> IsSpace(s[i]) }

  // ---------------------------------------------------------------- strip

  /** `str.lstrip()` */
  function TrimLeft(s: string): (r: string)
    ensures |r| <= |s| && r == s[|s| - |r|..]
    ensures r == [] || !IsSpace(r[0])
    ensures AllSpace(s[..|s| - |r|])
  {
    if s != [] && IsSpace(s[0]) then
      var r := TrimLeft(s[1..]);
      assert s[..|s| - |r|] == [s[0]] + s[1..][..|s| - 1 - |r|];
      r
    else
      assert s[..0] == [];
      s
  }

  /** `str.rstrip()` */
  function TrimRight(s: string): (r: string)
    ensures |r| <= |s| && r == s[..|r|]
    ensures r == [] || !IsSpace(r[|r| - 1])
    ensures AllSpace(s[|r|..])
  {
    if s != [] && IsSpace(s[|s| - 1]) then
      var r := TrimRight(s[..|s| - 1]);
      assert s[|r|..] == s[..|s| - 1][|r|..] + [s[|s| - 1]];
      r
    else
      assert s[|s|..] == [];
      s
  }

  /** `str.strip()`: the infix of `s` between its leading and trailing blanks */
  function Strip(s: string): (r: string)
    ensures r == [] || (!IsSpace(r[0]) && !IsSpace(r[|r| - 1]))
    ensures r == [] <==> AllSpace(s)
    ensures StripStart(s) + |r| <= |s|
    ensures r == s[StripStart(s)..StripStart(s) + |r|]
    ensures AllSpace(s[..StripStart(s)]) && AllSpace(s[StripStart(s) + |r|..])
  {
    var l := TrimLeft(s);
    var r := TrimRight(l);
    StripParts(s, StripStart(s), l, r);
    r
  }

  /** `s` split as blanks, `r`, blanks, where `l == s[a..]` and `r == l[..|r|]` */
  lemma StripParts(s: string, a: nat, l: string, r: string)
    requires a <= |s| && l == s[a..] && |r| <= |l| && r == l[..|r|]
    requires AllSpace(s[..a]) && AllSpace(l[|r|..])
    requires l == [] || !IsSpace(l[0])
    requires r == [] || !IsSpace(r[|r| - 1])
    ensures r == [] || (!IsSpace(r[0]) && !IsSpace(r[|r| - 1]))
    ensures r == [] <==> AllSpace(s)
    ensures a + |r| <= |s| && r == s[a..a + |r|]
    ensures AllSpace(s[..a]) && AllSpace(s[a + |r|..])
  {
    assert s[a + |r|..] == l[|r|..];
    if r == [] {
      assert s == s[..a] + l;
    } else {
      assert r[0] == l[0] == s[a];
    }
  }

  /** Where the stripped text starts in `s` */
  function StripStart(s: string): (a: nat)
    ensures a <= |s|
  {
    |s| - |TrimLeft(s)|
  }

  /** Text without leading or trailing blanks is left alone */
  lemma StripFixed(s: string)
    requires s == [] || (!IsSpace(s[0]) && !IsSpace(s[|s| - 1]))
    ensures Strip(s) == s
  {
    if s != [] {
      assert TrimLeft(s) == s;
      assert TrimRight(s) == s;
    }
  }

  lemma StripIdempotent(s: string)
    ensures Strip(Strip(s)) == Strip(s)
  {
    StripFixed(Strip(s));
  }

  // ------------------------------------------------------ small predicates

  function LowerChar(c: char): char {
    if 'A' <= c <= 'Z' then (c as int + 32) as char else c
  }

  /** `str.lower()` on ASCII */
  function Lower(s: string): string {
    seq(|s|, i requires 0 <= i < |s| => LowerChar(s[i]))
  }

  /** `str.endswith(suffix)` */
  predicate EndsWith(s: string, suffix: string) {
    |suffix| <= |s| && s[|s| - |suffix|..] == suffix
  }

  /** `sub in s` */
  predicate Contains(s: string, sub: string) {
    exists i | 0 <= i <= |s| - |sub| :: OccursAt(s, sub, i)
  }

  predicate OccursAt(s: string, sub: string, i: nat) {
    i + |sub| <= |s| && s[i..i + |sub|] == sub
  }

  lemma ContainsExtends(s: string, sub: string, t: string)
    requires Contains(s, sub)
    ensures Contains(s + t, sub)
  {
    var i :| 0 <= i <= |s| - |sub| && OccursAt(s, sub, i);
    assert (s + t)[i..i + |sub|] == sub;
    assert OccursAt(s + t, sub, i);
  }

  // ----------------------------------------------------------- join/split

  /** `sep.join(parts)` */
  function Join(sep: string, parts: seq<string>): string
  {
    if |parts| == 0 then ""
    else if |parts| == 1 then parts[0]
    else parts[0] + sep + Join(sep, parts[1..])
  }

  /** The first index of `c` in `s`, or `|s|` */
  function IndexOf(s: string, c: char): (i: nat)
    ensures i <= |s| && (i < |s| ==> s[i] == c)
    ensures forall j :: 0 <= j < i ==> s[j] != c
  {
    if s == [] then 0 else if s[0] == c then 0 else 1 + IndexOf(s[1..], c)
  }

  /** `s.split(c)` for a one-character separator: empty pieces are kept */
  function SplitOn(s: string, c: char): (r: seq<string>)
    ensures |r| >= 1
    ensures forall k :: 0 <= k < |r| ==> c !in r[k]
    ensures Join([c], r) == s
    decreases |s|
  {
    var i := IndexOf(s, c);
    if i == |s| then
      assert c !in s;
      [s]
    else
      var rest := SplitOn(s[i + 1..], c);
      assert s == s[..i] + [c] + s[i + 1..];
      assert ([s[..i]] + rest)[1..] == rest;
      [s[..i]] + rest
  }

  // ---------------------------------------------------------- subsequence

  /** `a` is obtained from `b` by deleting characters */
  predicate IsSubsequence(a: string, b: string)
    decreases |b|
  {
    if a == [] then true
    else if b == [] then false
    else if a[0] == b[0] then IsSubsequence(a[1..], b[1..])
    else IsSubsequence(a, b[1..])
  }

  lemma {:induction false} SubsequenceRefl(a: string)
    ensures IsSubsequence(a, a)
    decreases |a|
  {
    if a != [] { SubsequenceRefl(a[1..]); }
  }

  lemma {:induction false} SubsequenceDropFirst(a: string, b: string)
    requires a != [] && IsSubsequence(a, b)
    ensures IsSubsequence(a[1..], b)
    decreases |b|, 1
  {
    if a[0] == b[0] {
      SubsequenceCons(a[1..], b[1..], b[0]);
    } else {
      SubsequenceDropFirst(a, b[1..]);
      SubsequenceCons(a[1..], b[1..], b[0]);
    }
    assert [b[0]] + b[1..] == b;
  }

  lemma {:induction false} SubsequenceCons(a: string, b: string, x: char)
    requires IsSubsequence(a, b)
    ensures IsSubsequence(a, [x] + b)
    decreases |b| + 1, 0
  {
    assert ([x] + b)[1..] == b;
    if a != [] && a[0] == x {
      SubsequenceDropFirst(a, b);
    }
  }

  lemma {:induction false} SubsequencePrepend(a: string, b: string, p: string)
    requires IsSubsequence(a, b)
    ensures IsSubsequence(a, p + b)
    decreases |p|
  {
    if p != [] {
      SubsequencePrepend(a, b, p[1..]);
      SubsequenceCons(a, p[1..] + b, p[0]);
      assert [p[0]] + (p[1..] + b) == p + b;
    } else {
      assert p + b == b;
    }
  }

  lemma {:induction false} SubsequenceTrans(a: string, b: string, c: string)
    requires IsSubsequence(a, b) && IsSubsequence(b, c)
    ensures IsSubsequence(a, c)
    decreases |c|
  {
    if a != [] {
      if b[0] == c[0] {
        if a[0] == b[0] {
          SubsequenceTrans(a[1..], b[1..], c[1..]);
        } else {
          SubsequenceTrans(a, b[1..], c[1..]);
        }
      } else {
        SubsequenceTrans(a, b, c[1..]);
        if a[0] == c[0] {
          SubsequenceDropFirst(a, c[1..]);
        }
      }
    }
  }

  lemma {:induction false} SubsequenceConcat(a1: string, b1: string, a2: string, b2: string)
    requires IsSubsequence(a1, b1) && IsSubsequence(a2, b2)
    ensures IsSubsequence(a1 + a2, b1 + b2)
    decreases |b1|
  {
    if a1 == [] {
      SubsequencePrepend(a2, b2, b1);
      assert a1 + a2 == a2;
    } else {
      assert (a1 + a2)[0] == a1[0] && (b1 + b2)[0] == b1[0];
      assert (b1 + b2)[1..] == b1[1..] + b2;
      if a1[0] == b1[0] {
        SubsequenceConcat(a1[1..], b1[1..], a2, b2);
        assert (a1 + a2)[1..] == a1[1..] + a2;
      } else {
        SubsequenceConcat(a1, b1[1..], a2, b2);
      }
    }
  }

  lemma {:induction false} SubsequenceSlice(s: string, i: nat, j: nat)
    requires i <= j <= |s|
    ensures IsSubsequence(s[i..j], s)
  {
    SubsequenceRefl(s[i..j]);
    SubsequencePrepend(s[i..j], s[i..j], s[..i]);
    SubsequenceConcat(s[i..j], s[..i] + s[i..j], [], s[j..]);
    assert s[..i] + s[i..j] + s[j..] == s;
    assert s[i..j] + [] == s[i..j];
  }

  lemma {:induction false} SubsequenceMultiset(a: string, b: string)
    requires IsSubsequence(a, b)
    ensures multiset(a) <= multiset(b)
    decreases |b|
  {
    if a != [] {
      assert a == [a[0]] + a[1..] && b == [b[0]] + b[1..];
      if a[0] == b[0] {
        SubsequenceMultiset(a[1..], b[1..]);
      } else {
        SubsequenceMultiset(a, b[1..]);
      }
    }
  }

  lemma StripSubsequence(s: string)
    ensures IsSubsequence(Strip(s), s)
  {
    var a := StripStart(s);
    SubsequenceSlice(s, a, a + |Strip(s)|);
  }

  // ---------------------------------------------------- regex token scans

  /**
   * The three token shapes found by left-to-right, non-overlapping greedy
   * scans: `[A-Za-z_]\w*` (Identifier), `\w+` (Word), and the fields of
   * `str.split()` (NonSpace).
   */
  datatype TokenClass = Identifier | Word | NonSpace

  predicate Starts(tc: TokenClass, c: char) {
    match tc
    case Identifier => IsLetter(c) || c == '_'
    case Word => IsWordChar(c)
    case NonSpace => !IsSpace(c)
  }

  predicate Continues(tc: TokenClass, c: char) {
    match tc
    case Identifier => IsWordChar(c)
    case Word => IsWordChar(c)
    case NonSpace => !IsSpace(c)
  }

  /** The end of the run of continuing characters that starts at `j` */
  function RunEnd(s: string, tc: TokenClass, j: nat): (e: nat)
    requires j <= |s|
    ensures j <= e <= |s|
    ensures forall p :: j <= p < e ==> Continues(tc, s[p])
    ensures e == |s| || !Continues(tc, s[e])
    decreases |s| - j
  {
    if j == |s| || !Continues(tc, s[j]) then j else RunEnd(s, tc, j + 1)
  }

  /** A match span: from `start` (inclusive) to `end` (exclusive) */
  datatype Span = Span(start: nat, end: nat)

  /** What a single span of a scan of `s` from `i` is */
  ghost predicate WellFormedSpan(s: string, tc: TokenClass, i: nat, sp: Span) {
    && i <= sp.start < sp.end <= |s|
    && Starts(tc, s[sp.start])
    && (forall p :: sp.start < p < sp.end ==> Continues(tc, s[p]))
    && (sp.end == |s| || !Continues(tc, s[sp.end]))
    && (sp.start > i ==> !Starts(tc, s[sp.start - 1]))
  }

  /**
   * The spans `re.findall` reports when scanning `s` from `i`: an ascending
   * list of non-adjacent, right-maximal runs.
   */
  function Spans(s: string, tc: TokenClass, i: nat): (r: seq<Span>)
    requires i <= |s|
    ensures forall k :: 0 <= k < |r| ==> WellFormedSpan(s, tc, i, r[k])
    ensures forall k :: 0 <= k < |r| - 1 ==> r[k].end < r[k + 1].start
    decreases |s| - i
  {
    if i == |s| then []
    else if Starts(tc, s[i]) then
      var e := RunEnd(s, tc, i + 1);
      var rest := Spans(s, tc, e);
      NoStartAtRunEnd(s, tc, e);
      WidenSpans(s, tc, i, e, rest);
      [Span(i, e)] + rest
    else
      var rest := Spans(s, tc, i + 1);
      WidenSpans(s, tc, i, i + 1, rest);
      rest
  }

  /** Where a run of continuing characters stops, no token starts */
  lemma NoStartAtRunEnd(s: string, tc: TokenClass, e: nat)
    requires e <= |s| && (e == |s| || !Continues(tc, s[e]))
    ensures e < |s| ==> !Starts(tc, s[e])
  {
  }

  /**
   * Spans of a scan from `j` are spans of a scan from `i <= j`, unless one
   * starts at `j` right after a start character.
   */
  lemma WidenSpans(s: string, tc: TokenClass, i: nat, j: nat, rest: seq<Span>)
    requires i <= j <= |s|
    requires forall k :: 0 <= k < |rest| ==> WellFormedSpan(s, tc, j, rest[k])
    requires i < j < |s| ==> !Starts(tc, s[j]) || !Starts(tc, s[j - 1])
    ensures forall k :: 0 <= k < |rest| ==> WellFormedSpan(s, tc, i, rest[k])
  {
  }

  /** Every position where a token may start lies inside a reported span */
  lemma {:induction false} SpansCover(s: string, tc: TokenClass, i: nat, p: nat)
    requires i <= p < |s| && Starts(tc, s[p])
    ensures exists k :: 0 <= k < |Spans(s, tc, i)| && Spans(s, tc, i)[k].start <= p < Spans(s, tc, i)[k].end
    decreases |s| - i
  {
    var r := Spans(s, tc, i);
    if Starts(tc, s[i]) {
      var e := RunEnd(s, tc, i + 1);
      if p < e {
        assert r[0] == Span(i, e);
      } else {
        SpansCover(s, tc, e, p);
        var k :| 0 <= k < |Spans(s, tc, e)| && Spans(s, tc, e)[k].start <= p < Spans(s, tc, e)[k].end;
        assert r[k + 1] == Spans(s, tc, e)[k];
      }
    } else {
      assert p != i;
      SpansCover(s, tc, i + 1, p);
    }
  }

  /** The matched substrings, in text order */
  function Matches(s: string, tc: TokenClass): (r: seq<string>)
    ensures |r| == |Spans(s, tc, 0)|
    ensures forall k :: 0 <= k < |r| ==> r[k] == s[Spans(s, tc, 0)[k].start..Spans(s, tc, 0)[k].end]
  {
    var sp := Spans(s, tc, 0);
    seq(|sp|, k requires 0 <= k < |sp| => s[sp[k].start..sp[k].end])
  }

  /** Each match is non-empty, starts with a start character and continues with continuing characters */
  lemma MatchShape(s: string, tc: TokenClass, k: nat)
    requires k < |Matches(s, tc)|
    ensures var m := Matches(s, tc)[k];
      |m| >= 1 && Starts(tc, m[0]) && forall q :: 1 <= q < |m| ==> Continues(tc, m[q])
  {
    var sp := Spans(s, tc, 0)[k];
    assert WellFormedSpan(s, tc, 0, sp);
    var m := Matches(s, tc)[k];
    forall q | 1 <= q < |m| ensures Continues(tc, m[q]) {
      assert m[q] == s[sp.start + q];
    }
  }

  /** A character of a class with no start character anywhere yields no match */
  lemma {:induction false} NoStartNoMatch(s: string, tc: TokenClass, i: nat)
    requires i <= |s|
    requires forall p :: i <= p < |s| ==> !Starts(tc, s[p])
    ensures Spans(s, tc, i) == []
    decreases |s| - i
  {
    if i < |s| { NoStartNoMatch(s, tc, i + 1); }
  }
}
