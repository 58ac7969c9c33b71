/**
 * `clean_code`: five regular-expression substitutions and a strip. The
 * first pattern is written with doubled backslashes inside a raw string,
 * so as a regex it deletes every span from one `/` to the next (see
 * `DropSlashSpans`). That removes a block comment only when it holds no
 * other `/`, and it also removes the text between two unrelated slashes.
 */
module Cleaner {
  import opened Text
  import opened Patterns

  // -------------------------------------------- pass 1: the block-comment pattern

  /**
   * The first substitution, with the DOTALL flag. Read as a regex, its
   * pattern is a slash, any backslashes, a lazy run of anything, any
   * backslashes and a slash: each match runs from a `/` to the first `/` after it, whatever
   * lies between. A final `/` with no partner is kept.
   */
  function DropSlashSpans(s: string): (r: string)
    ensures r == OutsidePairs(SplitOn(s, '/'))
    ensures IsSubsequence(r, s)
    ensures multiset(r)['/'] <= 1
    ensures '/' !in s ==> r == s
    decreases |s|
  {
    var i := IndexOf(s, '/');
    if i == |s| then
      NoSlash(s);
      s
    else
      var j := IndexOf(s[i + 1..], '/');
      if j == |s[i + 1..]| then
        LoneSlash(s, i);
        s
      else
        var rest := DropSlashSpans(s[i + 1 + j + 1..]);
        SlashPair(s, i, j, rest);
        PairedSlashes(s, i, j);
        s[..i] + rest
  }

  /**
   * The text outside the slash pairs, given the pieces between slashes:
   * pieces 0, 2, 4, ... are kept, pieces 1, 3, 5, ... go with the two
   * slashes around them, and a final unpaired slash stays with the piece
   * after it.
   */
  function OutsidePairs(ps: seq<string>): string
    requires |ps| >= 1
    decreases |ps|
  {
    if |ps| == 1 then ps[0]
    else if |ps| == 2 then ps[0] + "/" + ps[1]
    else ps[0] + OutsidePairs(ps[2..])
  }

  /** A text without slashes passes unchanged */
  lemma NoSlash(s: string)
    requires IndexOf(s, '/') == |s|
    ensures s == OutsidePairs(SplitOn(s, '/')) && IsSubsequence(s, s) && multiset(s)['/'] == 0
  {
    SubsequenceRefl(s);
  }

  /** A text with one slash passes unchanged */
  lemma LoneSlash(s: string, i: nat)
    requires i == IndexOf(s, '/') < |s| && IndexOf(s[i + 1..], '/') == |s[i + 1..]|
    ensures s == OutsidePairs(SplitOn(s, '/')) && IsSubsequence(s, s) && multiset(s)['/'] == 1
  {
    SubsequenceRefl(s);
    SingleSlash(s, i);
    SplitStep(s, '/', i);
    LastSlash(s, i);
  }

  /** A slash pair at `i` and `i + 1 + j` deletes what it spans, and what follows is handled alone */
  lemma SlashPair(s: string, i: nat, j: nat, rest: string)
    requires i == IndexOf(s, '/') < |s| && j == IndexOf(s[i + 1..], '/') < |s[i + 1..]|
    requires IsSubsequence(rest, s[i + 1 + j + 1..]) && multiset(rest)['/'] <= 1
    ensures IsSubsequence(s[..i] + rest, s) && multiset(s[..i] + rest)['/'] <= 1 && '/' in s
  {
    assert '/' !in s[..i];
    DeleteSpan(s, i, i + 1 + j + 1, rest);
    assert multiset(s[..i] + rest) == multiset(s[..i]) + multiset(rest);
  }

  /** A single slash at `i` is kept with the text around it */
  lemma LastSlash(s: string, i: nat)
    requires i == IndexOf(s, '/') < |s| && IndexOf(s[i + 1..], '/') == |s[i + 1..]|
    ensures OutsidePairs([s[..i]] + SplitOn(s[i + 1..], '/')) == s
  {
    assert s == s[..i] + "/" + s[i + 1..];
  }

  /** The slashes at `i` and `i + 1 + j` pair up and drop the piece between them */
  lemma PairedSlashes(s: string, i: nat, j: nat)
    requires i == IndexOf(s, '/') < |s| && j == IndexOf(s[i + 1..], '/') < |s[i + 1..]|
    ensures OutsidePairs(SplitOn(s, '/')) == s[..i] + OutsidePairs(SplitOn(s[i + 1 + j + 1..], '/'))
  {
    var t := s[i + 1..];
    assert t[j + 1..] == s[i + 1 + j + 1..];
    var rest := SplitOn(t[j + 1..], '/');
    SplitStep(s, '/', i);
    SplitStep(t, '/', j);
    OutsidePairsCons(s[..i], t[..j], rest);
  }

  /** Two pieces and the slash pair between them go together */
  lemma OutsidePairsCons(a: string, b: string, rest: seq<string>)
    requires |rest| >= 1
    ensures OutsidePairs([a] + ([b] + rest)) == a + OutsidePairs(rest)
  {
    var ps := [a] + ([b] + rest);
    assert ps[2..] == rest;
    OutsidePairsStep(ps);
  }

  lemma OutsidePairsStep(ps: seq<string>)
    requires |ps| >= 3
    ensures OutsidePairs(ps) == ps[0] + OutsidePairs(ps[2..])
  {
  }

  /** Deleting `s[i..k]` and shortening what follows leaves a subsequence */
  lemma DeleteSpan(s: string, i: nat, k: nat, rest: string)
    requires i <= k <= |s| && IsSubsequence(rest, s[k..])
    ensures IsSubsequence(s[..i] + rest, s)
  {
    SubsequencePrepend(rest, s[k..], s[i..k]);
    assert s[i..k] + s[k..] == s[i..];
    SubsequenceRefl(s[..i]);
    SubsequenceConcat(s[..i], s[..i], rest, s[i..]);
    assert s[..i] + s[i..] == s;
  }

  /** A text whose only `/` is at `i` holds one `/` */
  lemma SingleSlash(s: string, i: nat)
    requires i < |s| && s[i] == '/' && '/' !in s[..i] && '/' !in s[i + 1..]
    ensures multiset(s)['/'] == 1
  {
    assert s == s[..i] + [s[i]] + s[i + 1..];
    assert multiset(s) == multiset(s[..i]) + multiset{s[i]} + multiset(s[i + 1..]);
  }

  /** Concretely, the slash of a C `//` comment starts a match that eats the text up to the next `/` */
  lemma DropSlashSpansExample()
    ensures DropSlashSpans("a/b/c") == "ac"
  {
    SplitExample();
    OutsidePairsCons("a", "b", ["c"]);
    assert ["a"] + (["b"] + ["c"]) == ["a", "b", "c"];
  }

  /** The pieces of "a/b/c" between its slashes */
  lemma SplitExample()
    ensures SplitOn("a/b/c", '/') == ["a", "b", "c"]
  {
    var s := "a/b/c";
    assert IndexOf(s, '/') == 1 && s[..1] == "a" && s[2..] == "b/c";
    SplitStep(s, '/', 1);
    SplitExampleTail();
  }

  /** The pieces of "b/c" between its slashes */
  lemma SplitExampleTail()
    ensures SplitOn("b/c", '/') == ["b", "c"]
  {
    var t := "b/c";
    assert IndexOf(t, '/') == 1 && t[..1] == "b" && t[2..] == "c";
    SplitStep(t, '/', 1);
    assert IndexOf("c", '/') == 1;
  }

  // ------------------------------------------------ passes 2 and 3: `//.*?$`, `#.*?$`

  /** The `//` pass can never match after the first pass: at most one `/` is left */
  lemma SecondPassIdentity(s: string)
    requires multiset(s)['/'] <= 1
    ensures DropLineComments(s, "//") == s
  {
    forall j | 0 <= j < |s| ensures !OccursAt(s, "//", j) {
      NoDoubleSlash(s, j);
    }
    DropLineCommentsNoMarker(s, "//");
  }

  lemma NoDoubleSlash(s: string, j: nat)
    requires multiset(s)['/'] <= 1 && j < |s|
    ensures !OccursAt(s, "//", j)
  {
    if j + 2 <= |s| {
      var t := s[j..j + 2];
      assert t == [s[j]] + [s[j + 1]];
      assert s == s[..j] + t + s[j + 2..];
      assert multiset(t) <= multiset(s);
      assert multiset(t) == multiset{s[j], s[j + 1]};
    }
  }

  // ----------------------------------------------------- pass 4: `<!--.*?-->`

  /**
   * `re.sub(r"<!--.*?-->", "", s, flags=re.DOTALL)`: from each `<!--` to
   * the first `-->` after it, across lines. An opening with no closing
   * after it is kept, and so is the rest of the text.
   */
  function DropHtmlComments(s: string): (r: string)
    ensures IsSubsequence(r, s)
    decreases |s|
  {
    var i := FindFrom(s, "<!--", 0);
    if i == |s| then
      SubsequenceRefl(s);
      s
    else
      var e := FindFrom(s, "-->", i + 4);
      if e == |s| then
        SubsequenceRefl(s);
        s
      else
        var rest := DropHtmlComments(s[e + 3..]);
        DeleteSpan(s, i, e + 3, rest);
        s[..i] + rest
  }

  /** Text with no comment opening is left alone */
  lemma DropHtmlNoOpening(s: string)
    requires forall j :: 0 <= j < |s| ==> !OccursAt(s, "<!--", j)
    ensures DropHtmlComments(s) == s
  {
  }

  /** What the pass keeps: the text before the first `<!--` survives as a prefix */
  lemma DropHtmlKeepsPrefix(s: string)
    ensures IsPrefixOf(s[..FindFrom(s, "<!--", 0)], DropHtmlComments(s))
  {
    var i := FindFrom(s, "<!--", 0);
    if i < |s| {
      var e := FindFrom(s, "-->", i + 4);
      if e < |s| {
        DropHtmlStep(s, i, e);
        var rest := DropHtmlComments(s[e + 3..]);
        assert (s[..i] + rest)[..i] == s[..i];
      }
    }
  }

  /** Without a complete comment, an opening followed by a closing, the text is unchanged */
  lemma DropHtmlUnmatched(s: string)
    requires var i := FindFrom(s, "<!--", 0); i == |s| || FindFrom(s, "-->", i + 4) == |s|
    ensures DropHtmlComments(s) == s
  {
  }

  /** One comment found: the text before it, then the rest cleaned */
  lemma DropHtmlStep(s: string, i: nat, e: nat)
    requires |s| >= 4 && FindFrom(s, "<!--", 0) == i < |s|
    requires i + 4 <= |s| && FindFrom(s, "-->", i + 4) == e < |s|
    ensures DropHtmlComments(s) == s[..i] + DropHtmlComments(s[e + 3..])
  {
  }

  /** Matching is lazy: the first `-->` closes the comment, and a second one stays */
  lemma DropHtmlLazy()
    ensures DropHtmlComments("<!--x-->y-->") == "y-->"
  {
    var s := "<!--x-->y-->";
    FindHere(s, "<!--", 0);
    FindSkip(s, "-->", 4);
    FindHere(s, "-->", 5);
    DropHtmlStep(s, 0, 5);
    var t := s[8..];
    assert t == "y-->";
    FindSkip(t, "<!--", 0);
    assert FindFrom(t, "<!--", 1) == |t|;
    DropHtmlUnmatched(t);
  }

  lemma FindHere(s: string, sub: string, i: nat)
    requires i + |sub| <= |s| && |sub| > 0 && s[i..i + |sub|] == sub
    ensures FindFrom(s, sub, i) == i
  {
  }

  lemma FindSkip(s: string, sub: string, i: nat)
    requires i < |s| && |sub| > 0 && (i + |sub| > |s| || s[i] != sub[0])
    ensures FindFrom(s, sub, i) == FindFrom(s, sub, i + 1)
  {
    assert i + |sub| <= |s| ==> s[i..i + |sub|][0] == s[i];
  }

  // ------------------------------------------------------ pass 5: `\n\s*\n`

  /** The last index in `[from, to)` holding a newline, or `from - 1` when there is none */
  function LastNewline(s: string, lo: nat, hi: nat): (k: int)
    requires lo <= hi <= |s|
    ensures lo - 1 <= k < hi
    ensures k >= lo ==> s[k] == '\n'
    ensures forall m :: lo <= m < hi && k < m ==> s[m] != '\n'
    decreases hi - lo
  {
    if hi == lo then lo - 1
    else if s[hi - 1] == '\n' then hi - 1
    else LastNewline(s, lo, hi - 1)
  }

  /** No two newlines with only blanks between them: no blank line is left */
  predicate NoBlankLine(r: string) {
    forall i, j :: 0 <= i < j < |r| && NewlineAt(r, i) && NewlineAt(r, j) ==> exists k :: i < k < j && !IsSpace(r[k])
  }

  predicate NewlineAt(r: string, i: int) {
    0 <= i < |r| && r[i] == '\n'
  }

  /** The blanks at the start of `s` contain no newline */
  predicate QuietStart(s: string) {
    '\n' !in s[..SpaceRunEnd(s, 0)]
  }

  /**
   * `re.sub(r"\n\s*\n", "\n", s)`. `\s*` is greedy and `\s` includes the
   * newline, so a match from a newline reaches the last newline of the
   * blank run that follows it, and the whole stretch becomes one newline.
   */
  function CollapseBlankLines(s: string): (r: string)
    ensures IsSubsequence(r, s)
    ensures NoBlankLine(r)
    ensures QuietStart(s) ==> QuietStart(r)
    decreases |s|
  {
    if s == [] then []
    else if s[0] == '\n' then
      var from := Resume(s);
      var rest := CollapseBlankLines(s[from..]);
      NewlineKept(s, from, rest);
      "\n" + rest
    else
      var rest := CollapseBlankLines(s[1..]);
      OtherKept(s, rest);
      [s[0]] + rest
  }

  /**
   * Where pass 5 goes on after a match from the newline `s[0]`: just past
   * the last newline of the blank run that follows, or at 1 when that run
   * holds none.
   */
  function Resume(s: string): (from: nat)
    requires s != [] && s[0] == '\n'
    ensures 1 <= from <= |s| && s[from - 1] == '\n'
    ensures forall p :: 0 <= p < from ==> IsSpace(s[p])
    ensures QuietStart(s[from..])
  {
    var e := SpaceRunEnd(s, 1);
    var last := LastNewline(s, 1, e);
    var from := if last >= 1 then last + 1 else 1;
    QuietAfter(s, e, last, from);
    from
  }

  /** Pass 5 at a newline: one newline, then the text from where the match ends */
  lemma CollapseAtNewline(s: string)
    requires s != [] && s[0] == '\n'
    ensures CollapseBlankLines(s) == "\n" + CollapseBlankLines(s[Resume(s)..])
  {
  }

  /** Pass 5 elsewhere: the character stays */
  lemma CollapseAtOther(s: string)
    requires s != [] && s[0] != '\n'
    ensures CollapseBlankLines(s) == [s[0]] + CollapseBlankLines(s[1..])
  {
  }

  /**
   * Pass 5 changes no word and no separation between words: squeezing
   * blanks afterwards gives the same text as squeezing them before it.
   */
  lemma {:induction false} CollapseBlankLinesWords(s: string)
    ensures CollapseSpaces(CollapseBlankLines(s)) == CollapseSpaces(s)
    decreases |s|
  {
    if s != [] && s[0] == '\n' {
      var t := s[Resume(s)..];
      CollapseBlankLinesWords(t);
      NewlineWords(s, CollapseBlankLines(t));
    } else if s != [] {
      CollapseBlankLinesWords(s[1..]);
      OtherWords(s, CollapseBlankLines(s[1..]));
    }
  }

  /** The newline step of `CollapseBlankLinesWords` */
  lemma NewlineWords(s: string, rest: string)
    requires s != [] && s[0] == '\n'
    requires rest == CollapseBlankLines(s[Resume(s)..])
    requires CollapseSpaces(rest) == CollapseSpaces(s[Resume(s)..])
    ensures CollapseSpaces(CollapseBlankLines(s)) == CollapseSpaces(s)
  {
    CollapseAtNewline(s);
    BlankPrefix("\n", rest);
    SkippedBlanks(s);
    SameAfterBlanks(rest, s[Resume(s)..]);
  }

  /** What the newline branch skips is blank, so `\s+` treats it as one run with what follows */
  lemma SkippedBlanks(s: string)
    requires s != [] && s[0] == '\n'
    ensures CollapseSpaces(s) == " " + AfterBlanks(s[Resume(s)..])
  {
    var from := Resume(s);
    var t := s[from..];
    assert s == s[..from] + t;
    BlankPrefix(s[..from], t);
  }

  /** The other step of `CollapseBlankLinesWords` */
  lemma OtherWords(s: string, rest: string)
    requires s != [] && s[0] != '\n'
    requires rest == CollapseBlankLines(s[1..])
    requires CollapseSpaces(rest) == CollapseSpaces(s[1..])
    ensures CollapseSpaces(CollapseBlankLines(s)) == CollapseSpaces(s)
  {
    CollapseAtOther(s);
    assert s == [s[0]] + s[1..];
    if IsSpace(s[0]) {
      BlankPrefix([s[0]], rest);
      BlankPrefix([s[0]], s[1..]);
      SameAfterBlanks(rest, s[1..]);
    } else {
      NonBlankCons(s[0], rest);
      NonBlankCons(s[0], s[1..]);
    }
  }

  /** Without a blank line there is nothing for pass 5 to do */
  lemma {:induction false} CollapseBlankLinesFixed(s: string)
    requires NoBlankLine(s)
    ensures CollapseBlankLines(s) == s
    decreases |s|
  {
    if s != [] {
      NoBlankLineSlice(s, 1, |s|);
      assert s[1..|s|] == s[1..];
      CollapseBlankLinesFixed(s[1..]);
      if s[0] == '\n' {
        ResumeWithoutBlankLine(s);
        CollapseAtNewline(s);
      } else {
        CollapseAtOther(s);
      }
      assert s == [s[0]] + s[1..];
    }
  }

  /** Without a blank line, a match from a newline is that newline alone */
  lemma ResumeWithoutBlankLine(s: string)
    requires s != [] && s[0] == '\n' && NoBlankLine(s)
    ensures Resume(s) == 1
  {
    var e := SpaceRunEnd(s, 1);
    var last := LastNewline(s, 1, e);
    assert NewlineAt(s, 0);
    assert last >= 1 ==> NewlineAt(s, last);
  }

  /** Pass 5 deletes only blanks: the other characters stay, in order */
  lemma CollapseBlankLinesKeepsNonBlanks(s: string)
    ensures NonBlanks(CollapseBlankLines(s)) == NonBlanks(s)
  {
    CollapseBlankLinesWords(s);
    CollapseSpacesKeepsNonBlanks(s);
    CollapseSpacesKeepsNonBlanks(CollapseBlankLines(s));
  }

  /** What `\s+` makes of `x` once the blanks at its start are gone */
  function AfterBlanks(x: string): string {
    CollapseSpaces(x[SpaceRunEnd(x, 0)..])
  }

  /** A blank prefix becomes one space */
  lemma BlankPrefix(b: string, x: string)
    requires b != [] && forall p :: 0 <= p < |b| ==> IsSpace(b[p])
    ensures CollapseSpaces(b + x) == " " + AfterBlanks(x)
  {
    BlankRunOver(b, x);
    var t := b + x;
    assert IsSpace(t[0]);
    assert t[|b| + SpaceRunEnd(x, 0)..] == x[SpaceRunEnd(x, 0)..];
  }

  /** A non-blank stays in front */
  lemma NonBlankCons(c: char, x: string)
    requires !IsSpace(c)
    ensures CollapseSpaces([c] + x) == [c] + CollapseSpaces(x)
  {
    assert ([c] + x)[1..] == x;
  }

  /** Texts that squeeze alike also squeeze alike after their leading blanks */
  lemma SameAfterBlanks(x: string, y: string)
    requires CollapseSpaces(x) == CollapseSpaces(y)
    ensures AfterBlanks(x) == AfterBlanks(y)
  {
    AfterBlanksOf(x);
    AfterBlanksOf(y);
  }

  /** `AfterBlanks` read off the squeezed text: without its leading space, if any */
  lemma AfterBlanksOf(x: string)
    ensures AfterBlanks(x) == if x != [] && IsSpace(x[0]) then CollapseSpaces(x)[1..] else CollapseSpaces(x)
  {
    if x == [] || !IsSpace(x[0]) {
      assert x[0..] == x;
    }
  }

  /** The blank run at the start of `b + x`, for blank `b`, covers `b` and then the run of `x` */
  lemma {:induction false} BlankRunOver(b: string, x: string)
    requires forall p :: 0 <= p < |b| ==> IsSpace(b[p])
    ensures SpaceRunEnd(b + x, 0) == |b| + SpaceRunEnd(x, 0)
    decreases |b|
  {
    if b == [] {
      assert b + x == x;
    } else {
      var t := b + x;
      assert t[1..] == b[1..] + x;
      BlankRunOver(b[1..], x);
      SpaceRunStep(t, 0);
      SpaceRunTail(t);
    }
  }

  /** The newline branch of pass 5 keeps its promises */
  lemma NewlineKept(s: string, from: nat, rest: string)
    requires 1 <= from <= |s| && s[0] == '\n' && s[from - 1] == '\n'
    requires IsSubsequence(rest, s[from..]) && NoBlankLine(rest) && QuietStart(rest)
    ensures IsSubsequence("\n" + rest, s)
    ensures NoBlankLine("\n" + rest)
    ensures !QuietStart(s)
  {
    NewlineThenQuiet(rest);
    Keep('\n', rest, s[from..]);
    assert [s[from - 1]] + s[from..] == s[from - 1..];
    SubsequencePrepend("\n" + rest, s[from - 1..], s[..from - 1]);
    assert s[..from - 1] + s[from - 1..] == s;
    assert SpaceRunEnd(s, 0) >= 1 && s[..SpaceRunEnd(s, 0)][0] == '\n';
  }

  /** The other branch of pass 5 keeps its promises */
  lemma OtherKept(s: string, rest: string)
    requires s != [] && s[0] != '\n'
    requires IsSubsequence(rest, s[1..]) && NoBlankLine(rest)
    requires QuietStart(s[1..]) ==> QuietStart(rest)
    ensures IsSubsequence([s[0]] + rest, s)
    ensures NoBlankLine([s[0]] + rest)
    ensures QuietStart(s) ==> QuietStart([s[0]] + rest)
  {
    Keep(s[0], rest, s[1..]);
    assert s == [s[0]] + s[1..];
    NotNewlineThen(s[0], rest);
    QuietCons(s, rest);
  }

  /** Where pass 5 resumes after a newline, the blank run has no newline left */
  lemma QuietAfter(s: string, e: nat, last: int, from: nat)
    requires 1 <= e <= |s| && e == SpaceRunEnd(s, 1)
    requires 1 <= from <= e
    requires 0 <= last < e
    requires last >= 1 ==> from == last + 1
    requires last < 1 ==> from == 1
    requires forall m :: last < m < e && m >= 1 ==> s[m] != '\n'
    ensures QuietStart(s[from..])
  {
    var t := s[from..];
    SpaceRunShift(s, from, e);
    forall m | 0 <= m < e - from ensures t[m] != '\n' {
      assert t[m] == s[from + m];
    }
  }

  /** Inside a blank run, the run seen from a later start ends at the same place */
  lemma {:induction false} SpaceRunShift(s: string, from: nat, e: nat)
    requires 1 <= from <= e <= |s| && e == SpaceRunEnd(s, 1)
    ensures SpaceRunEnd(s[from..], 0) == e - from
    decreases e - from
  {
    var t := s[from..];
    if from < e {
      assert IsSpace(s[from]) && t[0] == s[from];
      SpaceRunShift(s, from + 1, e);
      SpaceRunStep(t, 0);
      assert t[1..] == s[from + 1..];
      SpaceRunTail(t);
    } else {
      assert e == |s| || !IsSpace(s[e]);
      assert t == [] || t[0] == s[e];
    }
  }

  lemma SpaceRunStep(t: string, i: nat)
    requires i < |t| && IsSpace(t[i])
    ensures SpaceRunEnd(t, i) == SpaceRunEnd(t, i + 1)
  {
  }

  /** The run of a text that starts with a blank is one longer than the run of its tail */
  lemma {:induction false} SpaceRunTail(t: string)
    requires t != [] && IsSpace(t[0])
    ensures SpaceRunEnd(t, 1) == SpaceRunEnd(t[1..], 0) + 1
  {
    SpaceRunTailFrom(t, 1);
  }

  lemma {:induction false} SpaceRunTailFrom(t: string, i: nat)
    requires 1 <= i <= |t|
    ensures SpaceRunEnd(t, i) == SpaceRunEnd(t[1..], i - 1) + 1
    decreases |t| - i
  {
    if i < |t| && IsSpace(t[i]) {
      assert t[1..][i - 1] == t[i];
      SpaceRunTailFrom(t, i + 1);
    } else if i < |t| {
      assert t[1..][i - 1] == t[i];
    }
  }

  /** A newline followed by text with a quiet start adds no blank line */
  lemma NewlineThenQuiet(rest: string)
    requires NoBlankLine(rest) && QuietStart(rest)
    ensures NoBlankLine("\n" + rest)
  {
    var r := "\n" + rest;
    forall i, j | i < j && NewlineAt(r, i) && NewlineAt(r, j)
      ensures exists k :: i < k < j && !IsSpace(r[k])
    {
      if i == 0 {
        assert rest[j - 1] == '\n';
        var k := QuietGap(rest, j - 1);
        assert r[k + 1] == rest[k];
      } else {
        assert NewlineAt(rest, i - 1) && NewlineAt(rest, j - 1);
        var k :| i - 1 < k < j - 1 && !IsSpace(rest[k]);
        assert r[k + 1] == rest[k];
      }
    }
  }

  /** In text with a quiet start, something that is not a blank comes before any newline */
  lemma QuietGap(rest: string, j: nat) returns (k: nat)
    requires QuietStart(rest) && j < |rest| && rest[j] == '\n'
    ensures k < j && !IsSpace(rest[k])
  {
    k := SpaceRunEnd(rest, 0);
    forall m | 0 <= m < k ensures rest[m] != '\n' {
      assert rest[..k][m] == rest[m];
    }
  }

  /** Any character but a newline in front adds no blank line */
  lemma NotNewlineThen(c: char, rest: string)
    requires c != '\n' && NoBlankLine(rest)
    ensures NoBlankLine([c] + rest)
  {
    var r := [c] + rest;
    forall i, j | i < j && NewlineAt(r, i) && NewlineAt(r, j)
      ensures exists k :: i < k < j && !IsSpace(r[k])
    {
      assert i > 0;
      assert NewlineAt(rest, i - 1) && NewlineAt(rest, j - 1);
      var k :| i - 1 < k < j - 1 && !IsSpace(rest[k]);
      assert r[k + 1] == rest[k];
    }
  }

  /** Keeping a character that is not a newline keeps a quiet start quiet */
  lemma QuietCons(s: string, rest: string)
    requires s != [] && s[0] != '\n'
    requires QuietStart(s[1..]) ==> QuietStart(rest)
    ensures QuietStart(s) ==> QuietStart([s[0]] + rest)
  {
    var r := [s[0]] + rest;
    if QuietStart(s) && IsSpace(s[0]) {
      SpaceRunTail(s);
      SpaceRunStep(s, 0);
      SpaceRunTail(r);
      SpaceRunStep(r, 0);
      assert r[1..] == rest;
      forall m | 0 <= m < SpaceRunEnd(s[1..], 0) ensures s[1..][m] != '\n' {
        assert s[1..][m] == s[..SpaceRunEnd(s, 0)][m + 1];
      }
      forall m | 0 <= m < SpaceRunEnd(r, 0) ensures r[m] != '\n' {
        if m > 0 { assert r[m] == rest[..SpaceRunEnd(rest, 0)][m - 1]; }
      }
    } else if QuietStart(s) {
      assert SpaceRunEnd(r, 0) == 0;
    }
  }

  /** A slice of text without blank lines has none either */
  lemma NoBlankLineSlice(r: string, a: nat, b: nat)
    requires a <= b <= |r| && NoBlankLine(r)
    ensures NoBlankLine(r[a..b])
  {
    var t := r[a..b];
    forall i, j | i < j && NewlineAt(t, i) && NewlineAt(t, j)
      ensures exists k :: i < k < j && !IsSpace(t[k])
    {
      assert NewlineAt(r, a + i) && NewlineAt(r, a + j);
      var k :| a + i < k < a + j && !IsSpace(r[k]);
      assert t[k - a] == r[k];
    }
  }

  // -------------------------------------------------------------- clean_code

  /** `clean_code(content)`: the five passes, then `strip()` */
  function CleanCode(content: string): string
  {
    Strip(Passes(content))
  }

  /** A cleaned text neither starts nor ends with a blank */
  lemma CleanCodeStripped(content: string)
    ensures var r := CleanCode(content);
      r == [] || (!IsSpace(r[0]) && !IsSpace(r[|r| - 1]))
  {
    var e := Passes(content);
    assert CleanCode(content) == Strip(e);
  }

  /** The five substitutions of `clean_code`, in order */
  function Passes(content: string): string
  {
    CollapseBlankLines(DropHtmlComments(DropLineComments(DropLineComments(DropSlashSpans(content), "//"), "#")))
  }

  /** Cleaning only deletes: what is left was in the input, in the same order */
  lemma CleanCodeSubsequence(content: string)
    ensures IsSubsequence(CleanCode(content), content)
  {
    var a := DropSlashSpans(content);
    var b := DropLineComments(a, "//");
    var c := DropLineComments(b, "#");
    var d := DropHtmlComments(c);
    var e := CollapseBlankLines(d);
    var r := Strip(e);
    StripSubsequence(e);
    SubsequenceTrans(r, e, d);
    SubsequenceTrans(r, d, c);
    SubsequenceTrans(r, c, b);
    SubsequenceTrans(r, b, a);
    SubsequenceTrans(r, a, content);
  }

  /**
   * What survives cleaning: no `#`, at most one `/`, no blank line between
   * two newlines, no leading or trailing blanks, and every character was in
   * the input, in order.
   */
  lemma CleanCodeShape(content: string)
    ensures '#' !in CleanCode(content)
    ensures multiset(CleanCode(content))['/'] <= 1
    ensures NoBlankLine(CleanCode(content))
  {
    var a := DropSlashSpans(content);
    SecondPassIdentity(a);
    var c := DropLineComments(a, "#");
    assert Passes(content) == CollapseBlankLines(DropHtmlComments(c));
    var r := CleanCode(content);
    LastPasses(c);
    SubsequenceTrans(r, c, a);
    SubsequenceMultiset(r, c);
    SubsequenceMultiset(r, a);
    assert multiset(c)['#'] == 0;
  }

  /**
   * Text with nothing for the passes to remove comes back unchanged: no
   * `/`, no `#`, no `<!--`, no blank line, and no blank at either end.
   */
  lemma CleanCodeFixed(content: string)
    requires '/' !in content && '#' !in content
    requires forall j :: 0 <= j < |content| ==> !OccursAt(content, "<!--", j)
    requires NoBlankLine(content)
    requires content == [] || (!IsSpace(content[0]) && !IsSpace(content[|content| - 1]))
    ensures CleanCode(content) == content
  {
    assert multiset(content)['/'] == 0;
    SecondPassIdentity(content);
    HashAbsent(content);
    DropLineCommentsNoMarker(content, "#");
    DropHtmlNoOpening(content);
    CollapseBlankLinesFixed(content);
    StripFixed(content);
    assert Passes(content) == content;
  }

  /** After the comment passes, the last two passes and `strip()` only delete and leave no blank line */
  lemma LastPasses(c: string)
    ensures var r := Strip(CollapseBlankLines(DropHtmlComments(c)));
      IsSubsequence(r, c) && NoBlankLine(r)
  {
    var d := DropHtmlComments(c);
    var e := CollapseBlankLines(d);
    var r := Strip(e);
    StripSubsequence(e);
    SubsequenceTrans(r, e, d);
    SubsequenceTrans(r, d, c);
    StripKeepsNoBlankLine(e);
  }

  lemma StripKeepsNoBlankLine(e: string)
    requires NoBlankLine(e)
    ensures NoBlankLine(Strip(e))
  {
    var r := Strip(e);
    var a := StripStart(e);
    NoBlankLineSlice(e, a, a + |r|);
    assert r == e[a..a + |r|];
  }
}
