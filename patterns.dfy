/**
 * Hand-written equivalents of the regular-expression substitutions the
 * core performs with `re.sub`. Each function scans left to right and
 * replaces non-overlapping matches, as `re.sub` does; a match at a
 * position depends only on the text from that position on, so each scan
 * recurses on the rest of the text after a match or after one kept
 * character.
 */
module Patterns {
  import opened Text

  /** The first index `>= i` at which `sub` occurs, or `|s|` when there is none */
  function FindFrom(s: string, sub: string, i: nat): (r: nat)
    requires i <= |s| && |sub| > 0
    ensures i <= r <= |s|
    ensures r < |s| ==> OccursAt(s, sub, r)
    ensures forall j :: i <= j < r ==> !OccursAt(s, sub, j)
    decreases |s| - i
  {
    if i + |sub| > |s| then |s|
    else if s[i..i + |sub|] == sub then assert OccursAt(s, sub, i); i
    else FindFrom(s, sub, i + 1)
  }

  /**
   * `re.sub(marker + ".*?$", "", s, flags=re.MULTILINE)`: every occurrence
   * of `marker` is deleted together with the rest of its line; the line
   * break itself stays.
   */
  function DropLineComments(s: string, marker: string): (r: string)
    requires |marker| > 0 && '\n' !in marker
    ensures IsSubsequence(r, s)
    ensures |marker| == 1 ==> marker[0] !in r
    decreases |s|
  {
    if s == [] then []
    else if OccursAt(s, marker, 0) then
      var e := IndexOf(s, '\n');
      assert s[0] == marker[0] && e > 0;
      var rest := DropLineComments(s[e..], marker);
      SubsequencePrepend(rest, s[e..], s[..e]);
      assert s[..e] + s[e..] == s;
      rest
    else
      var rest := DropLineComments(s[1..], marker);
      assert s == [s[0]] + s[1..];
      assert [s[0]] + rest == [s[0]] + rest;
      Keep(s[0], rest, s[1..]);
      [s[0]] + rest
  }

  /** Every line break survives the pass */
  lemma {:induction false} DropLineCommentsKeepsLineBreaks(s: string, marker: string)
    requires |marker| > 0 && '\n' !in marker
    ensures multiset(DropLineComments(s, marker))['\n'] == multiset(s)['\n']
    decreases |s|
  {
    if s != [] {
      if OccursAt(s, marker, 0) {
        var e := IndexOf(s, '\n');
        assert s[0] == marker[0] && e > 0;
        DropAtMarker(s, marker);
        DropLineCommentsKeepsLineBreaks(s[e..], marker);
        assert multiset(s) == multiset(s[..e]) + multiset(s[e..]) by { assert s == s[..e] + s[e..]; }
        assert '\n' !in s[..e];
      } else {
        KeepFirst(s, marker);
        DropLineCommentsKeepsLineBreaks(s[1..], marker);
        assert s == [s[0]] + s[1..];
      }
    }
  }

  /** Keeping the first character extends a subsequence */
  lemma Keep(c: char, r: string, s: string)
    requires IsSubsequence(r, s)
    ensures IsSubsequence([c] + r, [c] + s)
  {
    assert ([c] + r)[1..] == r && ([c] + s)[1..] == s;
  }

  /** A one-character marker that is absent occurs nowhere */
  lemma HashAbsent(s: string)
    requires '#' !in s
    ensures forall j :: 0 <= j < |s| ==> !OccursAt(s, "#", j)
  {
    forall j | 0 <= j < |s| ensures !OccursAt(s, "#", j) {
      assert s[j..j + 1] == [s[j]];
    }
  }

  /** When the marker never occurs, nothing is deleted */
  lemma {:induction false} DropLineCommentsNoMarker(s: string, marker: string)
    requires |marker| > 0 && '\n' !in marker
    requires forall j :: 0 <= j < |s| ==> !OccursAt(s, marker, j)
    ensures DropLineComments(s, marker) == s
    decreases |s|
  {
    if s != [] {
      forall j | 0 <= j < |s[1..]| ensures !OccursAt(s[1..], marker, j) {
        assert !OccursAt(s, marker, j + 1);
        if j + |marker| <= |s[1..]| {
          assert s[1..][j..j + |marker|] == s[j + 1..j + 1 + |marker|];
        }
      }
      DropLineCommentsNoMarker(s[1..], marker);
      assert s == [s[0]] + s[1..];
    }
  }

  /** Searching from `i + 1` is searching the tail from `i` */
  lemma {:induction false} FindFromTail(s: string, sub: string, i: nat)
    requires |sub| > 0 && i + 1 <= |s|
    ensures FindFrom(s, sub, i + 1) == 1 + FindFrom(s[1..], sub, i)
    decreases |s| - i
  {
    if i + 1 + |sub| <= |s| {
      assert s[i + 1..i + 1 + |sub|] == s[1..][i..i + |sub|];
      if s[i + 1..i + 1 + |sub|] != sub {
        FindFromTail(s, sub, i + 1);
      }
    }
  }

  /** A line of text cut before the first occurrence of `marker` */
  function LineCut(line: string, marker: string): (r: string)
    requires |marker| > 0
    ensures IsPrefixOf(r, line)
  {
    line[..FindFrom(line, marker, 0)]
  }

  predicate IsPrefixOf(a: string, b: string) {
    |a| <= |b| && b[..|a|] == a
  }

  /** Every line cut before its first marker */
  function CutLines(lines: seq<string>, marker: string): (r: seq<string>)
    requires |marker| > 0
    ensures |r| == |lines|
  {
    if lines == [] then [] else [LineCut(lines[0], marker)] + CutLines(lines[1..], marker)
  }

  /** A marker at the front deletes up to the line break */
  lemma DropAtMarker(s: string, marker: string)
    requires |marker| > 0 && '\n' !in marker && OccursAt(s, marker, 0)
    ensures DropLineComments(s, marker) == DropLineComments(s[IndexOf(s, '\n')..], marker)
  {
  }

  /** Any other first character is kept */
  lemma KeepFirst(s: string, marker: string)
    requires |marker| > 0 && '\n' !in marker && s != [] && !OccursAt(s, marker, 0)
    ensures DropLineComments(s, marker) == [s[0]] + DropLineComments(s[1..], marker)
  {
  }

  /** A marker at the front of `t + u` lies inside `t` when `u` starts with a line break */
  lemma MarkerInLine(t: string, u: string, marker: string)
    requires |marker| > 0 && '\n' !in marker && (u == [] || u[0] == '\n')
    ensures OccursAt(t + u, marker, 0) <==> OccursAt(t, marker, 0)
  {
    var s := t + u;
    if |marker| > |t| && |marker| <= |s| {
      assert s[..|marker|][|t|] == u[0] == '\n' != marker[|t|];
    }
    if |marker| <= |t| {
      assert s[..|marker|] == t[..|marker|];
    }
  }

  /** The first line break of `t + u` is where `u` starts */
  lemma LineBreakAt(t: string, u: string)
    requires '\n' !in t && (u == [] || u[0] == '\n')
    ensures IndexOf(t + u, '\n') == |t| && (t + u)[|t|..] == u
  {
    var s := t + u;
    assert |t| < |s| ==> s[|t|] == '\n';
    assert forall j :: 0 <= j < |t| ==> s[j] == t[j];
  }

  /** Cutting a line whose first character is not a marker keeps that character */
  lemma CutKeepsFirst(t: string, marker: string)
    requires |marker| > 0 && t != [] && !OccursAt(t, marker, 0)
    ensures LineCut(t, marker) == [t[0]] + LineCut(t[1..], marker)
  {
    if |marker| <= |t| {
      FindFromTail(t, marker, 0);
    }
  }

  /** A line that starts with the marker is cut to nothing */
  lemma LineStartsWithMarker(t: string, u: string, marker: string)
    requires |marker| > 0 && '\n' !in marker
    requires '\n' !in t && (u == [] || u[0] == '\n') && OccursAt(t, marker, 0)
    ensures DropLineComments(t + u, marker) == LineCut(t, marker) + DropLineComments(u, marker)
  {
    MarkerInLine(t, u, marker);
    DropAtMarker(t + u, marker);
    LineBreakAt(t, u);
    assert LineCut(t, marker) == [];
  }

  lemma TailOfConcat(t: string, u: string)
    requires t != []
    ensures (t + u)[1..] == t[1..] + u
  {
  }

  /** A line whose first character is not the marker keeps it */
  lemma LineKeepsFirst(t: string, u: string, marker: string)
    requires |marker| > 0 && '\n' !in marker
    requires '\n' !in t && (u == [] || u[0] == '\n') && t != [] && !OccursAt(t, marker, 0)
    requires DropLineComments(t[1..] + u, marker) == LineCut(t[1..], marker) + DropLineComments(u, marker)
    ensures DropLineComments(t + u, marker) == LineCut(t, marker) + DropLineComments(u, marker)
  {
    var c, tail, rest := t[0], t[1..], DropLineComments(u, marker);
    calc {
      DropLineComments(t + u, marker);
    == { MarkerInLine(t, u, marker); KeepFirst(t + u, marker); TailOfConcat(t, u); }
      [c] + DropLineComments(tail + u, marker);
    ==
      [c] + (LineCut(tail, marker) + rest);
    ==
      ([c] + LineCut(tail, marker)) + rest;
    == { CutKeepsFirst(t, marker); }
      LineCut(t, marker) + rest;
    }
  }

  /** On one line followed by a line break (or the end), the pass cuts the line before its marker */
  lemma {:induction false} DropLineCommentsLine(t: string, u: string, marker: string)
    requires |marker| > 0 && '\n' !in marker
    requires '\n' !in t && (u == [] || u[0] == '\n')
    ensures DropLineComments(t + u, marker) == LineCut(t, marker) + DropLineComments(u, marker)
    decreases |t|
  {
    if t == [] {
      assert t + u == u;
    } else if OccursAt(t, marker, 0) {
      LineStartsWithMarker(t, u, marker);
    } else {
      assert '\n' !in t[1..];
      DropLineCommentsLine(t[1..], u, marker);
      LineKeepsFirst(t, u, marker);
    }
  }

  /**
   * The pass works line by line: every line of the text is cut before its
   * first marker, and the line breaks stay.
   */
  lemma {:induction false} DropLineCommentsByLine(s: string, marker: string)
    requires |marker| > 0 && '\n' !in marker
    ensures DropLineComments(s, marker) == Join("\n", CutLines(SplitOn(s, '\n'), marker))
    decreases |s|
  {
    var i := IndexOf(s, '\n');
    if i == |s| {
      assert s + [] == s;
      DropLineCommentsLine(s, [], marker);
    } else {
      DropLineCommentsByLine(s[i + 1..], marker);
      ByLineStep(s, i, marker);
    }
  }

  /** One line and its line break, then the rest line by line */
  lemma ByLineStep(s: string, i: nat, marker: string)
    requires |marker| > 0 && '\n' !in marker
    requires i == IndexOf(s, '\n') < |s|
    requires DropLineComments(s[i + 1..], marker) == Join("\n", CutLines(SplitOn(s[i + 1..], '\n'), marker))
    ensures DropLineComments(s, marker) == Join("\n", CutLines(SplitOn(s, '\n'), marker))
  {
    FirstLineDropped(s, i, marker);
    FirstLineJoined(s, i, marker);
  }

  /** The pass cuts the first line, keeps its line break and goes on after it */
  lemma FirstLineDropped(s: string, i: nat, marker: string)
    requires |marker| > 0 && '\n' !in marker
    requires i == IndexOf(s, '\n') < |s|
    ensures DropLineComments(s, marker) == LineCut(s[..i], marker) + "\n" + DropLineComments(s[i + 1..], marker)
  {
    var t, u := s[..i], s[i..];
    assert t + u == s;
    DropLineCommentsLine(t, u, marker);
    LineBreakKept(s, i, marker);
  }

  /** The cut lines of `s` are the cut first line, then the cut lines after it */
  lemma FirstLineJoined(s: string, i: nat, marker: string)
    requires |marker| > 0
    requires i == IndexOf(s, '\n') < |s|
    ensures Join("\n", CutLines(SplitOn(s, '\n'), marker))
         == LineCut(s[..i], marker) + "\n" + Join("\n", CutLines(SplitOn(s[i + 1..], '\n'), marker))
  {
    var t, rest := s[..i], SplitOn(s[i + 1..], '\n');
    SplitStep(s, '\n', i);
    assert ([t] + rest)[1..] == rest;
    assert CutLines([t] + rest, marker) == [LineCut(t, marker)] + CutLines(rest, marker);
    JoinCons("\n", LineCut(t, marker), CutLines(rest, marker));
  }

  /** The line break at `i` is kept, and the pass goes on after it */
  lemma LineBreakKept(s: string, i: nat, marker: string)
    requires |marker| > 0 && '\n' !in marker && i < |s| && s[i] == '\n'
    ensures DropLineComments(s[i..], marker) == "\n" + DropLineComments(s[i + 1..], marker)
  {
    var u := s[i..];
    assert !OccursAt(u, marker, 0) by { assert u[0] == '\n'; }
    KeepFirst(u, marker);
    assert u[1..] == s[i + 1..];
  }

  lemma JoinCons(sep: string, x: string, ys: seq<string>)
    requires |ys| >= 1
    ensures Join(sep, [x] + ys) == x + sep + Join(sep, ys)
  {
    assert ([x] + ys)[1..] == ys;
  }

  /** `split` takes the first piece off, then splits the rest */
  lemma SplitStep(s: string, c: char, i: nat)
    requires i == IndexOf(s, c) < |s|
    ensures SplitOn(s, c) == [s[..i]] + SplitOn(s[i + 1..], c)
  {
  }

  /** The end of the run of `\s` characters starting at `i` */
  function SpaceRunEnd(s: string, i: nat): (e: nat)
    requires i <= |s|
    ensures i <= e <= |s|
    ensures forall p :: i <= p < e ==> IsSpace(s[p])
    ensures e == |s| || !IsSpace(s[e])
    decreases |s| - i
  {
    if i == |s| || !IsSpace(s[i]) then i else SpaceRunEnd(s, i + 1)
  }

  /**
   * What a collapse of blank runs makes of position `i`, looking only at
   * `s[i - 1]` and `s[i]`: a non-blank is kept, the first blank of a run
   * becomes one space, and every later blank of the run is dropped.
   */
  function Piece(s: string, i: nat): string
    requires i < |s|
  {
    if !IsSpace(s[i]) then [s[i]] else if i > 0 && IsSpace(s[i - 1]) then [] else " "
  }

  /** The pieces of positions `i` to `|s| - 1`, in order */
  function Squeezed(s: string, i: nat): string
    requires i <= |s|
    decreases |s| - i
  {
    if i == |s| then [] else Piece(s, i) + Squeezed(s, i + 1)
  }

  /** `re.sub(r"\s+", " ", s)`: every maximal run of blanks becomes one space */
  function CollapseSpaces(s: string): (r: string)
    ensures r == [] <==> s == []
    ensures s != [] ==> (r[0] == ' ' <==> IsSpace(s[0]))
    ensures forall i :: 0 <= i < |r| ==> r[i] == ' ' || (r[i] in s && !IsSpace(r[i]))
    ensures forall i :: 0 <= i < |r| - 1 ==> !(r[i] == ' ' && r[i + 1] == ' ')
    decreases |s|
  {
    if s == [] then []
    else if IsSpace(s[0]) then
      var e := SpaceRunEnd(s, 0);
      var rest := CollapseSpaces(s[e..]);
      assert forall c :: c in s[e..] ==> c in s;
      " " + rest
    else
      var rest := CollapseSpaces(s[1..]);
      assert forall c :: c in s[1..] ==> c in s;
      assert rest != [] ==> (rest[0] == ' ' ==> IsSpace(s[1]));
      [s[0]] + rest
  }

  /**
   * The scan agrees with the position-by-position definition: each
   * non-blank is kept, each maximal run of blanks becomes one space.
   */
  lemma {:induction false} CollapseSpacesSqueezed(s: string)
    ensures CollapseSpaces(s) == Squeezed(s, 0)
    decreases |s|
  {
    if s != [] {
      if IsSpace(s[0]) {
        var e := SpaceRunEnd(s, 0);
        CollapseSpacesSqueezed(s[e..]);
        SqueezedShift(s, e, 0);
        SqueezedSkip(s, 1, e);
      } else {
        CollapseSpacesSqueezed(s[1..]);
        SqueezedShift(s, 1, 0);
      }
    }
  }

  /** Blanks after a blank add nothing */
  lemma {:induction false} SqueezedSkip(s: string, i: nat, e: nat)
    requires 1 <= i <= e <= |s|
    requires forall p :: i - 1 <= p < e ==> IsSpace(s[p])
    ensures Squeezed(s, i) == Squeezed(s, e)
    decreases e - i
  {
    if i < e {
      SqueezedSkip(s, i + 1, e);
    }
  }

  /** Squeezing a suffix from a run boundary is squeezing the whole text from there */
  lemma {:induction false} SqueezedShift(s: string, d: nat, k: nat)
    requires d + k <= |s|
    requires k > 0 || d == 0 || d == |s| || !IsSpace(s[d - 1]) || !IsSpace(s[d])
    ensures Squeezed(s[d..], k) == Squeezed(s, d + k)
    decreases |s| - d - k
  {
    if d + k < |s| {
      PieceShift(s, d, k);
      SqueezedShift(s, d, k + 1);
    }
  }

  lemma PieceShift(s: string, d: nat, k: nat)
    requires d + k < |s|
    requires k > 0 || d == 0 || !IsSpace(s[d - 1]) || !IsSpace(s[d])
    ensures Piece(s[d..], k) == Piece(s, d + k)
  {
    assert s[d..][k] == s[d + k];
    if k > 0 {
      assert s[d..][k - 1] == s[d + k - 1];
    }
  }

  /** The non-blank characters of `s`, in order */
  function NonBlanks(s: string): string
    decreases |s|
  {
    if s == [] then [] else (if IsSpace(s[0]) then [] else [s[0]]) + NonBlanks(s[1..])
  }

  lemma {:induction false} NonBlanksAppend(a: string, b: string)
    ensures NonBlanks(a + b) == NonBlanks(a) + NonBlanks(b)
    decreases |a|
  {
    if a != [] {
      assert (a + b)[1..] == a[1..] + b;
      NonBlanksAppend(a[1..], b);
    } else {
      assert a + b == b;
    }
  }

  lemma {:induction false} SqueezedNonBlanks(s: string, i: nat)
    requires i <= |s|
    ensures NonBlanks(Squeezed(s, i)) == NonBlanks(s[i..])
    decreases |s| - i
  {
    if i < |s| {
      SqueezedNonBlanks(s, i + 1);
      NonBlanksAppend(Piece(s, i), Squeezed(s, i + 1));
      assert s[i..][1..] == s[i + 1..];
      assert NonBlanks(Piece(s, i)) == if IsSpace(s[i]) then [] else [s[i]];
    }
  }

  /** Collapsing blanks keeps every non-blank character, in order */
  lemma CollapseSpacesKeepsNonBlanks(s: string)
    ensures NonBlanks(CollapseSpaces(s)) == NonBlanks(s)
  {
    CollapseSpacesSqueezed(s);
    SqueezedNonBlanks(s, 0);
    assert s[0..] == s;
  }

  /** Text whose only blank is a lone, unrepeated `' '` is left alone */
  lemma {:induction false} CollapseSpacesFixed(s: string)
    requires forall i :: 0 <= i < |s| ==> s[i] == ' ' || !IsSpace(s[i])
    requires forall i :: 0 <= i < |s| - 1 ==> !(s[i] == ' ' && s[i + 1] == ' ')
    ensures CollapseSpaces(s) == s
    decreases |s|
  {
    if s != [] {
      if IsSpace(s[0]) {
        assert SpaceRunEnd(s, 1) == 1;
        assert SpaceRunEnd(s, 0) == 1;
      }
      CollapseSpacesFixed(s[1..]);
      assert s == [s[0]] + s[1..];
    }
  }

  lemma {:induction false} SpaceRunToEnd(s: string, i: nat)
    requires i <= |s| && AllSpace(s)
    ensures SpaceRunEnd(s, i) == |s|
    decreases |s| - i
  {
    if i < |s| { SpaceRunToEnd(s, i + 1); }
  }

  /** Blank text collapses to a single space, or to nothing when empty */
  lemma CollapseBlank(s: string)
    requires AllSpace(s)
    ensures CollapseSpaces(s) == if s == [] then [] else " "
  {
    if s != [] {
      SpaceRunToEnd(s, 0);
      assert s[|s|..] == [];
    }
  }
}
