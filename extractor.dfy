/**
 * `extractor`: a file's text is cleaned and cut into chunks of at most
 * `max_lines` lines, each chunk stripped, blank chunks dropped.
 */
module Extractor {
  import opened Wrappers
  import opened Text
  import Cleaner

  function Min(a: int, b: int): int { if a <= b then a else b }

  /** How many values `range(0, n, m)` yields: the ceiling of n / m */
  function NumWindows(n: nat, m: nat): nat
    requires m > 0
  {
    (n + m - 1) / m
  }

  /** `w * m < n` exactly for the first `NumWindows(n, m)` values of `w` */
  lemma WindowStarts(n: nat, m: nat, w: nat)
    requires m > 0
    ensures w * m < n <==> w < NumWindows(n, m)
  {
    var x := n + m - 1;
    var c := x / m;
    var r := x % m;
    assert x == c * m + r && 0 <= r < m;
    if w < c {
      MulMonotone(w, c - 1, m);
      assert (c - 1) * m == c * m - m;
    } else {
      MulMonotone(c, w, m);
    }
  }

  lemma MulMonotone(a: nat, b: nat, m: nat)
    requires a <= b
    ensures a * m <= b * m
  {
    assert b * m - a * m == (b - a) * m;
  }

  /** `lines[j * m: (j + 1) * m]`, the lines of window `j` */
  function Window(lines: seq<string>, m: nat, j: nat): (ls: seq<string>)
    requires m > 0 && j < NumWindows(|lines|, m)
    ensures 0 < |ls| <= m
  {
    WindowStarts(|lines|, m, j);
    assert (j + 1) * m == j * m + m;
    lines[j * m..Min((j + 1) * m, |lines|)]
  }

  /** The windows of the loop, in order */
  function Windows(lines: seq<string>, m: nat): (ws: seq<seq<string>>)
    requires m > 0
    ensures |ws| == NumWindows(|lines|, m)
    ensures forall j :: 0 <= j < |ws| ==> ws[j] == Window(lines, m, j)
  {
    seq(NumWindows(|lines|, m), j requires 0 <= j < NumWindows(|lines|, m) => Window(lines, m, j))
  }

  /** What iteration `j` of the loop strips: window `j` joined with newlines */
  function Pieces(lines: seq<string>, m: nat): (ps: seq<string>)
    requires m > 0
    ensures |ps| == NumWindows(|lines|, m)
    ensures forall j :: 0 <= j < |ps| ==> ps[j] == Strip(Join("\n", Window(lines, m, j)))
  {
    var ws := Windows(lines, m);
    seq(|ws|, j requires 0 <= j < |ws| => Strip(Join("\n", ws[j])))
  }

  /** Iteration `w` starts at line `w * m`, and the next one `m` lines later */
  lemma PieceAt(lines: seq<string>, m: nat, w: nat, i: nat)
    requires m > 0 && w < NumWindows(|lines|, m) && i == w * m
    ensures i < |lines| && i + m == (w + 1) * m
    ensures Pieces(lines, m)[w] == Strip(Join("\n", lines[i..Min(i + m, |lines|)]))
  {
    WindowStarts(|lines|, m, w);
  }

  lemma NonEmptySnoc(ps: seq<string>, w: nat)
    requires w < |ps|
    ensures NonEmpty(ps[..w + 1]) == if ps[w] != [] then NonEmpty(ps[..w]) + [ps[w]] else NonEmpty(ps[..w])
  {
    assert ps[..w + 1][..w] == ps[..w];
  }

  /** The pieces that are not empty, in order: what `if chunk: chunks.append(chunk)` keeps */
  function NonEmpty(ps: seq<string>): (r: seq<string>)
    ensures |r| <= |ps|
    ensures forall k :: 0 <= k < |r| ==> r[k] != [] && r[k] in ps
    ensures r == [] <==> forall k :: 0 <= k < |ps| ==> ps[k] == []
  {
    if ps == [] then []
    else
      var rest := NonEmpty(ps[..|ps| - 1]);
      var p := ps[|ps| - 1];
      assert forall k :: 0 <= k < |ps| - 1 ==> ps[..|ps| - 1][k] == ps[k];
      if p != [] then rest + [p] else rest
  }

  /**
   * `chunk_text(text, max_lines)`: `None` where `range` raises on a zero
   * step; a negative step gives an empty range.
   */
  function Chunks(text: string, maxLines: int): (r: Option<seq<string>>)
    ensures r.None? <==> maxLines == 0
    ensures maxLines < 0 ==> r == Some([])
  {
    if maxLines == 0 then None
    else if maxLines < 0 then Some([])
    else Some(NonEmpty(Pieces(SplitOn(text, '\n'), maxLines)))
  }

  /** `chunk_text(text, max_lines)` */
  method ChunkText(text: string, maxLines: int) returns (chunks: Option<seq<string>>)
    ensures chunks == Chunks(text, maxLines)
  {
    var lines := SplitOn(text, '\n');
    if maxLines == 0 {
      return None;
    }
    var out: seq<string> := [];
    if maxLines > 0 {
      var m: nat := maxLines;
      ghost var ps := Pieces(lines, m);
      var i := 0;
      ghost var w: nat := 0;
      WindowStarts(|lines|, m, w);
      while i < |lines|
        invariant i == w * m && w <= |ps|
        invariant out == NonEmpty(ps[..w])
        decreases |lines| - i
      {
        WindowStarts(|lines|, m, w);
        PieceAt(lines, m, w, i);
        NonEmptySnoc(ps, w);
        var chunk := Strip(Join("\n", lines[i..Min(i + m, |lines|)]));
        if chunk != [] {
          out := out + [chunk];
        }
        i := i + m;
        w := w + 1;
      }
      WindowStarts(|lines|, m, w);
      assert ps[..w] == ps;
    }
    return Some(out);
  }

  /** Every chunk is non-empty and has no leading or trailing blank */
  lemma ChunksStripped(text: string, maxLines: int)
    requires maxLines != 0
    ensures forall c :: c in Chunks(text, maxLines).value ==> c != [] && !IsSpace(c[0]) && !IsSpace(c[|c| - 1])
  {
    if maxLines > 0 {
      var ps := Pieces(SplitOn(text, '\n'), maxLines);
      forall c | c in NonEmpty(ps) ensures c != [] && !IsSpace(c[0]) && !IsSpace(c[|c| - 1]) {
        var j :| 0 <= j < |ps| && ps[j] == c;
      }
    }
  }

  /** At most one chunk per window: no more than the ceiling of lines / max_lines */
  lemma ChunkCount(text: string, maxLines: int)
    requires maxLines > 0
    ensures |Chunks(text, maxLines).value| <= NumWindows(|SplitOn(text, '\n')|, maxLines)
  {
  }

  /** The windows, one after the other, are exactly the lines: in order, without overlap or gap */
  lemma {:induction false} WindowsCover(lines: seq<string>, m: nat, w: nat)
    requires m > 0 && w <= NumWindows(|lines|, m)
    ensures Flatten(Windows(lines, m)[..w]) == lines[..Min(w * m, |lines|)]
  {
    if w > 0 {
      var ws := Windows(lines, m);
      WindowsCover(lines, m, w - 1);
      assert ws[..w] == ws[..w - 1] + [ws[w - 1]];
      FlattenSnoc(ws[..w - 1]);
      WindowStarts(|lines|, m, w - 1);
      assert (w - 1) * m + m == w * m;
      assert lines[..(w - 1) * m] + lines[(w - 1) * m..Min(w * m, |lines|)] == lines[..Min(w * m, |lines|)];
    }
  }

  /** Every line is in exactly one window */
  lemma AllWindowsCover(lines: seq<string>, m: nat)
    requires m > 0
    ensures Flatten(Windows(lines, m)) == lines
  {
    var ws := Windows(lines, m);
    var w := |ws|;
    WindowsCover(lines, m, w);
    WindowStarts(|lines|, m, w);
    assert ws[..w] == ws;
    assert lines[..Min(w * m, |lines|)] == lines;
  }

  function Flatten(ws: seq<seq<string>>): seq<string> {
    if ws == [] then [] else Flatten(ws[..|ws| - 1]) + ws[|ws| - 1]
  }

  lemma FlattenSnoc(ws: seq<seq<string>>)
    ensures forall x :: Flatten(ws + [x]) == Flatten(ws) + x
  {
    forall x ensures Flatten(ws + [x]) == Flatten(ws) + x {
      assert (ws + [x])[..|ws|] == ws;
    }
  }

  lemma AllSpaceConcat(a: string, b: string)
    ensures AllSpace(a + b) <==> AllSpace(a) && AllSpace(b)
  {
    assert forall i :: 0 <= i < |a| ==> (a + b)[i] == a[i];
    assert forall i :: 0 <= i < |b| ==> (a + b)[|a| + i] == b[i];
  }

  /** Every line is empty or blank */
  predicate BlankLines(lines: seq<string>) {
    forall k :: 0 <= k < |lines| ==> AllSpace(lines[k])
  }

  /** Joined with blanks, parts give a blank text exactly when each part is blank */
  lemma {:induction false} AllSpaceJoin(sep: string, parts: seq<string>)
    requires AllSpace(sep)
    ensures AllSpace(Join(sep, parts)) <==> BlankLines(parts)
    decreases |parts|
  {
    if |parts| >= 2 {
      AllSpaceJoin(sep, parts[1..]);
      AllSpaceConcat(parts[0] + sep, Join(sep, parts[1..]));
      AllSpaceConcat(parts[0], sep);
      assert forall k :: 1 <= k < |parts| ==> parts[1..][k - 1] == parts[k];
    }
  }

  /** Text that is empty or only blanks gives no chunk, and it is the only text that gives none */
  lemma BlankTextNoChunks(text: string, maxLines: int)
    requires maxLines > 0
    ensures Chunks(text, maxLines) == Some([]) <==> AllSpace(text)
  {
    var m: nat := maxLines;
    var lines := SplitOn(text, '\n');
    assert Chunks(text, maxLines) == Some(NonEmpty(Pieces(lines, m)));
    LinesBlank(text);
    BlankLinesIff(lines, m);
  }

  lemma BlankLinesIff(lines: seq<string>, m: nat)
    requires m > 0
    ensures NonEmpty(Pieces(lines, m)) == [] <==> BlankLines(lines)
  {
    if BlankLines(lines) {
      BlankLinesNoPieces(lines, m);
    } else {
      var k := SomeTextLine(lines);
      TextLinePiece(lines, m, k);
    }
  }

  lemma SomeTextLine(lines: seq<string>) returns (k: nat)
    requires !BlankLines(lines)
    ensures k < |lines| && !AllSpace(lines[k])
  {
    k :| 0 <= k < |lines| && !AllSpace(lines[k]);
  }

  /** Text is blank exactly when each of its lines is */
  lemma LinesBlank(text: string)
    ensures AllSpace(text) <==> BlankLines(SplitOn(text, '\n'))
  {
    var lines := SplitOn(text, '\n');
    assert "\n" == ['\n'];
    assert Join("\n", lines) == text;
    assert AllSpace("\n");
    AllSpaceJoin("\n", lines);
  }

  lemma BlankLinesNoPieces(lines: seq<string>, m: nat)
    requires m > 0 && BlankLines(lines)
    ensures forall j :: 0 <= j < NumWindows(|lines|, m) ==> Pieces(lines, m)[j] == []
  {
    forall j | 0 <= j < NumWindows(|lines|, m) ensures Pieces(lines, m)[j] == [] {
      WindowStarts(|lines|, m, j);
      BlankWindow(lines, m, j);
    }
  }

  /** Each window of blank lines is blank */
  lemma BlankWindow(lines: seq<string>, m: nat, j: nat)
    requires m > 0 && j * m < |lines| && BlankLines(lines)
    ensures AllSpace(Join("\n", Window(lines, m, j)))
  {
    var win := Window(lines, m, j);
    assert forall k :: 0 <= k < |win| ==> win[k] == lines[j * m + k];
    assert BlankLines(win);
    AllSpaceJoin("\n", win);
  }

  /** A line with a non-blank character makes its window's piece non-empty */
  lemma TextLinePiece(lines: seq<string>, m: nat, k: nat)
    requires m > 0 && k < |lines| && !AllSpace(lines[k])
    ensures NonEmpty(Pieces(lines, m)) != []
  {
    var j := k / m;
    assert k == j * m + k % m;
    assert j * m <= k;
    WindowStarts(|lines|, m, j);
    var win := Window(lines, m, j);
    assert (j + 1) * m == j * m + m;
    assert win[k - j * m] == lines[k];
    AllSpaceJoin("\n", win);
    assert Pieces(lines, m)[j] != [];
  }

  /** `extract_clean_chunks(path)`: a read that fails gives `""`, as `read_file` does */
  function ExtractCleanChunks(read: Option<string>): (chunks: seq<string>)
    ensures forall c :: c in chunks ==> c != [] && !IsSpace(c[0]) && !IsSpace(c[|c| - 1])
    ensures chunks == Chunks(Cleaner.CleanCode(read.GetOr("")), 200).value
  {
    var cleaned := Cleaner.CleanCode(read.GetOr(""));
    ChunksStripped(cleaned, 200);
    Chunks(cleaned, 200).value
  }

  /** A file that cannot be read gives no chunks */
  lemma UnreadableNoChunks()
    ensures ExtractCleanChunks(None) == []
  {
    assert Cleaner.CleanCode("") == "" by {
      Cleaner.CleanCodeSubsequence("");
    }
    BlankTextNoChunks("", 200);
  }
}
