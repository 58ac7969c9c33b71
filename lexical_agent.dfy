/**
 * `LexicalAgent`: counts the `\w+` words of a repository's `.py`, `.java`
 * and `.js` files and scores the share of distinct words seen more than
 * three times.
 */
module LexicalAgent {
  import opened Wrappers
  import opened Text
  import opened Lists
  import opened Sources
  import Ratios

  /** The suffixes `analyze` reads */
  const LexicalExts: seq<string> := [".py", ".java", ".js"]

  /** The words one walked file contributes: `re.findall(r"\w+", text)`, none when skipped */
  function FileWords(f: SourceFile): (ws: seq<string>)
    ensures !HasSuffixIn(f.name, LexicalExts) || f.content.None? ==> ws == []
  {
    if HasSuffixIn(f.name, LexicalExts) && f.content.Some? then Matches(f.content.value, Word) else []
  }

  /** Every word of every file, in walk order */
  function AllWords(files: seq<SourceFile>): seq<string>
  {
    ConcatMap(FileWords, files)
  }

  /** `sum(1 for v in tokens.values() if v > 3)`: the words counted more than three times */
  function Repeated(tokens: map<string, nat>): (n: nat)
    ensures n <= |tokens|
  {
    var heavy := set w | w in tokens && tokens[w] > 3;
    assert heavy <= tokens.Keys;
    Ratios.SubsetCard(heavy, tokens.Keys);
    |heavy|
  }

  /** `min(1.0, repeated / (len(tokens) + 1))` */
  function LexicalScore(repeated: nat, unique: nat): (score: real)
    requires repeated <= unique
    ensures 0.0 <= score < 1.0
    ensures score * ((unique + 1) as real) == repeated as real
  {
    var q := repeated as real / (unique + 1) as real;
    assert q * (unique + 1) as real == repeated as real;
    BelowOne(repeated as real, (unique + 1) as real);
    if 1.0 < q then 1.0 else q
  }

  lemma BelowOne(s: real, t: real)
    requires 0.0 <= s < t
    ensures 0.0 <= s / t < 1.0
  {
    var q := s / t;
    assert q * t == s;
    assert (1.0 - q) * t == t - s;
    assert q >= 0.0 by { Ratios.FactorSign(q, t); }
    assert 1.0 - q > 0.0 by { PositiveFactor(1.0 - q, t); }
  }

  lemma PositiveFactor(x: real, t: real)
    requires t > 0.0 && x * t > 0.0
    ensures x > 0.0
  {
  }

  /** The details dict of `analyze` */
  datatype LexicalDetails = LexicalDetails(repeatedTokens: nat, uniqueTokens: nat)

  /** The score and details `analyze` reports for the walked files */
  function Analysis(files: seq<SourceFile>): (sd: (real, LexicalDetails))
  {
    var tokens := Counts(AllWords(files));
    var repeated := Repeated(tokens);
    (LexicalScore(repeated, |tokens|), LexicalDetails(repeated, |tokens|))
  }

  /** The inner loop of `analyze`: `tokens[w] = tokens.get(w, 0) + 1` for each word of one file */
  method Tally(tokens: map<string, nat>, ghost seen: seq<string>, words: seq<string>) returns (out: map<string, nat>)
    requires tokens == Counts(seen)
    ensures out == Counts(seen + words)
  {
    out := tokens;
    assert seen + words[..0] == seen;
    for j := 0 to |words|
      invariant out == Counts(seen + words[..j])
    {
      var w := words[j];
      assert seen + words[..j + 1] == (seen + words[..j]) + [w];
      CountsSnoc(seen + words[..j], w);
      out := out[w := (if w in out then out[w] else 0) + 1];
    }
    assert words[..|words|] == words;
  }

  /** `analyze(repo_path)` over the files the walk lists */
  method Analyze(files: seq<SourceFile>) returns (score: real, details: LexicalDetails)
    ensures (score, details) == Analysis(files)
  {
    var tokens: map<string, nat> := map[];
    for i := 0 to |files|
      invariant tokens == Counts(AllWords(files[..i]))
    {
      assert files[..i + 1][..i] == files[..i];
      assert AllWords(files[..i + 1]) == AllWords(files[..i]) + FileWords(files[i]);
      ghost var seen := AllWords(files[..i]);
      var f := files[i];
      if HasSuffixIn(f.name, LexicalExts) {
        match f.content {
          case None =>
            assert seen + FileWords(f) == seen;
          case Some(text) =>
            var words := Matches(text, Word);
            assert words == FileWords(f);
            tokens := Tally(tokens, seen, words);
        }
      } else {
        assert seen + FileWords(f) == seen;
      }
    }
    assert files[..|files|] == files;
    var repeated := Repeated(tokens);
    score := LexicalScore(repeated, |tokens|);
    details := LexicalDetails(repeated, |tokens|);
  }

  /** A word is repeated exactly when it occurs more than three times across all files */
  lemma RepeatedWords(files: seq<SourceFile>)
    ensures var tokens := Counts(AllWords(files));
      Analysis(files).1.repeatedTokens == |set w | w in AllWords(files) && multiset(AllWords(files))[w] > 3|
  {
    var ws := AllWords(files);
    var tokens := Counts(ws);
    CountsMeaning(ws);
    assert (set w | w in tokens && tokens[w] > 3) == (set w | w in ws && multiset(ws)[w] > 3);
  }

  /** `unique_tokens` is the number of distinct words */
  lemma UniqueWords(files: seq<SourceFile>)
    ensures Analysis(files).1.uniqueTokens == |set w | w in AllWords(files)|
  {
    CountsSize(AllWords(files));
  }

  /** Without a single word the score is 0 and both counts are 0 */
  lemma NoWordsScoreZero(files: seq<SourceFile>)
    requires AllWords(files) == []
    ensures Analysis(files) == (0.0, LexicalDetails(0, 0))
  {
    assert Counts(AllWords(files)) == map[];
  }

  /** The result dict of `run` */
  datatype LexicalReport = LexicalReport(agent: string, score: real, details: LexicalDetails)

  /** `run(repo_path)`: `analyze`'s score and details under agent "lexical" */
  method Run(files: seq<SourceFile>) returns (report: LexicalReport)
    ensures report.agent == "lexical"
    ensures (report.score, report.details) == Analysis(files)
    ensures 0.0 <= report.score < 1.0
  {
    var score, details := Analyze(files);
    report := LexicalReport("lexical", score, details);
  }
}
