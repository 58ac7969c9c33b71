/**
 * `ContributorAgent.analyze`: counts the distinct author-like tokens of a
 * repository's `.git/logs/HEAD` and scores `1 / (n + 1)`.
 */
module ContributorAgent {
  import opened Text
  import opened Lists

  /** What opening `.git/logs/HEAD` gives: no such file, a read that raised, or its lines */
  datatype GitLog = Missing | Unreadable(error: string) | Lines(lines: seq<string>)

  /** The details dict of `analyze` */
  datatype ContributorDetails =
    | NoGitLogs
    | Authors(nAuthors: nat, sampleAuthors: seq<string>)
    | ReadError(error: string)

  /** `"@" in token and "<" not in token` */
  predicate IsAuthorToken(token: string) {
    '@' in token && '<' !in token
  }

  /** `line.strip().split()`: the whitespace-separated fields of a line */
  function Fields(line: string): seq<string> {
    Matches(Strip(line), NonSpace)
  }

  /** The author tokens of one line, left to right */
  function LineAuthors(line: string): (ts: seq<string>)
    ensures forall k :: 0 <= k < |ts| ==> IsAuthorToken(ts[k]) && ts[k] in Fields(line)
  {
    Filtered(Fields(line))
  }

  function Filtered(parts: seq<string>): (ts: seq<string>)
    ensures forall k :: 0 <= k < |ts| ==> IsAuthorToken(ts[k]) && ts[k] in parts
    ensures forall t :: t in parts && IsAuthorToken(t) ==> t in ts
  {
    if parts == [] then []
    else
      var rest := Filtered(parts[..|parts| - 1]);
      var t := parts[|parts| - 1];
      assert forall u :: u in parts ==> u in parts[..|parts| - 1] || u == t;
      if IsAuthorToken(t) then rest + [t] else rest
  }

  /** Every author token of the log, in reading order */
  function AuthorTokens(lines: seq<string>): seq<string> {
    ConcatMap(LineAuthors, lines)
  }

  /** `min(1.0, (1.0 / (n_authors + 1)) if n_authors > 0 else 0.0)` */
  function ContributorScore(nAuthors: nat): (score: real)
    ensures nAuthors == 0 ==> score == 0.0
    ensures nAuthors > 0 ==> 0.0 < score <= 0.5 && score * ((nAuthors + 1) as real) == 1.0
  {
    var s := if nAuthors > 0 then 1.0 / (nAuthors + 1) as real else 0.0;
    assert nAuthors > 0 ==> s * (nAuthors + 1) as real == 1.0 && s <= 0.5 by {
      if nAuthors > 0 { Reciprocal((nAuthors + 1) as real); }
    }
    if 1.0 < s then 1.0 else s
  }

  lemma Reciprocal(t: real)
    requires t >= 2.0
    ensures 0.0 < 1.0 / t <= 0.5 && (1.0 / t) * t == 1.0
  {
    var q := 1.0 / t;
    assert q * t == 1.0;
    assert (0.5 - q) * t == 0.5 * t - 1.0;
  }

  /** `list(authors.keys())[:5]`: at most five authors, in the order first seen */
  function Sample(keys: seq<string>): (s: seq<string>)
    ensures |s| <= 5 && |s| <= |keys|
    ensures s == keys[..|s|]
    ensures |keys| >= 5 ==> |s| == 5
    ensures |keys| < 5 ==> s == keys
  {
    if |keys| <= 5 then keys else keys[..5]
  }

  /** The score and details `analyze` reports for a log */
  function Analysis(log: GitLog): (real, ContributorDetails)
  {
    match log
    case Missing => (0.0, NoGitLogs)
    case Unreadable(e) => (0.0, ReadError(e))
    case Lines(lines) =>
      var authors := Dedup(AuthorTokens(lines));
      (ContributorScore(|authors|), Authors(|authors|, Sample(authors)))
  }

  /**
   * The nested loop over lines and tokens: `authors[token] += 1`. The dict's
   * key order is kept beside it in `order`.
   */
  method Tally(authors: map<string, nat>, order: seq<string>, ghost seen: seq<string>, tokens: seq<string>)
    returns (authors': map<string, nat>, order': seq<string>)
    requires authors == Counts(seen) && order == Dedup(seen)
    ensures authors' == Counts(seen + tokens) && order' == Dedup(seen + tokens)
  {
    authors', order' := authors, order;
    assert seen + tokens[..0] == seen;
    for j := 0 to |tokens|
      invariant authors' == Counts(seen + tokens[..j]) && order' == Dedup(seen + tokens[..j])
    {
      var token := tokens[j];
      ghost var cur := seen + tokens[..j];
      assert seen + tokens[..j + 1] == cur + [token];
      CountsSnoc(cur, token);
      KeyOrderSnoc(cur, token);
      if token !in authors' {
        order' := order' + [token];
      }
      authors' := authors'[token := (if token in authors' then authors'[token] else 0) + 1];
    }
    assert tokens[..|tokens|] == tokens;
  }

  /** A dict's key order gains a key exactly when the key is new */
  lemma KeyOrderSnoc(s: seq<string>, x: string)
    ensures Dedup(s + [x]) == if x in Counts(s) then Dedup(s) else Dedup(s) + [x]
  {
    CountsMeaning(s);
    assert (s + [x])[..|s|] == s;
  }

  /** `analyze(repo_path)` on what reading the log gives */
  method Analyze(log: GitLog) returns (score: real, details: ContributorDetails)
    ensures (score, details) == Analysis(log)
  {
    match log {
      case Missing =>
        return 0.0, NoGitLogs;
      case Unreadable(e) =>
        return 0.0, ReadError(e);
      case Lines(lines) =>
        var authors: map<string, nat> := map[];
        var order: seq<string> := [];
        for i := 0 to |lines|
          invariant authors == Counts(AuthorTokens(lines[..i])) && order == Dedup(AuthorTokens(lines[..i]))
        {
          assert lines[..i + 1][..i] == lines[..i];
          assert AuthorTokens(lines[..i + 1]) == AuthorTokens(lines[..i]) + LineAuthors(lines[i]);
          var parts := Fields(lines[i]);
          var found := AuthorsAmong(parts);
          authors, order := Tally(authors, order, AuthorTokens(lines[..i]), found);
        }
        assert lines[..|lines|] == lines;
        CountsSize(AuthorTokens(lines));
        var nAuthors := |authors|;
        score := ContributorScore(nAuthors);
        details := Authors(nAuthors, Sample(order));
    }
  }

  /** The `for token in parts: if ...` filter of one line */
  method AuthorsAmong(parts: seq<string>) returns (found: seq<string>)
    ensures found == Filtered(parts)
  {
    found := [];
    for k := 0 to |parts|
      invariant found == Filtered(parts[..k])
    {
      assert parts[..k + 1][..k] == parts[..k];
      if IsAuthorToken(parts[k]) {
        found := found + [parts[k]];
      }
    }
    assert parts[..|parts|] == parts;
  }

  /** A missing log and a failed read both score 0 */
  lemma NoLogScoresZero(log: GitLog)
    requires !log.Lines?
    ensures Analysis(log).0 == 0.0
  {
  }

  /** `n_authors` is the number of distinct author tokens, and the sample lists the first of them in first-seen order */
  lemma AuthorsCounted(lines: seq<string>)
    ensures var (_, d) := Analysis(Lines(lines));
      && d.nAuthors == |set t | t in AuthorTokens(lines)|
      && d.sampleAuthors == Dedup(AuthorTokens(lines))[..|d.sampleAuthors|]
      && (forall t :: t in d.sampleAuthors ==> IsAuthorToken(t))
      && (forall j, k :: 0 <= j < k < |d.sampleAuthors| ==>
            FirstIndex(AuthorTokens(lines), d.sampleAuthors[j]) < FirstIndex(AuthorTokens(lines), d.sampleAuthors[k]))
  {
    var ts := AuthorTokens(lines);
    DedupLength(ts);
    DedupFirstSeenOrder(ts);
    AuthorTokensAreAuthors(lines);
    var d := Dedup(ts);
    var s := Sample(d);
    forall t | t in s ensures IsAuthorToken(t) {
      assert t in d;
    }
  }

  lemma {:induction false} AuthorTokensAreAuthors(lines: seq<string>)
    ensures forall t :: t in AuthorTokens(lines) ==> IsAuthorToken(t)
  {
    if lines != [] {
      AuthorTokensAreAuthors(lines[..|lines| - 1]);
      var ls := LineAuthors(lines[|lines| - 1]);
      assert forall t :: t in ls ==> IsAuthorToken(t);
    }
  }

  /** With at least one author the score is `1 / (n + 1)`: never above a half, so `min(1.0, ...)` never binds */
  lemma ScoreAtMostHalf(lines: seq<string>)
    requires AuthorTokens(lines) != []
    ensures 0.0 < Analysis(Lines(lines)).0 <= 0.5
  {
    DedupLength(AuthorTokens(lines));
    assert AuthorTokens(lines)[0] in Dedup(AuthorTokens(lines));
  }
}
