/**
 * The SimHash token fingerprint: a comment-stripping normaliser, an
 * identifier tokenizer, the per-bit vote accumulator, and the Hamming
 * distance and similarity of two fingerprints. MD5 is a parameter: any
 * deterministic function from a token to a number, reduced to the 128-bit
 * range of an MD5 hexdigest.
 */
module SimHash {
  import opened Text
  import opened Patterns
  import opened Bits
  import opened Lists

  /** The default fingerprint width */
  const DefaultHashBits := 64

  /** `int(md5(s).hexdigest(), 16)` for an abstract `md5` */
  function Digest(md5: string -> nat, s: string): (h: nat)
    ensures h < Word128
  {
    md5(s) % Word128
  }

  // ------------------------------------------------------------ normalise

  // `re.sub(r"//.*?$|/\*.*?\*/", "", s, flags=re.DOTALL | re.MULTILINE)`:
  // a line comment (two slashes) runs up to, not including, the next line
  // break; a block comment (slash, star) runs through the first closing
  // star-slash that does not overlap the opening pair. An opening pair that
  // is never closed matches nothing and is kept.
  function StripCodeComments(s: string): (r: string)
    ensures IsSubsequence(r, s)
    ensures IsPrefixOf(s[..FirstCodeComment(s)], r)
    ensures FirstCodeComment(s) == |s| ==> r == s
    decreases |s|
  {
    if s == [] then []
    else if OccursAt(s, "//", 0) then
      var e := IndexOf(s, '\n');
      assert e >= 2 by { assert s[0] == '/' && s[1] == '/'; }
      var rest := StripCodeComments(s[e..]);
      DropPrefix(rest, s, e);
      rest
    else if OccursAt(s, "/*", 0) && FindFrom(s, "*/", 2) < |s| then
      var e := FindFrom(s, "*/", 2) + 2;
      var rest := StripCodeComments(s[e..]);
      DropPrefix(rest, s, e);
      rest
    else
      var rest := StripCodeComments(s[1..]);
      KeepOutsideComment(s, rest);
      [s[0]] + rest
  }

  /** A comment of either style that matches at the front of `t` */
  predicate CodeCommentAt(t: string) {
    OccursAt(t, "//", 0) || (OccursAt(t, "/*", 0) && FindFrom(t, "*/", 2) < |t|)
  }

  /** Where the leftmost comment match starts, or `|s|` when there is none */
  function FirstCodeComment(s: string): (p: nat)
    ensures p <= |s|
    ensures p < |s| ==> CodeCommentAt(s[p..])
    ensures forall j :: 0 <= j < p ==> !CodeCommentAt(s[j..])
    decreases |s|
  {
    if s == [] || CodeCommentAt(s) then 0
    else
      var p := FirstCodeComment(s[1..]);
      forall j | 1 <= j < p + 1 ensures !CodeCommentAt(s[j..]) {
        assert s[1..][j - 1..] == s[j..];
      }
      assert s[p + 1..] == s[1..][p..];
      p + 1
  }

  // Where a comment match at the front of `t` ends: at the line break for
  // a line comment (the break stays), or just past the closing star-slash
  // of a block comment.
  function CommentEnd(t: string): (e: nat)
    requires CodeCommentAt(t)
    ensures 2 <= e <= |t|
  {
    if OccursAt(t, "//", 0) then
      assert t[0] == '/' && t[1] == '/';
      IndexOf(t, '\n')
    else FindFrom(t, "*/", 2) + 2
  }

  /**
   * The pass after its first match: the text before the leftmost comment,
   * then the text from where that comment's match ends, cleaned the same way
   */
  lemma {:induction false} StripCodeCommentsStep(s: string)
    requires FirstCodeComment(s) < |s|
    ensures var p := FirstCodeComment(s);
      StripCodeComments(s) == s[..p] + StripCodeComments(s[p..][CommentEnd(s[p..])..])
    decreases |s|
  {
    var p := FirstCodeComment(s);
    if p == 0 {
      StripAtComment(s);
      assert s[0..] == s;
    } else {
      KeptBeforeComment(s);
      StripCodeCommentsStep(s[1..]);
      ConsPrefix(s, p, StripCodeComments(s[p..][CommentEnd(s[p..])..]));
    }
  }

  /** Before the first comment the first character is kept, and the comment is one nearer in the tail */
  lemma KeptBeforeComment(s: string)
    requires 0 < FirstCodeComment(s) < |s|
    ensures FirstCodeComment(s[1..]) == FirstCodeComment(s) - 1
    ensures StripCodeComments(s) == [s[0]] + StripCodeComments(s[1..])
  {
    assert !CodeCommentAt(s[0..]);
    assert s[0..] == s;
    StripKeepsFirst(s);
    FirstCodeCommentStep(s);
  }

  lemma ConsPrefix(s: string, p: nat, tail: string)
    requires 1 <= p <= |s|
    ensures s[1..][p - 1..] == s[p..]
    ensures [s[0]] + (s[1..][..p - 1] + tail) == s[..p] + tail
  {
    assert s[..p] == [s[0]] + s[1..][..p - 1];
  }

  /** A comment at the front is dropped through the end of its match */
  lemma StripAtComment(s: string)
    requires CodeCommentAt(s)
    ensures StripCodeComments(s) == StripCodeComments(s[CommentEnd(s)..])
  {
  }

  /** Without a comment at the front, the first character is kept */
  lemma StripKeepsFirst(s: string)
    requires s != [] && !CodeCommentAt(s)
    ensures StripCodeComments(s) == [s[0]] + StripCodeComments(s[1..])
  {
  }

  /** With no comment at the front, the first comment is one further on than in the tail */
  lemma FirstCodeCommentStep(s: string)
    requires s != [] && !CodeCommentAt(s)
    ensures FirstCodeComment(s) == FirstCodeComment(s[1..]) + 1
  {
  }

  /** Without a comment at the front, keeping the first character keeps the promises */
  lemma KeepOutsideComment(s: string, rest: string)
    requires s != [] && !CodeCommentAt(s)
    requires IsSubsequence(rest, s[1..])
    requires IsPrefixOf(s[1..][..FirstCodeComment(s[1..])], rest)
    requires FirstCodeComment(s[1..]) == |s[1..]| ==> rest == s[1..]
    ensures IsSubsequence([s[0]] + rest, s)
    ensures IsPrefixOf(s[..FirstCodeComment(s)], [s[0]] + rest)
    ensures FirstCodeComment(s) == |s| ==> [s[0]] + rest == s
  {
    Keep(s[0], rest, s[1..]);
    assert [s[0]] + s[1..] == s;
    FirstCodeCommentStep(s);
    PrefixCons(s, rest, FirstCodeComment(s[1..]));
  }

  /** Keeping the first character of `s` keeps the kept prefix of its tail */
  lemma PrefixCons(s: string, rest: string, p: nat)
    requires s != [] && p < |s| && IsPrefixOf(s[1..][..p], rest)
    ensures IsPrefixOf(s[..p + 1], [s[0]] + rest)
  {
    assert s[..p + 1] == [s[0]] + s[1..][..p];
  }

  lemma DropPrefix(r: string, s: string, e: nat)
    requires e <= |s| && IsSubsequence(r, s[e..])
    ensures IsSubsequence(r, s)
  {
    SubsequencePrepend(r, s[e..], s[..e]);
    assert s[..e] + s[e..] == s;
  }

  /** Text without a `/` has no comment of either style */
  lemma {:induction false} StripCodeCommentsNoSlash(s: string)
    requires '/' !in s
    ensures StripCodeComments(s) == s
    decreases |s|
  {
    if s != [] {
      assert !OccursAt(s, "//", 0) && !OccursAt(s, "/*", 0) by { assert s[0] != '/'; }
      StripCodeCommentsNoSlash(s[1..]);
      assert [s[0]] + s[1..] == s;
    }
  }

  /**
   * Normal text: no `#`, every blank a single space between two non-blank
   * characters.
   */
  predicate Normalized(r: string) {
    SingleSpaced(r) && (r == [] || (r[0] != ' ' && r[|r| - 1] != ' '))
  }

  /** No `#`, and every blank a single space */
  predicate SingleSpaced(r: string) {
    && '#' !in r
    && (forall i :: 0 <= i < |r| ==> SpaceOrTextAt(r, i))
    && (forall i :: 0 <= i < |r| ==> NoDoubleSpaceAt(r, i))
  }

  /** A blank at `i` is a plain space */
  predicate SpaceOrTextAt(r: string, i: int) {
    0 <= i < |r| && (r[i] == ' ' || !IsSpace(r[i]))
  }

  /** No second space follows a space at `i` */
  predicate NoDoubleSpaceAt(r: string, i: int) {
    0 <= i < |r| && (i + 1 < |r| ==> !(r[i] == ' ' && r[i + 1] == ' '))
  }

  /**
   * `normalize_code`: strip line, block and `#` comments, collapse every
   * run of blanks to one space, and strip the ends.
   */
  function NormalizeCode(text: string): string
  {
    var b := DropLineComments(StripCodeComments(text), "#");
    var c := CollapseSpaces(b);
    Strip(c)
  }

  /** What collapsing the blanks of comment-free text leaves */
  lemma CollapsedShape(b: string, c: string)
    requires '#' !in b && c == CollapseSpaces(b)
    ensures SingleSpaced(c)
  {
    forall i | 0 <= i < |c| ensures c[i] != '#' && SpaceOrTextAt(c, i) && NoDoubleSpaceAt(c, i) {
      assert c[i] == ' ' || c[i] in b;
    }
  }

  /** Normalising leaves normal text */
  lemma NormalizeCodeNormal(text: string)
    ensures Normalized(NormalizeCode(text))
  {
    var b := DropLineComments(StripCodeComments(text), "#");
    var c := CollapseSpaces(b);
    CollapsedShape(b, c);
    StrippedShape(c);
  }

  /** Stripping single-spaced text leaves normal text */
  lemma StrippedShape(c: string)
    requires SingleSpaced(c)
    ensures Normalized(Strip(c))
  {
    InfixSingleSpaced(c, StripStart(c), |Strip(c)|);
  }

  /** Any infix of single-spaced text, such as what stripping leaves, is single-spaced */
  lemma InfixSingleSpaced(c: string, off: nat, n: nat)
    requires SingleSpaced(c) && off + n <= |c|
    ensures SingleSpaced(c[off..off + n])
  {
    var r := c[off..off + n];
    forall i | 0 <= i < n ensures r[i] != '#' && SpaceOrTextAt(r, i) && NoDoubleSpaceAt(r, i) {
      assert r[i] == c[off + i] && SpaceOrTextAt(c, off + i) && NoDoubleSpaceAt(c, off + i);
      if i + 1 < n {
        assert r[i + 1] == c[off + i + 1];
      }
    }
  }

  /** Text that is already normal (no comment marker, single inner spaces) is a fixed point */
  lemma NormalizeCodeFixed(text: string)
    requires '/' !in text && Normalized(text)
    ensures NormalizeCode(text) == text
  {
    StripCodeCommentsNoSlash(text);
    HashAbsent(text);
    DropLineCommentsNoMarker(text, "#");
    forall i | 0 <= i < |text|
      ensures (text[i] == ' ' || !IsSpace(text[i])) && (i + 1 < |text| ==> !(text[i] == ' ' && text[i + 1] == ' '))
    {
      assert SpaceOrTextAt(text, i) && NoDoubleSpaceAt(text, i);
    }
    CollapseSpacesFixed(text);
    StripFixed(text);
  }

  // ------------------------------------------------------------- tokenize

  /**
   * `re.findall(r"[A-Za-z_]\w*", text)`: the identifier-shaped runs of the
   * text, in order. A digit never starts a token, so numeric literals are
   * not tokens.
   */
  function Tokenize(text: string): (tokens: seq<string>)
    ensures |tokens| == |Spans(text, Identifier, 0)|
    ensures forall k :: 0 <= k < |tokens| ==>
      tokens[k] == text[Spans(text, Identifier, 0)[k].start..Spans(text, Identifier, 0)[k].end]
    ensures forall k :: 0 <= k < |tokens| ==>
      && |tokens[k]| >= 1
      && (IsLetter(tokens[k][0]) || tokens[k][0] == '_')
      && forall q :: 1 <= q < |tokens[k]| ==> IsWordChar(tokens[k][q])
  {
    var r := Matches(text, Identifier);
    forall k | 0 <= k < |r|
      ensures |r[k]| >= 1 && (IsLetter(r[k][0]) || r[k][0] == '_')
      ensures forall q :: 1 <= q < |r[k]| ==> IsWordChar(r[k][q])
    {
      MatchShape(text, Identifier, k);
    }
    r
  }

  /** No token begins with a digit */
  lemma TokensNotNumeric(text: string, k: nat)
    requires k < |Tokenize(text)|
    ensures !IsDigit(Tokenize(text)[k][0])
  {
  }

  // --------------------------------------------------------------- votes

  /** How many tokens have bit `i` of their digest set */
  function Ones(md5: string -> nat, tokens: seq<string>, i: nat): (n: nat)
    ensures n <= |tokens|
  {
    if tokens == [] then 0
    else Ones(md5, tokens[..|tokens| - 1], i) + (if Bit(Digest(md5, tokens[|tokens| - 1]), i) then 1 else 0)
  }

  /** How many tokens have bit `i` of their digest clear */
  function Zeros(md5: string -> nat, tokens: seq<string>, i: nat): (n: nat)
    ensures n <= |tokens|
  {
    if tokens == [] then 0
    else Zeros(md5, tokens[..|tokens| - 1], i) + (if Bit(Digest(md5, tokens[|tokens| - 1]), i) then 0 else 1)
  }

  /** One more token adds its vote */
  lemma OnesStep(md5: string -> nat, tokens: seq<string>, t: nat, i: nat)
    requires t < |tokens|
    ensures Ones(md5, tokens[..t + 1], i) == Ones(md5, tokens[..t], i) + (if Bit(Digest(md5, tokens[t]), i) then 1 else 0)
    ensures Zeros(md5, tokens[..t + 1], i) == Zeros(md5, tokens[..t], i) + (if Bit(Digest(md5, tokens[t]), i) then 0 else 1)
  {
    assert tokens[..t + 1][..t] == tokens[..t];
  }

  /** Every token votes on every bit, one way or the other */
  lemma {:induction false} OnesPlusZeros(md5: string -> nat, tokens: seq<string>, i: nat)
    ensures Ones(md5, tokens, i) + Zeros(md5, tokens, i) == |tokens|
  {
    if tokens != [] { OnesPlusZeros(md5, tokens[..|tokens| - 1], i); }
  }

  /**
   * The fingerprint's low `n` bits: bit `i` is set exactly when strictly more
   * tokens vote 1 than 0 on it.
   */
  function Fingerprint(md5: string -> nat, tokens: seq<string>, n: nat): (fp: nat)
    ensures fp < Pow2(n)
  {
    if n == 0 then 0
    else Fingerprint(md5, tokens, n - 1) + (if Ones(md5, tokens, n - 1) > Zeros(md5, tokens, n - 1) then Pow2(n - 1) else 0)
  }

  /** Bit `i` of the fingerprint is the majority vote, a tie giving 0 */
  lemma {:induction false} FingerprintBit(md5: string -> nat, tokens: seq<string>, n: nat, i: nat)
    requires i < n
    ensures Bit(Fingerprint(md5, tokens, n), i) <==> Ones(md5, tokens, i) > Zeros(md5, tokens, i)
  {
    var prev := Fingerprint(md5, tokens, n - 1);
    if i == n - 1 {
      BitHigh(prev, n - 1, i);
      if Ones(md5, tokens, i) > Zeros(md5, tokens, i) { BitAddTop(prev, n - 1); }
    } else {
      FingerprintBit(md5, tokens, n - 1, i);
      if Ones(md5, tokens, n - 1) > Zeros(md5, tokens, n - 1) { BitAddLow(prev, n - 1, i); }
    }
  }

  /** With no tokens every vote ties, so the fingerprint is 0 */
  lemma {:induction false} FingerprintEmpty(md5: string -> nat, n: nat)
    ensures Fingerprint(md5, [], n) == 0
  {
    if n > 0 { FingerprintEmpty(md5, n - 1); }
  }

  /**
   * `compute_simhash(tokens, hash_bits)`: accumulate a +1/-1 vote per bit
   * and per token, then OR in `1 << i` for every bit with a positive total.
   * A negative width behaves like `range` over it: no bits.
   */
  method ComputeSimhash(md5: string -> nat, tokens: seq<string>, hashBits: int) returns (fingerprint: nat)
    ensures fingerprint == Fingerprint(md5, tokens, if hashBits < 0 then 0 else hashBits)
    ensures hashBits >= 0 ==> fingerprint < Pow2(hashBits)
    ensures tokens == [] ==> fingerprint == 0
    ensures forall i :: 0 <= i < hashBits ==>
      (Bit(fingerprint, i) <==> Ones(md5, tokens, i) > Zeros(md5, tokens, i))
  {
    var nb: nat := if hashBits < 0 then 0 else hashBits;
    var v := Votes(md5, tokens, nb);
    fingerprint := 0;
    for i := 0 to nb
      invariant fingerprint == Fingerprint(md5, tokens, i)
      invariant forall j :: 0 <= j < nb ==> v[j] == Ones(md5, tokens, j) - Zeros(md5, tokens, j)
    {
      if v[i] > 0 {
        OrPow2(fingerprint, i);
        fingerprint := Or(fingerprint, Pow2(i));
      }
    }
    forall i | 0 <= i < hashBits
      ensures Bit(fingerprint, i) <==> Ones(md5, tokens, i) > Zeros(md5, tokens, i)
    {
      FingerprintBit(md5, tokens, nb, i);
    }
    if tokens == [] { FingerprintEmpty(md5, nb); }
  }

  /**
   * The vote vector `v` of `compute_simhash`: for each token and each bit,
   * `+1` when the digest has the bit set and `-1` otherwise.
   */
  method Votes(md5: string -> nat, tokens: seq<string>, nb: nat) returns (v: array<int>)
    ensures fresh(v) && v.Length == nb
    ensures forall j :: 0 <= j < nb ==> v[j] == Ones(md5, tokens, j) - Zeros(md5, tokens, j)
  {
    v := new int[nb](_ => 0);
    for t := 0 to |tokens|
      invariant forall j :: 0 <= j < nb ==> v[j] == Ones(md5, tokens[..t], j) - Zeros(md5, tokens[..t], j)
    {
      var h := Digest(md5, tokens[t]);
      for i := 0 to nb
        invariant forall j :: 0 <= j < i ==> v[j] == Ones(md5, tokens[..t + 1], j) - Zeros(md5, tokens[..t + 1], j)
        invariant forall j :: i <= j < nb ==> v[j] == Ones(md5, tokens[..t], j) - Zeros(md5, tokens[..t], j)
      {
        var bit := if Bit(h, i) then 1 else -1;
        OnesStep(md5, tokens, t, i);
        v[i] := v[i] + bit;
      }
    }
    assert tokens[..|tokens|] == tokens;
  }

  // ------------------------------------------------- order does not matter

  /** Counting splits over concatenation */
  lemma {:induction false} OnesConcat(md5: string -> nat, a: seq<string>, b: seq<string>, i: nat)
    ensures Ones(md5, a + b, i) == Ones(md5, a, i) + Ones(md5, b, i)
    ensures Zeros(md5, a + b, i) == Zeros(md5, a, i) + Zeros(md5, b, i)
    decreases |b|
  {
    if b == [] {
      assert a + b == a;
    } else {
      assert (a + b)[..|a + b| - 1] == a + b[..|b| - 1];
      OnesConcat(md5, a, b[..|b| - 1], i);
    }
  }

  /** The votes depend only on the multiset of tokens */
  lemma {:induction false} OnesPermutation(md5: string -> nat, a: seq<string>, b: seq<string>, i: nat)
    requires multiset(a) == multiset(b)
    ensures Ones(md5, a, i) == Ones(md5, b, i)
    ensures Zeros(md5, a, i) == Zeros(md5, b, i)
    decreases |a|
  {
    if a != [] {
      var x := a[|a| - 1];
      var a' := a[..|a| - 1];
      assert a == a' + [x];
      assert x in multiset(b);
      var j :| 0 <= j < |b| && b[j] == x;
      RemoveOne(a', x, b, j);
      OnesPermutation(md5, a', b[..j] + b[j + 1..], i);
      OnesRemove(md5, b, j, i);
    }
  }

  /** Each count splits off the vote of one token */
  lemma OnesRemove(md5: string -> nat, b: seq<string>, j: nat, i: nat)
    requires j < |b|
    ensures var v := if Bit(Digest(md5, b[j]), i) then 1 else 0;
      && Ones(md5, b, i) == Ones(md5, b[..j] + b[j + 1..], i) + v
      && Zeros(md5, b, i) == Zeros(md5, b[..j] + b[j + 1..], i) + (1 - v)
  {
    var x, front, back := b[j], b[..j], b[j + 1..];
    SplitAround(b, j);
    OnesConcat(md5, front, [x], i);
    OnesConcat(md5, front + [x], back, i);
    OnesConcat(md5, front, back, i);
    assert [x][..0] == [];
  }

  /** Any permutation of the tokens gives the same fingerprint */
  lemma {:induction false} FingerprintPermutation(md5: string -> nat, a: seq<string>, b: seq<string>, n: nat)
    requires multiset(a) == multiset(b)
    ensures Fingerprint(md5, a, n) == Fingerprint(md5, b, n)
  {
    if n > 0 {
      FingerprintPermutation(md5, a, b, n - 1);
      OnesPermutation(md5, a, b, n - 1);
    }
  }

  /** A token's vote on bit `i`: +1 when its digest has the bit, -1 when not */
  function Vote(md5: string -> nat, t: string, i: nat): int {
    if Bit(Digest(md5, t), i) then 1 else -1
  }

  /** The votes of the tokens `ds`, each weighted by its count in `m` */
  function CountedVotes(md5: string -> nat, m: multiset<string>, ds: seq<string>, i: nat): int {
    if ds == [] then 0
    else CountedVotes(md5, m, ds[..|ds| - 1], i) + m[ds[|ds| - 1]] * Vote(md5, ds[|ds| - 1], i)
  }

  /** One more occurrence of `x` adds its vote once, if `x` is listed */
  lemma {:induction false} CountedVotesAdd(md5: string -> nat, m: multiset<string>, x: string, ds: seq<string>, i: nat)
    requires NoDuplicates(ds)
    ensures CountedVotes(md5, m + multiset{x}, ds, i) == CountedVotes(md5, m, ds, i) + (if x in ds then Vote(md5, x, i) else 0)
  {
    if ds != [] {
      var front, y := ds[..|ds| - 1], ds[|ds| - 1];
      assert NoDuplicates(front);
      CountedVotesAdd(md5, m, x, front, i);
      assert x in ds <==> x in front || x == y;
      if x == y {
        assert x !in front;
      }
    }
  }

  /** The vote difference of a token list, counted over any duplicate-free list of its tokens */
  lemma {:induction false} CountedVotesExact(md5: string -> nat, tokens: seq<string>, ds: seq<string>, i: nat)
    requires NoDuplicates(ds) && forall t :: t in tokens ==> t in ds
    ensures Ones(md5, tokens, i) - Zeros(md5, tokens, i) == CountedVotes(md5, multiset(tokens), ds, i)
  {
    if tokens == [] {
      CountedVotesNone(md5, ds, i);
    } else {
      var p, x := tokens[..|tokens| - 1], tokens[|tokens| - 1];
      assert tokens == p + [x];
      assert forall t :: t in p ==> t in tokens;
      CountedVotesExact(md5, p, ds, i);
      CountedVotesAdd(md5, multiset(p), x, ds, i);
    }
  }

  lemma {:induction false} CountedVotesNone(md5: string -> nat, ds: seq<string>, i: nat)
    ensures CountedVotes(md5, multiset{}, ds, i) == 0
  {
    if ds != [] { CountedVotesNone(md5, ds[..|ds| - 1], i); }
  }

  /**
   * The fingerprint as its distinct tokens voting: bit `i` is the sign of
   * the sum, over each distinct token, of its count times its vote.
   */
  lemma DistinctTokensVote(md5: string -> nat, tokens: seq<string>, n: nat, i: nat)
    ensures Ones(md5, tokens, i) - Zeros(md5, tokens, i) == CountedVotes(md5, multiset(tokens), Dedup(tokens), i)
    ensures i < n ==> (Bit(Fingerprint(md5, tokens, n), i) <==> CountedVotes(md5, multiset(tokens), Dedup(tokens), i) > 0)
  {
    CountedVotesExact(md5, tokens, Dedup(tokens), i);
    if i < n { FingerprintBit(md5, tokens, n, i); }
  }

  // ------------------------------------------------------- distance

  /** `hamming_distance`: the number of differing bits */
  function HammingDistance(h1: nat, h2: nat): (d: nat)
    ensures d == 0 <==> h1 == h2
    ensures h1 < Word64 && h2 < Word64 ==> d <= 64
  {
    var d := Popcount(Xor(h1, h2));
    assert h1 < Word64 && h2 < Word64 ==> d <= 64 by {
      if h1 < Word64 && h2 < Word64 {
        Pow2Of64();
        XorBound(h1, h2, 64);
        PopcountBound(Xor(h1, h2), 64);
      }
    }
    d
  }

  lemma HammingSymmetric(h1: nat, h2: nat)
    ensures HammingDistance(h1, h2) == HammingDistance(h2, h1)
  {
    XorSymmetric(h1, h2);
  }

  /** `simhash_similarity`: one minus the fraction of the 64 bits that differ */
  function SimhashSimilarity(h1: nat, h2: nat): (s: real)
    ensures h1 < Word64 && h2 < Word64 ==> 0.0 <= s <= 1.0
    ensures s == 1.0 <==> h1 == h2
  {
    1.0 - HammingDistance(h1, h2) as real / 64.0
  }

  lemma SimilaritySymmetric(h1: nat, h2: nat)
    ensures SimhashSimilarity(h1, h2) == SimhashSimilarity(h2, h1)
  {
    HammingSymmetric(h1, h2);
  }
}
