/**
 * Winnowing: hash every k-gram of the token sequence and keep the minimum
 * of every window of `w` consecutive k-gram hashes. The hash of a k-gram
 * is an abstract MD5 of its space-joined tokens, masked to 64 bits.
 */
module Winnowing {
  import opened Wrappers
  import opened Text
  import opened Bits
  import opened Lists
  import SimHash

  /** The default k-gram length and window width */
  const DefaultK := 15
  const DefaultWindow := 4

  /** `rolling_hash`: the MD5 of the space-joined tokens, `& 0xFFFFFFFFFFFFFFFF` */
  function RollingHash(md5: string -> nat, tokens: seq<string>): (h: nat)
    ensures h < Word64
  {
    SimHash.Digest(md5, Join(" ", tokens)) % Word64
  }

  /** The number of k-grams of `n` tokens, as `range(n - k + 1)` counts them */
  function KgramCount(n: nat, k: int): nat
  {
    if n - k + 1 < 0 then 0 else n - k + 1
  }

  /** `[rolling_hash(tokens[i:i + k]) for i in range(n - k + 1)]` */
  function KgramHashes(md5: string -> nat, tokens: seq<string>, k: int): (hashes: seq<nat>)
    ensures |hashes| == KgramCount(|tokens|, k)
    ensures forall i :: 0 <= i < |hashes| ==> hashes[i] < Word64
  {
    var hashes := seq<nat>(KgramCount(|tokens|, k), (i: int) => RollingHash(md5, PySlice(tokens, i, i + k)));
    forall i | 0 <= i < |hashes| ensures hashes[i] < Word64 {
      assert hashes[i] == RollingHash(md5, PySlice(tokens, i, i + k));
    }
    hashes
  }

  /** K-gram `i` hashes tokens `i` to `i + k - 1`, as a Python slice picks them */
  lemma KgramAt(md5: string -> nat, tokens: seq<string>, k: int, i: nat)
    requires i < KgramCount(|tokens|, k)
    ensures KgramHashes(md5, tokens, k)[i] == RollingHash(md5, PySlice(tokens, i, i + k))
  {
  }

  /** With `1 <= k <= n`, k-gram `i` is exactly tokens `i` to `i + k - 1` */
  lemma KgramIsSlice(md5: string -> nat, tokens: seq<string>, k: int, i: nat)
    requires 1 <= k <= |tokens| && i < |tokens| - k + 1
    ensures KgramHashes(md5, tokens, k)[i] == RollingHash(md5, tokens[i..i + k])
  {
    KgramAt(md5, tokens, k, i);
  }

  /** `min(s)` */
  function SeqMin(s: seq<nat>): (m: nat)
    requires |s| > 0
    ensures m in s
    ensures forall x :: x in s ==> m <= x
  {
    if |s| == 1 then s[0]
    else
      var m := SeqMin(s[1..]);
      assert forall x :: x in s ==> x == s[0] || x in s[1..];
      if s[0] <= m then s[0] else m
  }

  /** `(len(s) - 1) - s[::-1].index(min(s))`: the last position holding the minimum */
  function RightmostMin(s: seq<nat>): (idx: nat)
    requires |s| > 0
    ensures idx < |s| && s[idx] == SeqMin(s)
    ensures forall j :: idx < j < |s| ==> s[j] != SeqMin(s)
  {
    var m := SeqMin(s);
    var rev := Reverse(s);
    var p :| 0 <= p < |s| && s[p] == m;
    assert rev[|s| - 1 - p] == m;
    var f := FirstIndex(rev, m);
    forall j | |s| - 1 - f < j < |s| ensures s[j] != m {
      assert rev[|s| - 1 - j] == s[j];
    }
    |s| - 1 - f
  }

  /** The minimum of the window of `w` hashes starting at `i` */
  function WindowMin(hashes: seq<nat>, i: nat, w: nat): (m: nat)
    requires 1 <= w && i + w <= |hashes|
    ensures m in hashes[i..i + w]
    ensures forall j :: i <= j < i + w ==> m <= hashes[j]
  {
    var m := SeqMin(hashes[i..i + w]);
    assert forall j :: i <= j < i + w ==> hashes[j] in hashes[i..i + w];
    m
  }

  /** The minimum of every window of `w` consecutive hashes, left to right */
  function WindowMins(hashes: seq<nat>, w: nat): (mins: seq<nat>)
    requires 1 <= w <= |hashes|
    ensures |mins| == |hashes| - w + 1
    ensures forall i :: 0 <= i < |mins| ==> mins[i] == WindowMin(hashes, i, w)
  {
    seq<nat>(|hashes| - w + 1, i requires 0 <= i < |hashes| - w + 1 => WindowMin(hashes, i, w))
  }

  /** `min(window, len(hashes))` */
  function Width(window: int, hashes: seq<nat>): (w: int)
    ensures w <= window && w <= |hashes| && (w == window || w == |hashes|)
    ensures window >= 1 && |hashes| >= 1 ==> 1 <= w <= |hashes|
  {
    if window < |hashes| then window else |hashes|
  }

  /** The winnowed set for a positive window: every window's minimum */
  function Winnowed(hashes: seq<nat>, window: int): (fps: set<nat>)
    requires window >= 1 && |hashes| >= 1
  {
    set x | x in WindowMins(hashes, Width(window, hashes))
  }

  /**
   * Window `i` of width `w > 0` is a plain slice whose minimum is `WindowMin`;
   * with `w <= 0` the first empty window is the one at `i == -w`.
   */
  lemma WindowSlice(hashes: seq<nat>, i: int, w: int)
    requires 0 <= i < |hashes| - w + 1 && (w <= 0 ==> i <= -w)
    ensures w > 0 ==> (PySlice(hashes, i, i + w) == hashes[i..i + w]
      && SeqMin(PySlice(hashes, i, i + w)) == WindowMin(hashes, i, w))
    ensures w <= 0 && i == -w ==> PySlice(hashes, i, i + w) == []
  {
  }

  /**
   * The loop of `winnow`: the minimum of `hashes[i:i + w]` for every `i` in
   * `range(len(hashes) - w + 1)`. A width `<= 0` reaches the empty window at
   * `i == -w` and `min` fails there; a width above `#hashes` has no window.
   */
  method SlideWindows(hashes: seq<nat>, w: int) returns (r: Option<seq<nat>>)
    ensures r.None? <==> w <= 0
    ensures 1 <= w <= |hashes| ==> r == Some(WindowMins(hashes, w))
    ensures w > |hashes| ==> r == Some([])
  {
    var fingerprints: seq<nat> := [];
    var i := 0;
    while i < |hashes| - w + 1
      invariant 0 <= i <= if w > |hashes| then 0 else |hashes| - w + 1
      invariant w <= 0 ==> i <= -w
      invariant w > 0 ==> |fingerprints| == i
      invariant w > 0 ==> forall j :: 0 <= j < i ==> fingerprints[j] == WindowMin(hashes, j, w)
    {
      var windowHashes := PySlice(hashes, i, i + w);
      if windowHashes == [] {
        return None;
      }
      WindowSlice(hashes, i, w);
      var minVal := SeqMin(windowHashes);
      var idx := RightmostMin(windowHashes);
      fingerprints := fingerprints + [minVal];
      i := i + 1;
    }
    if w <= |hashes| {
      assert fingerprints == WindowMins(hashes, w);
    }
    return Some(fingerprints);
  }

  /**
   * `winnow(tokens, k, window)`. Fewer than `k` tokens give the empty set;
   * otherwise the window width is `w = min(window, #hashes)` and a width
   * `<= 0` makes `min` fail on an empty window (`None`).
   */
  method Winnow(md5: string -> nat, tokens: seq<string>, k: int, window: int) returns (r: Option<set<nat>>)
    ensures |tokens| < k ==> r == Some({})
    ensures |tokens| >= k ==> (r.None? <==> window <= 0)
    ensures |tokens| >= k && window >= 1 ==> r == Some(Winnowed(KgramHashes(md5, tokens, k), window))
  {
    var n := |tokens|;
    if n < k {
      return Some({});
    }
    var hashes := KgramHashes(md5, tokens, k);
    var w := Width(window, hashes);
    var mins := SlideWindows(hashes, w);
    if mins.None? {
      return None;
    }
    return Some(set x | x in mins.value);
  }

  /**
   * What the winnowed set of a computation that did not fail is: hashes of
   * k-grams, never empty, at most one per window.
   */
  lemma WinnowedFacts(md5: string -> nat, tokens: seq<string>, k: int, window: int)
    requires |tokens| >= k && window >= 1
    ensures var hashes := KgramHashes(md5, tokens, k);
      && |hashes| == |tokens| - k + 1
      && (forall x :: x in Winnowed(hashes, window) ==> x in hashes && x < Word64)
      && Winnowed(hashes, window) != {}
      && |Winnowed(hashes, window)| <= |hashes| - Width(window, hashes) + 1
  {
    var hashes := KgramHashes(md5, tokens, k);
    var w := Width(window, hashes);
    forall x | x in Winnowed(hashes, window) ensures x in hashes {
      MinsAreWindowMinima(hashes, w, x);
    }
    WindowMinimaKept(hashes, w, 0);
    assert WindowMin(hashes, 0, w) in Winnowed(hashes, window);
    WinnowSize(hashes, w);
    assert Winnowed(hashes, window) == set x | x in WindowMins(hashes, w);
  }

  /** Every fingerprint is the minimum of some window, hence one of the hashes */
  lemma MinsAreWindowMinima(hashes: seq<nat>, w: nat, x: nat)
    requires 1 <= w <= |hashes| && x in WindowMins(hashes, w)
    ensures exists i :: 0 <= i <= |hashes| - w && x == WindowMin(hashes, i, w)
    ensures x in hashes
  {
    var i :| 0 <= i < |WindowMins(hashes, w)| && WindowMins(hashes, w)[i] == x;
    assert x in hashes[i..i + w];
  }

  /** Every window's minimum is kept, so the set is never empty */
  lemma WindowMinimaKept(hashes: seq<nat>, w: nat, i: nat)
    requires 1 <= w <= |hashes| && i <= |hashes| - w
    ensures WindowMin(hashes, i, w) in (set x | x in WindowMins(hashes, w))
  {
    assert WindowMins(hashes, w)[i] == WindowMin(hashes, i, w);
  }

  /** At most one fingerprint per window */
  lemma WinnowSize(hashes: seq<nat>, w: nat)
    requires 1 <= w <= |hashes|
    ensures |set x | x in WindowMins(hashes, w)| <= |hashes| - w + 1
  {
    var mins := WindowMins(hashes, w);
    SetOfSeqCard(mins);
    assert (set x | x in mins) == (set x: nat | x in mins);
  }
}
