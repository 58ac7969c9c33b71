/** Generic sequence helpers. */
module Lists {

  predicate NoDuplicates<T(==,!new)>(s: seq<T>) {
    forall i, j :: 0 <= i < j < |s| ==> s[i] != s[j]
  }

  /** The index of the first occurrence of `x` in `s` */
  function FirstIndex<T(==,!new)>(s: seq<T>, x: T): (i: nat)
    requires x in s
    ensures i < |s| && s[i] == x
    ensures forall j :: 0 <= j < i ==> s[j] != x
  {
    if s[0] == x then 0 else 1 + FirstIndex(s[1..], x)
  }

  /**
   * The distinct elements of `s` in first-seen order: the key order of a
   * Python dict filled by walking `s`.
   */
  function Dedup<T(==,!new)>(s: seq<T>): (d: seq<T>)
    ensures forall x :: x in d <==> x in s
    ensures NoDuplicates(d)
    ensures |d| <= |s|
  {
    if s == [] then []
    else
      var d := Dedup(s[..|s| - 1]);
      if s[|s| - 1] in d then d else d + [s[|s| - 1]]
  }

  lemma FirstIndexPrefix<T(!new)>(s: seq<T>, n: nat, x: T)
    requires n <= |s| && x in s[..n]
    ensures FirstIndex(s, x) == FirstIndex(s[..n], x)
  {
    var i := FirstIndex(s[..n], x);
    assert s[i] == x;
    assert forall j :: 0 <= j < i ==> s[j] == s[..n][j];
    var k := FirstIndex(s, x);
    assert k <= i;
    assert s[..n][k] == x;
  }

  /** `Dedup` keeps the order in which elements are first seen */
  lemma {:induction false} DedupFirstSeenOrder<T(!new)>(s: seq<T>)
    ensures forall j, k :: 0 <= j < k < |Dedup(s)| ==> FirstIndex(s, Dedup(s)[j]) < FirstIndex(s, Dedup(s)[k])
  {
    if s != [] {
      var p := s[..|s| - 1];
      var x := s[|s| - 1];
      DedupFirstSeenOrder(p);
      var d := Dedup(p);
      forall j, k | 0 <= j < k < |Dedup(s)| ensures FirstIndex(s, Dedup(s)[j]) < FirstIndex(s, Dedup(s)[k]) {
        FirstIndexPrefix(s, |s| - 1, Dedup(s)[j]);
        assert s[..|s| - 1] == p;
        if k < |d| {
          FirstIndexPrefix(s, |s| - 1, Dedup(s)[k]);
        } else {
          assert Dedup(s)[k] == x && x !in p;
          assert FirstIndex(s, x) == |s| - 1;
        }
      }
    }
  }

  lemma DedupLength<T(!new)>(s: seq<T>)
    ensures |Dedup(s)| == |set x | x in s|
  {
    var d := Dedup(s);
    var e := set x | x in s;
    assert e == set x | x in d;
    DistinctCard(d);
  }

  /** A sequence has at most as many distinct elements as positions */
  lemma SetOfSeqCard<T(!new)>(s: seq<T>)
    ensures |set x | x in s| <= |s|
  {
    DedupLength(s);
  }

  lemma {:induction false} DistinctCard<T(!new)>(d: seq<T>)
    requires NoDuplicates(d)
    ensures |set x | x in d| == |d|
  {
    if d != [] {
      var p := d[..|d| - 1];
      DistinctCard(p);
      assert (set x | x in d) == (set x | x in p) + {d[|d| - 1]};
      assert d[|d| - 1] !in p;
    }
  }

  /** Where a Python slice bound `a` lands in a sequence of length `len` */
  function PyIndex(a: int, len: nat): (p: nat)
    ensures p <= len
    ensures 0 <= a <= len ==> p == a
  {
    if a < 0 then (if a + len < 0 then 0 else a + len)
    else if a > len then len
    else a
  }

  /** Python's `s[a:b]`: negative bounds count from the end, bounds are clamped */
  function PySlice<T>(s: seq<T>, a: int, b: int): (r: seq<T>)
    ensures |r| <= |s|
    ensures 0 <= a <= b <= |s| ==> r == s[a..b]
    ensures 0 <= b <= a ==> r == []
  {
    var i, j := PyIndex(a, |s|), PyIndex(b, |s|);
    if i < j then s[i..j] else []
  }

  /** `s[::-1]` */
  function Reverse<T>(s: seq<T>): (r: seq<T>)
    ensures |r| == |s|
    ensures forall i :: 0 <= i < |s| ==> r[i] == s[|s| - 1 - i]
  {
    if s == [] then [] else Reverse(s[1..]) + [s[0]]
  }

  /** The in-order concatenation of `f` over `s` */
  function ConcatMap<A, B>(f: A -> seq<B>, s: seq<A>): seq<B>
  {
    if s == [] then [] else ConcatMap(f, s[..|s| - 1]) + f(s[|s| - 1])
  }

  lemma {:induction false} ConcatMapAppend<A, B>(f: A -> seq<B>, a: seq<A>, b: seq<A>)
    ensures ConcatMap(f, a + b) == ConcatMap(f, a) + ConcatMap(f, b)
    decreases |b|
  {
    if b == [] {
      assert a + b == a;
    } else {
      assert (a + b)[..|a + b| - 1] == a + b[..|b| - 1];
      ConcatMapAppend(f, a, b[..|b| - 1]);
    }
  }

  /** An element `f` maps to nothing can be dropped */
  lemma ConcatMapSkip<A, B>(f: A -> seq<B>, a: seq<A>, x: A, b: seq<A>)
    requires f(x) == []
    ensures ConcatMap(f, a + [x] + b) == ConcatMap(f, a + b)
  {
    ConcatMapAppend(f, a + [x], b);
    ConcatMapAppend(f, a, [x]);
    ConcatMapAppend(f, a, b);
    assert ConcatMap(f, [x]) == [] by { assert [x][..0] == []; }
  }

  /** The dict `d` with `d[x] = d.get(x, 0) + 1` run for each `x` of `s`: every element's number of occurrences */
  function Counts<T(==)>(s: seq<T>): map<T, nat>
  {
    if s == [] then map[]
    else
      var m := Counts(s[..|s| - 1]);
      var x := s[|s| - 1];
      m[x := (if x in m then m[x] else 0) + 1]
  }

  /** `Counts(s)` maps exactly the elements of `s`, each to its number of occurrences */
  lemma {:induction false} CountsMeaning<T(!new)>(s: seq<T>)
    ensures forall x :: x in Counts(s) <==> x in s
    ensures forall x :: x in Counts(s) ==> Counts(s)[x] == multiset(s)[x]
  {
    if s != [] {
      var p, x := s[..|s| - 1], s[|s| - 1];
      assert s == p + [x];
      CountsMeaning(p);
    }
  }

  /** The keys of `Counts(s)` are exactly the distinct elements */
  lemma CountsSize<T(!new)>(s: seq<T>)
    ensures Counts(s).Keys == set x | x in s
    ensures |Counts(s).Keys| == |Dedup(s)|
  {
    CountsMeaning(s);
    DedupLength(s);
  }

  /** One more element bumps its own count and no other */
  lemma CountsSnoc<T(!new)>(s: seq<T>, x: T)
    ensures Counts(s + [x]) == Counts(s)[x := (if x in Counts(s) then Counts(s)[x] else 0) + 1]
  {
    assert (s + [x])[..|s|] == s;
  }

  /** `s` is its prefix before `i`, its element at `i` and the rest */
  lemma SplitAround<T>(s: seq<T>, i: nat)
    requires i < |s|
    ensures s[..i] + [s[i]] + s[i + 1..] == s
  {
  }

  /** Taking `x` out of `b` at `i` leaves the multiset of `a` when `a + [x]` matched `b` */
  lemma RemoveOne<T>(a: seq<T>, x: T, b: seq<T>, i: nat)
    requires i < |b| && b[i] == x && multiset(a + [x]) == multiset(b)
    ensures multiset(a) == multiset(b[..i] + b[i + 1..])
  {
    var front, back := b[..i], b[i + 1..];
    SplitAround(b, i);
    var left, right := multiset(a), multiset(front + back);
    assert left + multiset{x} == right + multiset{x};
    assert left == right + multiset{x} - multiset{x};
  }
}
