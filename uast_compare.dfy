/**
 * `UASTComparator.similarity`: the signatures the two trees have in common,
 * divided by the larger of the two signature sets (not by their union).
 */
module UastCompare {
  import opened UastNodes
  import opened SubtreeExtractor
  import Ratios
  import Lists

  function Max(a: nat, b: nat): (m: nat)
    ensures m >= a && m >= b && (m == a || m == b)
  {
    if a >= b then a else b
  }

  /** `set(SubtreeExtractor.extract(tree))` */
  function SignatureSet(t: Tree): set<string>
  {
    set s | s in Subtrees(t)
  }

  /** Duplicate signatures count once: the set holds the root's signature and at most one entry per node */
  lemma SignatureSetBounds(t: Tree)
    ensures Signature(t) in SignatureSet(t)
    ensures 1 <= |SignatureSet(t)| <= Size(t)
  {
    SubtreesFollowKinds(t);
    Lists.SetOfSeqCard(Subtrees(t));
  }

  /** `len(common) / max(len(subs_a), len(subs_b))`, and 0.0 when either set is empty */
  function Overlap(a: set<string>, b: set<string>): (r: real)
    ensures a == {} || b == {} ==> r == 0.0
    ensures a != {} && b != {} ==> r * (Max(|a|, |b|) as real) == |a * b| as real
    ensures 0.0 <= r <= 1.0
  {
    if a == {} || b == {} then 0.0
    else
      Ratios.SubsetCard(a * b, a);
      Ratios.Fraction(|a * b|, Max(|a|, |b|));
      (|a * b| as real) / (Max(|a|, |b|) as real)
  }

  lemma OverlapSymmetric(a: set<string>, b: set<string>)
    ensures Overlap(a, b) == Overlap(b, a)
  {
    assert a * b == b * a;
  }

  /** The overlap reaches 1.0 exactly on equal non-empty sets */
  lemma OverlapOneIffEqual(a: set<string>, b: set<string>)
    requires a != {} && b != {}
    ensures Overlap(a, b) == 1.0 <==> a == b
  {
    if Overlap(a, b) == 1.0 {
      assert |a * b| == Max(|a|, |b|);
      Ratios.SubsetCard(a * b, a);
      Ratios.SubsetCard(a * b, b);
      assert |a * b| == |a| && |a * b| == |b|;
      SubsetEqualCard(a * b, a);
      SubsetEqualCard(a * b, b);
    }
    if a == b {
      assert a * b == a;
      assert Overlap(a, b) * |a| as real == |a| as real;
    }
  }

  lemma SubsetEqualCard(a: set<string>, b: set<string>)
    requires a <= b && |a| == |b|
    ensures a == b
  {
    if a != b {
      var x :| x in b && x !in a;
      Ratios.SubsetCard(a, b - {x});
    }
  }

  /** Dividing by the larger set never gives less than dividing by the union */
  lemma JaccardAtMostOverlap(a: set<string>, b: set<string>)
    ensures Ratios.Jaccard(a, b) <= Overlap(a, b)
  {
    if a != {} && b != {} {
      Ratios.SubsetCard(a, a + b);
      Ratios.SubsetCard(b, a + b);
      var m, u, c := Max(|a|, |b|) as real, |a + b| as real, |a * b| as real;
      assert 0.0 < m <= u;
      assert Overlap(a, b) * m == c && Ratios.Jaccard(a, b) * u == c;
      var j, o := Ratios.Jaccard(a, b), Overlap(a, b);
      MulNonNegative(j, u - m);
      assert j * m <= o * m;
    }
  }

  lemma MulNonNegative(x: real, y: real)
    requires x >= 0.0 && y >= 0.0
    ensures x * y >= 0.0
  {
  }

  /** Identical trees are fully similar */
  lemma SameTreeFullySimilar(t: Tree)
    ensures Overlap(SignatureSet(t), SignatureSet(t)) == 1.0
  {
    SignatureSetBounds(t);
    OverlapOneIffEqual(SignatureSet(t), SignatureSet(t));
  }

  /** `similarity(tree_a, tree_b)` */
  method Similarity(treeA: UASTNode, treeB: UASTNode) returns (r: real)
    requires treeA.Valid() && treeB.Valid()
    ensures r == Overlap(SignatureSet(treeA.Abs()), SignatureSet(treeB.Abs()))
    ensures 0.0 < r <= 1.0 ==> SignatureSet(treeA.Abs()) * SignatureSet(treeB.Abs()) != {}
  {
    var listA := Extract(treeA);
    var listB := Extract(treeB);
    var subsA := set s | s in listA;
    var subsB := set s | s in listB;
    assert subsA == SignatureSet(treeA.Abs()) && subsB == SignatureSet(treeB.Abs());
    OverlapPositive(subsA, subsB);
    if subsA == {} || subsB == {} {
      return 0.0;
    }
    var common := subsA * subsB;
    r := (|common| as real) / (Max(|subsA|, |subsB|) as real);
  }

  /** A positive overlap needs a common signature */
  lemma OverlapPositive(a: set<string>, b: set<string>)
    ensures Overlap(a, b) > 0.0 ==> a * b != {}
  {
  }
}
