/** Set ratios shared by the winnowing and structural comparisons. */
module Ratios {

  lemma SubsetCard<T>(a: set<T>, b: set<T>)
    requires a <= b
    ensures |a| <= |b|
  {
    assert b == a + (b - a);
  }

  /** A count divided by a larger positive count lies in [0, 1] */
  lemma Fraction(c: nat, d: nat)
    requires c <= d && d > 0
    ensures 0.0 <= c as real / d as real <= 1.0
    ensures (c as real / d as real) * d as real == c as real
  {
    var q := c as real / d as real;
    assert q * d as real == c as real;
    assert (1.0 - q) * d as real == (d - c) as real;
    FactorSign(q, d as real);
    FactorSign(1.0 - q, d as real);
  }

  lemma FactorSign(x: real, t: real)
    requires t > 0.0 && x * t >= 0.0
    ensures x >= 0.0
  {
  }

  /**
   * `|A ∩ B| / |A ∪ B|`, and 0.0 when either set is empty: the body of
   * both `jaccard_similarity` and `structural_similarity`.
   */
  function Jaccard<T>(a: set<T>, b: set<T>): (r: real)
    ensures a == {} || b == {} ==> r == 0.0
    ensures a != {} && b != {} ==> r * (|a + b| as real) == |a * b| as real
    ensures 0.0 <= r <= 1.0
  {
    if a == {} || b == {} then 0.0
    else
      SubsetCard(a * b, a + b);
      SubsetCard(a, a + b);
      Fraction(|a * b|, |a + b|);
      (|a * b| as real) / (|a + b| as real)
  }

  lemma JaccardSymmetric<T>(a: set<T>, b: set<T>)
    ensures Jaccard(a, b) == Jaccard(b, a)
  {
    assert a * b == b * a && a + b == b + a;
  }

  lemma JaccardSelf<T>(a: set<T>)
    requires a != {}
    ensures Jaccard(a, a) == 1.0
  {
    assert a * a == a && a + a == a;
  }

  /** Jaccard reaches 1.0 exactly on equal non-empty sets */
  lemma JaccardOneIffEqual<T>(a: set<T>, b: set<T>)
    requires a != {} && b != {}
    ensures Jaccard(a, b) == 1.0 <==> a == b
  {
    if Jaccard(a, b) == 1.0 {
      assert |a * b| == |a + b|;
      if a != b {
        if x :| x in a && x !in b {
          assert x in a + b && x !in a * b;
          SubsetCard(a * b, (a + b) - {x});
        } else {
          var y :| y in b && y !in a;
          assert y in a + b && y !in a * b;
          SubsetCard(a * b, (a + b) - {y});
        }
      }
    }
    if a == b { JaccardSelf(a); }
  }
}
