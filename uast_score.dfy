/**
 * `UASTScorer.normalize`: damp the similarity of small trees, by half below
 * five nodes and by a quarter below ten.
 */
module UastScore {

  /** The factor a tree of `size` nodes is damped by */
  function Damping(size: int): (f: real)
    ensures 0.5 <= f <= 1.0
  {
    if size < 5 then 0.5 else if size < 10 then 0.75 else 1.0
  }

  /** `normalize(raw_score, size)` */
  function Normalize(rawScore: real, size: int): (r: real)
    ensures r == rawScore * Damping(size)
    ensures size < 5 ==> r == rawScore * 0.5
    ensures 5 <= size < 10 ==> r == rawScore * 0.75
    ensures size >= 10 ==> r == rawScore
  {
    if size < 5 then rawScore * 0.5
    else if size < 10 then rawScore * 0.75
    else rawScore
  }

  /** A non-negative score stays non-negative and never grows, so one in [0, 1] stays in [0, 1] */
  lemma NormalizeBounds(rawScore: real, size: int)
    requires 0.0 <= rawScore
    ensures 0.0 <= Normalize(rawScore, size) <= rawScore
    ensures rawScore <= 1.0 ==> Normalize(rawScore, size) <= 1.0
  {
  }

  /** A larger tree is damped less */
  lemma NormalizeMonotoneInSize(rawScore: real, small: int, large: int)
    requires rawScore >= 0.0 && small <= large
    ensures Normalize(rawScore, small) <= Normalize(rawScore, large)
  {
    assert Damping(small) <= Damping(large);
  }

  /** A higher raw score stays higher at the same size */
  lemma NormalizeMonotoneInScore(a: real, b: real, size: int)
    requires a <= b
    ensures Normalize(a, size) <= Normalize(b, size)
  {
  }
}
