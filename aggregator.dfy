/**
 * `aggregate_results`: the weighted sum of the agents' scores divided by
 * the weight of every configured agent, rounded to four decimals.
 */
module Aggregator {
  import opened Weights
  import opened Lists
  import Ratios

  /** The two keys of an agent's result dict that the aggregator reads */
  datatype AgentResult = AgentResult(agent: string, score: real)

  /** `{"results": results, "aggregated_score": ...}` */
  datatype Aggregate = Aggregate(results: seq<AgentResult>, aggregatedScore: real)

  /** One result's share: its score times its weight, 1 for an agent the table does not list */
  function Contribution(r: AgentResult): real
  {
    r.score * WeightOr(r.agent, 1.0)
  }

  /** `weighted_sum` once the loop has seen all of `results` */
  function WeightedSum(results: seq<AgentResult>): (s: real)
    ensures results == [] ==> s == 0.0
  {
    if results == [] then 0.0
    else WeightedSum(results[..|results| - 1]) + Contribution(results[|results| - 1])
  }

  /**
   * `round(x, 4)`: the nearest multiple of 1/10000, ties to the even
   * multiple. The exact decimal value stands in for the binary float.
   */
  function Round4(x: real): (r: real)
    ensures (r * 10000.0).Floor as real == r * 10000.0
    ensures -0.00005 <= r - x <= 0.00005
    ensures 0.0 <= x ==> 0.0 <= r
    ensures x <= 1.0 ==> r <= 1.0
  {
    var y := x * 10000.0;
    var f := y.Floor;
    var frac := y - f as real;
    var n := if frac < 0.5 then f else if frac > 0.5 then f + 1 else if f % 2 == 0 then f else f + 1;
    assert (n as real / 10000.0) * 10000.0 == n as real;
    n as real / 10000.0
  }

  /** A value exactly halfway between two multiples of 1/10000 goes to the even one */
  lemma Round4HalfEven(n: int)
    ensures Round4((n as real + 0.5) / 10000.0) == (if n % 2 == 0 then n else n + 1) as real / 10000.0
  {
    var x := (n as real + 0.5) / 10000.0;
    assert x * 10000.0 == n as real + 0.5;
    assert (x * 10000.0).Floor == n;
  }

  /** A multiple of 1/10000 is its own rounding */
  lemma Round4Exact(n: int)
    ensures Round4(n as real / 10000.0) == n as real / 10000.0
  {
    assert (n as real / 10000.0) * 10000.0 == n as real;
  }

  /** `round(weighted_sum / total_weight, 4)` */
  function AggregatedScore(results: seq<AgentResult>): real
  {
    TotalWeightValue();
    Round4(WeightedSum(results) / TotalWeight)
  }

  /** `aggregate_results(results)` */
  method AggregateResults(results: seq<AgentResult>) returns (out: Aggregate)
    ensures out == Aggregate(results, AggregatedScore(results))
  {
    var totalWeight := SumWeights(Weight, AgentOrder);
    var weightedSum := 0.0;
    for i := 0 to |results|
      invariant weightedSum == WeightedSum(results[..i])
    {
      var agent := results[i].agent;
      var score := results[i].score;
      var weight := WeightOr(agent, 1.0);
      weightedSum := weightedSum + score * weight;
      assert results[..i + 1][..i] == results[..i];
    }
    assert results[..|results|] == results;
    TotalWeightValue();
    var finalScore := weightedSum / totalWeight;
    out := Aggregate(results, Round4(finalScore));
  }

  /** No results give an aggregated score of 0 */
  lemma EmptyResultsScoreZero()
    ensures AggregatedScore([]) == 0.0
  {
    TotalWeightValue();
    Round4Exact(0);
  }

  lemma {:induction false} WeightedSumAppend(a: seq<AgentResult>, b: seq<AgentResult>)
    ensures WeightedSum(a + b) == WeightedSum(a) + WeightedSum(b)
    decreases |b|
  {
    if b == [] {
      assert a + b == a;
    } else {
      assert (a + b)[..|a + b| - 1] == a + b[..|b| - 1];
      WeightedSumAppend(a, b[..|b| - 1]);
    }
  }

  /** The order of `results` does not matter: any permutation has the same weighted sum */
  lemma {:induction false} WeightedSumPermutation(a: seq<AgentResult>, b: seq<AgentResult>)
    requires multiset(a) == multiset(b)
    ensures WeightedSum(a) == WeightedSum(b)
    decreases |a|
  {
    if a != [] {
      var x := a[|a| - 1];
      var a' := a[..|a| - 1];
      assert a == a' + [x];
      assert WeightedSum(a) == WeightedSum(a') + Contribution(x);
      assert x in multiset(b);
      var i :| 0 <= i < |b| && b[i] == x;
      var b' := b[..i] + b[i + 1..];
      RemoveOne(a', x, b, i);
      WeightedSumPermutation(a', b');
      WeightedSumRemove(b, i);
    }
  }

  /** The weighted sum splits off the contribution of one element */
  lemma WeightedSumRemove(b: seq<AgentResult>, i: nat)
    requires i < |b|
    ensures WeightedSum(b) == WeightedSum(b[..i] + b[i + 1..]) + Contribution(b[i])
  {
    SplitAround(b, i);
    WeightedSumInsert(b[..i], b[i], b[i + 1..]);
  }

  lemma {:induction false} WeightedSumInsert(front: seq<AgentResult>, x: AgentResult, back: seq<AgentResult>)
    ensures WeightedSum(front + [x] + back) == WeightedSum(front + back) + Contribution(x)
    decreases |back|
  {
    if back == [] {
      assert front + [x] + back == front + [x];
      assert (front + [x])[..|front|] == front;
      assert front + back == front;
    } else {
      var y, rest := back[|back| - 1], back[..|back| - 1];
      assert (front + [x] + back)[..|front + [x] + back| - 1] == front + [x] + rest;
      assert (front + back)[..|front + back| - 1] == front + rest;
      WeightedSumInsert(front, x, rest);
    }
  }

  /** So is the aggregated score */
  lemma AggregateOrderIndependent(a: seq<AgentResult>, b: seq<AgentResult>)
    requires multiset(a) == multiset(b)
    ensures AggregatedScore(a) == AggregatedScore(b)
  {
    WeightedSumPermutation(a, b);
  }

  /** An agent the table does not list counts with weight 1 */
  lemma UnknownAgentWeighsOne(r: AgentResult)
    requires r.agent !in AgentWeights
    ensures Contribution(r) == r.score
  {
  }

  function Agents(results: seq<AgentResult>): (names: seq<string>)
    ensures |names| == |results|
    ensures forall i :: 0 <= i < |results| ==> names[i] == results[i].agent
  {
    seq(|results|, i requires 0 <= i < |results| => results[i].agent)
  }

  /** With scores in [0, 1] and known agents, the sum lies between 0 and those agents' weights */
  lemma {:induction false} WeightedSumBounds(results: seq<AgentResult>)
    requires forall i :: 0 <= i < |results| ==> 0.0 <= results[i].score <= 1.0 && results[i].agent in AgentWeights
    ensures 0.0 <= WeightedSum(results) <= SumWeights(Weight, Agents(results))
  {
    if results != [] {
      var n := |results|;
      WeightedSumBounds(results[..n - 1]);
      assert Agents(results)[..n - 1] == Agents(results[..n - 1]);
      ContributionBound(results[n - 1]);
    }
  }

  /** A known agent's score in [0, 1] contributes between 0 and its weight */
  lemma ContributionBound(r: AgentResult)
    requires 0.0 <= r.score <= 1.0 && r.agent in AgentWeights
    ensures 0.0 <= Contribution(r) <= Weight(r.agent)
  {
    WeightsPositive();
    Scale(r.score, AgentWeights[r.agent]);
  }

  lemma RatioAtMostOne(s: real, t: real)
    requires 0.0 <= s <= t && t > 0.0
    ensures 0.0 <= s / t <= 1.0
  {
    var q := s / t;
    assert q * t == s;
    assert (1.0 - q) * t == t - s;
    Ratios.FactorSign(1.0 - q, t);
    Ratios.FactorSign(q, t);
  }

  lemma Scale(s: real, w: real)
    requires 0.0 <= s <= 1.0 && 0.0 <= w
    ensures 0.0 <= s * w <= w
  {
    assert w - s * w == (1.0 - s) * w;
  }

  /**
   * When every result comes from a different agent of the table with a
   * score in [0, 1], the aggregated score lies in [0, 1].
   */
  lemma AggregateBounded(results: seq<AgentResult>)
    requires forall i :: 0 <= i < |results| ==> 0.0 <= results[i].score <= 1.0 && results[i].agent in AgentWeights
    requires forall i, j :: 0 <= i < j < |results| ==> results[i].agent != results[j].agent
    ensures 0.0 <= AggregatedScore(results) <= 1.0
  {
    WeightedSumBounds(results);
    DistinctAgentsAtMostTotal(Agents(results));
    TotalWeightValue();
    RatioAtMostOne(WeightedSum(results), TotalWeight);
  }
}
