/** `core/weights.py`: how much each agent's score counts in the aggregate. */
module Weights {

  /** `AGENT_WEIGHTS` */
  const AgentWeights: map<string, real> := map[
    "lexical" := 1.0,
    "structural" := 1.0,
    "semantic" := 2.0,
    "contributor" := 0.5,
    "fingerprint" := 1.0,
    "simhash" := 0.5,
    "winnowing" := 1.5,
    "ast" := 2.0
  ]

  /** The table's keys in the order the dict literal lists them */
  const AgentOrder: seq<string> :=
    ["lexical", "structural", "semantic", "contributor", "fingerprint", "simhash", "winnowing", "ast"]

  /** `AGENT_WEIGHTS.get(agent, default)` */
  function WeightOr(agent: string, default: real): real {
    if agent in AgentWeights then AgentWeights[agent] else default
  }

  /** An agent's weight, 0.0 for one the table does not list */
  function Weight(agent: string): (w: real)
    ensures w >= 0.0
  {
    WeightOr(agent, 0.0)
  }

  /** The weights `w` gives `agents`, added up left to right, as `sum` walks the dict's values */
  function SumWeights(w: string -> real, agents: seq<string>): (s: real)
    ensures agents == [] ==> s == 0.0
  {
    if agents == [] then 0.0
    else SumWeights(w, agents[..|agents| - 1]) + w(agents[|agents| - 1])
  }

  /** `TOTAL_WEIGHT = sum(AGENT_WEIGHTS.values())` */
  const TotalWeight: real := SumWeights(Weight, AgentOrder)

  /** `AgentOrder` lists every key of the table exactly once */
  lemma OrderListsTable()
    ensures |AgentOrder| == 8
    ensures forall i, j :: 0 <= i < j < |AgentOrder| ==> AgentOrder[i] != AgentOrder[j]
    ensures forall a :: a in AgentWeights <==> a in AgentOrder
  {
  }

  /** The eight weights, each strictly positive and between 0.5 and 2.0 */
  lemma WeightsPositive()
    ensures forall a :: a in AgentWeights ==> 0.5 <= AgentWeights[a] <= 2.0
  {
  }

  /** `semantic` and `ast` share the largest weight, `contributor` and `simhash` the smallest */
  lemma WeightExtremes()
    ensures forall a :: a in AgentWeights && AgentWeights[a] == 2.0 <==> a == "semantic" || a == "ast"
    ensures forall a :: a in AgentWeights && AgentWeights[a] == 0.5 <==> a == "contributor" || a == "simhash"
  {
  }

  /** `TOTAL_WEIGHT` is 9.5 */
  lemma TotalWeightValue()
    ensures TotalWeight == 9.5
  {
    var o := AgentOrder;
    assert o[..1] == ["lexical"] && o[..2] == ["lexical", "structural"];
    assert SumWeights(Weight, o[..1]) == 1.0 by { assert o[..1][..0] == []; }
    assert SumWeights(Weight, o[..2]) == 2.0;
    assert SumWeights(Weight, o[..3]) == 4.0 by { assert o[..3][..2] == o[..2]; }
    assert SumWeights(Weight, o[..4]) == 4.5 by { assert o[..4][..3] == o[..3]; }
    assert SumWeights(Weight, o[..5]) == 5.5 by { assert o[..5][..4] == o[..4]; }
    assert SumWeights(Weight, o[..6]) == 6.0 by { assert o[..6][..5] == o[..5]; }
    assert SumWeights(Weight, o[..7]) == 7.5 by { assert o[..7][..6] == o[..6]; }
    assert o[..8] == o && o[..8][..7] == o[..7];
  }

  lemma {:induction false} SumWeightsAppend(w: string -> real, a: seq<string>, b: seq<string>)
    ensures SumWeights(w, a + b) == SumWeights(w, a) + SumWeights(w, b)
    decreases |b|
  {
    if b == [] {
      assert a + b == a;
    } else {
      assert (a + b)[..|a + b| - 1] == a + b[..|b| - 1];
      SumWeightsAppend(w, a, b[..|b| - 1]);
    }
  }

  lemma {:induction false} SumWeightsNonNegative(w: string -> real, a: seq<string>)
    requires forall x :: w(x) >= 0.0
    ensures SumWeights(w, a) >= 0.0
  {
    if a != [] { SumWeightsNonNegative(w, a[..|a| - 1]); }
  }

  /** Dropping position `i` removes exactly that agent's weight */
  lemma SumWeightsRemove(w: string -> real, t: seq<string>, i: nat)
    requires i < |t|
    ensures SumWeights(w, t) == SumWeights(w, t[..i] + t[i + 1..]) + w(t[i])
  {
    var a, x, b := t[..i], t[i], t[i + 1..];
    assert t == a + [x] + b;
    SumWeightsAppend(w, a + [x], b);
    SumWeightsAppend(w, a, [x]);
    SumWeightsAppend(w, a, b);
    assert SumWeights(w, [x]) == w(x) by { assert [x][..0] == []; }
  }

  /** Distinct agents drawn from a distinct list weigh no more than the whole list */
  lemma {:induction false} SumWeightsSublist(w: string -> real, s: seq<string>, t: seq<string>)
    requires forall x :: w(x) >= 0.0
    requires forall i, j :: 0 <= i < j < |s| ==> s[i] != s[j]
    requires forall i, j :: 0 <= i < j < |t| ==> t[i] != t[j]
    requires forall x :: x in s ==> x in t
    ensures SumWeights(w, s) <= SumWeights(w, t)
    decreases |s|
  {
    if s == [] {
      SumWeightsNonNegative(w, t);
    } else {
      var x := s[|s| - 1];
      var s' := s[..|s| - 1];
      assert x in s && x in t;
      var i :| 0 <= i < |t| && t[i] == x;
      var t' := t[..i] + t[i + 1..];
      forall y | y in s' ensures y in t' {
        var k :| 0 <= k < |s'| && s'[k] == y;
        assert s[k] == y && y != x && y in s && y in t;
        var j :| 0 <= j < |t| && t[j] == y;
        if j < i { assert t'[j] == y; } else { assert t'[j - 1] == y; }
      }
      forall a, b | 0 <= a < b < |t'| ensures t'[a] != t'[b] {
        var a', b' := if a < i then a else a + 1, if b < i then b else b + 1;
        assert t'[a] == t[a'] && t'[b] == t[b'];
      }
      SumWeightsSublist(w, s', t');
      SumWeightsRemove(w, t, i);
    }
  }

  /** Distinct agents of the table weigh at most `TOTAL_WEIGHT` together */
  lemma DistinctAgentsAtMostTotal(agents: seq<string>)
    requires forall i, j :: 0 <= i < j < |agents| ==> agents[i] != agents[j]
    requires forall a :: a in agents ==> a in AgentWeights
    ensures SumWeights(Weight, agents) <= TotalWeight
  {
    OrderListsTable();
    SumWeightsSublist(Weight, agents, AgentOrder);
  }
}
