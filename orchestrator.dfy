/**
 * `Orchestrator.run_multiple`: the gating loop over candidate repositories.
 * Every agent is an abstract function that may fail (`None` for a call that
 * raised); `aggregate_multiple_repos` is an abstract function too.
 */
module Orchestrator {
  import opened Wrappers
  import opened Aggregator

  /** `max_simhash_hamming` and `winnow_threshold` defaults */
  const DefaultMaxHamming: int := 6
  const DefaultWinnowThreshold: real := 0.05

  /** A SimHash score at most this rejects a candidate early */
  const EarlyRejectScore: real := 0.01

  /** `{ repo_url: local_path, ... }` with the dict's key order */
  datatype RepoPaths = RepoPaths(order: seq<string>, paths: map<string, string>)
  {
    /** The key order lists each key of the dict once */
    ghost predicate Valid() {
      (forall u :: u in order <==> u in paths)
      && (forall i, j :: 0 <= i < j < |order| ==> order[i] != order[j])
    }
  }

  /**
   * The agents `__init__` sets up: the SimHash candidate scan and the two
   * compares take (input url, input path, candidate url, candidate path);
   * the heavy agents of `other_agents` take the candidate path.
   */
  datatype Agents = Agents(
    fastCandidates: (string, string, int) -> Option<seq<string>>,
    simhashCompare: (string, string, string, string) -> Option<AgentResult>,
    winnowCompare: (string, string, string, string) -> Option<AgentResult>,
    otherAgents: seq<string -> Option<AgentResult>>)

  /** `{"agent_scores": agent_scores}` */
  datatype Entry = Entry(agentScores: seq<AgentResult>)

  /** `repo_paths.get(url)` is present and not empty: `if not cand_path: continue` skips the rest */
  predicate HasPath(rp: RepoPaths, url: string) {
    url in rp.paths && rp.paths[url] != ""
  }

  /** The results of the heavy agents that did not raise, in `other_agents` order */
  function HeavyScores(others: seq<string -> Option<AgentResult>>, path: string): (rs: seq<AgentResult>)
    ensures |rs| <= |others|
  {
    if others == [] then []
    else
      var rest := HeavyScores(others[..|others| - 1], path);
      match others[|others| - 1](path)
      case Some(r) => rest + [r]
      case None => rest
  }

  /** `agent_scores` of one candidate with a path, or `None` when a compare raised */
  function CandidateScores(a: Agents, inUrl: string, inPath: string, url: string, path: string,
                           threshold: real): Option<seq<AgentResult>>
  {
    match a.simhashCompare(inUrl, inPath, url, path)
    case None => None
    case Some(sim) =>
      if sim.score <= EarlyRejectScore then Some([sim])
      else
        match a.winnowCompare(inUrl, inPath, url, path)
        case None => None
        case Some(win) =>
          if win.score >= threshold then Some([sim, win] + HeavyScores(a.otherAgents, path))
          else Some([sim, win])
  }

  /** `set(sim_candidates) | set(repo_paths.keys())` */
  function CandidateUrls(simCandidates: seq<string>, rp: RepoPaths): (cs: set<string>)
    ensures forall u :: u in cs <==> u in simCandidates || u in rp.order
  {
    (set u | u in simCandidates) + (set u | u in rp.order)
  }

  /**
   * What the loop leaves in `aggregated_results`: `None` when the input
   * cannot be picked, the candidate scan raised, or a compare raised on
   * some candidate with a path.
   */
  function Results(a: Agents, rp: RepoPaths, maxHamming: int, threshold: real): Option<map<string, Entry>>
  {
    if rp.order == [] || rp.order[0] !in rp.paths then None
    else
      var inUrl := rp.order[0];
      var inPath := rp.paths[inUrl];
      match a.fastCandidates(inUrl, inPath, maxHamming)
      case None => None
      case Some(sims) =>
        var cands := CandidateUrls(sims, rp);
        if exists u :: u in cands && HasPath(rp, u) && CandidateScores(a, inUrl, inPath, u, rp.paths[u], threshold).None?
        then None
        else Some(map u | u in cands && HasPath(rp, u) :: Entry(CandidateScores(a, inUrl, inPath, u, rp.paths[u], threshold).value))
  }

  /** The last loop: `repo_results[repo_url] = d["agent_scores"]` */
  method RepoResults(aggregated: map<string, Entry>) returns (repoResults: map<string, seq<AgentResult>>)
    ensures repoResults.Keys == aggregated.Keys
    ensures forall u :: u in aggregated ==> repoResults[u] == aggregated[u].agentScores
  {
    repoResults := map[];
    var todo := aggregated.Keys;
    while todo != {}
      invariant todo <= aggregated.Keys
      invariant repoResults.Keys == aggregated.Keys - todo
      invariant forall u :: u in repoResults ==> repoResults[u] == aggregated[u].agentScores
      decreases todo
    {
      var u :| u in todo;
      repoResults := repoResults[u := aggregated[u].agentScores];
      todo := todo - {u};
    }
  }

  /** The heavy agents' loop: a raising agent is skipped and the next one still runs */
  method RunHeavy(others: seq<string -> Option<AgentResult>>, path: string, start: seq<AgentResult>)
    returns (agentScores: seq<AgentResult>)
    ensures agentScores == start + HeavyScores(others, path)
  {
    agentScores := start;
    for i := 0 to |others|
      invariant agentScores == start + HeavyScores(others[..i], path)
    {
      assert others[..i + 1][..i] == others[..i];
      match others[i](path) {
        case Some(r) =>
          agentScores := agentScores + [r];
        case None =>
      }
    }
    assert others[..|others|] == others;
  }

  /** The body of the candidate loop for a candidate with a path */
  method ScoreCandidate(a: Agents, inUrl: string, inPath: string, url: string, path: string, threshold: real)
    returns (res: Option<seq<AgentResult>>)
    ensures res == CandidateScores(a, inUrl, inPath, url, path, threshold)
  {
    var simRes := a.simhashCompare(inUrl, inPath, url, path);
    if simRes.None? {
      return None;
    }
    var sim := simRes.value;
    if sim.score <= EarlyRejectScore {
      return Some([sim]);
    }
    var winRes := a.winnowCompare(inUrl, inPath, url, path);
    if winRes.None? {
      return None;
    }
    var win := winRes.value;
    var agentScores := [sim, win];
    if win.score >= threshold {
      agentScores := RunHeavy(a.otherAgents, path, agentScores);
    }
    return Some(agentScores);
  }

  /**
   * `run_multiple(repo_paths, max_simhash_hamming, winnow_threshold)`:
   * `None` when the run raises, otherwise `aggregate_multiple_repos`
   * applied to the per-candidate score lists.
   */
  method RunMultiple<R>(a: Agents, rp: RepoPaths, maxHamming: int, threshold: real,
                        aggregate: map<string, seq<AgentResult>> -> R)
    returns (output: Option<R>)
    ensures Results(a, rp, maxHamming, threshold).None? ==> output.None?
    ensures Results(a, rp, maxHamming, threshold).Some? ==>
      output == Some(aggregate(map u | u in Results(a, rp, maxHamming, threshold).value ::
                                 Results(a, rp, maxHamming, threshold).value[u].agentScores))
  {
    if rp.order == [] || rp.order[0] !in rp.paths {
      return None;
    }
    var inUrl := rp.order[0];
    var inPath := rp.paths[inUrl];
    var simCandidates := a.fastCandidates(inUrl, inPath, maxHamming);
    if simCandidates.None? {
      return None;
    }
    var cands := CandidateUrls(simCandidates.value, rp);
    var aggregated: map<string, Entry> := map[];
    var todo := cands;
    while todo != {}
      invariant todo <= cands
      invariant forall u :: u in aggregated <==> u in cands - todo && HasPath(rp, u)
      invariant forall u :: u in cands - todo && HasPath(rp, u) ==>
        CandidateScores(a, inUrl, inPath, u, rp.paths[u], threshold).Some?
        && aggregated[u] == Entry(CandidateScores(a, inUrl, inPath, u, rp.paths[u], threshold).value)
      decreases todo
    {
      var url :| url in todo;
      todo := todo - {url};
      if url in rp.paths && rp.paths[url] != "" {
        var res := ScoreCandidate(a, inUrl, inPath, url, rp.paths[url], threshold);
        if res.None? {
          return None;
        }
        aggregated := aggregated[url := Entry(res.value)];
      }
    }
    assert aggregated == Results(a, rp, maxHamming, threshold).value;
    var repoResults := RepoResults(aggregated);
    assert repoResults == map u | u in aggregated :: aggregated[u].agentScores;
    output := Some(aggregate(repoResults));
  }

  // ------------------------------------------------------------ properties

  /** The input repository is the first key, is itself a candidate, and so is compared with itself */
  lemma InputComparedWithItself(a: Agents, rp: RepoPaths, maxHamming: int, threshold: real)
    requires rp.Valid() && rp.order != [] && HasPath(rp, rp.order[0])
    requires Results(a, rp, maxHamming, threshold).Some?
    ensures var inUrl := rp.order[0];
      var inPath := rp.paths[inUrl];
      inUrl in Results(a, rp, maxHamming, threshold).value
      && Results(a, rp, maxHamming, threshold).value[inUrl].agentScores
         == CandidateScores(a, inUrl, inPath, inUrl, inPath, threshold).value
  {
  }

  /**
   * Exactly the candidates with a local path get an entry: every key has a
   * path, and every URL of `repo_paths` with a non-empty path is a key.
   */
  lemma EntriesAreClonedCandidates(a: Agents, rp: RepoPaths, maxHamming: int, threshold: real)
    requires Results(a, rp, maxHamming, threshold).Some?
    ensures forall u :: u in Results(a, rp, maxHamming, threshold).value ==> HasPath(rp, u)
    ensures forall u :: u in rp.order && HasPath(rp, u) ==> u in Results(a, rp, maxHamming, threshold).value
  {
  }

  /** When some candidate with a path has a raising compare, the whole run raises */
  lemma FailingCompareFailsRun(a: Agents, rp: RepoPaths, maxHamming: int, threshold: real, u: string)
    requires rp.order != [] && rp.order[0] in rp.paths && u in rp.order && HasPath(rp, u)
    requires CandidateScores(a, rp.order[0], rp.paths[rp.order[0]], u, rp.paths[u], threshold).None?
    ensures Results(a, rp, maxHamming, threshold).None?
  {
  }

  /**
   * A SimHash score of at most 0.01 gives exactly `[sim_res]`, whatever
   * winnowing and the heavy agents would have done: they are not called.
   */
  lemma EarlyReject(a: Agents, inUrl: string, inPath: string, url: string, path: string, threshold: real,
                    otherWinnow: (string, string, string, string) -> Option<AgentResult>,
                    otherHeavy: seq<string -> Option<AgentResult>>)
    requires a.simhashCompare(inUrl, inPath, url, path).Some?
    requires a.simhashCompare(inUrl, inPath, url, path).value.score <= EarlyRejectScore
    ensures var sim := a.simhashCompare(inUrl, inPath, url, path).value;
      CandidateScores(a, inUrl, inPath, url, path, threshold) == Some([sim])
      && CandidateScores(a.(winnowCompare := otherWinnow, otherAgents := otherHeavy), inUrl, inPath, url, path, threshold)
         == Some([sim])
  {
  }

  /**
   * Past the early reject, the list starts with the SimHash and winnowing
   * results; the heavy agents' results follow exactly when the winnowing
   * score reaches the threshold.
   */
  lemma GatedScores(a: Agents, inUrl: string, inPath: string, url: string, path: string, threshold: real)
    requires a.simhashCompare(inUrl, inPath, url, path).Some?
    requires a.simhashCompare(inUrl, inPath, url, path).value.score > EarlyRejectScore
    requires a.winnowCompare(inUrl, inPath, url, path).Some?
    ensures var sim := a.simhashCompare(inUrl, inPath, url, path).value;
      var win := a.winnowCompare(inUrl, inPath, url, path).value;
      var rs := CandidateScores(a, inUrl, inPath, url, path, threshold);
      rs.Some? && |rs.value| >= 2 && rs.value[..2] == [sim, win]
      && (win.score >= threshold ==> rs.value[2..] == HeavyScores(a.otherAgents, path))
      && (win.score < threshold ==> rs.value == [sim, win])
  {
  }

  /** Every list holds between one result and two plus one per heavy agent, for any heavy agents */
  lemma ScoreListLength(a: Agents, inUrl: string, inPath: string, url: string, path: string, threshold: real)
    requires CandidateScores(a, inUrl, inPath, url, path, threshold).Some?
    ensures 1 <= |CandidateScores(a, inUrl, inPath, url, path, threshold).value| <= 2 + |a.otherAgents|
  {
  }

  /**
   * The five `other_agents` as the repository defines them: only the first,
   * the lexical agent, has a `run` that takes one path. The structural and
   * semantic agents' `run` takes two paths, and the contributor and
   * fingerprint agents have no `run` at all, so the call raises for each of
   * the other four.
   */
  predicate OnlyFirstRuns(others: seq<string -> Option<AgentResult>>, path: string) {
    |others| == 5 && forall k :: 1 <= k < 5 ==> others[k](path).None?
  }

  /** With those agents, only the lexical agent's result can be reported */
  lemma OnlyLexicalReports(others: seq<string -> Option<AgentResult>>, path: string)
    requires OnlyFirstRuns(others, path)
    ensures HeavyScores(others, path) == if others[0](path).Some? then [others[0](path).value] else []
  {
    NoneReported(others[1..], path);
    assert others == others[..1] + others[1..];
    HeavyScoresAppend(others[..1], others[1..], path);
    assert others[..1][..0] == [];
  }

  /** Agents that all raise report nothing */
  lemma {:induction false} NoneReported(others: seq<string -> Option<AgentResult>>, path: string)
    requires forall k :: 0 <= k < |others| ==> others[k](path).None?
    ensures HeavyScores(others, path) == []
    decreases |others|
  {
    if others != [] {
      NoneReported(others[..|others| - 1], path);
    }
  }

  /** With the repository's agents, every list holds one to three results */
  lemma ProgramScoreListLength(a: Agents, inUrl: string, inPath: string, url: string, path: string, threshold: real)
    requires OnlyFirstRuns(a.otherAgents, path)
    requires CandidateScores(a, inUrl, inPath, url, path, threshold).Some?
    ensures 1 <= |CandidateScores(a, inUrl, inPath, url, path, threshold).value| <= 3
  {
    OnlyLexicalReports(a.otherAgents, path);
  }

  lemma {:induction false} HeavyScoresAppend(x: seq<string -> Option<AgentResult>>, y: seq<string -> Option<AgentResult>>, path: string)
    ensures HeavyScores(x + y, path) == HeavyScores(x, path) + HeavyScores(y, path)
    decreases |y|
  {
    if y == [] {
      assert x + y == x;
    } else {
      assert (x + y)[..|x + y| - 1] == x + y[..|y| - 1];
      HeavyScoresAppend(x, y[..|y| - 1], path);
    }
  }

  /** A raising heavy agent contributes nothing, and the agents after it still run */
  lemma RaisingAgentSkipped(others: seq<string -> Option<AgentResult>>, i: nat, path: string)
    requires i < |others| && others[i](path).None?
    ensures HeavyScores(others, path) == HeavyScores(others[..i], path) + HeavyScores(others[i + 1..], path)
  {
    assert others == others[..i] + [others[i]] + others[i + 1..];
    HeavyScoresAppend(others[..i] + [others[i]], others[i + 1..], path);
    HeavyScoresAppend(others[..i], [others[i]], path);
    assert HeavyScores([others[i]], path) == [] by { assert [others[i]][..0] == []; }
  }

  /** With no agent raising, every heavy agent's result is there, in `other_agents` order */
  lemma {:induction false} AllHeavyAgentsReport(others: seq<string -> Option<AgentResult>>, path: string)
    requires forall i :: 0 <= i < |others| ==> others[i](path).Some?
    ensures |HeavyScores(others, path)| == |others|
    ensures forall i :: 0 <= i < |others| ==> HeavyScores(others, path)[i] == others[i](path).value
  {
    if others != [] {
      var init := others[..|others| - 1];
      AllHeavyAgentsReport(init, path);
    }
  }
}
