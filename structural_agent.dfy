/**
 * `StructuralAgent`: the Jaccard index of the AST node-type names found in
 * two repositories. Python's `ast` parser and visitor are a parameter
 * `parse` giving the visited node names, or `None` on a syntax error.
 */
module StructuralAgent {
  import opened Wrappers
  import opened Text
  import opened Lists
  import opened Sources
  import Ratios

  /** `SUPPORTED_EXT` */
  const SupportedExt: seq<string> := [".py", ".java", ".js"]

  /** `f.endswith(SUPPORTED_EXT)`; the name is not lower-cased here */
  predicate IsSupported(name: string) {
    HasSuffixIn(name, SupportedExt)
  }

  /** `extract_structure(code)`: the visited node names, `[]` on a syntax error */
  function ExtractStructure(parse: string -> Option<seq<string>>, code: string): (nodes: seq<string>)
    ensures parse(code).None? ==> nodes == []
    ensures parse(code).Some? ==> nodes == parse(code).value
  {
    match parse(code)
    case None => []
    case Some(names) => names
  }

  /** The distinct elements of a list: `set(seq)` */
  function Elements(s: seq<string>): set<string> {
    set x | x in s
  }

  /** `structural_similarity(seq_a, seq_b)` */
  function StructuralSimilarity(seqA: seq<string>, seqB: seq<string>): (r: real)
    ensures seqA == [] || seqB == [] ==> r == 0.0
    ensures seqA != [] && seqB != [] ==>
      r * (|Elements(seqA) + Elements(seqB)| as real) == |Elements(seqA) * Elements(seqB)| as real
    ensures 0.0 <= r <= 1.0
  {
    if seqA == [] || seqB == [] then 0.0
    else
      assert seqA[0] in Elements(seqA) && seqB[0] in Elements(seqB);
      Ratios.Jaccard(Elements(seqA), Elements(seqB))
  }

  lemma SimilaritySymmetric(a: seq<string>, b: seq<string>)
    ensures StructuralSimilarity(a, b) == StructuralSimilarity(b, a)
  {
    Ratios.JaccardSymmetric(Elements(a), Elements(b));
  }

  /** Only which names occur matters: not their order, not how often */
  lemma SimilarityUsesOnlyNameSets(a: seq<string>, b: seq<string>, a': seq<string>, b': seq<string>)
    requires Elements(a) == Elements(a') && Elements(b) == Elements(b')
    ensures StructuralSimilarity(a, b) == StructuralSimilarity(a', b')
  {
    EmptyIffNoElements(a);
    EmptyIffNoElements(a');
    EmptyIffNoElements(b);
    EmptyIffNoElements(b');
  }

  lemma EmptyIffNoElements(s: seq<string>)
    ensures s == [] <==> Elements(s) == {}
  {
    if s != [] { assert s[0] in Elements(s); }
  }

  /** A non-empty list is fully similar to itself, and to nothing else with other names */
  lemma SimilarityOneIffSameNames(a: seq<string>, b: seq<string>)
    requires a != [] && b != []
    ensures StructuralSimilarity(a, b) == 1.0 <==> Elements(a) == Elements(b)
  {
    EmptyIffNoElements(a);
    EmptyIffNoElements(b);
    Ratios.JaccardOneIffEqual(Elements(a), Elements(b));
  }

  /** The names one file contributes: none for an unsupported or unreadable file */
  function FileNodes(parse: string -> Option<seq<string>>, f: SourceFile): (nodes: seq<string>)
    ensures !IsSupported(f.name) || f.content.None? ==> nodes == []
  {
    if IsSupported(f.name) && f.content.Some? then ExtractStructure(parse, f.content.value) else []
  }

  function NodesOf(parse: string -> Option<seq<string>>): SourceFile -> seq<string> {
    f => FileNodes(parse, f)
  }

  /** `_collect_nodes` once the walk has reached the end of `files`: every file's names, in walk order */
  function CollectedNodes(parse: string -> Option<seq<string>>, files: seq<SourceFile>): seq<string>
  {
    ConcatMap(NodesOf(parse), files)
  }

  /** A file that is unsupported or could not be read leaves the node list as it was */
  lemma SkippedFileContributesNothing(parse: string -> Option<seq<string>>, a: seq<SourceFile>, f: SourceFile, b: seq<SourceFile>)
    requires !IsSupported(f.name) || f.content.None?
    ensures CollectedNodes(parse, a + [f] + b) == CollectedNodes(parse, a + b)
  {
    ConcatMapSkip(NodesOf(parse), a, f, b);
  }

  /** Files are independent: the lists of two parts of the walk concatenate */
  lemma CollectedNodesAppend(parse: string -> Option<seq<string>>, a: seq<SourceFile>, b: seq<SourceFile>)
    ensures CollectedNodes(parse, a + b) == CollectedNodes(parse, a) + CollectedNodes(parse, b)
  {
    ConcatMapAppend(NodesOf(parse), a, b);
  }

  /** `_collect_nodes(repo_path)` over the files the walk lists */
  method CollectNodes(parse: string -> Option<seq<string>>, files: seq<SourceFile>) returns (nodes: seq<string>)
    ensures nodes == CollectedNodes(parse, files)
  {
    nodes := [];
    for i := 0 to |files|
      invariant nodes == CollectedNodes(parse, files[..i])
    {
      assert files[..i + 1][..i] == files[..i];
      assert CollectedNodes(parse, files[..i + 1]) == CollectedNodes(parse, files[..i]) + FileNodes(parse, files[i]);
      var f := files[i];
      if IsSupported(f.name) {
        match f.content {
          case None =>
          case Some(code) =>
            nodes := nodes + ExtractStructure(parse, code);
        }
      }
    }
    assert files[..|files|] == files;
  }

  /** The `run` result: agent "structural", the score and both list lengths */
  datatype StructuralReport = StructuralReport(agent: string, score: real, nodeCountA: nat, nodeCountB: nat)

  /** `run(input_path, cand_path)` */
  method Run(parse: string -> Option<seq<string>>, inputFiles: seq<SourceFile>, candFiles: seq<SourceFile>)
    returns (report: StructuralReport)
    ensures report.agent == "structural"
    ensures report.score == StructuralSimilarity(CollectedNodes(parse, inputFiles), CollectedNodes(parse, candFiles))
    ensures 0.0 <= report.score <= 1.0
    ensures report.nodeCountA == |CollectedNodes(parse, inputFiles)|
    ensures report.nodeCountB == |CollectedNodes(parse, candFiles)|
  {
    var nodesA := CollectNodes(parse, inputFiles);
    var nodesB := CollectNodes(parse, candFiles);
    var score := StructuralSimilarity(nodesA, nodesB);
    report := StructuralReport("structural", score, |nodesA|, |nodesB|);
  }
}
