# Similarity engine of a multi-agent GitHub plagiarism checker

This project models the part of the plagiarism checker's backend that
decides how alike two repositories are, and proves properties of that model.
It covers:

- **Token fingerprints.** The comment-stripping normaliser and identifier
  tokenizer, 64-bit SimHash with Hamming similarity, and winnowing of
  k-gram hashes. The repository-level composition in the fingerprint
  manager joins them.
- **The UAST layer.** The nine-kind node vocabulary and the `UASTNode`
  class with `add_child`. The builder contracts a concrete syntax tree
  through a fixed table. The pre-order subtree-signature extractor feeds an
  overlap comparator, and a size-based damping rule adjusts the score.
- **Scoring.** The weight table and weighted aggregator. The
  orchestrator's gating loop, which does an early SimHash reject, checks a
  winnowing threshold, and runs the heavy agents where any of them may
  fail. The structural (AST node-name Jaccard), lexical (repeated-word
  share) and contributor (author-token count) agents.
- **Text utilities.** The comment cleaner, the line chunker and the
  extension-to-language table.

Code that changes state in the original stays imperative:
- `UASTNode` is a `class` whose `AddChild` has a `modifies` clause.
- The builder's `_walk` is a recursive method that mutates parent nodes.
- `compute_simhash` fills an `array` of votes.
- The aggregator, chunker, winnower, agents and orchestrator are methods
  with loops.

Each method is proved against a specification function, and the lemmas
state the properties of those functions. Pure code becomes functions and
lemmas.

Scores are `real`, so they are exact rationals. MD5 is a parameter
`md5: string -> nat`. File contents, git logs, parse results and agent
calls are inputs.

Some facts about the code that the model keeps:
- The tokenizer emits no numeric literals (`SimHash.TokensNotNumeric`).
- The builder has no depth bound of its own; only Python's recursion
  limit bounds it (see "## Left out").
- The UAST comparator divides the common count by the size of the larger
  set.
- The cleaner's first pattern (`backend/preprocessing/cleaner.py:10`) is
  modelled as the regex it is. It deletes each span from a `/` to
  the next `/`. That removes a block comment only when the comment holds
  no other `/`, and it also removes the text between two unrelated
  slashes, as in a path or a division.
- `aggregate_multiple_repos`, imported by the orchestrator, is defined
  nowhere. It is a parameter of `Orchestrator.RunMultiple`.
- Of the five heavy agents, only the lexical agent's `run` can succeed
  when it is called with one path (`Orchestrator.OnlyLexicalReports`).

## Model

| member | source | states |
|---|---|---|
| Weights.Weight | backend/core/weights.py:2-12 | an agent's weight from the table, never negative; 0 for an agent the table does not list |
| Weights.AgentWeights | backend/core/weights.py:2-12 | the eight agents and their weights; `OrderListsTable`, `WeightsPositive` and `WeightExtremes` state its keys and values |
| Weights.TotalWeight | backend/core/weights.py:15 | the sum of the table's values; `TotalWeightValue` shows it is 9.5 |
| Weights.OrderListsTable | backend/core/weights.py:2-12 | exactly eight distinct agents are listed, and they are exactly the table's keys |
| Weights.WeightsPositive | backend/core/weights.py:2-12 | every weight is strictly positive, between 0.5 and 2.0 |
| Weights.WeightExtremes | backend/core/weights.py:4-11 | weight 2.0 is held exactly by semantic and ast; weight 0.5 exactly by contributor and simhash |
| Weights.TotalWeightValue | backend/core/weights.py:15 | `TOTAL_WEIGHT`, the sum of all the values, is 9.5 |
| Weights.SumWeights | backend/core/weights.py:15 | the sum of the weights of an agent list; 0 for no agents |
| Weights.SumWeightsAppend | backend/core/weights.py:15 | summing weights distributes over concatenation of agent lists |
| Weights.SumWeightsNonNegative | backend/core/weights.py:15 | with non-negative weights, every sum is non-negative |
| Weights.SumWeightsRemove | backend/core/weights.py:15 | removing one agent from a list takes exactly its weight off the sum |
| Weights.SumWeightsSublist | backend/core/weights.py:15 | the weights of distinct agents, all drawn from a distinct list, sum to at most that list's total |
| Weights.DistinctAgentsAtMostTotal | backend/core/weights.py:15 | distinct known agents never weigh more than `TOTAL_WEIGHT` |
| Aggregator.WeightedSum | backend/core/aggregator.py:15-20 | the accumulated sum of score times weight; 0 for no results |
| Aggregator.Round4 | backend/core/aggregator.py:26 | `round(x, 4)`: a multiple of 1/10000 within half a unit of x, kept in [0, 1] when x is |
| Aggregator.Round4Exact | backend/core/aggregator.py:26 | a value that already has four decimals is left unchanged |
| Aggregator.Round4HalfEven | backend/core/aggregator.py:26 | a value exactly halfway between two multiples of 1/10000 rounds to the even multiple, as Python's `round` does |
| Aggregator.AggregatedScore | backend/core/aggregator.py:12-26 | the weighted sum over `TOTAL_WEIGHT`, rounded to four decimals; `EmptyResultsScoreZero`, `AggregateOrderIndependent` and `AggregateBounded` state its properties |
| Aggregator.AggregateResults | backend/core/aggregator.py:12-27 | the loop returns `results` unchanged, together with the weighted sum over `TOTAL_WEIGHT`, rounded |
| Aggregator.EmptyResultsScoreZero | backend/core/aggregator.py:12-22 | empty results give an aggregated score of 0 |
| Aggregator.UnknownAgentWeighsOne | backend/core/aggregator.py:19 | an agent missing from the table contributes its score with weight 1 |
| Aggregator.WeightedSumAppend | backend/core/aggregator.py:15-20 | the weighted sum of two result lists joined is the sum of their weighted sums |
| Aggregator.WeightedSumPermutation | backend/core/aggregator.py:15-20 | any reordering of the results, as a multiset, gives the same weighted sum |
| Aggregator.AggregateOrderIndependent | backend/core/aggregator.py:12-26 | the aggregated score depends only on the multiset of results, not on their order |
| Aggregator.WeightedSumBounds | backend/core/aggregator.py:15-20 | with known agents and scores in [0, 1], the weighted sum is between 0 and the reporting agents' total weight |
| Aggregator.AggregateBounded | backend/core/aggregator.py:12-26 | if each known agent reports at most once with a score in [0, 1], the aggregated score is in [0, 1] |
| UastScore.Damping | backend/fingerprinting/uast/score.py:3-8 | the damping factor always lies between 0.5 and 1 |
| UastScore.Normalize | backend/fingerprinting/uast/score.py:3-8 | the raw score times 0.5 below size 5, times 0.75 for sizes 5 to 9, unchanged from size 10 |
| UastScore.NormalizeBounds | backend/fingerprinting/uast/score.py:3-8 | a non-negative raw score gives a result between 0 and the raw score, so a score in [0, 1] stays in [0, 1] |
| UastScore.NormalizeMonotoneInSize | backend/fingerprinting/uast/score.py:3-8 | for a non-negative raw score, the result never decreases as the size grows |
| UastScore.NormalizeMonotoneInScore | backend/fingerprinting/uast/score.py:3-8 | for a fixed size, the result never decreases as the raw score grows |
| UastNodes.Name | backend/fingerprinting/uast/uast_nodes.py:6-26 | the enum value string of a node kind, at least four characters long |
| UastNodes.Vocabulary | backend/fingerprinting/uast/uast_nodes.py:6-26 | the vocabulary is exactly the nine kinds, with nine distinct names |
| UastNodes.NameInjective | backend/fingerprinting/uast/uast_nodes.py:6-26 | two kinds with the same name are the same kind |
| UastNodes.NameHasNoPunctuation | backend/fingerprinting/uast/uast_nodes.py:6-26 | no kind name contains `(`, `)` or `,`, the characters signatures are built from |
| UastNodes.Size | backend/fingerprinting/uast/uast_nodes.py:29-33 | a tree has at least one node |
| UastNodes.Kinds | backend/fingerprinting/uast/uast_nodes.py:29-33 | a tree's kinds in pre-order, starting with the root's kind |
| UastNodes.KindsSize | backend/fingerprinting/uast/uast_nodes.py:29-33 | a tree lists exactly one kind per node |
| UastNodes.UASTNode.constructor | backend/fingerprinting/uast/uast_nodes.py:29-33 | a fresh node has the given kind, no children and depth 0 |
| UastNodes.UASTNode.Abs | backend/fingerprinting/uast/uast_nodes.py:29-33 | the node's value as a tree, with its kind, its depth and one subtree per child |
| UastNodes.UASTNode.AddChild | backend/fingerprinting/uast/uast_nodes.py:35-37 | the child's depth becomes the parent's depth + 1; the child is appended after the earlier children; the parent's depth and the child's own children are unchanged |
| UastNodes.UASTNode.Adopted | backend/fingerprinting/uast/uast_nodes.py:35-37 | after `add_child` of a fresh valid subtree, the parent's tree is the former tree with that subtree appended |
| UastNodes.UASTNode.IsLeaf | backend/fingerprinting/uast/uast_nodes.py:39-40 | true exactly when the node has no children |
| UastBuilder.NodeMapRange | backend/fingerprinting/uast/uast_builder.py:4-23 | the table maps only to LOOP, BRANCH, CALL, ASSIGN and RETURN, and `switch_statement` maps to BRANCH |
| UastBuilder.NodeMap | backend/fingerprinting/uast/uast_builder.py:4-23 | the concrete-type table; `NodeMapRange` states its range |
| UastBuilder.MappedKinds | backend/fingerprinting/uast/uast_builder.py:38 | the kinds of the mapped concrete types, in order; at most one per type, each from the table |
| UastBuilder.Walked | backend/fingerprinting/uast/uast_builder.py:34-46 | the subtrees a walk adds: a mapped node gives one node at depth + 1 over its walked children, an unmapped one passes its children's subtrees up; `WalkedKinds` and `WalkedDepths` state its kinds and depths |
| UastBuilder.WalkedKinds | backend/fingerprinting/uast/uast_builder.py:38-46 | the nodes a walk creates, in pre-order, are exactly the table kinds of the mapped concrete nodes, in the concrete tree's pre-order |
| UastBuilder.WalkedDepths | backend/fingerprinting/uast/uast_builder.py:41-42 | every created node's depth is its parent's depth + 1 |
| UastBuilder.BuiltShape | backend/fingerprinting/uast/uast_builder.py:28-46 | the built tree is an ENTRY root at depth 0 followed by one node per mapped concrete node, only LOOP, BRANCH, CALL, ASSIGN or RETURN below the root, and depths counting up from 0 |
| UastBuilder.Build | backend/fingerprinting/uast/uast_builder.py:28-31 | `build` returns a fresh valid ENTRY root whose tree is the walk of the concrete root; a missing root gives a lone ENTRY |
| UastBuilder.Walk | backend/fingerprinting/uast/uast_builder.py:34-46 | a missing node adds nothing; otherwise the parent gains exactly the walked subtrees of the node, after its earlier children |
| UastBuilder.WalkMapped | backend/fingerprinting/uast/uast_builder.py:38-43 | a mapped concrete node adds one new child to the parent, holding the walk of its own children |
| UastBuilder.AttachNew | backend/fingerprinting/uast/uast_builder.py:40-43 | the new node is appended to the parent and holds its kind at the parent's depth + 1 with the walked children |
| UastBuilder.WalkChildren | backend/fingerprinting/uast/uast_builder.py:45-46 | the children of a concrete node are walked left to right under the same parent, which gains their subtrees in order |
| SubtreeExtractor.SignatureStartsWithName | backend/fingerprinting/uast/subtree_extractor.py:21-30 | a signature starts with its kind name, and it is just the name exactly for a leaf |
| SubtreeExtractor.Signature | backend/fingerprinting/uast/subtree_extractor.py:21-30 | a leaf's kind name, otherwise the name and its children's signatures comma-joined in parentheses; `SignatureStartsWithName` and `SignatureIgnoresDepth` state its properties |
| SubtreeExtractor.ChildSignatures | backend/fingerprinting/uast/subtree_extractor.py:29 | one signature per child |
| SubtreeExtractor.SignatureIgnoresDepth | backend/fingerprinting/uast/subtree_extractor.py:21-30 | trees that differ only in their depth fields have the same signature |
| SubtreeExtractor.Serialize | backend/fingerprinting/uast/subtree_extractor.py:21-30 | `_serialize` of a node is the signature of its tree: the name for a leaf, otherwise name + "(" + the comma-joined child signatures + ")" |
| SubtreeExtractor.Subtrees | backend/fingerprinting/uast/subtree_extractor.py:13-18 | the pre-order signature list is never empty and starts with the root's signature |
| SubtreeExtractor.SubtreesFollowKinds | backend/fingerprinting/uast/subtree_extractor.py:13-18 | there is exactly one signature per node, and the i-th starts with the name of the i-th node in pre-order |
| SubtreeExtractor.Dfs | backend/fingerprinting/uast/subtree_extractor.py:13-18 | `_dfs` leaves the accumulator followed by the pre-order signatures of the subtree |
| SubtreeExtractor.Extract | backend/fingerprinting/uast/subtree_extractor.py:7-10 | `extract` returns the pre-order signatures of the whole tree |
| UastCompare.SignatureSetBounds | backend/fingerprinting/uast/uast_compare.py:7-8 | the set of a tree's signatures holds the root's signature and has at most one element per node |
| UastCompare.Overlap | backend/fingerprinting/uast/uast_compare.py:10-14 | 0 if either set is empty, otherwise the common count divided by the larger set's size; always in [0, 1] |
| UastCompare.OverlapSymmetric | backend/fingerprinting/uast/uast_compare.py:13-14 | the comparator is symmetric |
| UastCompare.OverlapOneIffEqual | backend/fingerprinting/uast/uast_compare.py:13-14 | on non-empty sets the result is 1 exactly when the sets are equal |
| UastCompare.JaccardAtMostOverlap | backend/fingerprinting/uast/uast_compare.py:13-14 | dividing by the larger set gives at least the Jaccard index, so it is not a Jaccard index |
| UastCompare.SameTreeFullySimilar | backend/fingerprinting/uast/uast_compare.py:7-14 | a tree compared with itself scores 1 |
| UastCompare.OverlapPositive | backend/fingerprinting/uast/uast_compare.py:13-14 | a positive score means the two trees share a signature |
| UastCompare.Similarity | backend/fingerprinting/uast/uast_compare.py:6-14 | `similarity` of two trees is the overlap of their signature sets, with duplicates counted once |
| LanguageDetector.RFind | backend/fingerprinting/parsing/language_detector.py:21 | the position of the last occurrence of a character, or -1 if it does not occur |
| LanguageDetector.Extension | backend/fingerprinting/parsing/language_detector.py:21 | `os.path.splitext`'s suffix: a dot and then no dot or `/`, ending the path; it exists exactly when the last path component has a non-dot character before some dot that follows it |
| LanguageDetector.DetectLanguage | backend/fingerprinting/parsing/language_detector.py:18-22 | a missing or empty path gives None; otherwise the language the table gives for the lower-cased path's extension, and None if it is unlisted |
| LanguageDetector.TableKeys | backend/fingerprinting/parsing/language_detector.py:4-16 | the table lists exactly eleven extensions, all lower-case and starting with a dot |
| LanguageDetector.TableValues | backend/fingerprinting/parsing/language_detector.py:4-16 | the seven language names, with `.cpp`, `.cc`, `.cxx` and `.h` exactly the extensions mapped to cpp |
| LanguageDetector.ExtensionLanguageMap | backend/fingerprinting/parsing/language_detector.py:4-16 | the extension table; `TableKeys` and `TableValues` state its keys and values |
| LanguageDetector.DetectIgnoresCase | backend/fingerprinting/parsing/language_detector.py:21 | detection gives the same answer for a path and its lower-cased form |
| LanguageDetector.NoExtensionNoLanguage | backend/fingerprinting/parsing/language_detector.py:21-22 | a path without an extension has no language |
| LanguageDetector.DetectHeader | backend/fingerprinting/parsing/language_detector.py:4-16 | `src/util.h` is detected as cpp |
| LanguageDetector.DetectUpperCaseJsx | backend/fingerprinting/parsing/language_detector.py:4-22 | `App.JSX` is detected as javascript |
| LanguageDetector.DetectDotFile | backend/fingerprinting/parsing/language_detector.py:21 | a dot file such as `.py` has no extension and no language |
| LanguageDetector.DetectDottedDirectory | backend/fingerprinting/parsing/language_detector.py:21 | a dot in a directory name is not an extension |
| Text.Strip | backend/fingerprinting/simhash.py:10 | `str.strip()`: the input is blanks, then the result, then blanks; the result has no blank at either end, and it is empty exactly when the input is all blanks |
| Text.StripFixed | backend/fingerprinting/simhash.py:10 | strip leaves a string with no blank at either end unchanged |
| Text.StripIdempotent | backend/preprocessing/cleaner.py:24 | stripping twice is the same as stripping once |
| Text.SplitOn | backend/preprocessing/extractor.py:17 | `str.split("\n")`: at least one part, no part contains the separator, and joining the parts back gives the input |
| Text.Spans | backend/fingerprinting/simhash.py:14 | the spans a regex `findall` reports: ascending, non-adjacent, right-maximal runs that each start a token |
| Text.SpansCover | backend/fingerprinting/simhash.py:14 | every position where a token can start lies inside some reported span |
| Text.Matches | backend/fingerprinting/simhash.py:14 | `re.findall` returns the text of each span, in order |
| Text.MatchShape | backend/agents/lexical_agent.py:19 | every match is non-empty, begins with a starting character and continues with continuing characters |
| Patterns.FindFrom | backend/preprocessing/cleaner.py:19 | the first occurrence of a pattern at or after a position, or the end of the text if there is none |
| Patterns.DropLineComments | backend/fingerprinting/simhash.py:8 | `re.sub(marker + ".*", "")`: the result is a subsequence of the input and no single-character marker survives; `DropLineCommentsByLine` states what is kept |
| Patterns.DropLineCommentsKeepsLineBreaks | backend/fingerprinting/simhash.py:8 | the pass keeps every newline: `.` does not match one |
| Patterns.LineCut | backend/fingerprinting/simhash.py:8 | one line cut before the first occurrence of the marker: a prefix of the line |
| Patterns.CutLines | backend/fingerprinting/simhash.py:8 | every line cut before its marker, one cut line per line |
| Patterns.DropLineCommentsLine | backend/fingerprinting/simhash.py:8 | on a line followed by a newline, the pass keeps the line up to its first marker, the newline, and cleans the rest |
| Patterns.DropLineCommentsByLine | backend/fingerprinting/simhash.py:8 | the result is the input split into lines, each line cut before its first marker, joined again with newlines |
| Patterns.DropLineCommentsNoMarker | backend/fingerprinting/simhash.py:8 | text without the marker is left unchanged |
| Patterns.CollapseSpaces | backend/fingerprinting/simhash.py:9 | `re.sub(r"\s+", " ")`: empty exactly when the input is, starts with a space exactly when the input starts with a blank, no two spaces are adjacent, and other characters come from the input; `CollapseSpacesSqueezed` states it exactly |
| Patterns.CollapseSpacesSqueezed | backend/fingerprinting/simhash.py:9 | the result is position by position: each non-blank kept, the first blank of each maximal run a single space, the other blanks of the run dropped |
| Patterns.SqueezedSkip | backend/fingerprinting/simhash.py:9 | blanks after a blank contribute nothing |
| Patterns.CollapseSpacesKeepsNonBlanks | backend/fingerprinting/simhash.py:9 | the non-blank characters are kept, all of them and in order |
| Patterns.CollapseSpacesFixed | backend/fingerprinting/simhash.py:9 | text already single-spaced is left unchanged |
| Patterns.CollapseBlank | backend/fingerprinting/simhash.py:9 | an all-blank text collapses to a single space, or stays empty |
| SimHash.StripCodeComments | backend/fingerprinting/simhash.py:7 | removing `//…` and `/*…*/` comments leaves a subsequence of the input, keeps all text before the first comment as a prefix, and is the identity when no comment starts anywhere |
| SimHash.StripCodeCommentsStep | backend/fingerprinting/simhash.py:7 | the result is the text before the leftmost comment, then the text from where that comment's match ends, cleaned the same way |
| SimHash.CommentEnd | backend/fingerprinting/simhash.py:7 | a comment match ends at the line break after `//` (the break stays) or just past the closing `*/`, never before two characters in |
| SimHash.FirstCodeComment | backend/fingerprinting/simhash.py:7 | the leftmost position where the pattern matches (`//`, or a `/*` closed by a later `*/`), or the end of the text |
| SimHash.StripCodeCommentsNoSlash | backend/fingerprinting/simhash.py:7-8 | text without `/` is left unchanged |
| SimHash.NormalizeCode | backend/fingerprinting/simhash.py:5-10 | the three substitutions and the strip, in source order; `NormalizeCodeNormal` and `NormalizeCodeFixed` state its output's shape and its fixed points |
| SimHash.NormalizeCodeNormal | backend/fingerprinting/simhash.py:5-10 | `normalize_code` output has no `#`, no tab or newline, no two adjacent spaces, and no leading or trailing space |
| SimHash.NormalizeCodeFixed | backend/fingerprinting/simhash.py:5-10 | normalising an already normal text without `/` gives it back |
| SimHash.Tokenize | backend/fingerprinting/simhash.py:12-14 | the tokens are the findall spans in text order; each is non-empty, starts with a letter or `_` and continues with word characters |
| SimHash.TokensNotNumeric | backend/fingerprinting/simhash.py:13-14 | no token starts with a digit, so numeric literals are never tokens |
| SimHash.Ones | backend/fingerprinting/simhash.py:20-24 | the number of tokens whose hash has bit i set, at most the number of tokens |
| SimHash.Zeros | backend/fingerprinting/simhash.py:20-24 | the number of tokens whose hash has bit i clear, at most the number of tokens |
| SimHash.OnesPlusZeros | backend/fingerprinting/simhash.py:20-24 | every token votes on every bit, one way or the other |
| SimHash.Fingerprint | backend/fingerprinting/simhash.py:26-29 | the fingerprint is below 2^hash_bits |
| SimHash.FingerprintBit | backend/fingerprinting/simhash.py:22-29 | bit i is set exactly when the tokens voting 1 strictly outnumber those voting 0; a tie gives 0 |
| SimHash.FingerprintEmpty | backend/fingerprinting/simhash.py:18-31 | no tokens give fingerprint 0 |
| SimHash.Votes | backend/fingerprinting/simhash.py:18-24 | the vote array holds, for each bit, the 1-votes minus the 0-votes |
| SimHash.ComputeSimhash | backend/fingerprinting/simhash.py:16-31 | `compute_simhash` returns the majority-vote fingerprint, below 2^hash_bits, 0 for no tokens, with each bit set exactly when its 1-votes win |
| SimHash.OnesPermutation | backend/fingerprinting/simhash.py:20-24 | the vote counts depend only on the multiset of tokens |
| SimHash.FingerprintPermutation | backend/fingerprinting/simhash.py:16-31 | any permutation of the tokens gives the same fingerprint |
| SimHash.CountedVotesExact | backend/fingerprinting/simhash.py:20-24 | the 1-votes minus the 0-votes on a bit equal the sum, over any duplicate-free list holding every token, of each token's count times its ±1 vote |
| SimHash.DistinctTokensVote | backend/fingerprinting/simhash.py:20-29 | each distinct token votes ±(its count): the vote difference is that sum over the distinct tokens, and a fingerprint bit is set exactly when the sum is positive |
| SimHash.HammingDistance | backend/fingerprinting/simhash.py:33-35 | the distance is 0 exactly when the inputs are equal, and at most 64 for 64-bit inputs |
| SimHash.HammingSymmetric | backend/fingerprinting/simhash.py:33-35 | the Hamming distance is symmetric |
| SimHash.SimhashSimilarity | backend/fingerprinting/simhash.py:37-39 | in [0, 1] for 64-bit inputs, and exactly 1 when the fingerprints are equal |
| SimHash.SimilaritySymmetric | backend/fingerprinting/simhash.py:37-39 | the similarity is symmetric |
| Bits.Or | backend/fingerprinting/simhash.py:29 | `a \| b` sets a bit exactly when either input has it |
| Bits.Xor | backend/fingerprinting/simhash.py:34 | `a ^ b` sets a bit exactly when the inputs differ there, and is 0 exactly for equal inputs |
| Bits.Popcount | backend/fingerprinting/simhash.py:35 | `bin(x).count("1")` is 0 exactly for 0 |
| Winnowing.RollingHash | backend/fingerprinting/winnowing.py:6-11 | the hash of a joined k-gram, masked below 2^64 |
| Winnowing.KgramHashes | backend/fingerprinting/winnowing.py:24-27 | one hash per k-gram start, each below 2^64 |
| Winnowing.KgramIsSlice | backend/fingerprinting/winnowing.py:24-27 | for 1 <= k <= n there are n-k+1 hashes, and hash i is the hash of tokens i to i+k-1 |
| Winnowing.SeqMin | backend/fingerprinting/winnowing.py:35 | `min` of a window: an element that no other element is below |
| Winnowing.RightmostMin | backend/fingerprinting/winnowing.py:36-37 | `idx` is the rightmost position of the window's minimum |
| Winnowing.WindowMin | backend/fingerprinting/winnowing.py:33-35 | the minimum of the hashes in the window at i |
| Winnowing.WindowMins | backend/fingerprinting/winnowing.py:32-38 | one minimum per window position, #hashes - w + 1 of them |
| Winnowing.Width | backend/fingerprinting/winnowing.py:29 | `w = min(window, #hashes)`: at most both, equal to one of them, and between 1 and #hashes for a positive window |
| Winnowing.Winnowed | backend/fingerprinting/winnowing.py:29-40 | the set of every window's minimum at width w; `WinnowedFacts`, `MinsAreWindowMinima`, `WindowMinimaKept` and `WinnowSize` state its properties |
| Winnowing.SlideWindows | backend/fingerprinting/winnowing.py:30-38 | the loop: a width of 0 or less fails at the first empty window, a width from 1 to #hashes gives every window's minimum in order, and a wider one gives none |
| Winnowing.Winnow | backend/fingerprinting/winnowing.py:14-40 | fewer than k tokens give the empty set; otherwise a window below 1 fails and a positive window gives the set of window minima |
| Winnowing.WinnowedFacts | backend/fingerprinting/winnowing.py:24-40 | with n >= k and window >= 1 there are n-k+1 hashes; each fingerprint is one of them and below 2^64; the set is non-empty and has at most one element per window |
| Winnowing.MinsAreWindowMinima | backend/fingerprinting/winnowing.py:29-38 | every fingerprint is the minimum of some window, and so is one of the k-gram hashes |
| Winnowing.WindowMinimaKept | backend/fingerprinting/winnowing.py:32-40 | every window's minimum is in the output |
| Winnowing.WinnowSize | backend/fingerprinting/winnowing.py:32-40 | the output has at most #hashes - w + 1 elements |
| Ratios.Jaccard | backend/fingerprinting/winnowing.py:43-49 | 0 if either set is empty, otherwise the intersection size over the union size; always in [0, 1] |
| Ratios.JaccardSymmetric | backend/fingerprinting/winnowing.py:43-49 | the Jaccard index is symmetric |
| Ratios.JaccardSelf | backend/fingerprinting/winnowing.py:47-49 | a non-empty set compared with itself scores 1 |
| Ratios.JaccardOneIffEqual | backend/fingerprinting/winnowing.py:47-49 | on non-empty sets the index is 1 exactly when the sets are equal |
| Manager.SkippedExtends | backend/fingerprinting/manager.py:14 | a directory whose path is skipped stays skipped whatever is appended to its path |
| Manager.SubstringSkipped | backend/fingerprinting/manager.py:14 | any path containing `build`, such as `rebuild`, is skipped: the test is on substrings, not path components |
| Manager.UpperCaseSelected | backend/fingerprinting/manager.py:17 | the lower-cased name is tested, so `X.PY` is a code file |
| Manager.IsCodeFile | backend/fingerprinting/manager.py:17 | the lower-cased name ends with one of `CODE_EXTS`; `UpperCaseSelected` shows the lower-casing |
| Manager.SkippedRoot | backend/fingerprinting/manager.py:14 | some `SKIP_DIRS` entry occurs in the path as a substring; `SkippedExtends` and `SubstringSkipped` state its properties |
| Manager.CodeFiles | backend/fingerprinting/manager.py:12-18 | a path is listed exactly when it joins a code file to a directory that is not skipped |
| Manager.CodeFilesAppend | backend/fingerprinting/manager.py:13-18 | the paths keep the walk's order of directories |
| Manager.SelectedIn | backend/fingerprinting/manager.py:14-18 | a directory contributes exactly its code files when it is not skipped, and nothing when it is |
| Manager.SelectedInAppend | backend/fingerprinting/manager.py:16-18 | a directory's files are listed in the walk's order |
| Manager.FileTokens | backend/fingerprinting/manager.py:39-53 | a file's tokens: none when it cannot be read or is blank, otherwise the tokens of its normalised text |
| Manager.RepoTokens | backend/fingerprinting/manager.py:39-53 | `all_tokens`, the in-order concatenation of every file's tokens; `UnreadableSkipped` and `BlankSkipped` state what skipping a file means |
| Manager.RepoTokensStep | backend/fingerprinting/manager.py:39-53 | each file's tokens are appended after those of the files before it |
| Manager.UnreadableSkipped | backend/fingerprinting/manager.py:40-44 | an unreadable file contributes no tokens and does not stop the others |
| Manager.BlankSkipped | backend/fingerprinting/manager.py:46-47 | a file that is blank after strip contributes no tokens |
| Manager.BlankHasNoTokens | backend/fingerprinting/manager.py:46-53 | a blank text normalises to a text with no tokens |
| Manager.ComputeFingerprintsForRepo | backend/fingerprinting/manager.py:21-69 | no tokens give `(0, {}, 0)`; otherwise `total_tokens` is the number of concatenated tokens, `repo_simhash` their 64-bit fingerprint, and `winnowing` their winnowed k-gram set; the run fails only when a window below 1 meets at least k tokens |
| StructuralAgent.ExtractStructure | backend/agents/structural_agent.py:17-25 | a syntax error gives `[]`; otherwise the visited node names |
| StructuralAgent.StructuralSimilarity | backend/agents/structural_agent.py:27-32 | 0 if either list is empty, otherwise the Jaccard index of their distinct names; always in [0, 1] |
| StructuralAgent.SimilaritySymmetric | backend/agents/structural_agent.py:31-32 | the similarity is symmetric |
| StructuralAgent.SimilarityUsesOnlyNameSets | backend/agents/structural_agent.py:31-32 | order and multiplicity are irrelevant: lists with the same name sets score the same |
| StructuralAgent.EmptyIffNoElements | backend/agents/structural_agent.py:28-31 | a list is empty exactly when its name set is |
| StructuralAgent.SimilarityOneIffSameNames | backend/agents/structural_agent.py:31-32 | non-empty lists score 1 exactly when they have the same names, so a list compared with itself scores 1 |
| StructuralAgent.FileNodes | backend/agents/structural_agent.py:45-52 | an unsupported or unreadable file contributes no names |
| StructuralAgent.SkippedFileContributesNothing | backend/agents/structural_agent.py:45-52 | skipping such a file leaves the collected names as they would be without it |
| StructuralAgent.CollectedNodesAppend | backend/agents/structural_agent.py:42-53 | the names of two file lists joined are the names of each list, concatenated |
| StructuralAgent.CollectNodes | backend/agents/structural_agent.py:42-53 | `_collect_nodes` extends the list with every file's names, in walk order |
| StructuralAgent.Run | backend/agents/structural_agent.py:55-68 | the agent is "structural", the score is the similarity of the two repositories' names, in [0, 1], and the node counts are the list lengths with duplicates |
| LexicalAgent.FileWords | backend/agents/lexical_agent.py:12-19 | a file without a listed suffix, or one that cannot be read, contributes no words |
| LexicalAgent.Repeated | backend/agents/lexical_agent.py:25 | the number of distinct words counted more than three times, at most the number of distinct words |
| LexicalAgent.LexicalScore | backend/agents/lexical_agent.py:26 | repeated over unique + 1: in [0, 1), so the `min(1.0, …)` never binds |
| LexicalAgent.Tally | backend/agents/lexical_agent.py:20-21 | the inner loop adds each word's occurrences to the counts |
| LexicalAgent.Analysis | backend/agents/lexical_agent.py:6-31 | the score and details of the word counts; `RepeatedWords`, `UniqueWords` and `NoWordsScoreZero` state what they count |
| LexicalAgent.Analyze | backend/agents/lexical_agent.py:6-31 | the loops count every word of every selected file, and the score and details are those of the counts |
| LexicalAgent.RepeatedWords | backend/agents/lexical_agent.py:19-25 | `repeated` is the number of distinct words occurring more than three times across all files |
| LexicalAgent.UniqueWords | backend/agents/lexical_agent.py:28-31 | `unique_tokens` is the number of distinct words |
| LexicalAgent.NoWordsScoreZero | backend/agents/lexical_agent.py:25-31 | no words give score 0 with both counts 0 |
| LexicalAgent.Run | backend/agents/lexical_agent.py:33-43 | the agent is "lexical", with `analyze`'s score and details unchanged and a score in [0, 1) |
| ContributorAgent.LineAuthors | backend/agents/contributor_agent.py:17-22 | each token kept from a line is one of its whitespace-separated fields, contains `@` and has no `<` |
| ContributorAgent.Fields | backend/agents/contributor_agent.py:18 | `line.strip().split()`: the whitespace-separated fields, each a non-blank run (`Text.MatchShape`) |
| ContributorAgent.Filtered | backend/agents/contributor_agent.py:20-22 | the kept tokens are exactly the author tokens among the fields |
| ContributorAgent.ContributorScore | backend/agents/contributor_agent.py:24 | 0 for no authors; otherwise 1/(n+1), which is in (0, 0.5] |
| ContributorAgent.Sample | backend/agents/contributor_agent.py:25 | the first five keys, or all of them if there are fewer |
| ContributorAgent.Tally | backend/agents/contributor_agent.py:20-22 | the inner loop adds each token to the counts and to the key order the first time it is seen |
| ContributorAgent.AuthorsAmong | backend/agents/contributor_agent.py:20-21 | the filter loop keeps the author tokens of one line |
| ContributorAgent.Analysis | backend/agents/contributor_agent.py:7-27 | the three outcomes of `analyze`; `NoLogScoresZero`, `AuthorsCounted` and `ScoreAtMostHalf` state their properties |
| ContributorAgent.Analyze | backend/agents/contributor_agent.py:7-27 | a missing log gives 0 and no-logs; a failed read gives 0 and the error; otherwise the author count, its score and the sample |
| ContributorAgent.NoLogScoresZero | backend/agents/contributor_agent.py:11-13 | a missing or unreadable log scores 0 |
| ContributorAgent.AuthorsCounted | backend/agents/contributor_agent.py:16-25 | `n_authors` is the number of distinct author tokens; the sample is the first of them in first-seen order |
| ContributorAgent.ScoreAtMostHalf | backend/agents/contributor_agent.py:24 | with at least one author the score is in (0, 0.5] |
| Cleaner.DropSlashSpans | backend/preprocessing/cleaner.py:10 | deleting every span from a `/` to the next `/`: the result is exactly the text outside the slash pairs (`OutsidePairs` of the pieces between slashes), a subsequence with at most one `/`, and text without `/` is unchanged |
| Cleaner.PairedSlashes | backend/preprocessing/cleaner.py:10 | the first two slashes pair up: the text before them is kept and the pieces after them are paired afresh |
| Cleaner.SplitExample | backend/preprocessing/cleaner.py:10 | `a/b/c` splits at its slashes into `a`, `b`, `c` |
| Cleaner.SingleSlash | backend/preprocessing/cleaner.py:10 | counting helper for the slash pass: a lone `/` holds the only one |
| Cleaner.DropSlashSpansExample | backend/preprocessing/cleaner.py:10 | `a/b/c` becomes `ac` |
| Cleaner.SecondPassIdentity | backend/preprocessing/cleaner.py:10-13 | after the first pass the `//` pass changes nothing |
| Cleaner.NoDoubleSlash | backend/preprocessing/cleaner.py:13 | text with at most one `/` has no `//` |
| Cleaner.DropHtmlComments | backend/preprocessing/cleaner.py:19 | deleting `<!-- … -->` spans leaves a subsequence of the input; `DropHtmlKeepsPrefix`, `DropHtmlUnmatched` and `DropHtmlStep` state what is kept |
| Cleaner.DropHtmlKeepsPrefix | backend/preprocessing/cleaner.py:19 | all text before the first `<!--` is kept, as a prefix of the result |
| Cleaner.DropHtmlUnmatched | backend/preprocessing/cleaner.py:19 | without an opening that a later `-->` closes, the text is unchanged |
| Cleaner.DropHtmlStep | backend/preprocessing/cleaner.py:19 | the leftmost complete comment goes, from its `<!--` through the first `-->` after it, and the text after it is cleaned the same way |
| Cleaner.DropHtmlNoOpening | backend/preprocessing/cleaner.py:19 | text without `<!--` is unchanged |
| Cleaner.DropHtmlLazy | backend/preprocessing/cleaner.py:19 | the match is lazy: it stops at the first `-->` |
| Cleaner.CollapseBlankLines | backend/preprocessing/cleaner.py:22 | the result is a subsequence with no whitespace-only line between two newlines, and a text with no newline in its leading blanks keeps that property; `CollapseBlankLinesWords`, `CollapseBlankLinesKeepsNonBlanks` and `CollapseBlankLinesFixed` state what is kept |
| Cleaner.Resume | backend/preprocessing/cleaner.py:22 | a match from a newline ends just after the last newline of the blank run that follows it; everything it spans is blank |
| Cleaner.CollapseBlankLinesWords | backend/preprocessing/cleaner.py:22 | collapsing blank lines changes no word and no separation: squeezing the blanks of the result gives the same text as squeezing those of the input |
| Cleaner.CollapseBlankLinesKeepsNonBlanks | backend/preprocessing/cleaner.py:22 | only blanks are deleted: the non-blank characters stay, all of them and in order |
| Cleaner.CollapseBlankLinesFixed | backend/preprocessing/cleaner.py:22 | a text with no blank line is unchanged |
| Cleaner.BlankPrefix | backend/preprocessing/cleaner.py:22 | a non-empty blank prefix squeezes to one space followed by the rest's squeeze without its leading blanks |
| Cleaner.Passes | backend/preprocessing/cleaner.py:10-22 | the five substitutions in source order |
| Cleaner.CleanCode | backend/preprocessing/cleaner.py:3-24 | the five substitutions, then the strip; `CleanCodeStripped`, `CleanCodeSubsequence`, `CleanCodeShape` and `CleanCodeFixed` state its properties |
| Cleaner.CleanCodeFixed | backend/preprocessing/cleaner.py:3-24 | text with nothing to remove (no `/`, no `#`, no `<!--`, no blank line, no blank at either end) comes back unchanged |
| Cleaner.CleanCodeStripped | backend/preprocessing/cleaner.py:24 | the output has no blank at either end |
| Cleaner.CleanCodeSubsequence | backend/preprocessing/cleaner.py:3-24 | the output is a subsequence of the input |
| Cleaner.CleanCodeShape | backend/preprocessing/cleaner.py:10-22 | no `#` survives, at most one `/` survives, and no blank line remains |
| Extractor.WindowStarts | backend/preprocessing/extractor.py:20 | `range(0, n, m)` yields w·m exactly for w below the ceiling of n/m |
| Extractor.Window | backend/preprocessing/extractor.py:21 | each window holds between 1 and max_lines lines |
| Extractor.Windows | backend/preprocessing/extractor.py:20-21 | one window per start of `range`, window j holding lines j·m to (j+1)·m |
| Extractor.Pieces | backend/preprocessing/extractor.py:21 | piece j is the stripped newline-join of window j |
| Extractor.NonEmpty | backend/preprocessing/extractor.py:22-23 | the kept pieces are non-empty pieces of the input, and none are kept exactly when all are empty |
| Extractor.Chunks | backend/preprocessing/extractor.py:13-25 | `chunk_text`: failure for max_lines 0 as in `range`, no chunks for a negative step, otherwise the non-empty stripped windows; `ChunksStripped`, `ChunkCount` and `BlankTextNoChunks` state their properties |
| Extractor.ChunkText | backend/preprocessing/extractor.py:13-25 | the loop returns the specified chunks; max_lines 0 fails in `range` |
| Extractor.ChunksStripped | backend/preprocessing/extractor.py:21-23 | every chunk is non-empty and has no blank at either end |
| Extractor.ChunkCount | backend/preprocessing/extractor.py:17-20 | there are at most ⌈#lines / max_lines⌉ chunks |
| Extractor.AllWindowsCover | backend/preprocessing/extractor.py:20-21 | the windows in order join back to the lines, so they keep input order and never overlap |
| Extractor.BlankTextNoChunks | backend/preprocessing/extractor.py:17-23 | a positive max_lines gives no chunks exactly when the text is all blanks |
| Extractor.BlankLinesIff | backend/preprocessing/extractor.py:20-23 | no piece is kept exactly when every line is blank |
| Extractor.LinesBlank | backend/preprocessing/extractor.py:17 | a text is blank exactly when all its lines are |
| Extractor.ExtractCleanChunks | backend/preprocessing/extractor.py:28-37 | the chunks of the cleaned file contents, with "" for a failed read; every chunk non-empty and stripped |
| Extractor.UnreadableNoChunks | backend/preprocessing/extractor.py:3-10 | a failed read gives no chunks |
| Orchestrator.HeavyScores | backend/core/orchestrator.py:65-71 | the heavy agents' results keep the order of the agents and are at most as many as the agents |
| Orchestrator.HeavyScoresAppend | backend/core/orchestrator.py:65-71 | running two agent lists one after the other concatenates their results |
| Orchestrator.RaisingAgentSkipped | backend/core/orchestrator.py:66-71 | a raising agent contributes nothing and does not stop the agents after it |
| Orchestrator.AllHeavyAgentsReport | backend/core/orchestrator.py:17-23 | when no agent raises, each reports exactly once, in `other_agents` order |
| Orchestrator.CandidateUrls | backend/core/orchestrator.py:39-41 | the candidates are the SimHash candidates together with every key of `repo_paths` |
| Orchestrator.RunHeavy | backend/core/orchestrator.py:64-71 | the loop appends the heavy agents' results to the scores so far |
| Orchestrator.ScoreCandidate | backend/core/orchestrator.py:52-73 | one candidate's `agent_scores`, or failure when a compare raises |
| Orchestrator.CandidateScores | backend/core/orchestrator.py:52-73 | one candidate's `agent_scores`, or failure when a compare raises; `EarlyReject`, `GatedScores` and `ScoreListLength` state its cases |
| Orchestrator.EarlyReject | backend/core/orchestrator.py:54-57 | a SimHash score at most 0.01 makes the scores exactly `[sim_res]`, whatever winnowing and the heavy agents would do |
| Orchestrator.GatedScores | backend/core/orchestrator.py:60-71 | otherwise the scores start with `[sim_res, win_res]`; the heavy results follow exactly when the winnowing score reaches the threshold |
| Orchestrator.ScoreListLength | backend/core/orchestrator.py:54-73 | for any heavy agents, each score list has between 1 and 2 + #heavy agents entries |
| Orchestrator.OnlyLexicalReports | backend/core/orchestrator.py:65-71 | with the repository's five heavy agents, where every call but the lexical agent's raises, only the lexical agent's result can be appended |
| Orchestrator.NoneReported | backend/core/orchestrator.py:65-71 | heavy agents that all raise append nothing |
| Orchestrator.ProgramScoreListLength | backend/core/orchestrator.py:54-73 | with the repository's heavy agents, each score list has 1 to 3 entries |
| Orchestrator.InputComparedWithItself | backend/core/orchestrator.py:35-41 | the first key of `repo_paths` is itself a candidate, and its entry is its comparison with itself |
| Orchestrator.EntriesAreClonedCandidates | backend/core/orchestrator.py:46-50 | exactly the candidates with a local path get an entry |
| Orchestrator.FailingCompareFailsRun | backend/core/orchestrator.py:52-61 | a compare that raises for any cloned candidate fails the whole run |
| Orchestrator.Results | backend/core/orchestrator.py:35-73 | `aggregated_results`: one entry per candidate with a path, or failure; `InputComparedWithItself`, `EntriesAreClonedCandidates` and `FailingCompareFailsRun` state its properties |
| Orchestrator.RepoResults | backend/core/orchestrator.py:76-78 | `repo_results` maps the same URLs to their `agent_scores`, unchanged |
| Orchestrator.RunMultiple | backend/core/orchestrator.py:25-81 | the run fails when the results fail; otherwise it returns the aggregate of each URL's `agent_scores` |

## Left out

- File system walking and reading (`os.walk`, `open`) are inputs to the
  model:
  - a walk is a list of `(root, files)` entries or `SourceFile` values,
    with readable contents as `Some(text)` and a failed read as `None`;
  - the contributor agent takes the git log as a `GitLog` value (missing,
    unreadable, or lines);
  - `read_file` returning `""` on failure is `GetOr("")` on `None`.
- MD5 is a parameter `md5: string -> nat`, for a deterministic hash. SimHash
  reduces it modulo 2^128, the hex digest's range, and winnowing masks it
  modulo 2^64. MD5 itself is not modelled.
- Tree-sitter and Python's `ast` are foreign parsers:
  - the builder takes a concrete tree datatype (`CNode`, a type string and
    children) as input;
  - the structural agent takes a parse function that gives the visited
    node names, or `None` for a syntax error.
- The semantic agent (sentence embeddings, floating-point cosine) is
  foreign and float-based, so it is not modelled.
- The broken agent wrappers are not modelled:
  - `backend/agents/simhash_agent.py`, `backend/agents/winnowing_agent.py`
    and `backend/agents/fingerprint_agent.py` call functions that do not
    exist, or use keys the manager does not return.
  - In the orchestrator, the SimHash candidate scan, the two compares and
    each heavy agent are abstract functions that give `None` when they
    raise.
- The database, cache, HTTP API, task queue, cloning, report rendering and
  UI are not part of this model.
- Floating point is modelled as exact `real` arithmetic:
  - `Aggregator.Round4` models `round(x, 4)` on the exact decimal value,
    rounding ties to the even multiple (`Aggregator.Round4HalfEven`). Its
    contract leaves ties open. A binary float that only looks halfway is not
    modelled;
  - the model does not capture IEEE rounding of the divisions.
- `\w` and `\s` are ASCII classes. The Unicode letters, digits and blanks
  Python also accepts are not modelled. `Text.Lower` likewise lower-cases
  only `A` to `Z`, where `str.lower()` folds every Unicode letter.
- Dictionary and set iteration order in the orchestrator is left open:
  - the candidate URLs are a set, and results are stated for any order;
  - `Orchestrator.RunMultiple` is therefore stated through `Results`,
    whichever order the loop takes.
- Orchestrator.RunMultiple: the heavy agents are called with the candidate
  path only (`backend/core/orchestrator.py:67`). In the repository four of
  the five raise there, and the `except` at :69-71 drops them:
  - `StructuralAgent.run` (`backend/agents/structural_agent.py:55`) and
    `SemanticAgent.run` (`backend/agents/semantic_agent.py:45`) take two
    paths;
  - `ContributorAgent` and `FingerprintAgent` have no `run` method, and
    both arms of the `hasattr` conditional call `run`.

  So only the lexical agent contributes. `RunMultiple` still takes the
  heavy agents as free inputs, so these raises are not forced there.
  `Orchestrator.OnlyFirstRuns` states them, and `OnlyLexicalReports` and
  `ProgramScoreListLength` give the consequences.
- `aggregate_multiple_repos` is not defined anywhere in the repository, so
  it is a function parameter of `Orchestrator.RunMultiple`.
- `Orchestrator.__init__` only fixes the agents and their order. The
  `Agents` value passed in plays its part.
- UastBuilder.Walk, UastBuilder.WalkChildren, SubtreeExtractor.Signature,
  SubtreeExtractor.Serialize and SubtreeExtractor.Dfs terminate on every
  finite tree. The Python code recurses once per tree level
  (`backend/fingerprinting/uast/uast_builder.py:45-46`,
  `backend/fingerprinting/uast/subtree_extractor.py:17-18` and `:28`), so a
  tree deeper than the interpreter's recursion limit (1000 frames by
  default) makes `build` or `extract` raise `RecursionError`. The model does
  not capture that failure.
- `idx` in `winnow` is computed in the loop (`Winnowing.SlideWindows`) by
  `RightmostMin`, as in the source, and it is never used.
