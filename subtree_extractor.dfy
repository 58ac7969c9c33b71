/**
 * `SubtreeExtractor`: one signature per UAST node, in pre-order. A
 * signature is the node's kind name, followed for an inner node by its
 * children's signatures, comma separated, in parentheses.
 */
module SubtreeExtractor {
  import opened Text
  import opened UastNodes

  /** `_serialize` on the tree a node denotes */
  function Signature(t: Tree): string
    decreases t, 1
  {
    if t.children == [] then Name(t.kind)
    else Name(t.kind) + "(" + Join(",", ChildSignatures(t.children)) + ")"
  }

  /** A signature begins with the node's kind name, and is exactly that name iff the node is a leaf */
  lemma SignatureStartsWithName(t: Tree)
    ensures Name(t.kind) <= Signature(t)
    ensures t.children == [] <==> Signature(t) == Name(t.kind)
  {
    if t.children != [] {
      assert |Signature(t)| > |Name(t.kind)|;
    }
  }

  /** The signatures of a list of sibling trees, in order */
  function ChildSignatures(ts: seq<Tree>): (ss: seq<string>)
    ensures |ss| == |ts|
    decreases ts, 0
  {
    if ts == [] then [] else ChildSignatures(ts[..|ts| - 1]) + [Signature(ts[|ts| - 1])]
  }

  lemma {:induction false} ChildSignatureAt(ts: seq<Tree>, i: nat)
    requires i < |ts|
    ensures ChildSignatures(ts)[i] == Signature(ts[i])
    decreases |ts|
  {
    if i < |ts| - 1 {
      ChildSignatureAt(ts[..|ts| - 1], i);
    }
  }

  /** The signatures `extract` lists for a tree: its own, then each child's subtree left to right */
  function Subtrees(t: Tree): (ss: seq<string>)
    ensures |ss| >= 1 && ss[0] == Signature(t)
    decreases t, 1
  {
    [Signature(t)] + SubtreesUpTo(t.children, |t.children|)
  }

  /** The signatures of the subtrees of the first `n` of the siblings `ts` */
  function SubtreesUpTo(ts: seq<Tree>, n: nat): seq<string>
    requires n <= |ts|
    decreases ts, 0, n
  {
    if n == 0 then [] else SubtreesUpTo(ts, n - 1) + Subtrees(ts[n - 1])
  }

  /**
   * The `i`-th signature belongs to the `i`-th node in pre-order: there is
   * one per node, and each begins with that node's kind name.
   */
  lemma {:induction false} SubtreesFollowKinds(t: Tree)
    ensures |Subtrees(t)| == |Kinds(t)| == Size(t)
    ensures forall i :: 0 <= i < |Subtrees(t)| ==> Name(Kinds(t)[i]) <= Subtrees(t)[i]
    decreases t, 1
  {
    var n := |t.children|;
    var a, b := [Signature(t)], SubtreesUpTo(t.children, n);
    var ka, kb := [t.kind], ForestKinds(t.children);
    SubtreesUpToFollowKinds(t.children, n);
    SignatureStartsWithName(t);
    assert t.children[..n] == t.children;
    KindsSize(t);
    PrefixesConcat(a, b, ka, kb);
  }

  lemma {:induction false} SubtreesUpToFollowKinds(ts: seq<Tree>, n: nat)
    requires n <= |ts|
    ensures |SubtreesUpTo(ts, n)| == |ForestKinds(ts[..n])|
    ensures forall i :: 0 <= i < |SubtreesUpTo(ts, n)| ==> Name(ForestKinds(ts[..n])[i]) <= SubtreesUpTo(ts, n)[i]
    decreases ts, 0, n
  {
    if n > 0 {
      SubtreesUpToFollowKinds(ts, n - 1);
      SubtreesFollowKinds(ts[n - 1]);
      assert ts[..n][..n - 1] == ts[..n - 1];
      PrefixesConcat(SubtreesUpTo(ts, n - 1), Subtrees(ts[n - 1]), ForestKinds(ts[..n - 1]), Kinds(ts[n - 1]));
    }
  }

  /** Positionwise kind-name prefixes survive concatenation */
  lemma PrefixesConcat(a: seq<string>, b: seq<string>, ka: seq<NodeType>, kb: seq<NodeType>)
    requires |a| == |ka| && forall i :: 0 <= i < |a| ==> Name(ka[i]) <= a[i]
    requires |b| == |kb| && forall i :: 0 <= i < |b| ==> Name(kb[i]) <= b[i]
    ensures forall i :: 0 <= i < |a + b| ==> Name((ka + kb)[i]) <= (a + b)[i]
  {
    forall i | 0 <= i < |a + b| ensures Name((ka + kb)[i]) <= (a + b)[i] {
      if i < |a| {
        assert (a + b)[i] == a[i] && (ka + kb)[i] == ka[i];
      } else {
        assert (a + b)[i] == b[i - |a|] && (ka + kb)[i] == kb[i - |a|];
      }
    }
  }

  /** Two trees with the same kinds and the same branching, depths aside */
  ghost predicate SameShape(t: Tree, u: Tree)
    decreases t
  {
    && t.kind == u.kind
    && |t.children| == |u.children|
    && forall i :: 0 <= i < |t.children| ==> SameShape(t.children[i], u.children[i])
  }

  /** Signatures never look at the `depth` field */
  lemma {:induction false} SignatureIgnoresDepth(t: Tree, u: Tree)
    requires SameShape(t, u)
    ensures Signature(t) == Signature(u)
    decreases t, 1
  {
    ChildSignaturesIgnoreDepth(t.children, u.children);
  }

  lemma {:induction false} ChildSignaturesIgnoreDepth(ts: seq<Tree>, us: seq<Tree>)
    requires |ts| == |us| && forall i :: 0 <= i < |ts| ==> SameShape(ts[i], us[i])
    ensures ChildSignatures(ts) == ChildSignatures(us)
    decreases ts, 0
  {
    forall i | 0 <= i < |ts| ensures ChildSignatures(ts)[i] == ChildSignatures(us)[i] {
      SignatureIgnoresDepth(ts[i], us[i]);
      ChildSignatureAt(ts, i);
      ChildSignatureAt(us, i);
    }
  }

  /** `_serialize(node)` on the node objects */
  function Serialize(node: UASTNode): (s: string)
    reads node, node.repr
    requires node.Valid()
    ensures s == Signature(node.Abs())
    decreases node.repr, 1
  {
    var sigs := SerializeChildren(node, |node.children|);
    assert sigs == ChildSignatures(node.Abs().children) by {
      forall i | 0 <= i < |node.children| ensures sigs[i] == ChildSignatures(node.Abs().children)[i] {
        node.AbsChild(i);
        ChildSignatureAt(node.Abs().children, i);
      }
    }
    if node.children == [] then Name(node.nodeType)
    else Name(node.nodeType) + "(" + Join(",", sigs) + ")"
  }

  /** The serialisations of the first `n` children of `node` */
  function SerializeChildren(node: UASTNode, n: nat): (ss: seq<string>)
    reads node, node.repr
    requires node.Valid() && n <= |node.children|
    ensures |ss| == n
    ensures forall i :: 0 <= i < n ==> ss[i] == Signature(node.children[i].Abs())
    decreases node.repr, 0, n
  {
    if n == 0 then []
    else SerializeChildren(node, n - 1) + [Serialize(node.children[n - 1])]
  }

  /**
   * `_dfs(node, acc)`, on the tree `t` the node denotes: `acc` gains the
   * signatures of the subtree in pre-order.
   */
  method Dfs(t: Tree, acc: seq<string>) returns (out: seq<string>)
    ensures out == acc + Subtrees(t)
    decreases t
  {
    var signature := Signature(t);
    out := acc + [signature];
    ghost var head := out;
    for i := 0 to |t.children|
      invariant out == head + SubtreesUpTo(t.children, i)
    {
      var child := t.children[i];
      ghost var done := SubtreesUpTo(t.children, i);
      out := Dfs(child, out);
      AppendAssoc(head, done, Subtrees(child));
    }
  }

  lemma AppendAssoc(a: seq<string>, b: seq<string>, c: seq<string>)
    ensures (a + b) + c == a + (b + c)
  {
  }

  /** `extract(root)`: every node's signature, in pre-order */
  method Extract(root: UASTNode) returns (subtrees: seq<string>)
    requires root.Valid()
    ensures subtrees == Subtrees(root.Abs())
  {
    subtrees := Dfs(root.Abs(), []);
  }
}
