/**
 * `UASTBuilder`: walk a concrete syntax tree and keep only the nodes whose
 * type the fixed table maps to a UAST kind. An unmapped node is contracted
 * away: its children attach to the current UAST parent. The concrete tree
 * is an input value; no parser is modelled.
 */
module UastBuilder {
  import opened Wrappers
  import opened UastNodes

  /** A concrete syntax-tree node: its type name and its children in order */
  datatype CNode = CNode(typ: string, children: seq<CNode>)

  /** `NODE_MAP` */
  const NodeMap: map<string, NodeType> := map[
    "for_statement" := Loop,
    "while_statement" := Loop,
    "do_statement" := Loop,
    "if_statement" := Branch,
    "switch_statement" := Branch,
    "call_expression" := Call,
    "method_invocation" := Call,
    "assignment_expression" := Assign,
    "return_statement" := Return
  ]

  /** The mapped kinds, exactly the five the table produces */
  lemma NodeMapRange()
    ensures NodeMap.Values == {Loop, Branch, Call, Assign, Return}
    ensures NodeMap["switch_statement"] == Branch
  {
    assert NodeMap["for_statement"] == Loop;
    assert NodeMap["if_statement"] == Branch;
    assert NodeMap["call_expression"] == Call;
    assert NodeMap["assignment_expression"] == Assign;
    assert NodeMap["return_statement"] == Return;
  }

  /** The types of a concrete tree in pre-order */
  function CTypes(c: CNode): (ts: seq<string>)
    ensures |ts| >= 1 && ts[0] == c.typ
    decreases c, 1
  {
    [c.typ] + CTypesUpTo(c, |c.children|)
  }

  /** The pre-order types of the first `n` children's subtrees */
  function CTypesUpTo(c: CNode, n: nat): seq<string>
    requires n <= |c.children|
    decreases c, 0, n
  {
    if n == 0 then [] else CTypesUpTo(c, n - 1) + CTypes(c.children[n - 1])
  }

  /** The kinds `NODE_MAP` gives the mapped types of `ts`, unmapped ones dropped, in order */
  function MappedKinds(ts: seq<string>): (ks: seq<NodeType>)
    ensures |ks| <= |ts|
    ensures forall i :: 0 <= i < |ks| ==> ks[i] in NodeMap.Values
  {
    if ts == [] then []
    else
      var last := ts[|ts| - 1];
      MappedKinds(ts[..|ts| - 1]) + (if last in NodeMap then [NodeMap[last]] else [])
  }

  lemma {:induction false} MappedKindsConcat(a: seq<string>, b: seq<string>)
    ensures MappedKinds(a + b) == MappedKinds(a) + MappedKinds(b)
    decreases |b|
  {
    if b == [] {
      assert a + b == a;
    } else {
      assert (a + b)[..|a + b| - 1] == a + b[..|b| - 1];
      MappedKindsConcat(a, b[..|b| - 1]);
    }
  }

  /** The subtrees walking `c` adds under a UAST parent at depth `d`, in order */
  function Walked(c: CNode, d: int): seq<Tree>
    decreases c, 1
  {
    if c.typ in NodeMap then [Tree(NodeMap[c.typ], d + 1, WalkedChildren(c, |c.children|, d + 1))]
    else WalkedChildren(c, |c.children|, d)
  }

  /** What walking the first `n` children of `c` adds under a parent at depth `d` */
  function WalkedChildren(c: CNode, n: nat, d: int): seq<Tree>
    requires n <= |c.children|
    decreases c, 0, n
  {
    if n == 0 then [] else WalkedChildren(c, n - 1, d) + Walked(c.children[n - 1], d)
  }

  /**
   * The pre-order of the kinds added by walking `c` is the pre-order of the
   * mapped concrete types, each through `NODE_MAP`: one UAST node per mapped
   * concrete node, none for the others, in left-to-right pre-order.
   */
  lemma {:induction false} WalkedKinds(c: CNode, d: int)
    ensures ForestKinds(Walked(c, d)) == MappedKinds(CTypes(c))
    decreases c, 1
  {
    WalkedChildrenKinds(c, |c.children|, d + 1);
    WalkedChildrenKinds(c, |c.children|, d);
    MappedKindsConcat([c.typ], CTypesUpTo(c, |c.children|));
    assert MappedKinds([c.typ]) == (if c.typ in NodeMap then [NodeMap[c.typ]] else []) by {
      assert [c.typ][..0] == [];
    }
    if c.typ in NodeMap {
      var t := Tree(NodeMap[c.typ], d + 1, WalkedChildren(c, |c.children|, d + 1));
      assert Walked(c, d) == [t];
      assert [t][..0] == [];
    }
  }

  lemma {:induction false} WalkedChildrenKinds(c: CNode, n: nat, d: int)
    requires n <= |c.children|
    ensures ForestKinds(WalkedChildren(c, n, d)) == MappedKinds(CTypesUpTo(c, n))
    decreases c, 0, n
  {
    if n > 0 {
      WalkedChildrenKinds(c, n - 1, d);
      WalkedKinds(c.children[n - 1], d);
      ForestKindsConcat(WalkedChildren(c, n - 1, d), Walked(c.children[n - 1], d));
      MappedKindsConcat(CTypesUpTo(c, n - 1), CTypes(c.children[n - 1]));
    }
  }

  /** Every subtree walking `c` adds under a parent at depth `d` has its root at `d + 1` and consistent depths */
  lemma {:induction false} WalkedDepths(c: CNode, d: int)
    ensures forall i :: 0 <= i < |Walked(c, d)| ==> DepthsFrom(Walked(c, d)[i], d + 1)
    decreases c, 1
  {
    if c.typ in NodeMap {
      WalkedChildrenDepths(c, |c.children|, d + 1);
    } else {
      WalkedChildrenDepths(c, |c.children|, d);
    }
  }

  lemma {:induction false} WalkedChildrenDepths(c: CNode, n: nat, d: int)
    requires n <= |c.children|
    ensures forall i :: 0 <= i < |WalkedChildren(c, n, d)| ==> DepthsFrom(WalkedChildren(c, n, d)[i], d + 1)
    decreases c, 0, n
  {
    if n > 0 {
      WalkedChildrenDepths(c, n - 1, d);
      WalkedDepths(c.children[n - 1], d);
    }
  }

  /** The tree `build` denotes for the concrete root `rootNode` */
  function Built(rootNode: Option<CNode>): Tree
  {
    Tree(Entry, 0, if rootNode.None? then [] else Walked(rootNode.value, 0))
  }

  /**
   * What `build` produces: an ENTRY root at depth 0 followed, in pre-order,
   * by one node per mapped concrete node, all of kinds the table produces,
   * each at its parent's depth plus one.
   */
  lemma BuiltShape(rootNode: Option<CNode>)
    ensures var ks := if rootNode.None? then [] else MappedKinds(CTypes(rootNode.value));
      && Kinds(Built(rootNode)) == [Entry] + ks
      && Size(Built(rootNode)) == 1 + |ks|
      && forall i :: 1 <= i < |Kinds(Built(rootNode))| ==> Kinds(Built(rootNode))[i] in {Loop, Branch, Call, Assign, Return}
    ensures DepthsFrom(Built(rootNode), 0)
  {
    var t := Built(rootNode);
    KindsSize(t);
    NodeMapRange();
    if rootNode.Some? {
      WalkedKinds(rootNode.value, 0);
      WalkedDepths(rootNode.value, 0);
    }
  }

  /** `build(tree)`: an ENTRY root that `_walk` fills from the tree's root node */
  method Build(rootNode: Option<CNode>) returns (root: UASTNode)
    ensures fresh(root.repr) && root.Valid()
    ensures root.Abs() == Built(rootNode)
  {
    root := new UASTNode(Entry);
    Walk(rootNode, root);
  }

  /**
   * `_walk(ast_node, parent)`: `None` adds nothing; a mapped node becomes a
   * fresh child of `parent` and the parent of its concrete children; an
   * unmapped node hands its children to `parent`.
   */
  method Walk(c: Option<CNode>, parent: UASTNode)
    requires parent.Valid()
    modifies parent
    ensures parent.Valid() && old(parent.repr) <= parent.repr && fresh(parent.repr - old(parent.repr))
    ensures parent.depth == old(parent.depth)
    ensures parent.Abs() == Tree(parent.nodeType, parent.depth,
      old(parent.Abs()).children + (if c.None? then [] else Walked(c.value, parent.depth)))
    decreases if c.Some? then c.value else CNode("", []), 4
  {
    if c.None? {
      return;
    }
    var node := c.value;
    var nodeType: Option<NodeType> := if node.typ in NodeMap then Some(NodeMap[node.typ]) else None;
    if nodeType.Some? {
      WalkMapped(node, nodeType.value, parent);
    } else {
      WalkChildren(node, parent);
    }
  }

  /** The mapped case of `_walk`: a fresh UAST node of kind `k` joins `parent` and takes the children */
  method WalkMapped(node: CNode, k: NodeType, parent: UASTNode)
    requires parent.Valid()
    modifies parent
    ensures parent.Valid() && old(parent.repr) <= parent.repr && fresh(parent.repr - old(parent.repr))
    ensures parent.depth == old(parent.depth)
    ensures parent.Abs() == Tree(parent.nodeType, parent.depth,
      old(parent.Abs()).children + [Tree(k, parent.depth + 1, WalkedChildren(node, |node.children|, parent.depth + 1))])
    decreases node, 3
  {
    ghost var before := parent.Abs();
    parent.AbsChildren();
    var u := AttachNew(node, k, parent);
    parent.repr := parent.repr + u.repr;
    parent.Adopted(u, before.children);
  }

  /**
   * The body of the mapped case up to the parent's footprint: `UASTNode(k)`,
   * `add_child`, then the walk of the children under the new node.
   */
  method AttachNew(node: CNode, k: NodeType, parent: UASTNode) returns (u: UASTNode)
    modifies parent`children
    ensures fresh(u.repr) && u.Valid()
    ensures parent.children == old(parent.children) + [u]
    ensures u.Abs() == Tree(k, parent.depth + 1, WalkedChildren(node, |node.children|, parent.depth + 1))
    decreases node, 2
  {
    u := new UASTNode(k);
    parent.AddChild(u);
    ghost var d := parent.depth;
    assert u.depth == d + 1 && u.Abs().children == [];
    WalkChildren(node, u);
    ghost var walked := WalkedChildren(node, |node.children|, d + 1);
    assert u.Abs() == Tree(k, d + 1, walked) by {
      assert [] + walked == walked;
    }
  }

  /** The `for child in ast_node.children` loop of `_walk`, under `parent` */
  method WalkChildren(node: CNode, parent: UASTNode)
    requires parent.Valid()
    modifies parent
    ensures parent.Valid() && old(parent.repr) <= parent.repr && fresh(parent.repr - old(parent.repr))
    ensures parent.depth == old(parent.depth)
    ensures parent.Abs() == Tree(parent.nodeType, parent.depth,
      old(parent.Abs()).children + WalkedChildren(node, |node.children|, parent.depth))
    decreases node, 1
  {
    ghost var d := parent.depth;
    ghost var before := parent.Abs();
    for i := 0 to |node.children|
      invariant parent.Valid() && old(parent.repr) <= parent.repr && fresh(parent.repr - old(parent.repr))
      invariant parent.depth == d
      invariant parent.Abs() == Tree(parent.nodeType, d, before.children + WalkedChildren(node, i, d))
    {
      Walk(Some(node.children[i]), parent);
    }
  }
}
