/**
 * The universal AST: a closed vocabulary of nine node kinds and the node
 * object whose `add_child` appends a child and sets its depth. `Tree` is
 * the value a well-formed node graph denotes.
 */
module UastNodes {

  /** The nine node kinds, in declaration order */
  datatype NodeType = Entry | Class | Function | Loop | Branch | MultiBranch | Call | Assign | Return

  /** The vocabulary, listed once */
  const AllNodeTypes: seq<NodeType> := [Entry, Class, Function, Loop, Branch, MultiBranch, Call, Assign, Return]

  /** `node_type.value` */
  function Name(k: NodeType): (s: string)
    ensures |s| >= 4
  {
    match k
    case Entry => "ENTRY"
    case Class => "CLASS"
    case Function => "FUNCTION"
    case Loop => "LOOP"
    case Branch => "BRANCH"
    case MultiBranch => "MULTI_BRANCH"
    case Call => "CALL"
    case Assign => "ASSIGN"
    case Return => "RETURN"
  }

  /** The vocabulary has exactly nine kinds with nine distinct names */
  lemma Vocabulary()
    ensures |AllNodeTypes| == 9
    ensures forall k: NodeType :: k in AllNodeTypes
    ensures forall i, j :: 0 <= i < j < |AllNodeTypes| ==> Name(AllNodeTypes[i]) != Name(AllNodeTypes[j])
  {
    forall k: NodeType ensures k in AllNodeTypes {
      var i := match k
        case Entry => 0 case Class => 1 case Function => 2 case Loop => 3 case Branch => 4
        case MultiBranch => 5 case Call => 6 case Assign => 7 case Return => 8;
      assert AllNodeTypes[i] == k;
    }
  }

  /** A name determines its kind */
  lemma NameInjective(a: NodeType, b: NodeType)
    requires Name(a) == Name(b)
    ensures a == b
  {
  }

  /** No name contains the punctuation a signature is built from */
  lemma NameHasNoPunctuation(k: NodeType)
    ensures '(' !in Name(k) && ')' !in Name(k) && ',' !in Name(k)
  {
  }

  /** The value of a node: its kind, its depth field and its children in order */
  datatype Tree = Tree(kind: NodeType, depth: int, children: seq<Tree>)

  /** The number of nodes of a tree */
  function Size(t: Tree): (n: nat)
    ensures n >= 1
    decreases t, 1
  {
    1 + ForestSize(t.children)
  }

  function ForestSize(ts: seq<Tree>): (n: nat)
    decreases ts, 0
  {
    if ts == [] then 0 else ForestSize(ts[..|ts| - 1]) + Size(ts[|ts| - 1])
  }

  lemma {:induction false} ForestSizeConcat(a: seq<Tree>, b: seq<Tree>)
    ensures ForestSize(a + b) == ForestSize(a) + ForestSize(b)
    decreases |b|
  {
    if b == [] {
      assert a + b == a;
    } else {
      assert (a + b)[..|a + b| - 1] == a + b[..|b| - 1];
      ForestSizeConcat(a, b[..|b| - 1]);
    }
  }

  /** The kinds of a tree in pre-order: the node, then each child's subtree left to right */
  function Kinds(t: Tree): (ks: seq<NodeType>)
    ensures |ks| >= 1 && ks[0] == t.kind
    decreases t, 1
  {
    [t.kind] + ForestKinds(t.children)
  }

  function ForestKinds(ts: seq<Tree>): seq<NodeType>
    decreases ts, 0
  {
    if ts == [] then [] else ForestKinds(ts[..|ts| - 1]) + Kinds(ts[|ts| - 1])
  }

  lemma {:induction false} ForestKindsConcat(a: seq<Tree>, b: seq<Tree>)
    ensures ForestKinds(a + b) == ForestKinds(a) + ForestKinds(b)
    decreases |b|
  {
    if b == [] {
      assert a + b == a;
    } else {
      var front, last := b[..|b| - 1], b[|b| - 1];
      assert (a + b)[..|a + b| - 1] == a + front && (a + b)[|a + b| - 1] == last;
      ForestKindsConcat(a, front);
      calc {
        ForestKinds(a + b);
        ForestKinds(a + front) + Kinds(last);
        (ForestKinds(a) + ForestKinds(front)) + Kinds(last);
        ForestKinds(a) + (ForestKinds(front) + Kinds(last));
        ForestKinds(a) + ForestKinds(b);
      }
    }
  }

  /** The pre-order lists every node once */
  lemma {:induction false} KindsSize(t: Tree)
    ensures |Kinds(t)| == Size(t)
    decreases t, 1
  {
    ForestKindsSize(t.children);
  }

  lemma {:induction false} ForestKindsSize(ts: seq<Tree>)
    ensures |ForestKinds(ts)| == ForestSize(ts)
    decreases ts, 0
  {
    if ts != [] {
      ForestKindsSize(ts[..|ts| - 1]);
      KindsSize(ts[|ts| - 1]);
    }
  }

  /** Every node's depth field is its parent's plus one, starting from `d` at `t` */
  ghost predicate DepthsFrom(t: Tree, d: int)
    decreases t
  {
    && t.depth == d
    && forall i :: 0 <= i < |t.children| ==> DepthsFrom(t.children[i], d + 1)
  }

  /** `UASTNode` */
  class UASTNode {
    const nodeType: NodeType
    var children: seq<UASTNode>
    var depth: int
    /** The node and every node below it */
    ghost var repr: set<object>

    /** A finite tree below this node: every child owns a strictly smaller part of the footprint */
    ghost predicate Valid()
      reads this, repr
      decreases repr
    {
      && this in repr
      && forall i :: 0 <= i < |children| ==>
        && children[i] in repr
        && children[i].repr <= repr
        && this !in children[i].repr
        && children[i].Valid()
    }

    /** `UASTNode(node_type)`: no children, depth 0 */
    constructor (t: NodeType)
      ensures nodeType == t && children == [] && depth == 0
      ensures repr == {this} && Valid()
    {
      nodeType := t;
      children := [];
      depth := 0;
      repr := {this};
    }

    /** The tree this node denotes */
    function Abs(): (t: Tree)
      reads this, repr
      requires Valid()
      ensures t.kind == nodeType && t.depth == depth && |t.children| == |children|
      decreases repr
    {
      Tree(nodeType, depth, AbsUpTo(|children|))
    }

    function AbsUpTo(n: nat): (ts: seq<Tree>)
      reads this, repr
      requires Valid() && n <= |children|
      ensures |ts| == n
      decreases repr, n
    {
      if n == 0 then [] else AbsUpTo(n - 1) + [children[n - 1].Abs()]
    }

    lemma {:induction false} AbsUpToAt(n: nat, i: nat)
      requires Valid() && i < n <= |children|
      ensures AbsUpTo(n)[i] == children[i].Abs()
      decreases n
    {
      if i < n - 1 {
        AbsUpToAt(n - 1, i);
      }
    }

    /**
     * `add_child`: the child's depth becomes this node's depth plus one and
     * the child is appended; nothing else changes. A node added to itself
     * also sees its own depth move.
     */
    method AddChild(child: UASTNode)
      modifies this`children, child`depth
      ensures child.depth == old(depth) + 1
      ensures children == old(children) + [child]
      ensures child != this ==> depth == old(depth)
      ensures child != this ==> child.children == old(child.children)
    {
      child.depth := depth + 1;
      children := children + [child];
    }

    /** The view of the `i`-th child is the `i`-th child of the view */
    lemma AbsChild(i: nat)
      requires Valid() && i < |children|
      ensures Abs().children[i] == children[i].Abs()
    {
      AbsUpToAt(|children|, i);
    }

    /** The views of the children are the children of the view */
    lemma AbsChildren()
      requires Valid()
      ensures forall j :: 0 <= j < |children| ==> Abs().children[j] == children[j].Abs()
    {
      forall j | 0 <= j < |children| ensures Abs().children[j] == children[j].Abs() {
        AbsChild(j);
      }
    }

    /** After appending a child, the view is the old child views plus the new one */
    lemma AbsAppended(before: seq<Tree>)
      requires Valid() && |children| == |before| + 1
      requires forall j :: 0 <= j < |before| ==> children[j].Abs() == before[j]
      ensures Abs().children == before + [children[|before|].Abs()]
    {
      forall j | 0 <= j < |children| ensures Abs().children[j] == (before + [children[|before|].Abs()])[j] {
        AbsChild(j);
      }
    }

    /** A node whose whole footprint is untouched keeps its validity and its view */
    twostate lemma Unchanged()
      requires old(Valid()) && unchanged(old(repr))
      ensures Valid() && Abs() == old(Abs())
    {
    }

    /** When nothing but this node changed, its former children keep their validity and views */
    twostate lemma FormerChildrenUnchanged()
      requires old(Valid()) && unchanged(old(repr) - {this})
      ensures forall j :: 0 <= j < |old(children)| ==>
        old(children)[j].Valid() && old(children)[j].Abs() == old(children[j].Abs())
    {
      forall j | 0 <= j < |old(children)|
        ensures old(children)[j].Valid() && old(children)[j].Abs() == old(children[j].Abs())
      {
        assert old(children[j].repr) <= old(repr) - {this};
        old(children)[j].Unchanged();
      }
    }

    /**
     * A valid node that gained one fresh valid child `u`, and whose footprint
     * otherwise did not change, is valid, and its view lists the former
     * children's views `before` and then `u`'s view.
     */
    twostate lemma Adopted(new u: UASTNode, before: seq<Tree>)
      requires old(Valid())
      requires |before| == |old(children)|
      requires forall j :: 0 <= j < |before| ==> before[j] == old(children[j].Abs())
      requires children == old(children) + [u]
      requires unchanged(old(repr) - {this})
      requires u.Valid() && fresh(u.repr) && repr == old(repr) + u.repr
      ensures Valid() && Abs() == Tree(nodeType, depth, before + [u.Abs()])
    {
      FormerChildrenUnchanged();
      ValidFromChildren();
      AbsAppended(before);
    }

    /** Validity from the facts about each child */
    lemma ValidFromChildren()
      requires this in repr
      requires forall i :: 0 <= i < |children| ==> children[i] in repr && children[i].repr <= repr && this !in children[i].repr
      requires forall i :: 0 <= i < |children| ==> children[i].Valid()
      ensures Valid()
    {
    }

    /** `is_leaf` */
    function IsLeaf(): (b: bool)
      reads this
      ensures b <==> |children| == 0
    {
      children == []
    }
  }
}
