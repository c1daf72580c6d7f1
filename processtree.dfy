/** The process model that alignments are checked against. The Python module that defines
    it is not part of this model; this module gives the minimal structure the core relies on:
    leaves (activities and silent taus) and operator nodes with ordered children. */
module ProcessTree {

  datatype Operator = Sequence | Xor | And | Loop

  /** A process-tree node. A leaf is an activity, or a silent tau when `silent` holds.
      Node identity in the source is object identity; over trees whose ids are unique
      (UniqueIds) it coincides with the structural equality of this datatype. */
  datatype Tree =
    | Leaf(id: string, name: string, silent: bool)
    | Op(op: Operator, id: string, children: seq<Tree>)

  /** contains_tree: `other` is `t` itself or a descendant of `t`. */
  predicate Contains(t: Tree, other: Tree)
    decreases t
  {
    t == other || (t.Op? && exists i :: 0 <= i < |t.children| && Contains(t.children[i], other))
  }

  /** The parent relation `n.parent == p`, read off the owning side. */
  predicate IsChildOf(n: Tree, p: Tree) {
    p.Op? && n in p.children
  }

  /** All nodes in pre-order: the node, then each child's subtree in order. */
  function PreOrder(t: Tree): (r: seq<Tree>)
    ensures |r| > 0 && r[0] == t
    decreases t, 1
  {
    match t
    case Leaf(_, _, _) => [t]
    case Op(_, _, cs) => [t] + PreOrderOf(cs)
  }

  function PreOrderOf(cs: seq<Tree>): seq<Tree>
    decreases cs, 0
  {
    if cs == [] then [] else PreOrder(cs[0]) + PreOrderOf(cs[1..])
  }

  /** The set of nodes of a tree. */
  function Nodes(t: Tree): set<Tree> {
    set n | n in PreOrder(t)
  }

  /** The set of ids used in a tree. */
  function Ids(t: Tree): set<string> {
    set n | n in PreOrder(t) :: n.id
  }

  /** Ids are unique within the tree (the data-model invariant of the process tree). */
  predicate UniqueIds(t: Tree)
    decreases t
  {
    match t
    case Leaf(_, _, _) => true
    case Op(_, id, cs) =>
      && (forall i :: 0 <= i < |cs| ==> UniqueIds(cs[i]) && id !in Ids(cs[i]))
      && (forall i, j :: 0 <= i < j < |cs| ==> Ids(cs[i]) !! Ids(cs[j]))
  }

  /** get_leafs: the leaves in pre-order. */
  function Leaves(t: Tree): seq<Tree>
    decreases t, 1
  {
    match t
    case Leaf(_, _, _) => [t]
    case Op(_, _, cs) => LeavesOf(cs)
  }

  function LeavesOf(cs: seq<Tree>): seq<Tree>
    decreases cs, 0
  {
    if cs == [] then [] else Leaves(cs[0]) + LeavesOf(cs[1..])
  }

  lemma {:induction false} PreOrderOfMember(cs: seq<Tree>, n: Tree)
    ensures n in PreOrderOf(cs) <==> exists i :: 0 <= i < |cs| && n in PreOrder(cs[i])
    decreases cs
  {
    if cs != [] {
      PreOrderOfMember(cs[1..], n);
      if n in PreOrderOf(cs[1..]) {
        var i :| 0 <= i < |cs[1..]| && n in PreOrder(cs[1..][i]);
        assert n in PreOrder(cs[i + 1]);
      }
      if exists i :: 0 <= i < |cs| && n in PreOrder(cs[i]) {
        var i :| 0 <= i < |cs| && n in PreOrder(cs[i]);
        if i > 0 {
          assert n in PreOrder(cs[1..][i - 1]);
        }
      }
    }
  }

  /** Membership in the pre-order listing is exactly containment. */
  lemma {:induction false} PreOrderIsContains(t: Tree, n: Tree)
    ensures n in PreOrder(t) <==> Contains(t, n)
    decreases t
  {
    match t
    case Leaf(_, _, _) =>
    case Op(_, _, cs) =>
      PreOrderOfMember(cs, n);
      forall i | 0 <= i < |cs|
        ensures n in PreOrder(cs[i]) <==> Contains(cs[i], n)
      {
        PreOrderIsContains(cs[i], n);
      }
  }

  /** The nodes of an operator node: itself and those of its children. */
  lemma {:induction false} NodesOfOp(t: Tree)
    requires t.Op?
    ensures forall n :: n in Nodes(t) <==> n == t || exists j :: 0 <= j < |t.children| && n in Nodes(t.children[j])
  {
    assert PreOrder(t) == [t] + PreOrderOf(t.children);
    forall n
      ensures n in Nodes(t) <==> n == t || exists j :: 0 <= j < |t.children| && n in Nodes(t.children[j])
    {
      PreOrderOfMember(t.children, n);
    }
  }

  /** A node of a child's subtree is a node of the parent's subtree. */
  lemma {:induction false} ChildNodes(t: Tree, i: nat)
    requires t.Op? && i < |t.children|
    ensures Nodes(t.children[i]) <= Nodes(t)
    ensures Ids(t.children[i]) <= Ids(t)
  {
    forall n | n in PreOrder(t.children[i])
      ensures n in PreOrder(t)
    {
      PreOrderOfMember(t.children, n);
    }
  }

  /** The id of every node of a subtree is an id of that subtree. */
  lemma {:induction false} NodeIdsInIds(t: Tree)
    ensures forall n :: n in Nodes(t) ==> n.id in Ids(t)
  {
  }

  /** Under unique ids, distinct children have disjoint node sets and the node itself lies
      in none of them. */
  lemma {:induction false} ChildrenDisjoint(t: Tree, i: nat, j: nat)
    requires UniqueIds(t) && t.Op? && i < |t.children| && j < |t.children|
    ensures t !in Nodes(t.children[i])
    ensures i != j ==> Nodes(t.children[i]) !! Nodes(t.children[j])
  {
    var cs := t.children;
    NodeIdsInIds(cs[i]);
    NodeIdsInIds(cs[j]);
    assert t.id !in Ids(cs[i]);
    if i < j {
      assert Ids(cs[i]) !! Ids(cs[j]);
    } else if j < i {
      assert Ids(cs[j]) !! Ids(cs[i]);
    }
  }

  /** Containment is transitive: a descendant of a descendant is a descendant. */
  lemma {:induction false} ContainsTrans(t: Tree, a: Tree, b: Tree)
    requires Contains(t, a) && Contains(a, b)
    ensures Contains(t, b)
    decreases t
  {
    if t != a {
      var i :| 0 <= i < |t.children| && Contains(t.children[i], a);
      ContainsTrans(t.children[i], a, b);
    }
  }
}
