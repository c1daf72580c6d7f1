/** The coverage mass of a weighted process tree (coveragemass.py): leaf weights are taken
    from the transitions of a stochastic labelled Petri net, operator weights are inferred
    bottom-up, and the coverage of a node combines the coverage of its children, weighted for
    a choice and averaged for the other operators. */
module CoverageMass {
  import opened Wrappers
  import opened ProcessTree
  import Slpn
  import Probabilities

  const ZERO_DIVISION_ERROR: string := "ZeroDivisionError"

  type Weights = map<Tree, real>

  // ---------------------------------------------------------------------------------------
  // update_activity_weights

  /** The weight of the last transition labelled `name`: None when no transition has the
      label, and otherwise that transition's weight, itself None when its text was not read as
      a number. */
  function LastMatch(ts: seq<Slpn.Transition>, name: string): Option<Option<real>> {
    if ts == [] then None
    else if ts[|ts| - 1].name == name then Some(ts[|ts| - 1].weight)
    else LastMatch(ts[..|ts| - 1], name)
  }

  /** LastMatch finds a transition exactly when one has the name, and then it is the last one. */
  lemma {:induction false} LastMatchSpec(ts: seq<Slpn.Transition>, name: string)
    ensures LastMatch(ts, name).None? <==> forall i :: 0 <= i < |ts| ==> ts[i].name != name
    ensures LastMatch(ts, name).Some? ==>
      exists i :: 0 <= i < |ts| && ts[i].name == name && Some(ts[i].weight) == LastMatch(ts, name) &&
        forall j :: i < j < |ts| ==> ts[j].name != name
  {
    if ts != [] {
      var init := ts[..|ts| - 1];
      LastMatchSpec(init, name);
      assert forall i :: 0 <= i < |init| ==> init[i] == ts[i];
      if ts[|ts| - 1].name != name && LastMatch(init, name).Some? {
        var i :| 0 <= i < |init| && init[i].name == name && Some(init[i].weight) == LastMatch(init, name) &&
          forall j :: i < j < |init| ==> init[j].name != name;
        assert ts[i].name == name && forall j :: i < j < |ts| ==> ts[j].name != name;
      }
    }
  }

  /** The weights after the inner loop of update_activity_weights for one leaf. A node without
      an entry has the weight None, so a matching transition whose weight is None removes the
      leaf's entry. */
  function Matched(w: Weights, leaf: Tree, ts: seq<Slpn.Transition>): Weights {
    match LastMatch(ts, leaf.id)
    case None => w
    case Some(Some(x)) => w[leaf := x]
    case Some(None) => w - {leaf}
  }

  /** The weights after update_activity_weights has visited the given leaves. */
  function ActivityWeights(w: Weights, leaves: seq<Tree>, ts: seq<Slpn.Transition>): Weights {
    if leaves == [] then w else Matched(ActivityWeights(w, leaves[..|leaves| - 1], ts), leaves[|leaves| - 1], ts)
  }

  /** The node is one of the leaves and some transition is labelled with its id. */
  predicate Assigned(leaves: seq<Tree>, ts: seq<Slpn.Transition>, n: Tree) {
    n in leaves && LastMatch(ts, n.id).Some?
  }

  /** A leaf some transition is labelled with takes the weight of the last such transition
      (None included); every other node, and every leaf no transition is labelled with, keeps
      its weight. */
  lemma {:induction false} ActivityWeightsSpec(w: Weights, leaves: seq<Tree>, ts: seq<Slpn.Transition>)
    ensures forall n :: Assigned(leaves, ts, n) ==>
      && (n in ActivityWeights(w, leaves, ts) <==> LastMatch(ts, n.id).value.Some?)
      && (n in ActivityWeights(w, leaves, ts) ==> ActivityWeights(w, leaves, ts)[n] == LastMatch(ts, n.id).value.value)
    ensures forall n :: !Assigned(leaves, ts, n) ==>
      && (n in ActivityWeights(w, leaves, ts) <==> n in w)
      && (n in w ==> ActivityWeights(w, leaves, ts)[n] == w[n])
  {
    if leaves != [] {
      var init := leaves[..|leaves| - 1];
      ActivityWeightsSpec(w, init, ts);
      assert forall n :: n in leaves <==> n in init || n == leaves[|leaves| - 1];
    }
  }

  // ---------------------------------------------------------------------------------------
  // infer_operator_weights

  /** The leaves of a tree. */
  function LeafSet(pt: Tree): set<Tree> {
    set n | n in Nodes(pt) && n.Leaf?
  }

  /** Every leaf of the tree has a weight. */
  predicate LeavesWeighted(w: Weights, pt: Tree) {
    LeafSet(pt) <= w.Keys
  }

  /** The nodes of the subtrees of the children. */
  function SubtreeNodes(cs: seq<Tree>): set<Tree> {
    if cs == [] then {} else SubtreeNodes(cs[..|cs| - 1]) + Nodes(cs[|cs| - 1])
  }

  lemma {:induction false} SubtreeNodesMember(cs: seq<Tree>)
    ensures forall n :: n in SubtreeNodes(cs) <==> exists i :: 0 <= i < |cs| && n in Nodes(cs[i])
  {
    if cs != [] {
      var init := cs[..|cs| - 1];
      SubtreeNodesMember(init);
      assert forall i :: 0 <= i < |init| ==> init[i] == cs[i];
    }
  }

  /** The nodes of an operator node are itself and those of its children's subtrees, and the
      leaves of each child are leaves of the node. */
  lemma {:induction false} OpNodes(pt: Tree)
    requires pt.Op?
    ensures Nodes(pt) == {pt} + SubtreeNodes(pt.children)
    ensures forall i :: 0 <= i < |pt.children| ==> LeafSet(pt.children[i]) <= LeafSet(pt)
  {
    NodesOfOp(pt);
    SubtreeNodesMember(pt.children);
    forall i | 0 <= i < |pt.children|
      ensures LeafSet(pt.children[i]) <= LeafSet(pt)
    {
      ChildNodes(pt, i);
    }
  }

  lemma {:induction false} LeafNodes(pt: Tree)
    requires pt.Leaf?
    ensures Nodes(pt) == {pt} && LeafSet(pt) == {pt}
  {
    assert PreOrder(pt) == [pt];
  }

  /** Every And, Sequence and Loop node of the tree has children, so each mean is defined. */
  predicate MeansDefined(pt: Tree)
    decreases pt
  {
    match pt
    case Leaf(_, _, _) => true
    case Op(op, _, cs) => (op != Xor ==> |cs| > 0) && forall i :: 0 <= i < |cs| ==> MeansDefined(cs[i])
  }

  /** The weights of the children, in order. */
  function ChildWeights(w: Weights, cs: seq<Tree>): (r: seq<real>)
    requires forall i :: 0 <= i < |cs| ==> cs[i] in w
    ensures |r| == |cs| && forall i :: 0 <= i < |cs| ==> r[i] == w[cs[i]]
  {
    seq(|cs|, i requires 0 <= i < |cs| => w[cs[i]])
  }

  /** An operator's weight from its children's: the sum for a choice, the mean otherwise. */
  function OpWeight(op: Operator, ws: seq<real>): real
    requires op != Xor ==> |ws| > 0
  {
    if op == Xor then Probabilities.SeqSum(ws) else Probabilities.SeqSum(ws) / |ws| as real
  }

  /** The weight a node of the tree should get: its own for a leaf, and otherwise the
      operator's combination of the weights its children should get. */
  function TreeWeight(w: Weights, pt: Tree): real
    requires LeavesWeighted(w, pt) && MeansDefined(pt)
    decreases pt
  {
    match pt
    case Leaf(_, _, _) =>
      LeafNodes(pt);
      w[pt]
    case Op(op, _, cs) =>
      OpNodes(pt);
      OpWeight(op, seq(|cs|, i requires 0 <= i < |cs| => TreeWeight(w, cs[i])))
  }

  /** The weights after infer_operator_weights(pt). */
  function Inferred(w: Weights, pt: Tree): (r: Weights)
    requires LeavesWeighted(w, pt) && MeansDefined(pt)
    ensures r.Keys == w.Keys + Nodes(pt)
    decreases pt, 1
  {
    match pt
    case Leaf(_, _, _) =>
      LeafNodes(pt);
      w
    case Op(op, _, cs) =>
      OpNodes(pt);
      var m := InferredChildren(w, cs);
      SubtreeNodesMember(cs);
      assert forall i :: 0 <= i < |cs| ==> cs[i] in Nodes(cs[i]);
      m[pt := OpWeight(op, ChildWeights(m, cs))]
  }

  /** The weights after infer_operator_weights has visited the children. */
  function InferredChildren(w: Weights, cs: seq<Tree>): (r: Weights)
    requires forall i :: 0 <= i < |cs| ==> LeavesWeighted(w, cs[i]) && MeansDefined(cs[i])
    ensures r.Keys == w.Keys + SubtreeNodes(cs)
    decreases cs, 0
  {
    if cs == [] then w
    else
      var init := cs[..|cs| - 1];
      assert forall i :: 0 <= i < |init| ==> init[i] == cs[i];
      var m := InferredChildren(w, init);
      assert LeavesWeighted(w, cs[|cs| - 1]);
      Inferred(m, cs[|cs| - 1])
  }

  /** Two weightings that agree on the leaves of a tree give its nodes the same weight. */
  lemma {:induction false} TreeWeightOfLeaves(w: Weights, w': Weights, pt: Tree)
    requires LeavesWeighted(w, pt) && LeavesWeighted(w', pt) && MeansDefined(pt)
    requires forall n :: n in LeafSet(pt) ==> w[n] == w'[n]
    ensures TreeWeight(w, pt) == TreeWeight(w', pt)
    decreases pt
  {
    match pt
    case Leaf(_, _, _) =>
      LeafNodes(pt);
    case Op(op, _, cs) =>
      OpNodes(pt);
      forall i | 0 <= i < |cs|
        ensures TreeWeight(w, cs[i]) == TreeWeight(w', cs[i])
      {
        TreeWeightOfLeaves(w, w', cs[i]);
      }
      assert seq(|cs|, i requires 0 <= i < |cs| => TreeWeight(w, cs[i]))
          == seq(|cs|, i requires 0 <= i < |cs| => TreeWeight(w', cs[i]));
  }

  /** infer_operator_weights gives every node of the tree the weight it should get (the sum
      of its children's for a choice, their mean for the other operators), keeps the weight
      of every leaf, and changes no node outside the tree. */
  lemma {:induction false} InferredSpec(w: Weights, pt: Tree)
    requires LeavesWeighted(w, pt) && MeansDefined(pt)
    ensures forall n :: n in Nodes(pt) ==>
      LeavesWeighted(w, n) && MeansDefined(n) && Inferred(w, pt)[n] == TreeWeight(w, n)
    ensures forall n :: n in w && n !in Nodes(pt) ==> Inferred(w, pt)[n] == w[n]
    ensures forall n :: n in w && n.Leaf? ==> Inferred(w, pt)[n] == w[n]
    decreases pt, 1
  {
    match pt
    case Leaf(_, _, _) =>
      LeafNodes(pt);
    case Op(op, _, cs) =>
      OpNodes(pt);
      SubtreeNodesMember(cs);
      Subtree(pt, pt);
      var m := InferredChildren(w, cs);
      InferredChildrenSpec(w, cs);
      forall i | 0 <= i < |cs|
        ensures m[cs[i]] == TreeWeight(w, cs[i])
      {
        assert cs[i] in Nodes(cs[i]);
      }
      assert ChildWeights(m, cs) == seq(|cs|, i requires 0 <= i < |cs| => TreeWeight(w, cs[i]));
      var r := Inferred(w, pt);
      assert r == m[pt := OpWeight(op, ChildWeights(m, cs))];
      assert r[pt] == TreeWeight(w, pt);
      forall n | n in Nodes(pt)
        ensures LeavesWeighted(w, n) && MeansDefined(n) && r[n] == TreeWeight(w, n)
      {
        if n != pt {
          assert n in SubtreeNodes(cs);
        }
      }
  }

  lemma {:induction false} InferredChildrenSpec(w: Weights, cs: seq<Tree>)
    requires forall i :: 0 <= i < |cs| ==> LeavesWeighted(w, cs[i]) && MeansDefined(cs[i])
    ensures forall n :: n in SubtreeNodes(cs) ==>
      LeavesWeighted(w, n) && MeansDefined(n) && InferredChildren(w, cs)[n] == TreeWeight(w, n)
    ensures forall n :: n in w && n !in SubtreeNodes(cs) ==> InferredChildren(w, cs)[n] == w[n]
    ensures forall n :: n in w && n.Leaf? ==> InferredChildren(w, cs)[n] == w[n]
    decreases cs, 0
  {
    if cs != [] {
      var init := cs[..|cs| - 1];
      var c := cs[|cs| - 1];
      assert forall i :: 0 <= i < |init| ==> init[i] == cs[i];
      var m := InferredChildren(w, init);
      InferredChildrenSpec(w, init);
      InferredSpec(m, c);
      forall n | n in Nodes(c)
        ensures LeavesWeighted(w, n) && MeansDefined(n) && InferredChildren(w, cs)[n] == TreeWeight(w, n)
      {
        Subtree(c, n);
        TreeWeightOfLeaves(w, m, n);
      }
    }
  }

  /** The leaves of a node's subtree are leaves of the tree, and its means are defined when
      the tree's are. */
  lemma {:induction false} Subtree(pt: Tree, n: Tree)
    requires n in Nodes(pt)
    ensures LeafSet(n) <= LeafSet(pt)
    ensures MeansDefined(pt) ==> MeansDefined(n)
    decreases pt
  {
    match pt
    case Leaf(_, _, _) =>
      LeafNodes(pt);
    case Op(_, _, cs) =>
      if n != pt {
        NodesOfOp(pt);
        var j :| 0 <= j < |cs| && n in Nodes(cs[j]);
        Subtree(cs[j], n);
        OpNodes(pt);
      }
  }

  /** infer_operator_weights succeeds on a leaf, and on an operator node exactly when every
      leaf below it has a weight (a child's weight None raises a TypeError in the sum) and every
      And, Sequence and Loop below it has children (otherwise the mean divides by zero). */
  predicate Inferable(w: Weights, pt: Tree) {
    pt.Leaf? || (LeavesWeighted(w, pt) && MeansDefined(pt))
  }

  /** An operator node's leaves are weighted exactly when those of each child are. */
  lemma {:induction false} LeavesWeightedOp(w: Weights, pt: Tree)
    requires pt.Op?
    ensures LeavesWeighted(w, pt) <==> forall i :: 0 <= i < |pt.children| ==> LeavesWeighted(w, pt.children[i])
  {
    OpNodes(pt);
    if forall i :: 0 <= i < |pt.children| ==> LeavesWeighted(w, pt.children[i]) {
      forall n | n in LeafSet(pt)
        ensures n in w
      {
        SubtreeNodesMember(pt.children);
        var i :| 0 <= i < |pt.children| && n in Nodes(pt.children[i]);
        assert n in LeafSet(pt.children[i]);
      }
    }
  }

  /** Both weightings have entries for the same leaves. */
  ghost predicate SameLeafEntries(w: Weights, w': Weights) {
    forall n: Tree :: n.Leaf? ==> (n in w <==> n in w')
  }

  /** Whether the leaves are weighted depends only on which leaves have an entry. */
  lemma {:induction false} LeavesWeightedSame(w: Weights, w': Weights, pt: Tree)
    requires SameLeafEntries(w, w')
    ensures LeavesWeighted(w, pt) <==> LeavesWeighted(w', pt)
    ensures Inferable(w, pt) <==> Inferable(w', pt)
  {
  }

  /** Each child is ready for inference: its leaves are weighted and its means defined. */
  predicate ChildrenReady(w: Weights, cs: seq<Tree>) {
    forall i :: 0 <= i < |cs| ==> LeavesWeighted(w, cs[i]) && MeansDefined(cs[i])
  }

  /** An operator node is inferable exactly when its own mean is defined and every child is
      ready; a leaf child is ready exactly when it has a weight. */
  lemma {:induction false} OpInferable(w: Weights, pt: Tree)
    requires pt.Op?
    ensures Inferable(w, pt) <==> (pt.op != Xor ==> |pt.children| > 0) && ChildrenReady(w, pt.children)
    ensures forall i :: 0 <= i < |pt.children| && pt.children[i].Leaf? ==>
      (LeavesWeighted(w, pt.children[i]) <==> pt.children[i] in w) && MeansDefined(pt.children[i])
    ensures forall i :: 0 <= i < |pt.children| && pt.children[i].Op? ==>
      (Inferable(w, pt.children[i]) <==> LeavesWeighted(w, pt.children[i]) && MeansDefined(pt.children[i]))
    ensures LeavesWeighted(w, pt) <==> forall i :: 0 <= i < |pt.children| ==> LeavesWeighted(w, pt.children[i])
  {
    LeavesWeightedOp(w, pt);
    forall i | 0 <= i < |pt.children| && pt.children[i].Leaf?
      ensures LeavesWeighted(w, pt.children[i]) <==> pt.children[i] in w
    {
      LeafNodes(pt.children[i]);
    }
  }

  /** With the same leaf entries and every operator child weighted, the children all have
      weights exactly when every leaf child had one. */
  lemma {:induction false} ChildEntries(w: Weights, m: Weights, cs: seq<Tree>)
    requires SameLeafEntries(m, w)
    requires forall i :: 0 <= i < |cs| && cs[i].Op? ==> cs[i] in m
    ensures ChildrenWeighted(m, cs) <==> forall i :: 0 <= i < |cs| && cs[i].Leaf? ==> cs[i] in w
  {
  }

  /** One more child inferred: an operator child by Inferred, a leaf child by nothing. */
  lemma {:induction false} InferredChildrenStep(w: Weights, cs: seq<Tree>, i: nat, m: Weights)
    requires i < |cs| && ChildrenReady(w, cs[..i + 1])
    requires ChildrenReady(w, cs[..i]) && m == InferredChildren(w, cs[..i])
    ensures LeavesWeighted(m, cs[i]) && MeansDefined(cs[i])
    ensures InferredChildren(w, cs[..i + 1]) == if cs[i].Leaf? then m else Inferred(m, cs[i])
  {
    var prefix := cs[..i + 1];
    assert prefix[..i] == cs[..i] && prefix[i] == cs[i];
    InferredChildrenSpec(w, cs[..i]);
    assert LeavesWeighted(m, cs[i]);
  }

  /** Inferring an operator node gives it a weight and keeps every entry, and the entries of the
      leaves. */
  lemma {:induction false} InferredEntries(m: Weights, pt: Tree)
    requires pt.Op? && LeavesWeighted(m, pt) && MeansDefined(pt)
    ensures pt in Inferred(m, pt) && m.Keys <= Inferred(m, pt).Keys
    ensures SameLeafEntries(Inferred(m, pt), m)
  {
    OpNodes(pt);
  }

  const TYPE_ERROR: string := "TypeError"

  // ---------------------------------------------------------------------------------------
  // The weights of a tree's nodes, updated in place

  /** The `weight` fields of the nodes: a node without an entry has the weight None. */
  class TreeWeights {
    var weights: Weights

    constructor (weights: Weights)
      ensures this.weights == weights
    {
      this.weights := weights;
    }

    /** update_activity_weights: each leaf takes the weight of the last transition of the net
        labelled with the leaf's id. */
    method UpdateActivityWeights(pt: Tree, net: Slpn.StochasticLabelledPetriNet)
      modifies this
      ensures weights == ActivityWeights(old(weights), Leaves(pt), net.transitions)
    {
      var leaves := Leaves(pt);
      var ts := net.transitions;
      for i := 0 to |leaves|
        invariant weights == ActivityWeights(old(weights), leaves[..i], ts)
      {
        assert leaves[..i + 1][..i] == leaves[..i];
        var leaf := leaves[i];
        ghost var before := weights;
        for j := 0 to |ts|
          invariant weights == Matched(before, leaf, ts[..j])
        {
          assert ts[..j + 1][..j] == ts[..j];
          if ts[j].name == leaf.id {
            match ts[j].weight
            case Some(x) => weights := weights[leaf := x];
            case None => weights := weights - {leaf};
          }
        }
        assert ts[..|ts|] == ts;
      }
      assert leaves[..|leaves|] == leaves;
    }

    /** infer_operator_weights: the children first, then the node itself. It fails with a
        TypeError when a child has no weight, and with a ZeroDivisionError for an And,
        Sequence or Loop without children; which comes first depends on the order of the
        traversal. */
    method InferOperatorWeights(pt: Tree) returns (r: Result<()>)
      modifies this
      ensures r.Ok? <==> Inferable(old(weights), pt)
      ensures r.Ok? && pt.Op? ==> weights == Inferred(old(weights), pt)
      ensures pt.Leaf? ==> weights == old(weights)
      ensures r.Ok? ==> SameLeafEntries(weights, old(weights))
      ensures r.Err? ==> r.msg == TYPE_ERROR || r.msg == ZERO_DIVISION_ERROR
      ensures r.Err? && MeansDefined(pt) ==> r.msg == TYPE_ERROR
      ensures r.Err? && LeavesWeighted(old(weights), pt) ==> r.msg == ZERO_DIVISION_ERROR
      decreases pt, 1
    {
      match pt
      case Leaf(_, _, _) =>
        return Ok(());
      case Op(op, _, cs) =>
        OpInferable(weights, pt);
        var rc := InferChildren(cs);
        if rc.Err? {
          return Err(rc.msg);
        }
        ChildEntries(old(weights), weights, cs);
        if !ChildrenWeighted(weights, cs) {
          return Err(TYPE_ERROR);
        }
        if op != Xor && |cs| == 0 {
          return Err(ZERO_DIVISION_ERROR);
        }
        weights := weights[pt := OpWeight(op, ChildWeights(weights, cs))];
        return Ok(());
    }

    /** The loop of infer_operator_weights over the children of an operator node. A leaf child
        without a weight is let through here: its parent's sum fails on it. */
    method InferChildren(cs: seq<Tree>) returns (r: Result<()>)
      modifies this
      ensures r.Ok? <==> forall i :: 0 <= i < |cs| ==> Inferable(old(weights), cs[i])
      ensures r.Ok? ==> SameLeafEntries(weights, old(weights))
      ensures r.Ok? ==> forall i :: 0 <= i < |cs| && cs[i].Op? ==> cs[i] in weights
      ensures r.Ok? && ChildrenReady(old(weights), cs) ==> weights == InferredChildren(old(weights), cs)
      ensures r.Err? ==> r.msg == TYPE_ERROR || r.msg == ZERO_DIVISION_ERROR
      ensures r.Err? && (forall i :: 0 <= i < |cs| ==> MeansDefined(cs[i])) ==> r.msg == TYPE_ERROR
      ensures r.Err? && (forall i :: 0 <= i < |cs| ==> LeavesWeighted(old(weights), cs[i])) ==> r.msg == ZERO_DIVISION_ERROR
      decreases cs, 0
    {
      for i := 0 to |cs|
        invariant forall j :: 0 <= j < i ==> Inferable(old(weights), cs[j])
        invariant SameLeafEntries(weights, old(weights))
        invariant forall j :: 0 <= j < i && cs[j].Op? ==> cs[j] in weights
        invariant ChildrenReady(old(weights), cs[..i]) ==> weights == InferredChildren(old(weights), cs[..i])
      {
        ghost var before := weights;
        LeavesWeightedSame(old(weights), weights, cs[i]);
        var rc := InferOperatorWeights(cs[i]);
        if rc.Err? {
          return rc;
        }
        if cs[i].Op? {
          InferredEntries(before, cs[i]);
        }
        if ChildrenReady(old(weights), cs[..i + 1]) {
          assert ChildrenReady(old(weights), cs[..i]) by {
            assert forall j :: 0 <= j < i ==> cs[..i][j] == cs[..i + 1][j];
          }
          InferredChildrenStep(old(weights), cs, i, before);
        }
      }
      assert cs[..|cs|] == cs;
      return Ok(());
    }

    /** transfer_pt_weights: the leaf weights from the net, then the operator weights. */
    method TransferPtWeights(pt: Tree, net: Slpn.StochasticLabelledPetriNet) returns (r: Result<()>)
      modifies this
      ensures r.Ok? <==> Inferable(ActivityWeights(old(weights), Leaves(pt), net.transitions), pt)
      ensures r.Ok? && pt.Op? ==> weights == Inferred(ActivityWeights(old(weights), Leaves(pt), net.transitions), pt)
      ensures pt.Leaf? ==> weights == ActivityWeights(old(weights), Leaves(pt), net.transitions)
      ensures r.Err? ==> r.msg == TYPE_ERROR || r.msg == ZERO_DIVISION_ERROR
    {
      UpdateActivityWeights(pt, net);
      r := InferOperatorWeights(pt);
    }
  }

  // ---------------------------------------------------------------------------------------
  // coverage_mass

  /** Every lookup of coverage_mass finds its key: a skip probability for every leaf. */
  predicate CoverageKnown(pt: Tree, skipProbs: map<Tree, real>)
    decreases pt
  {
    match pt
    case Leaf(_, _, _) => pt in skipProbs
    case Op(_, _, cs) => forall i :: 0 <= i < |cs| ==> CoverageKnown(cs[i], skipProbs)
  }

  /** Every child has a weight. */
  predicate ChildrenWeighted(w: Weights, cs: seq<Tree>) {
    forall i :: 0 <= i < |cs| ==> cs[i] in w
  }

  /** coverage_mass: 1 minus the skip probability for a leaf; for a choice the children's
      coverage weighted by their share of the total weight; for the other operators the mean
      of the children's coverage. The total weight is summed first, for every operator, so a
      child with the weight None raises a TypeError. A choice divides child by child, so with
      total weight 0 it divides by zero right after its first child's coverage; an empty And,
      Sequence or Loop divides by zero after summing nothing. */
  function Coverage(pt: Tree, w: Weights, skipProbs: map<Tree, real>): Result<real>
    requires CoverageKnown(pt, skipProbs)
    decreases pt, 1
  {
    match pt
    case Leaf(_, _, _) => Ok(1.0 - skipProbs[pt])
    case Op(op, _, cs) =>
      if !ChildrenWeighted(w, cs) then Err(TYPE_ERROR)
      else
        var total := Probabilities.SeqSum(ChildWeights(w, cs));
        if op == Xor && cs != [] && total == 0.0 then
          var first :- Coverage(cs[0], w, skipProbs);
          Err(ZERO_DIVISION_ERROR)
        else
          var covs :- Coverages(cs, w, skipProbs);
          if op == Xor then Ok(Probabilities.SeqSum(Shares(covs, ChildWeights(w, cs), total)))
          else if cs == [] then Err(ZERO_DIVISION_ERROR)
          else Ok(Probabilities.SeqSum(covs) / |cs| as real)
  }

  /** The children's coverages weighted by their share of the total weight. */
  function Shares(covs: seq<real>, ws: seq<real>, total: real): (r: seq<real>)
    requires |covs| == |ws| && (ws != [] ==> total != 0.0)
    ensures |r| == |ws|
  {
    seq(|ws|, i requires 0 <= i < |ws| => covs[i] * ws[i] / total)
  }

  /** The coverage of each child, in order; the first failure ends it. */
  function Coverages(cs: seq<Tree>, w: Weights, skipProbs: map<Tree, real>): (r: Result<seq<real>>)
    requires forall i :: 0 <= i < |cs| ==> CoverageKnown(cs[i], skipProbs)
    ensures r.Ok? ==> |r.value| == |cs|
    decreases cs, 0
  {
    if cs == [] then Ok([])
    else
      var c :- Coverage(cs[0], w, skipProbs);
      var rest :- Coverages(cs[1..], w, skipProbs);
      Ok([c] + rest)
  }

  /** The coverages of the children are theirs, and they fail exactly when one of them fails. */
  lemma {:induction false} CoveragesSpec(cs: seq<Tree>, w: Weights, skipProbs: map<Tree, real>)
    requires forall i :: 0 <= i < |cs| ==> CoverageKnown(cs[i], skipProbs)
    ensures Coverages(cs, w, skipProbs).Ok? <==> forall i :: 0 <= i < |cs| ==> Coverage(cs[i], w, skipProbs).Ok?
    ensures Coverages(cs, w, skipProbs).Ok? ==>
      forall i :: 0 <= i < |cs| ==> Coverage(cs[i], w, skipProbs) == Ok(Coverages(cs, w, skipProbs).value[i])
  {
    if cs != [] {
      CoveragesSpec(cs[1..], w, skipProbs);
      assert forall i :: 0 < i < |cs| ==> cs[i] == cs[1..][i - 1];
    }
  }

  /** Every child of every operator node of the tree has a weight. */
  predicate Weighted(pt: Tree, w: Weights)
    decreases pt
  {
    match pt
    case Leaf(_, _, _) => true
    case Op(_, _, cs) => ChildrenWeighted(w, cs) && forall i :: 0 <= i < |cs| ==> Weighted(cs[i], w)
  }

  /** Where coverage_mass neither adds None nor divides by zero: every child has a weight,
      every choice with children has a total weight other than 0, and every other operator has
      children. */
  predicate CoverageDefined(pt: Tree, w: Weights, skipProbs: map<Tree, real>)
    requires CoverageKnown(pt, skipProbs)
    decreases pt
  {
    match pt
    case Leaf(_, _, _) => true
    case Op(op, _, cs) =>
      && ChildrenWeighted(w, cs)
      && (op == Xor ==> cs == [] || Probabilities.SeqSum(ChildWeights(w, cs)) != 0.0)
      && (op != Xor ==> cs != [])
      && forall i :: 0 <= i < |cs| ==> CoverageDefined(cs[i], w, skipProbs)
  }

  /** coverage_mass fails exactly where it would add None or divide by zero, and on a tree
      whose children all have weights only by dividing by zero. */
  lemma {:induction false} CoverageFails(pt: Tree, w: Weights, skipProbs: map<Tree, real>)
    requires CoverageKnown(pt, skipProbs)
    ensures Coverage(pt, w, skipProbs).Ok? <==> CoverageDefined(pt, w, skipProbs)
    ensures Coverage(pt, w, skipProbs).Err? ==>
      Coverage(pt, w, skipProbs).msg == TYPE_ERROR || Coverage(pt, w, skipProbs).msg == ZERO_DIVISION_ERROR
    ensures Coverage(pt, w, skipProbs).Err? && Weighted(pt, w) ==> Coverage(pt, w, skipProbs).msg == ZERO_DIVISION_ERROR
    decreases pt
  {
    match pt
    case Leaf(_, _, _) =>
    case Op(op, _, cs) =>
      forall i | 0 <= i < |cs|
        ensures Coverage(cs[i], w, skipProbs).Ok? <==> CoverageDefined(cs[i], w, skipProbs)
        ensures Coverage(cs[i], w, skipProbs).Err? ==>
          Coverage(cs[i], w, skipProbs).msg == TYPE_ERROR || Coverage(cs[i], w, skipProbs).msg == ZERO_DIVISION_ERROR
        ensures Coverage(cs[i], w, skipProbs).Err? && Weighted(cs[i], w) ==> Coverage(cs[i], w, skipProbs).msg == ZERO_DIVISION_ERROR
      {
        CoverageFails(cs[i], w, skipProbs);
      }
      CoveragesSpec(cs, w, skipProbs);
      CoveragesErr(cs, w, skipProbs);
  }

  /** A choice with children of total weight 0 fails, and once its first child's coverage
      succeeds it fails by dividing by zero, whatever its later children are. */
  lemma {:induction false} ZeroTotalChoice(pt: Tree, w: Weights, skipProbs: map<Tree, real>)
    requires CoverageKnown(pt, skipProbs)
    requires pt.Op? && pt.op == Xor && pt.children != [] && ChildrenWeighted(w, pt.children)
    requires Probabilities.SeqSum(ChildWeights(w, pt.children)) == 0.0
    ensures Coverage(pt, w, skipProbs).Err?
    ensures Coverage(pt.children[0], w, skipProbs).Ok? ==> Coverage(pt, w, skipProbs).msg == ZERO_DIVISION_ERROR
    ensures Coverage(pt.children[0], w, skipProbs).Err? ==> Coverage(pt, w, skipProbs) == Coverage(pt.children[0], w, skipProbs)
  {
  }

  /** When every node of the tree has a weight, as after a successful infer_operator_weights,
      every child has one. */
  lemma {:induction false} NodesWeighted(pt: Tree, w: Weights)
    requires Nodes(pt) <= w.Keys
    ensures Weighted(pt, w)
    decreases pt
  {
    match pt
    case Leaf(_, _, _) =>
    case Op(_, _, cs) =>
      OpNodes(pt);
      SubtreeNodesMember(cs);
      forall i | 0 <= i < |cs|
        ensures cs[i] in w && Weighted(cs[i], w)
      {
        assert cs[i] in Nodes(cs[i]) && Nodes(cs[i]) <= Nodes(pt);
        NodesWeighted(cs[i], w);
      }
  }

  /** After infer_operator_weights succeeds on an operator node, coverage_mass of that tree
      cannot meet a child without a weight. */
  lemma {:induction false} InferredWeighted(w: Weights, pt: Tree)
    requires LeavesWeighted(w, pt) && MeansDefined(pt)
    ensures Weighted(pt, Inferred(w, pt))
  {
    NodesWeighted(pt, Inferred(w, pt));
  }

  /** A failure of the children's coverages is one of theirs. */
  lemma {:induction false} CoveragesErr(cs: seq<Tree>, w: Weights, skipProbs: map<Tree, real>)
    requires forall i :: 0 <= i < |cs| ==> CoverageKnown(cs[i], skipProbs)
    ensures Coverages(cs, w, skipProbs).Err? ==>
      exists i :: 0 <= i < |cs| && Coverage(cs[i], w, skipProbs) == Err(Coverages(cs, w, skipProbs).msg)
  {
    if cs != [] && Coverage(cs[0], w, skipProbs).Ok? {
      CoveragesErr(cs[1..], w, skipProbs);
      if Coverages(cs, w, skipProbs).Err? {
        var i :| 0 <= i < |cs[1..]| && Coverage(cs[1..][i], w, skipProbs) == Err(Coverages(cs[1..], w, skipProbs).msg);
        assert cs[1..][i] == cs[i + 1];
      }
    }
  }

  /** Every skip probability of a leaf lies in [0, 1] and every weight of a child is not
      negative. */
  predicate Probabilistic(pt: Tree, w: Weights, skipProbs: map<Tree, real>)
    requires CoverageKnown(pt, skipProbs)
    decreases pt
  {
    match pt
    case Leaf(_, _, _) => 0.0 <= skipProbs[pt] <= 1.0
    case Op(_, _, cs) => forall i :: 0 <= i < |cs| ==> (cs[i] in w ==> w[cs[i]] >= 0.0) && Probabilistic(cs[i], w, skipProbs)
  }

  /** With probabilities as skip probabilities and non-negative weights, the coverage mass of
      a tree lies in [0, 1]. */
  lemma {:induction false} CoverageBounds(pt: Tree, w: Weights, skipProbs: map<Tree, real>)
    requires CoverageKnown(pt, skipProbs) && Probabilistic(pt, w, skipProbs)
    ensures Coverage(pt, w, skipProbs).Ok? ==> 0.0 <= Coverage(pt, w, skipProbs).value <= 1.0
    decreases pt
  {
    match pt
    case Leaf(_, _, _) =>
    case Op(op, _, cs) =>
      forall i | 0 <= i < |cs|
        ensures Coverage(cs[i], w, skipProbs).Ok? ==> 0.0 <= Coverage(cs[i], w, skipProbs).value <= 1.0
      {
        CoverageBounds(cs[i], w, skipProbs);
      }
      CoveragesSpec(cs, w, skipProbs);
      if Coverage(pt, w, skipProbs).Ok? {
        var covs := Coverages(cs, w, skipProbs).value;
        assert forall i :: 0 <= i < |covs| ==> 0.0 <= covs[i] <= 1.0 by {
          forall i | 0 <= i < |covs|
            ensures 0.0 <= covs[i] <= 1.0
          {
            assert Coverage(cs[i], w, skipProbs) == Ok(covs[i]);
          }
        }
        if op == Xor {
          SharesBounds(covs, ChildWeights(w, cs));
        } else {
          MeanBounds(covs);
        }
      }
  }

  /** Coverages in [0, 1] weighted by non-negative weights of a positive total sum to a
      value in [0, 1]. */
  lemma {:induction false} SharesBounds(covs: seq<real>, ws: seq<real>)
    requires |covs| == |ws| && (ws != [] ==> Probabilities.SeqSum(ws) != 0.0)
    requires forall i :: 0 <= i < |covs| ==> 0.0 <= covs[i] <= 1.0 && ws[i] >= 0.0
    ensures 0.0 <= Probabilities.SeqSum(Shares(covs, ws, Probabilities.SeqSum(ws))) <= 1.0
  {
    var total := Probabilities.SeqSum(ws);
    var sh := Shares(covs, ws, total);
    if ws != [] {
      Probabilities.SeqSumNonnegative(ws);
      var ds := Probabilities.Divided(ws, total);
      SharesBelow(covs, ws, total);
      SeqSumMono(sh, ds);
      Probabilities.SeqSumDivided(ws, total);
      Probabilities.SelfRatio(total);
    }
    Probabilities.SeqSumNonnegative(sh);
  }

  /** Each share lies between 0 and the child's part of the total weight. */
  lemma {:induction false} SharesBelow(covs: seq<real>, ws: seq<real>, total: real)
    requires |covs| == |ws| && total > 0.0
    requires forall i :: 0 <= i < |covs| ==> 0.0 <= covs[i] <= 1.0 && ws[i] >= 0.0
    ensures forall i :: 0 <= i < |ws| ==>
      0.0 <= Shares(covs, ws, total)[i] <= Probabilities.Divided(ws, total)[i]
  {
    var sh := Shares(covs, ws, total);
    forall i | 0 <= i < |ws|
      ensures 0.0 <= sh[i] <= ws[i] / total
    {
      ShareBound(covs[i], ws[i], total, covs[i] * ws[i], sh[i]);
    }
  }

  lemma {:induction false} ShareBound(c: real, x: real, total: real, p: real, q: real)
    requires 0.0 <= c <= 1.0 && x >= 0.0 && total > 0.0 && p == c * x && q == p / total
    ensures 0.0 <= q <= x / total
  {
    MulNonnegative(c, x, p);
    MulNonnegative(1.0 - c, x, x - p);
    QuotientNonnegative(p, total, q);
    QuotientNonnegative(x - p, total, x / total - q);
  }

  lemma {:induction false} MulNonnegative(x: real, y: real, z: real)
    requires x >= 0.0 && y >= 0.0 && z == x * y
    ensures z >= 0.0
  {
  }

  lemma {:induction false} QuotientNonnegative(p: real, t: real, q: real)
    requires p >= 0.0 && t > 0.0 && q == p / t
    ensures q >= 0.0
  {
  }

  /** The mean of values in [0, 1] lies in [0, 1]. */
  lemma {:induction false} MeanBounds(xs: seq<real>)
    requires |xs| > 0 && forall i :: 0 <= i < |xs| ==> 0.0 <= xs[i] <= 1.0
    ensures 0.0 <= Probabilities.SeqSum(xs) / |xs| as real <= 1.0
  {
    SeqSumAtMost(xs);
    Probabilities.SeqSumNonnegative(xs);
    Probabilities.UnitRatio(Probabilities.SeqSum(xs), |xs| as real);
  }

  lemma {:induction false} SeqSumAtMost(xs: seq<real>)
    requires forall i :: 0 <= i < |xs| ==> xs[i] <= 1.0
    ensures Probabilities.SeqSum(xs) <= |xs| as real
  {
    if xs != [] {
      SeqSumAtMost(xs[1..]);
    }
  }

  lemma {:induction false} SeqSumMono(xs: seq<real>, ys: seq<real>)
    requires |xs| == |ys| && forall i :: 0 <= i < |xs| ==> xs[i] <= ys[i]
    ensures Probabilities.SeqSum(xs) <= Probabilities.SeqSum(ys)
  {
    if xs != [] {
      SeqSumMono(xs[1..], ys[1..]);
    }
  }

  // ---------------------------------------------------------------------------------------
  // The tree of the unit tests: a sequence of activity 1 and a choice between 2 and 3

  const A: Tree := Leaf("1", "a", false)
  const B: Tree := Leaf("2", "b", false)
  const C: Tree := Leaf("3", "c", false)
  const Choice: Tree := Op(Xor, "4", [B, C])
  const Root: Tree := Op(Sequence, "5", [A, Choice])
  const TestTransitions: seq<Slpn.Transition> :=
    [Slpn.Transition("1", Some(3.0)), Slpn.Transition("2", Some(2.0)), Slpn.Transition("3", Some(1.0))]

  /** The leaves take the weights 3, 2 and 1 of the transitions labelled with their ids. */
  lemma {:induction false} UpdateActivityWeightsExample()
    ensures ActivityWeights(map[], Leaves(Root), TestTransitions) == map[A := 3.0, B := 2.0, C := 1.0]
  {
    assert [B, C][1..] == [C] && [A, Choice][1..] == [Choice] && [C][1..] == [] && [Choice][1..] == [];
    assert Leaves(B) == [B] && Leaves(C) == [C] && Leaves(A) == [A];
    assert LeavesOf([C]) == [C];
    assert LeavesOf([B, C]) == [B, C];
    assert Leaves(Choice) == [B, C];
    assert LeavesOf([Choice]) == [B, C];
    assert LeavesOf([A, Choice]) == [A, B, C];
    assert Leaves(Root) == [A, B, C];
    var ts := TestTransitions;
    assert ts[..2] == [ts[0], ts[1]] && ts[..2][..1] == [ts[0]];
    assert LastMatch(ts, "3") == Some(Some(1.0));
    assert LastMatch(ts[..2], "2") == Some(Some(2.0));
    assert LastMatch(ts, "2") == Some(Some(2.0));
    assert LastMatch(ts[..2][..1], "1") == Some(Some(3.0));
    assert LastMatch(ts[..2], "1") == Some(Some(3.0));
    assert LastMatch(ts, "1") == Some(Some(3.0));
    var leaves := [A, B, C];
    assert leaves[..2] == [A, B] && leaves[..2][..1] == [A] && [A][..0] == [];
    assert A.id == "1" && B.id == "2" && C.id == "3";
    assert ActivityWeights(map[], [], ts) == map[];
    var w1 := ActivityWeights(map[], [A], ts);
    assert w1 == Matched(map[], A, ts) == map[A := 3.0];
    var w2 := ActivityWeights(map[], [A, B], ts);
    assert w2 == Matched(w1, B, ts) == map[A := 3.0, B := 2.0];
    assert ActivityWeights(map[], leaves, ts) == Matched(w2, C, ts);
  }

  /** The test tree in pre-order. */
  lemma {:induction false} RootPreOrder()
    ensures PreOrder(Choice) == [Choice, B, C]
    ensures PreOrder(Root) == [Root, A, Choice, B, C]
  {
    assert [B, C][1..] == [C] && [A, Choice][1..] == [Choice] && [C][1..] == [] && [Choice][1..] == [];
    assert PreOrder(B) == [B] && PreOrder(C) == [C] && PreOrder(A) == [A];
    assert PreOrderOf([C]) == [C];
    assert PreOrderOf([B, C]) == [B, C];
    assert PreOrderOf([Choice]) == [Choice, B, C];
    assert PreOrderOf([A, Choice]) == [A, Choice, B, C];
  }

  /** The nodes of the test tree. */
  lemma {:induction false} RootNodes()
    ensures Nodes(Root) == {Root, A, Choice, B, C} && Nodes(Choice) == {Choice, B, C}
    ensures LeafSet(Root) == {A, B, C}
  {
    RootPreOrder();
    var ns := [Root, A, Choice, B, C];
    assert forall n :: n in ns <==> n == Root || n == A || n == Choice || n == B || n == C;
    assert Nodes(Root) == {Root, A, Choice, B, C};
    assert LeafSet(Root) == {A, B, C};
  }

  /** The choice should weigh 2 + 1 and the sequence the mean of 3 and 3. */
  lemma {:induction false} TreeWeightExample()
    ensures LeavesWeighted(map[A := 3.0, B := 2.0, C := 1.0], Root) && MeansDefined(Root)
    ensures LeavesWeighted(map[A := 3.0, B := 2.0, C := 1.0], Choice) && MeansDefined(Choice)
    ensures TreeWeight(map[A := 3.0, B := 2.0, C := 1.0], Choice) == 3.0
    ensures TreeWeight(map[A := 3.0, B := 2.0, C := 1.0], Root) == 3.0
  {
    var w := map[A := 3.0, B := 2.0, C := 1.0];
    RootNodes();
    assert MeansDefined(Choice);
    Subtree(Root, Choice);
    LeafNodes(B);
    LeafNodes(C);
    LeafNodes(A);
    assert TreeWeight(w, B) == 2.0 && TreeWeight(w, C) == 1.0 && TreeWeight(w, A) == 3.0;
    assert seq(2, i requires 0 <= i < 2 => TreeWeight(w, [B, C][i])) == [2.0, 1.0];
    assert Probabilities.SeqSum([2.0, 1.0]) == 3.0 by {
      assert [2.0, 1.0][1..] == [1.0] && [1.0][1..] == [];
    }
    assert TreeWeight(w, Choice) == 3.0;
    assert seq(2, i requires 0 <= i < 2 => TreeWeight(w, [A, Choice][i])) == [3.0, 3.0];
    assert Probabilities.SeqSum([3.0, 3.0]) == 6.0 by {
      assert [3.0, 3.0][1..] == [3.0] && [3.0][1..] == [];
    }
  }

  /** infer_operator_weights on the test tree: the choice weighs 3 and the sequence 3. */
  lemma {:induction false} InferOperatorWeightsExample()
    ensures LeavesWeighted(map[A := 3.0, B := 2.0, C := 1.0], Root) && MeansDefined(Root)
    ensures Inferred(map[A := 3.0, B := 2.0, C := 1.0], Root) == map[A := 3.0, B := 2.0, C := 1.0, Choice := 3.0, Root := 3.0]
  {
    var w := map[A := 3.0, B := 2.0, C := 1.0];
    RootNodes();
    TreeWeightExample();
    InferredSpec(w, Root);
    var r := Inferred(w, Root);
    assert r.Keys == {A, B, C, Choice, Root};
    assert r[A] == 3.0 && r[B] == 2.0 && r[C] == 1.0 && r[Choice] == 3.0 && r[Root] == 3.0;
  }

  /** The weights and skip probabilities of the coverage test. */
  const TestWeights: Weights := map[A := 3.0, B := 2.0, C := 1.0, Choice := 3.0, Root := 3.0]
  const TestSkipProbs: map<Tree, real> := map[A := 0.1, B := 0.9, C := 0.0, Choice := 0.1, Root := 0.2]

  /** The coverage of the choice is 0.1 * 2/3 + 1 * 1/3. */
  lemma {:induction false} ChoiceCoverageExample()
    ensures Coverage(Choice, TestWeights, TestSkipProbs) == Ok(0.4)
  {
    var w, skipProbs := TestWeights, TestSkipProbs;
    assert [B, C][1..] == [C] && [C][1..] == [];
    assert Coverage(B, w, skipProbs) == Ok(0.1) && Coverage(C, w, skipProbs) == Ok(1.0);
    assert Coverages([], w, skipProbs) == Ok([]);
    var r1 := Coverages([C], w, skipProbs);
    assert r1.Ok? && r1.value == [1.0];
    var r2 := Coverages([B, C], w, skipProbs);
    assert r2.Ok? && r2.value == [0.1, 1.0];
    assert ChildWeights(w, [B, C]) == [2.0, 1.0];
    assert Probabilities.SeqSum([2.0, 1.0]) == 3.0 by {
      assert [2.0, 1.0][1..] == [1.0] && [1.0][1..] == [];
    }
    var sh := Shares([0.1, 1.0], [2.0, 1.0], 3.0);
    assert sh == [0.1 * 2.0 / 3.0, 1.0 * 1.0 / 3.0];
    assert Probabilities.SeqSum(sh) == 0.4 by {
      assert sh[1..] == [1.0 * 1.0 / 3.0] && sh[1..][1..] == [];
    }
  }

  /** The coverage of activity 1 is 1 - 0.1, and that of the sequence the mean of 0.9 and the
      choice's 0.4. */
  lemma {:induction false} CoverageMassExample()
    ensures Coverage(A, TestWeights, TestSkipProbs) == Ok(0.9)
    ensures Coverage(Root, TestWeights, TestSkipProbs) == Ok(0.65)
  {
    var w, skipProbs := TestWeights, TestSkipProbs;
    ChoiceCoverageExample();
    assert [A, Choice][1..] == [Choice] && [Choice][1..] == [];
    assert Coverage(A, w, skipProbs) == Ok(0.9);
    assert Coverages([], w, skipProbs) == Ok([]);
    var r1 := Coverages([Choice], w, skipProbs);
    assert r1.Ok? && r1.value == [0.4];
    var r2 := Coverages([A, Choice], w, skipProbs);
    assert r2.Ok? && r2.value == [0.9, 0.4];
    assert Probabilities.SeqSum([0.9, 0.4]) == 1.3 by {
      assert [0.9, 0.4][1..] == [0.4] && [0.4][1..] == [];
    }
  }

  /** A choice of total weight 0 between activity 1 and a sequence over activity 2, where
      activity 2 has no weight: the division by zero after the first child comes before the
      sequence would meet the missing weight. */
  lemma {:induction false} ZeroTotalChoiceExample()
    ensures var s := Op(Sequence, "7", [B]);
      Coverage(Op(Xor, "6", [A, s]), map[A := 0.0, s := 0.0], map[A := 0.1, B := 0.1]) == Err(ZERO_DIVISION_ERROR)
  {
    var s := Op(Sequence, "7", [B]);
    var x, w := Op(Xor, "6", [A, s]), map[A := 0.0, s := 0.0];
    assert ChildWeights(w, [A, s]) == [0.0, 0.0];
    assert Probabilities.SeqSum([0.0, 0.0]) == 0.0 by {
      assert [0.0, 0.0][1..] == [0.0] && [0.0][1..] == [];
    }
    ZeroTotalChoice(x, w, map[A := 0.1, B := 0.1]);
  }
}
