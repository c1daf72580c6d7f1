/** The Skipper of skips.py: resolving node references by id, and counting how often each
    node of the tree is skipped or executed in a skip alignment. */
module Skips {
  import opened Wrappers
  import opened ProcessTree
  import opened Alignment

  const ASSERTION_ERROR: string := "AssertionError"
  const INDEX_ERROR: string := "IndexError"

  // ---------------------------------------------------------------------------------------
  // get_tree_node_by_id and fix_tree_references

  /** get_tree_node_by_id: the node itself when its id matches, else the first hit among the
      children in order. */
  function GetTreeNodeById(t: Tree, id: string): Option<Tree>
    decreases t, 1
  {
    if t.id == id then Some(t)
    else match t
      case Leaf(_, _, _) => None
      case Op(_, _, cs) => FirstInChildren(cs, id)
  }

  function FirstInChildren(cs: seq<Tree>, id: string): Option<Tree>
    decreases cs, 0
  {
    if cs == [] then None
    else match GetTreeNodeById(cs[0], id)
      case Some(n) => Some(n)
      case None => FirstInChildren(cs[1..], id)
  }

  /** The reference reading: the first node of a list with the id. */
  function FirstWithId(ns: seq<Tree>, id: string): Option<Tree> {
    if ns == [] then None else if ns[0].id == id then Some(ns[0]) else FirstWithId(ns[1..], id)
  }

  lemma {:induction false} FirstWithIdAppend(a: seq<Tree>, b: seq<Tree>, id: string)
    ensures FirstWithId(a + b, id) == if FirstWithId(a, id).Some? then FirstWithId(a, id) else FirstWithId(b, id)
  {
    if a == [] {
      assert a + b == b;
    } else {
      assert (a + b)[0] == a[0] && (a + b)[1..] == a[1..] + b;
      FirstWithIdAppend(a[1..], b, id);
    }
  }

  /** What the first hit in a list with the id means: a member with the id, preceded by none. */
  lemma {:induction false} FirstWithIdSpec(ns: seq<Tree>, id: string)
    ensures FirstWithId(ns, id).None? <==> forall k :: 0 <= k < |ns| ==> ns[k].id != id
    ensures FirstWithId(ns, id).Some? ==>
      exists k :: 0 <= k < |ns| && ns[k] == FirstWithId(ns, id).value && ns[k].id == id &&
        forall j :: 0 <= j < k ==> ns[j].id != id
  {
    if ns != [] && ns[0].id != id {
      FirstWithIdSpec(ns[1..], id);
      if FirstWithId(ns[1..], id).Some? {
        var k :| 0 <= k < |ns[1..]| && ns[1..][k] == FirstWithId(ns[1..], id).value && ns[1..][k].id == id &&
          forall j :: 0 <= j < k ==> ns[1..][j].id != id;
        assert ns[k + 1] == ns[1..][k];
        forall j | 0 <= j < k + 1
          ensures ns[j].id != id
        {
          if j > 0 {
            assert ns[j] == ns[1..][j - 1];
          }
        }
      } else {
        forall k | 0 <= k < |ns|
          ensures ns[k].id != id
        {
          if k > 0 {
            assert ns[k] == ns[1..][k - 1];
          }
        }
      }
    }
  }

  /** get_tree_node_by_id finds the first node in pre-order with the id. */
  lemma {:induction false} GetTreeNodeByIdIsPreOrder(t: Tree, id: string)
    ensures GetTreeNodeById(t, id) == FirstWithId(PreOrder(t), id)
    decreases t, 1
  {
    match t
    case Leaf(_, _, _) =>
    case Op(_, _, cs) =>
      assert PreOrder(t) == [t] + PreOrderOf(cs);
      assert ([t] + PreOrderOf(cs))[1..] == PreOrderOf(cs);
      FirstInChildrenIsPreOrder(cs, id);
  }

  lemma {:induction false} FirstInChildrenIsPreOrder(cs: seq<Tree>, id: string)
    ensures FirstInChildren(cs, id) == FirstWithId(PreOrderOf(cs), id)
    decreases cs, 0
  {
    if cs != [] {
      GetTreeNodeByIdIsPreOrder(cs[0], id);
      FirstInChildrenIsPreOrder(cs[1..], id);
      FirstWithIdAppend(PreOrder(cs[0]), PreOrderOf(cs[1..]), id);
    }
  }

  /** So get_tree_node_by_id finds nothing iff no node has the id, and otherwise a node
      with the id that no earlier node in pre-order shares. */
  lemma {:induction false} GetTreeNodeByIdSpec(t: Tree, id: string)
    ensures GetTreeNodeById(t, id).None? <==> id !in Ids(t)
    ensures GetTreeNodeById(t, id).Some? ==>
      var n := GetTreeNodeById(t, id).value;
      n.id == id && n in Nodes(t) &&
      exists k :: 0 <= k < |PreOrder(t)| && PreOrder(t)[k] == n && forall j :: 0 <= j < k ==> PreOrder(t)[j].id != id
  {
    GetTreeNodeByIdIsPreOrder(t, id);
    FirstWithIdSpec(PreOrder(t), id);
    if id in Ids(t) {
      var n :| n in PreOrder(t) && n.id == id;
    }
  }

  /** Under unique ids a node is determined by its id. */
  lemma {:induction false} UniqueIdsOnly(t: Tree, a: Tree, b: Tree)
    requires UniqueIds(t) && a in Nodes(t) && b in Nodes(t) && a.id == b.id
    ensures a == b
    decreases t
  {
    match t
    case Leaf(_, _, _) =>
    case Op(_, _, cs) =>
      PreOrderOfMember(cs, a);
      PreOrderOfMember(cs, b);
      if a != t && b != t {
        var i :| 0 <= i < |cs| && a in PreOrder(cs[i]);
        var j :| 0 <= j < |cs| && b in PreOrder(cs[j]);
        NodeIdsInIds(cs[i]);
        NodeIdsInIds(cs[j]);
        if i == j {
          UniqueIdsOnly(cs[i], a, b);
        }
      }
  }

  /** Under unique ids, looking up the id of a node of the tree gives that node back. */
  lemma {:induction false} GetTreeNodeByIdOfNode(t: Tree, n: Tree)
    requires UniqueIds(t) && n in Nodes(t)
    ensures GetTreeNodeById(t, n.id) == Some(n)
  {
    NodeIdsInIds(t);
    GetTreeNodeByIdSpec(t, n.id);
    UniqueIdsOnly(t, GetTreeNodeById(t, n.id).value, n);
  }

  /** A node reference replaced by the tree's node with the same id. An id the tree does not
      know leaves the reference as it is, where the source stores None: UnresolvedOutsideTree
      shows that the kept reference, like None, is no node of the tree and is contained in
      none. */
  function Resolve(tree: Tree, n: Tree): Tree {
    GetTreeNodeById(tree, n.id).GetOr(n)
  }

  /** One step of fix_tree_references: a skip, tau path or leaf move gets the tree's node. */
  function FixMove(tree: Tree, m: ModelMove): ModelMove {
    match m
    case NoMove => NoMove
    case Skip(n, cost) => Skip(Resolve(tree, n), cost)
    case TauPath(n) => TauPath(Resolve(tree, n))
    case Move(n) => Move(Resolve(tree, n))
  }

  /** The fixed move is of the same kind with the same cost; its node has the old id and is a
      node of the tree whenever the tree knows that id; a move the tree does not know is kept,
      and so is one that already refers to a node of a tree with unique ids. */
  lemma {:induction false} FixMoveSpec(tree: Tree, m: ModelMove)
    ensures var r := FixMove(tree, m);
      && (m.NoMove? <==> r.NoMove?) && (m.Skip? <==> r.Skip?) && (m.TauPath? <==> r.TauPath?)
      && (m.Skip? ==> r.cost == m.cost)
      && (!m.NoMove? ==> r.node.id == m.node.id)
      && (!m.NoMove? && m.node.id in Ids(tree) ==> r.node in Nodes(tree))
      && (!m.NoMove? && m.node.id !in Ids(tree) ==> r == m)
      && (!m.NoMove? && UniqueIds(tree) && m.node in Nodes(tree) ==> r == m)
  {
    if !m.NoMove? {
      GetTreeNodeByIdSpec(tree, m.node.id);
      if UniqueIds(tree) && m.node in Nodes(tree) {
        GetTreeNodeByIdOfNode(tree, m.node);
      }
    }
  }

  /** A move whose id the tree does not know keeps its reference, and that reference equals no
      node of the tree and is contained in no node of the tree. */
  lemma {:induction false} UnresolvedOutsideTree(tree: Tree, m: ModelMove, n: Tree)
    requires !m.NoMove? && m.node.id !in Ids(tree) && n in Nodes(tree)
    ensures FixMove(tree, m) == m
    ensures FixMove(tree, m).node != n && !Contains(n, FixMove(tree, m).node)
  {
    FixMoveSpec(tree, m);
    NodeIdsInIds(tree);
    var x := m.node;
    PreOrderIsContains(tree, n);
    PreOrderIsContains(tree, x);
    if Contains(n, x) {
      ContainsTrans(tree, n, x);
    }
  }

  /** Fixing a move twice is fixing it once: the node found has the id looked up. */
  lemma {:induction false} FixMoveIdempotent(tree: Tree, m: ModelMove)
    ensures FixMove(tree, FixMove(tree, m)) == FixMove(tree, m)
  {
    if !m.NoMove? {
      GetTreeNodeByIdSpec(tree, m.node.id);
    }
  }

  /** The path with every step's model move fixed. */
  function FixPath(tree: Tree, path: seq<Step>): seq<Step> {
    seq(|path|, i requires 0 <= i < |path| => Step(path[i].log, FixMove(tree, path[i].model)))
  }

  /** Fixing keeps the log side and which steps are log moves, can be repeated without
      effect, and changes nothing when the path already refers to a tree with unique ids. */
  lemma {:induction false} FixPathSpec(tree: Tree, path: seq<Step>)
    ensures |FixPath(tree, path)| == |path|
    ensures LogLabels(FixPath(tree, path)) == LogLabels(path)
    ensures forall i :: 0 <= i < |path| ==>
      FixPath(tree, path)[i].log == path[i].log && (FixPath(tree, path)[i].model.NoMove? <==> path[i].model.NoMove?)
    ensures FixPath(tree, FixPath(tree, path)) == FixPath(tree, path)
    ensures UniqueIds(tree) && (forall i :: 0 <= i < |path| && !path[i].model.NoMove? ==> path[i].model.node in Nodes(tree)) ==>
      FixPath(tree, path) == path
  {
    var r := FixPath(tree, path);
    LogLabelsOfLogs(r, path);
    forall i | 0 <= i < |path|
      ensures FixPath(tree, r)[i] == r[i]
      ensures r[i].model.NoMove? <==> path[i].model.NoMove?
    {
      FixMoveIdempotent(tree, path[i].model);
      FixMoveSpec(tree, path[i].model);
    }
    if UniqueIds(tree) && (forall i :: 0 <= i < |path| && !path[i].model.NoMove? ==> path[i].model.node in Nodes(tree)) {
      forall i | 0 <= i < |path|
        ensures r[i] == path[i]
      {
        FixMoveSpec(tree, path[i].model);
      }
    }
  }

  /** fix_tree_references: every model move of the alignment is re-pointed into the tree. */
  method FixTreeReferences(tree: Tree, agn: State)
    modifies agn
    ensures agn.path == FixPath(tree, old(agn.path))
    ensures agn.executions == old(agn.executions) && agn.name == old(agn.name)
  {
    for i := 0 to |agn.path|
      invariant |agn.path| == |old(agn.path)|
      invariant forall j :: 0 <= j < i ==> agn.path[j] == Step(old(agn.path)[j].log, FixMove(tree, old(agn.path)[j].model))
      invariant forall j :: i <= j < |agn.path| ==> agn.path[j] == old(agn.path)[j]
      invariant agn.executions == old(agn.executions) && agn.name == old(agn.name)
    {
      var s := agn.path[i];
      match s.model
      case NoMove =>
      case Skip(n, cost) =>
        agn.path := agn.path[i := Step(s.log, Skip(Resolve(tree, n), cost))];
      case TauPath(n) =>
        agn.path := agn.path[i := Step(s.log, TauPath(Resolve(tree, n)))];
      case Move(n) =>
        agn.path := agn.path[i := Step(s.log, Move(Resolve(tree, n)))];
    }
  }

  /** fix_sagns: fix_tree_references on every alignment of the dictionary. A state listed
      twice is fixed twice, which is the same as once. */
  method FixSagns(tree: Tree, skipDict: SkipDict)
    modifies StatesOf(skipDict)
    ensures forall s :: s in StatesOf(skipDict) ==> s.path == FixPath(tree, old(s.path))
    ensures forall s :: s in StatesOf(skipDict) ==> s.executions == old(s.executions) && s.name == old(s.name)
  {
    for k := 0 to |skipDict|
      invariant forall s :: s in StatesOf(skipDict) ==> s.path == old(s.path) || s.path == FixPath(tree, old(s.path))
      invariant forall k', i :: 0 <= k' < k && 0 <= i < |skipDict[k'].1| ==>
        skipDict[k'].1[i].path == FixPath(tree, old(skipDict[k'].1[i].path))
      invariant forall s :: s in StatesOf(skipDict) ==> s.executions == old(s.executions) && s.name == old(s.name)
    {
      var agns := skipDict[k].1;
      for i := 0 to |agns|
        invariant forall s :: s in StatesOf(skipDict) ==> s.path == old(s.path) || s.path == FixPath(tree, old(s.path))
        invariant forall k', i' :: ((0 <= k' < k && 0 <= i' < |skipDict[k'].1|) || (k' == k && 0 <= i' < i)) ==>
          skipDict[k'].1[i'].path == FixPath(tree, old(skipDict[k'].1[i'].path))
        invariant forall s :: s in StatesOf(skipDict) ==> s.executions == old(s.executions) && s.name == old(s.name)
      {
        var agn := agns[i];
        assert agn in StatesOf(skipDict);
        FixPathSpec(tree, old(agn.path));
        FixTreeReferences(tree, agn);
      }
    }
  }

  // ---------------------------------------------------------------------------------------
  // count_skip_executions and count_non_skip_executions

  /** The moves of the trace that skip `tree` as a whole (a skip or a tau path on it). */
  function SkipsOf(trace: seq<ModelMove>, tree: Tree): seq<ModelMove> {
    if trace == [] then []
    else SkipsOf(trace[..|trace| - 1], tree) + (if SkipsHere(trace[|trace| - 1], tree) then [trace[|trace| - 1]] else [])
  }

  predicate SkipsHere(m: ModelMove, tree: Tree) {
    m.IsSkipLike() && m.node == tree
  }

  lemma {:induction false} SkipsOfSpec(trace: seq<ModelMove>, tree: Tree)
    ensures forall m :: m in SkipsOf(trace, tree) <==> m in trace && SkipsHere(m, tree)
    ensures |SkipsOf(trace, tree)| <= |trace|
  {
    if trace != [] {
      SkipsOfSpec(trace[..|trace| - 1], tree);
      assert trace == trace[..|trace| - 1] + [trace[|trace| - 1]];
    }
  }

  /** How often the path skips `tree`, times the number of executions. */
  function SkipCount(tree: Tree, path: seq<Step>, k: int): int {
    |SkipsOf(ModelTrace(path), tree)| * k
  }

  /** count_skip_executions, on the path of the state it is given. */
  method CountSkipExecutions(tree: Tree, path: seq<Step>, k: int) returns (r: int)
    ensures r == SkipCount(tree, path, k)
  {
    var trace := ModelTrace(path);
    var counts := 0;
    for i := 0 to |trace|
      invariant counts == |SkipsOf(trace[..i], tree)|
    {
      assert trace[..i + 1][..i] == trace[..i];
      if SkipsHere(trace[i], tree) {
        counts := counts + 1;
      }
    }
    assert trace[..|trace|] == trace;
    r := counts * k;
  }

  function Sum(xs: seq<int>): int {
    if xs == [] then 0 else xs[0] + Sum(xs[1..])
  }

  lemma {:induction false} SumNonnegative(xs: seq<int>)
    requires forall i :: 0 <= i < |xs| ==> xs[i] >= 0
    ensures Sum(xs) >= 0
  {
    if xs != [] {
      SumNonnegative(xs[1..]);
    }
  }

  /** How often the path executes `tree` without skipping it: for a leaf its own moves; for a
      sequence or parallel block the executions of its first child, which all children must
      share; for a choice the sum over its children; for a loop the do part's executions less
      the redo parts'. A child's executions count its skips too. */
  function NonSkipCount(tree: Tree, path: seq<Step>, k: int): Result<int>
    decreases tree, 1
  {
    match tree
    case Leaf(_, _, _) => Ok(multiset(ModelTrace(path))[Move(tree)] * k)
    case Op(op, _, cs) =>
      var ex :- ChildExecutions(cs, path, k);
      match op
      case Xor => Ok(Sum(ex))
      case Loop =>
        if |ex| == 0 then Err(INDEX_ERROR)
        else if ex[0] - Sum(ex[1..]) >= 0 then Ok(ex[0] - Sum(ex[1..]))
        else Err(ASSERTION_ERROR)
      case _ =>
        if |ex| == 0 then Err(INDEX_ERROR)
        else if forall i :: 0 <= i < |ex| ==> ex[i] == ex[0] then Ok(ex[0])
        else Err(ASSERTION_ERROR)
  }

  /** The executions of each child, in order; the first child that fails decides the error. */
  function ChildExecutions(cs: seq<Tree>, path: seq<Step>, k: int): (r: Result<seq<int>>)
    ensures r.Ok? ==> |r.value| == |cs|
    decreases cs, 0
  {
    if cs == [] then Ok([])
    else
      var init :- ChildExecutions(cs[..|cs| - 1], path, k);
      var n :- Executions(cs[|cs| - 1], path, k);
      Ok(init + [n])
  }

  /** Once a prefix of the children fails, all of them fail with the same error. */
  lemma {:induction false} ChildExecutionsFailFast(cs: seq<Tree>, j: nat, path: seq<Step>, k: int)
    requires j <= |cs| && ChildExecutions(cs[..j], path, k).Err?
    ensures ChildExecutions(cs, path, k) == ChildExecutions(cs[..j], path, k)
    decreases |cs|
  {
    if j < |cs| {
      var init := cs[..|cs| - 1];
      assert init[..j] == cs[..j];
      ChildExecutionsFailFast(init, j, path, k);
    } else {
      assert cs[..j] == cs;
    }
  }

  /** count_non_skip_executions, on the path of the state it is given. */
  method CountNonSkipExecutions(tree: Tree, path: seq<Step>, k: int) returns (r: Result<int>)
    ensures r == NonSkipCount(tree, path, k)
    decreases tree
  {
    match tree
    case Leaf(_, _, _) =>
      r := Ok(multiset(ModelTrace(path))[Move(tree)] * k);
    case Op(op, _, cs) =>
      var ex: seq<int> := [];
      for i := 0 to |cs|
        invariant ChildExecutions(cs[..i], path, k) == Ok(ex)
      {
        var skips := CountSkipExecutions(cs[i], path, k);
        var nonSkips := CountNonSkipExecutions(cs[i], path, k);
        ChildExecutionsNext(cs, i, path, k, ex);
        if nonSkips.Err? {
          ChildExecutionsFailFast(cs, i + 1, path, k);
          return Err(nonSkips.msg);
        }
        ex := ex + [skips + nonSkips.value];
      }
      assert cs[..|cs|] == cs;
      match op
      case Xor =>
        r := Ok(Sum(ex));
      case Loop =>
        if |ex| == 0 {
          r := Err(INDEX_ERROR);
        } else if ex[0] - Sum(ex[1..]) >= 0 {
          r := Ok(ex[0] - Sum(ex[1..]));
        } else {
          r := Err(ASSERTION_ERROR);
        }
      case _ =>
        if |ex| == 0 {
          r := Err(INDEX_ERROR);
        } else if forall i :: 0 <= i < |ex| ==> ex[i] == ex[0] {
          r := Ok(ex[0]);
        } else {
          r := Err(ASSERTION_ERROR);
        }
  }

  /** One more child: its executions are appended, or its failure is raised. */
  lemma {:induction false} ChildExecutionsNext(cs: seq<Tree>, i: nat, path: seq<Step>, k: int, ex: seq<int>)
    requires i < |cs| && ChildExecutions(cs[..i], path, k) == Ok(ex)
    ensures var x := Executions(cs[i], path, k);
      ChildExecutions(cs[..i + 1], path, k) == if x.Err? then Err(x.msg) else Ok(ex + [x.value])
  {
    assert cs[..i + 1][..i] == cs[..i] && cs[..i + 1][i] == cs[i];
  }

  /** A count that succeeds is never negative. */
  lemma {:induction false} NonSkipNonnegative(tree: Tree, path: seq<Step>, k: int)
    requires k >= 0
    ensures NonSkipCount(tree, path, k).Ok? ==> NonSkipCount(tree, path, k).value >= 0
    decreases tree, 1
  {
    match tree
    case Leaf(_, _, _) =>
    case Op(op, _, cs) =>
      ChildExecutionsNonnegative(cs, path, k);
      var ex := ChildExecutions(cs, path, k);
      if ex.Ok? {
        SumNonnegative(ex.value);
      }
  }

  lemma {:induction false} ChildExecutionsNonnegative(cs: seq<Tree>, path: seq<Step>, k: int)
    requires k >= 0
    ensures ChildExecutions(cs, path, k).Ok? ==>
      forall i :: 0 <= i < |cs| ==> ChildExecutions(cs, path, k).value[i] >= 0
    decreases cs, 0
  {
    if cs != [] {
      ChildExecutionsNonnegative(cs[..|cs| - 1], path, k);
      NonSkipNonnegative(cs[|cs| - 1], path, k);
      assert SkipCount(cs[|cs| - 1], path, k) >= 0;
    }
  }

  /** How often the path reaches `tree` at all: its skips plus its other executions. */
  function Executions(tree: Tree, path: seq<Step>, k: int): Result<int>
    decreases tree, 2
  {
    var n :- NonSkipCount(tree, path, k);
    Ok(SkipCount(tree, path, k) + n)
  }

  /** The child list of count_non_skip_executions fails exactly when one child's count
      fails; otherwise it holds, in child order, how often each child is reached. */
  lemma {:induction false} ChildExecutionsSpec(cs: seq<Tree>, path: seq<Step>, k: int)
    ensures ChildExecutions(cs, path, k).Ok? <==> forall i :: 0 <= i < |cs| ==> Executions(cs[i], path, k).Ok?
    ensures ChildExecutions(cs, path, k).Ok? ==>
      forall i :: 0 <= i < |cs| ==> Executions(cs[i], path, k) == Ok(ChildExecutions(cs, path, k).value[i])
    decreases |cs|
  {
    if cs != [] {
      var init := cs[..|cs| - 1];
      assert forall i :: 0 <= i < |init| ==> init[i] == cs[i];
      ChildExecutionsSpec(init, path, k);
      assert forall i :: 0 <= i < |cs| ==> i < |init| || cs[i] == cs[|cs| - 1];
    }
  }

  /** The lockstep rule of sequences and parallel blocks: the count succeeds exactly when
      there is a child and every child is reached equally often, and it is then that common
      number. */
  lemma {:induction false} Lockstep(tree: Tree, path: seq<Step>, k: int)
    requires tree.Op? && (tree.op == Sequence || tree.op == And)
    ensures NonSkipCount(tree, path, k).Ok? <==>
      && |tree.children| > 0
      && forall i :: 0 <= i < |tree.children| ==>
           Executions(tree.children[i], path, k).Ok? && Executions(tree.children[i], path, k) == Executions(tree.children[0], path, k)
    ensures NonSkipCount(tree, path, k).Ok? ==>
      forall i :: 0 <= i < |tree.children| ==> Executions(tree.children[i], path, k) == NonSkipCount(tree, path, k)
  {
    ChildExecutionsSpec(tree.children, path, k);
  }

  /** The choice rule: the count succeeds exactly when every child's count does, and is then
      the sum of how often each child is reached. */
  lemma {:induction false} ChoiceSum(tree: Tree, path: seq<Step>, k: int)
    requires tree.Op? && tree.op == Xor
    ensures NonSkipCount(tree, path, k).Ok? <==>
      forall i :: 0 <= i < |tree.children| ==> Executions(tree.children[i], path, k).Ok?
    ensures NonSkipCount(tree, path, k).Ok? ==>
      var ex := ChildExecutions(tree.children, path, k).value;
      NonSkipCount(tree, path, k).value == Sum(ex)
      && forall i :: 0 <= i < |tree.children| ==> Executions(tree.children[i], path, k) == Ok(ex[i])
  {
    ChildExecutionsSpec(tree.children, path, k);
  }

  /** The loop rule: the count succeeds exactly when the children's counts do (every
      child's, by ChildExecutionsSpec), the loop has a do part, and the do part is reached at least as often as all redo parts together;
      it is then the difference. */
  lemma {:induction false} LoopDifference(tree: Tree, path: seq<Step>, k: int)
    requires tree.Op? && tree.op == Loop
    ensures NonSkipCount(tree, path, k).Ok? <==>
      && ChildExecutions(tree.children, path, k).Ok?
      && |tree.children| > 0
      && ChildExecutions(tree.children, path, k).value[0] >= Sum(ChildExecutions(tree.children, path, k).value[1..])
    ensures NonSkipCount(tree, path, k).Ok? ==>
      var ex := ChildExecutions(tree.children, path, k).value;
      NonSkipCount(tree, path, k).value == ex[0] - Sum(ex[1..]) >= 0
      && forall i :: 0 <= i < |tree.children| ==> Executions(tree.children[i], path, k) == Ok(ex[i])
  {
    ChildExecutionsSpec(tree.children, path, k);
  }

  function Scaled(xs: seq<int>, k: int): (r: seq<int>)
    ensures |r| == |xs| && forall i :: 0 <= i < |xs| ==> r[i] == xs[i] * k
  {
    seq(|xs|, i requires 0 <= i < |xs| => xs[i] * k)
  }

  lemma {:induction false} SumScaled(xs: seq<int>, k: int)
    ensures Sum(Scaled(xs, k)) == Sum(xs) * k
  {
    if xs != [] {
      assert Scaled(xs, k)[1..] == Scaled(xs[1..], k);
      SumScaled(xs[1..], k);
      assert (xs[0] + Sum(xs[1..])) * k == xs[0] * k + Sum(xs[1..]) * k;
    }
  }

  lemma {:induction false} MulSign(x: int, k: int)
    requires k > 0
    ensures x * k >= 0 <==> x >= 0
  {
    if x < 0 {
      assert x * k <= -k;
    }
  }

  lemma {:induction false} MulCancel(x: int, y: int, k: int)
    requires k > 0
    ensures x * k == y * k <==> x == y
  {
    assert x * k - y * k == (x - y) * k;
    MulSign(x - y, k);
    MulSign(y - x, k);
  }

  lemma {:induction false} Distribute(a: int, b: int, k: int)
    ensures (a + b) * k == a * k + b * k
  {
  }

  lemma {:induction false} ScaledSnoc(xs: seq<int>, x: int, k: int)
    ensures Scaled(xs + [x], k) == Scaled(xs, k) + [x * k]
  {
  }

  /** The result of a count scaled by k: an error stays as it is. */
  function ScaleResult(r: Result<int>, k: int): Result<int> {
    match r
    case Ok(v) => Ok(v * k)
    case Err(m) => Err(m)
  }

  function ScaleAll(r: Result<seq<int>>, k: int): Result<seq<int>> {
    match r
    case Ok(v) => Ok(Scaled(v, k))
    case Err(m) => Err(m)
  }

  /** The number of executions passed down is a plain factor of every count: the counts for
      k executions, and whether they raise, follow from those for one. */
  lemma {:induction false} NonSkipLinear(tree: Tree, path: seq<Step>, k: int)
    requires k > 0
    ensures NonSkipCount(tree, path, k) == ScaleResult(NonSkipCount(tree, path, 1), k)
    decreases tree, 1
  {
    match tree
    case Leaf(_, _, _) =>
    case Op(op, _, cs) =>
      ChildLinear(cs, path, k);
      var ex := ChildExecutions(cs, path, 1);
      if ex.Ok? && |ex.value| > 0 {
        ScaledCombinations(ex.value, k);
      } else if ex.Ok? {
        assert Scaled(ex.value, k) == [];
      }
  }

  /** Scaling the executions of the children by k scales what each operator makes of them. */
  lemma {:induction false} ScaledCombinations(v: seq<int>, k: int)
    requires k > 0 && |v| > 0
    ensures var w := Scaled(v, k);
      && Sum(w) == Sum(v) * k
      && w[0] - Sum(w[1..]) == (v[0] - Sum(v[1..])) * k
      && (w[0] - Sum(w[1..]) >= 0 <==> v[0] - Sum(v[1..]) >= 0)
      && ((forall i :: 0 <= i < |w| ==> w[i] == w[0]) <==> (forall i :: 0 <= i < |v| ==> v[i] == v[0]))
  {
    var w := Scaled(v, k);
    assert w[1..] == Scaled(v[1..], k);
    SumScaled(v[1..], k);
    SumScaled(v, k);
    assert w[0] - Sum(w[1..]) == (v[0] - Sum(v[1..])) * k;
    MulSign(v[0] - Sum(v[1..]), k);
    forall i | 0 <= i < |v|
      ensures w[i] == w[0] <==> v[i] == v[0]
    {
      MulCancel(v[i], v[0], k);
    }
  }

  lemma {:induction false} ChildLinear(cs: seq<Tree>, path: seq<Step>, k: int)
    requires k > 0
    ensures ChildExecutions(cs, path, k) == ScaleAll(ChildExecutions(cs, path, 1), k)
    decreases cs, 0
  {
    if cs != [] {
      var init, c := cs[..|cs| - 1], cs[|cs| - 1];
      ChildLinear(init, path, k);
      NonSkipLinear(c, path, k);
      var a1 := ChildExecutions(init, path, 1);
      var n1 := NonSkipCount(c, path, 1);
      if a1.Ok? && n1.Ok? {
        var x := SkipCount(c, path, 1) + n1.value;
        assert ChildExecutions(cs, path, 1) == Ok(a1.value + [x]);
        Distribute(SkipCount(c, path, 1), n1.value, k);
        ScaledSnoc(a1.value, x, k);
      }
    }
  }


  // ---------------------------------------------------------------------------------------
  // conditional_skip_prob

  /** P(skip node | alignment): the share of the node's executions that skip it, 0 when the
      alignment never reaches the node. */
  function CondSkipProb(node: Tree, path: seq<Step>): Result<real> {
    var skips := SkipCount(node, path, 1);
    var nonSkips :- NonSkipCount(node, path, 1);
    if skips + nonSkips == 0 then Ok(0.0) else Ok(skips as real / (skips + nonSkips) as real)
  }

  /** The conditional skip probability is a probability; it is 0 exactly when the node is
      never skipped, and 1 exactly when the node is skipped every time it is reached. */
  lemma {:induction false} CondSkipProbBounds(node: Tree, path: seq<Step>)
    ensures CondSkipProb(node, path).Ok? <==> NonSkipCount(node, path, 1).Ok?
    ensures CondSkipProb(node, path).Ok? ==>
      var p := CondSkipProb(node, path).value;
      && 0.0 <= p <= 1.0
      && (p == 0.0 <==> SkipCount(node, path, 1) == 0)
      && (p == 1.0 <==> SkipCount(node, path, 1) > 0 && NonSkipCount(node, path, 1).value == 0)
  {
    NonSkipNonnegative(node, path, 1);
    var skips := SkipCount(node, path, 1);
    var nonSkips := NonSkipCount(node, path, 1);
    if nonSkips.Ok? && skips + nonSkips.value != 0 {
      Ratio(skips, nonSkips.value);
    }
  }

  lemma {:induction false} Ratio(a: int, b: int)
    requires a >= 0 && b >= 0 && a + b > 0
    ensures var p := a as real / (a + b) as real;
      0.0 <= p <= 1.0 && (p == 0.0 <==> a == 0) && (p == 1.0 <==> a > 0 && b == 0)
  {
    var total := (a + b) as real;
    var p := a as real / total;
    assert p * total == a as real;
    if b > 0 {
      assert a as real < total;
    }
  }

  /** _conditional_skip_prob. */
  method ConditionalSkipProbOf(node: Tree, state: State) returns (r: Result<real>)
    ensures r == CondSkipProb(node, state.path)
  {
    var skipCnt := CountSkipExecutions(node, state.path, 1);
    var nskipCnt := CountNonSkipExecutions(node, state.path, 1);
    if nskipCnt.Err? {
      return Err(nskipCnt.msg);
    }
    if skipCnt + nskipCnt.value == 0 {
      return Ok(0.0);
    }
    return Ok(skipCnt as real / (skipCnt + nskipCnt.value) as real);
  }

  /** _traverse_tree: the nodes in post-order, each subtree's nodes before its root. */
  function TraverseTree(t: Tree): seq<Tree>
    decreases t, 1
  {
    match t
    case Leaf(_, _, _) => [t]
    case Op(_, _, cs) => TraverseAll(cs) + [t]
  }

  function TraverseAll(cs: seq<Tree>): seq<Tree>
    decreases cs, 0
  {
    if cs == [] then [] else TraverseAll(cs[..|cs| - 1]) + TraverseTree(cs[|cs| - 1])
  }

  /** Every node comes after all of its descendants. */
  predicate PostOrdered(ns: seq<Tree>) {
    forall i, n {:trigger n in PreOrder(ns[i])} :: 0 <= i < |ns| && n in PreOrder(ns[i]) ==> n in ns[..i + 1]
  }

  lemma {:induction false} PostOrderedAppend(a: seq<Tree>, b: seq<Tree>)
    requires PostOrdered(a) && PostOrdered(b)
    ensures PostOrdered(a + b)
  {
    forall i, n | 0 <= i < |a + b| && n in PreOrder((a + b)[i])
      ensures n in (a + b)[..i + 1]
    {
      InPrefix(a, b, i, n);
    }
  }

  lemma {:induction false} InPrefix(a: seq<Tree>, b: seq<Tree>, i: nat, n: Tree)
    requires PostOrdered(a) && PostOrdered(b)
    requires i < |a + b| && n in PreOrder((a + b)[i])
    ensures n in (a + b)[..i + 1]
  {
    if i < |a| {
      assert (a + b)[i] == a[i] && n in PreOrder(a[i]);
      assert n in a[..i + 1];
      assert (a + b)[..i + 1] == a[..i + 1];
    } else {
      var j := i - |a|;
      assert (a + b)[i] == b[j] && n in PreOrder(b[j]);
      assert n in b[..j + 1];
      assert (a + b)[..i + 1] == a + b[..j + 1];
    }
  }

  /** _traverse_tree visits exactly the nodes of the tree, as many as pre-order does, in an
      order where each node follows its descendants and the root comes last. */
  lemma {:induction false} TraverseTreeSpec(t: Tree)
    ensures forall n :: n in TraverseTree(t) <==> n in PreOrder(t)
    ensures |TraverseTree(t)| == |PreOrder(t)|
    ensures TraverseTree(t)[|TraverseTree(t)| - 1] == t
    ensures PostOrdered(TraverseTree(t))
    decreases t, 1
  {
    match t
    case Leaf(_, _, _) =>
    case Op(_, _, cs) =>
      TraverseAllSpec(cs);
      var r := TraverseTree(t);
      assert PreOrder(t) == [t] + PreOrderOf(cs);
      forall n | n in PreOrder(t)
        ensures n in r
      {
        if n != t {
          assert n in PreOrderOf(cs);
        }
      }
      forall i, n | 0 <= i < |r| && n in PreOrder(r[i])
        ensures n in r[..i + 1]
      {
        if i < |r| - 1 {
          assert r[..i + 1] == TraverseAll(cs)[..i + 1];
        } else {
          assert r[..i + 1] == r;
          if n != t {
            assert n in PreOrderOf(cs);
          }
        }
      }
  }

  lemma {:induction false} TraverseAllSpec(cs: seq<Tree>)
    ensures forall n :: n in TraverseAll(cs) <==> n in PreOrderOf(cs)
    ensures |TraverseAll(cs)| == |PreOrderOf(cs)|
    ensures PostOrdered(TraverseAll(cs))
    decreases cs, 0
  {
    if cs != [] {
      var init, c := cs[..|cs| - 1], cs[|cs| - 1];
      TraverseAllSpec(init);
      TraverseTreeSpec(c);
      assert cs == init + [c];
      PreOrderOfSnoc(init, c);
      PostOrderedAppend(TraverseAll(init), TraverseTree(c));
    }
  }

  lemma {:induction false} PreOrderOfSnoc(cs: seq<Tree>, c: Tree)
    ensures PreOrderOf(cs + [c]) == PreOrderOf(cs) + PreOrder(c)
  {
    if cs == [] {
      assert [c][1..] == [];
    } else {
      assert (cs + [c])[1..] == cs[1..] + [c];
      PreOrderOfSnoc(cs[1..], c);
    }
  }

  /** The table of one alignment: every node of the tree to its conditional skip probability. */
  predicate ProbsOf(m: map<Tree, real>, tree: Tree, path: seq<Step>) {
    m.Keys == Nodes(tree) && forall n :: n in m ==> CondSkipProb(n, path) == Ok(m[n])
  }

  /** The inner loop of conditional_skip_prob: one alignment, every node in post-order. */
  method NodeProbs(tree: Tree, state: State) returns (r: Result<map<Tree, real>>)
    ensures r.Ok? ==> ProbsOf(r.value, tree, state.path)
    ensures r.Err? ==> exists n :: n in Nodes(tree) && CondSkipProb(n, state.path).Err?
  {
    var nodes := TraverseTree(tree);
    TraverseTreeSpec(tree);
    var m: map<Tree, real> := map[];
    for j := 0 to |nodes|
      invariant m.Keys == set n | n in nodes[..j]
      invariant forall n :: n in m ==> CondSkipProb(n, state.path) == Ok(m[n])
    {
      var p := ConditionalSkipProbOf(nodes[j], state);
      if p.Err? {
        assert nodes[j] in Nodes(tree);
        return Err(p.msg);
      }
      assert nodes[..j + 1] == nodes[..j] + [nodes[j]];
      m := m[nodes[j] := p.value];
    }
    assert nodes[..|nodes|] == nodes;
    r := Ok(m);
  }

  /** conditional_skip_prob: for every skip alignment of the dictionary and every node of the
      tree, P(skip node | alignment). It raises exactly when some count raises. */
  method ConditionalSkipProbs(tree: Tree, skipDict: SkipDict) returns (r: Result<map<State, map<Tree, real>>>)
    ensures r.Ok? <==> forall s, n :: s in StatesOf(skipDict) && n in Nodes(tree) ==> CondSkipProb(n, s.path).Ok?
    ensures r.Ok? ==> r.value.Keys == StatesOf(skipDict)
    ensures r.Ok? ==> forall s :: s in r.value ==> ProbsOf(r.value[s], tree, s.path)
  {
    var probs: map<State, map<Tree, real>> := map[];
    for k := 0 to |skipDict|
      invariant probs.Keys <= StatesOf(skipDict)
      invariant forall k', i :: 0 <= k' < k && 0 <= i < |skipDict[k'].1| ==> skipDict[k'].1[i] in probs
      invariant forall s :: s in probs ==> ProbsOf(probs[s], tree, s.path)
    {
      var states := skipDict[k].1;
      for i := 0 to |states|
        invariant probs.Keys <= StatesOf(skipDict)
        invariant forall k', i' :: ((0 <= k' < k && 0 <= i' < |skipDict[k'].1|) || (k' == k && 0 <= i' < i)) ==>
          skipDict[k'].1[i'] in probs
        invariant forall s :: s in probs ==> ProbsOf(probs[s], tree, s.path)
      {
        var state := states[i];
        assert state in StatesOf(skipDict);
        var m := NodeProbs(tree, state);
        if m.Err? {
          return Err(m.msg);
        }
        probs := probs[state := m.value];
      }
    }
    r := Ok(probs);
    forall s | s in StatesOf(skipDict)
      ensures s in probs
    {
      var k, i :| 0 <= k < |skipDict| && 0 <= i < |skipDict[k].1| && s == skipDict[k].1[i];
    }
    forall s, n | s in StatesOf(skipDict) && n in Nodes(tree)
      ensures CondSkipProb(n, s.path).Ok?
    {
      assert n in probs[s];
    }
  }
}
