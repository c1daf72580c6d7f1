/** Execution trees: the nesting of the executions of a skip alignment, rebuilt from its flat
    list of spans, and the reshuffling of an alignment according to the operators' semantics
    (execution.py, classes ExecutionTree and ExecutionManager.build_execution_tree). */
module ExecutionTrees {
  import opened Wrappers
  import opened ProcessTree
  import opened Alignment
  import opened Shuffles

  const INDEX_ERROR: string := "IndexError"
  const ASSERTION_ERROR: string := "AssertionError"

  /** An execution together with the executions of its node's children. The parent back
      links of the source are not kept: a subtree's parent is the tree that holds it. */
  datatype ExecutionTree = ExecutionTree(execution: Execution, children: seq<ExecutionTree>)

  /** Python slicing `s[a:b]`: negative bounds count from the end, bounds are clamped. */
  function PySlice<T>(s: seq<T>, a: int, b: int): (r: seq<T>)
    ensures 0 <= a <= b <= |s| ==> r == s[a..b]
  {
    var lo := if a < 0 then (if a + |s| < 0 then 0 else a + |s|) else (if a > |s| then |s| else a);
    var hi := if b < 0 then (if b + |s| < 0 then 0 else b + |s|) else (if b > |s| then |s| else b);
    if lo >= hi then [] else s[lo..hi]
  }

  /** Index-wise concatenation of every tuple of a product. */
  function ConcatEach<T>(tuples: seq<seq<seq<T>>>): (r: seq<seq<T>>)
    ensures |r| == |tuples|
  {
    seq(|tuples|, i requires 0 <= i < |tuples| => Concat(tuples[i]))
  }

  /** ExecutionTree.shuffle: the partial alignments this execution admits. A leaf keeps its
      span; a sequence or loop concatenates one alternative per child, in child order; a
      choice keeps its (only) executed child; a parallel node shuffles the chosen
      alternatives of all its children in every order-preserving way. */
  function Shuffle(t: ExecutionTree, path: seq<Step>): Result<seq<seq<Step>>>
    decreases t, 1
  {
    match t.execution.node
    case Leaf(_, _, _) => Ok([PySlice(path, t.execution.start, t.execution.stop)])
    case Op(op, _, _) =>
      if op == Xor then
        (if |t.children| == 0 then Err(INDEX_ERROR) else Shuffle(t.children[0], path))
      else
        var alternatives :- ShuffleChildren(t.children, path);
        var tuples := Product(alternatives);
        if op == And then
          if |t.children| < 2 && |tuples| > 0 then Err(INDEX_ERROR)
          else Ok(Concat(seq(|tuples|, i requires 0 <= i < |tuples| =>
                  ProductMember(alternatives, tuples[i]);
                  AllOrderPreservingShuffles(tuples[i]))))
        else Ok(ConcatEach(tuples))
  }

  /** The alternatives of each child, in child order; the first failure is raised. */
  function ShuffleChildren(cs: seq<ExecutionTree>, path: seq<Step>): (r: Result<seq<seq<seq<Step>>>>)
    ensures r.Ok? ==> |r.value| == |cs|
    decreases cs, 0
  {
    if cs == [] then Ok([])
    else
      var first :- Shuffle(cs[0], path);
      var rest :- ShuffleChildren(cs[1..], path);
      Ok([first] + rest)
  }

  lemma {:induction false} ShuffleChildrenEach(cs: seq<ExecutionTree>, path: seq<Step>, k: nat)
    requires ShuffleChildren(cs, path).Ok? && k < |cs|
    ensures Shuffle(cs[k], path).Ok? && ShuffleChildren(cs, path).value[k] == Shuffle(cs[k], path).value
    decreases cs
  {
    if k > 0 {
      ShuffleChildrenEach(cs[1..], path, k - 1);
    }
  }

  /** A sequence or loop yields one alignment per choice of one alternative for each child,
      the chosen alternatives concatenated in child order, and nothing else. */
  lemma {:induction false} SequenceShuffle(t: ExecutionTree, path: seq<Step>, r: seq<Step>)
    requires t.execution.node.Op? && t.execution.node.op in {Sequence, Loop}
    requires Shuffle(t, path).Ok?
    ensures ShuffleChildren(t.children, path).Ok?
    ensures |Shuffle(t, path).value| == SizeProduct(ShuffleChildren(t.children, path).value)
    ensures r in Shuffle(t, path).value <==>
      exists pick :: Pick(pick, ShuffleChildren(t.children, path).value) && r == Concat(pick)
  {
    var alternatives := ShuffleChildren(t.children, path).value;
    var tuples := Product(alternatives);
    ProductCount(alternatives);
    if r in Shuffle(t, path).value {
      var i :| 0 <= i < |tuples| && ConcatEach(tuples)[i] == r;
      ProductMember(alternatives, tuples[i]);
    }
    if exists pick :: Pick(pick, alternatives) && r == Concat(pick) {
      var pick :| Pick(pick, alternatives) && r == Concat(pick);
      ProductMember(alternatives, pick);
      var i :| 0 <= i < |tuples| && tuples[i] == pick;
      assert ConcatEach(tuples)[i] == r;
    }
  }

  /** A choice node yields exactly its first child's alternatives. */
  lemma {:induction false} XorShuffle(t: ExecutionTree, path: seq<Step>)
    requires t.execution.node.Op? && t.execution.node.op == Xor
    ensures |t.children| == 0 ==> Shuffle(t, path) == Err(INDEX_ERROR)
    ensures |t.children| > 0 ==> Shuffle(t, path) == Shuffle(t.children[0], path)
  {
  }

  /** Every alignment of a parallel node is a shuffle of one alternative per child: it keeps
      each chosen alternative as an order-preserving subsequence, and is exactly as long as
      all of them together. */
  lemma {:induction false} AndShuffle(t: ExecutionTree, path: seq<Step>, r: seq<Step>)
    requires t.execution.node.Op? && t.execution.node.op == And
    requires Shuffle(t, path).Ok? && r in Shuffle(t, path).value
    ensures ShuffleChildren(t.children, path).Ok?
    ensures exists pick :: (Pick(pick, ShuffleChildren(t.children, path).value)
      && |r| == TotalLength(pick) && forall k :: 0 <= k < |pick| ==> Subseq(pick[k], r))
  {
    var alternatives := ShuffleChildren(t.children, path).value;
    var tuples := Product(alternatives);
    var parts := seq(|tuples|, i requires 0 <= i < |tuples| =>
      ProductMember(alternatives, tuples[i]);
      AllOrderPreservingShuffles(tuples[i]));
    ConcatMember(parts, r);
    var i :| 0 <= i < |parts| && r in parts[i];
    ProductMember(alternatives, tuples[i]);
    AllShufflesContain(tuples[i], r);
  }

  // ---------------------------------------------------------------------------------------
  // Ordering the executions

  /** The sort key of build_execution_tree: by start, then longest span first, then the node
      closest to the root first. `depth` is the process tree's get_distance_to_root. */
  predicate KeyLe(a: Execution, b: Execution, depth: Tree -> nat) {
    || a.start < b.start
    || (a.start == b.start && (b.stop < a.stop || (a.stop == b.stop && depth(a.node) <= depth(b.node))))
  }

  /** Insert into a sorted list in front of the first element that is not smaller: an element
      that came earlier is kept in front of equal keys, so the sort is stable. */
  function Insert(x: Execution, s: seq<Execution>, depth: Tree -> nat): seq<Execution> {
    if s == [] || KeyLe(x, s[0], depth) then [x] + s else [s[0]] + Insert(x, s[1..], depth)
  }

  /** Python `sorted` by KeyLe (stable). */
  function SortExecutions(s: seq<Execution>, depth: Tree -> nat): seq<Execution> {
    if s == [] then [] else Insert(s[0], SortExecutions(s[1..], depth), depth)
  }

  predicate SortedBy(s: seq<Execution>, depth: Tree -> nat) {
    forall i :: 0 <= i < |s| - 1 ==> KeyLe(s[i], s[i + 1], depth)
  }

  lemma {:induction false} InsertSpec(x: Execution, s: seq<Execution>, depth: Tree -> nat)
    requires SortedBy(s, depth)
    ensures SortedBy(Insert(x, s, depth), depth)
    ensures multiset(Insert(x, s, depth)) == multiset{x} + multiset(s)
    ensures |Insert(x, s, depth)| == |s| + 1
    ensures s != [] ==> Insert(x, s, depth)[0] == x || Insert(x, s, depth)[0] == s[0]
    decreases |s|
  {
    if s != [] && !KeyLe(x, s[0], depth) {
      InsertSpec(x, s[1..], depth);
      assert s == [s[0]] + s[1..];
    }
  }

  /** The sorted list is ordered by the key and is a permutation of the input. */
  lemma {:induction false} SortSpec(s: seq<Execution>, depth: Tree -> nat)
    ensures SortedBy(SortExecutions(s, depth), depth)
    ensures multiset(SortExecutions(s, depth)) == multiset(s)
    ensures |SortExecutions(s, depth)| == |s|
    decreases |s|
  {
    if s != [] {
      SortSpec(s[1..], depth);
      InsertSpec(s[0], SortExecutions(s[1..], depth), depth);
      assert s == [s[0]] + s[1..];
    }
  }

  /** Sorting a list that is already sorted leaves it as it is. */
  lemma {:induction false} SortSorted(s: seq<Execution>, depth: Tree -> nat)
    requires SortedBy(s, depth)
    ensures SortExecutions(s, depth) == s
    decreases |s|
  {
    if s != [] {
      assert SortedBy(s[1..], depth) by {
        forall i | 0 <= i < |s[1..]| - 1
          ensures KeyLe(s[1..][i], s[1..][i + 1], depth)
        {
          assert s[1..][i] == s[i + 1] && s[1..][i + 1] == s[i + 2];
        }
      }
      SortSorted(s[1..], depth);
      assert s == [s[0]] + s[1..];
    }
  }

  // ---------------------------------------------------------------------------------------
  // Rebuilding the tree

  /** The span of `inner` lies within the span of `outer`. */
  predicate Within(inner: Execution, outer: Execution) {
    outer.start <= inner.start && inner.stop <= outer.stop
  }

  /** The rule build_execution_tree enforces at one node: a leaf has no children; a sequence
      or parallel node has one child per declared child, in declared order, each an execution
      of that child; a choice has exactly one, and a loop at least one, execution of a child
      of its node; every child execution lies within the parent's span. */
  predicate NodeRule(t: ExecutionTree) {
    var e := t.execution;
    var cs := t.children;
    && (forall k :: 0 <= k < |cs| ==> Within(cs[k].execution, e))
    && match e.node
      case Leaf(_, _, _) => cs == []
      case Op(op, _, declared) =>
        if op == Sequence || op == And then
          |cs| == |declared| && forall k :: 0 <= k < |cs| ==> cs[k].execution.node == declared[k]
        else
          && (if op == Xor then |cs| == 1 else |cs| >= 1)
          && forall k :: 0 <= k < |cs| ==> IsChildOf(cs[k].execution.node, e.node)
  }

  /** The rule holds at every node. */
  predicate WellBuilt(t: ExecutionTree)
    decreases t
  {
    NodeRule(t) && forall k :: 0 <= k < |t.children| ==> WellBuilt(t.children[k])
  }

  /** The executions a tree is made of, in pre-order. */
  function ExecutionsOf(t: ExecutionTree): seq<Execution>
    decreases t, 1
  {
    [t.execution] + ExecutionsOfAll(t.children)
  }

  function ExecutionsOfAll(ts: seq<ExecutionTree>): seq<Execution>
    decreases ts, 0
  {
    if ts == [] then [] else ExecutionsOf(ts[0]) + ExecutionsOfAll(ts[1..])
  }

  lemma {:induction false} ExecutionsOfAllAppend(ts: seq<ExecutionTree>, t: ExecutionTree)
    ensures multiset(ExecutionsOfAll(ts + [t])) == multiset(ExecutionsOfAll(ts)) + multiset(ExecutionsOf(t))
  {
    ExecutionsOfAllSnoc(ts, t);
  }

  lemma {:induction false} ExecutionsOfAllSnoc(ts: seq<ExecutionTree>, t: ExecutionTree)
    ensures ExecutionsOfAll(ts + [t]) == ExecutionsOfAll(ts) + ExecutionsOf(t)
    decreases |ts|
  {
    if ts == [] {
      assert ts + [t] == [t];
      assert ExecutionsOfAll([t]) == ExecutionsOf(t) + ExecutionsOfAll([]);
    } else {
      ExecutionsOfAllSnoc(ts[1..], t);
      assert (ts + [t])[1..] == ts[1..] + [t];
      assert (ts + [t])[0] == ts[0];
      calc {
        ExecutionsOfAll(ts + [t]);
        ExecutionsOf(ts[0]) + ExecutionsOfAll(ts[1..] + [t]);
        ExecutionsOf(ts[0]) + (ExecutionsOfAll(ts[1..]) + ExecutionsOf(t));
        (ExecutionsOf(ts[0]) + ExecutionsOfAll(ts[1..])) + ExecutionsOf(t);
      }
    }
  }

  lemma {:induction false} WellBuiltAppend(cs: seq<ExecutionTree>, c: ExecutionTree)
    requires forall k :: 0 <= k < |cs| ==> WellBuilt(cs[k])
    requires WellBuilt(c)
    ensures forall k :: 0 <= k < |cs + [c]| ==> WellBuilt((cs + [c])[k])
  {
  }

  lemma {:induction false} Rearrange<T>(before: multiset<T>, mid: multiset<T>, root: multiset<T>, after: multiset<T>,
                    below: multiset<T>, tree: multiset<T>)
    requires before == mid + root && mid == after + below && tree == root + below
    ensures before == after + tree
  {
  }

  /** Removing the i-th element (list.pop(i)) takes exactly that element out. */
  lemma {:induction false} PopCount(s: seq<Execution>, i: nat)
    requires i < |s|
    ensures multiset(s) == multiset(s[..i] + s[i + 1..]) + multiset{s[i]}
  {
    assert s == s[..i] + [s[i]] + s[i + 1..];
  }

  /** The executions the source starts from: the given one, or none when it takes the first
      of the sorted list itself. */
  function Given(node: Option<Execution>): multiset<Execution> {
    if node.Some? then multiset{node.value} else multiset{}
  }

  lemma {:induction false} KeyLeTrans(a: Execution, b: Execution, c: Execution, depth: Tree -> nat)
    requires KeyLe(a, b, depth) && KeyLe(b, c, depth)
    ensures KeyLe(a, c, depth)
  {
  }

  /** The first element of a sorted list has the smallest key. */
  lemma {:induction false} SortedFirst(s: seq<Execution>, depth: Tree -> nat)
    requires SortedBy(s, depth) && s != []
    ensures forall x :: x in s ==> KeyLe(s[0], x, depth)
    decreases |s|
  {
    if |s| > 1 {
      assert SortedBy(s[1..], depth) by {
        forall i | 0 <= i < |s[1..]| - 1
          ensures KeyLe(s[1..][i], s[1..][i + 1], depth)
        {
          assert s[1..][i] == s[i + 1] && s[1..][i + 1] == s[i + 2];
        }
      }
      SortedFirst(s[1..], depth);
      forall x | x in s
        ensures KeyLe(s[0], x, depth)
      {
        if x != s[0] {
          assert x in s[1..];
          KeyLeTrans(s[0], s[1], x, depth);
        }
      }
    }
  }

  /** build_execution_tree: sort the executions, take the given execution (or the one with the
      smallest key), and find its children among the remaining executions, removing each one
      used. On success the tree obeys the operator rules at every node, and every execution it
      holds was taken out of the state's list exactly once. */
  method BuildExecutionTree(state: State, node: Option<Execution>, depth: Tree -> nat)
    returns (r: Result<ExecutionTree>)
    modifies state
    ensures state.path == old(state.path)
    ensures r.Ok? ==> WellBuilt(r.value)
    ensures r.Ok? ==> multiset(old(state.executions)) + Given(node)
                      == multiset(state.executions) + multiset(ExecutionsOf(r.value))
    ensures r.Ok? ==> |state.executions| + (if node.None? then 1 else 0) <= |old(state.executions)|
    ensures r.Ok? && node.Some? ==> r.value.execution == node.value
    ensures r.Ok? && node.None? ==> (r.value.execution in old(state.executions)
      && forall x :: x in old(state.executions) ==> KeyLe(r.value.execution, x, depth))
    ensures node.None? && old(state.executions) == [] ==> r == Err(INDEX_ERROR)
    decreases |state.executions| + (if node.None? then 1 else 0), 5
  {
    var root := TakeRoot(state, node, depth);
    if root.Err? {
      return Err(root.msg);
    }
    var e := root.value;
    ghost var mid := multiset(state.executions);
    var found := BuildChildren(state, e, depth);
    if found.Err? {
      return Err(found.msg);
    }
    r := Ok(ExecutionTree(e, found.value));
    assert multiset(ExecutionsOf(r.value)) == multiset{e} + multiset(ExecutionsOfAll(found.value));
    Rearrange(multiset(old(state.executions)) + Given(node), mid, multiset{e}, multiset(state.executions),
      multiset(ExecutionsOfAll(found.value)), multiset(ExecutionsOf(r.value)));
  }

  /** The first two steps of build_execution_tree: sort the executions and take the root, the
      given execution or else the first (smallest) of the sorted list, removing it. */
  method TakeRoot(state: State, node: Option<Execution>, depth: Tree -> nat) returns (r: Result<Execution>)
    modifies state
    ensures state.path == old(state.path)
    ensures node.Some? ==> r == Ok(node.value)
    ensures node.None? && old(state.executions) == [] ==> r == Err(INDEX_ERROR)
    ensures r.Ok? ==> multiset(old(state.executions)) + Given(node) == multiset(state.executions) + multiset{r.value}
    ensures r.Ok? ==> |state.executions| + (if node.None? then 1 else 0) == |old(state.executions)|
    ensures r.Ok? && node.None? ==> (r.value in old(state.executions)
      && forall x :: x in old(state.executions) ==> KeyLe(r.value, x, depth))
  {
    ghost var original := state.executions;
    var sorted := SortExecutions(state.executions, depth);
    assert multiset(sorted) == multiset(original) && |sorted| == |original|
      && (sorted != [] ==> sorted[0] in original && forall x :: x in original ==> KeyLe(sorted[0], x, depth))
    by {
      SortSpec(original, depth);
      if sorted != [] {
        SortedFirst(sorted, depth);
        assert sorted[0] in multiset(original);
        forall x | x in original
          ensures KeyLe(sorted[0], x, depth)
        {
          assert x in multiset(original);
          assert x in sorted;
        }
      }
    }
    state.executions := sorted;
    if node.None? {
      if |state.executions| == 0 {
        return Err(INDEX_ERROR);
      }
      r := Ok(state.executions[0]);
      PopCount(state.executions, 0);
      state.executions := state.executions[1..];
    } else {
      r := Ok(node.value);
    }
  }

  /** The children of execution e, by the rule of e's node's operator. */
  method BuildChildren(state: State, e: Execution, depth: Tree -> nat) returns (r: Result<seq<ExecutionTree>>)
    modifies state
    ensures state.path == old(state.path)
    ensures r.Ok? ==> |state.executions| <= |old(state.executions)|
    ensures r.Ok? ==> multiset(old(state.executions)) == multiset(state.executions) + multiset(ExecutionsOfAll(r.value))
    ensures r.Ok? ==> WellBuilt(ExecutionTree(e, r.value))
    decreases |state.executions|, 4
  {
    match e.node {
      case Leaf(_, _, _) =>
        r := Ok([]);
      case Op(op, _, declared) =>
        if op == Sequence || op == And {
          r := BuildDeclared(state, e, declared, depth);
        } else {
          r := BuildExecuted(state, e, op == Loop, depth);
        }
    }
  }

  /** Each tree is well built, lies within e, and executes the declared child at its place. */
  predicate DeclaredChildren(cs: seq<ExecutionTree>, e: Execution, declared: seq<Tree>) {
    && |cs| <= |declared|
    && forall k :: 0 <= k < |cs| ==>
         WellBuilt(cs[k]) && Within(cs[k].execution, e) && cs[k].execution.node == declared[k]
  }

  lemma {:induction false} DeclaredChildrenAppend(cs: seq<ExecutionTree>, c: ExecutionTree, e: Execution, declared: seq<Tree>)
    requires DeclaredChildren(cs, e, declared) && |cs| < |declared|
    requires WellBuilt(c) && Within(c.execution, e) && c.execution.node == declared[|cs|]
    ensures DeclaredChildren(cs + [c], e, declared)
  {
  }

  /** Moving one subtree's executions from the list to the built children keeps the total. */
  lemma {:induction false} Transfer<T>(total: multiset<T>, before: multiset<T>, after: multiset<T>, built: multiset<T>,
                    sub: multiset<T>, built2: multiset<T>)
    requires total == before + built && before == after + sub && built2 == built + sub
    ensures total == after + built2
  {
  }

  /** The children of a sequence or parallel execution e: for each declared child in order,
      the first remaining execution of it within e's span, built recursively. */
  method BuildDeclared(state: State, e: Execution, declared: seq<Tree>, depth: Tree -> nat)
    returns (r: Result<seq<ExecutionTree>>)
    modifies state
    ensures state.path == old(state.path)
    ensures r.Ok? ==> |state.executions| <= |old(state.executions)|
    ensures r.Ok? ==> multiset(old(state.executions)) == multiset(state.executions) + multiset(ExecutionsOfAll(r.value))
    ensures r.Ok? ==> |r.value| == |declared| && DeclaredChildren(r.value, e, declared)
    decreases |state.executions|, 3
  {
    ghost var total := multiset(state.executions);
    ghost var bound := |state.executions|;
    var children: seq<ExecutionTree> := [];
    var k := 0;
    while k < |declared|
      invariant k <= |declared| && |children| == k
      invariant |state.executions| <= bound
      invariant state.path == old(state.path)
      invariant DeclaredChildren(children, e, declared)
      invariant total == multiset(state.executions) + multiset(ExecutionsOfAll(children))
    {
      var i := FindChild(state.executions, e, declared[k]);
      if i == |state.executions| {
        return Err(ASSERTION_ERROR);
      }
      ghost var before := multiset(state.executions);
      var sub := TakeChild(state, i, depth);
      if sub.Err? {
        return Err(sub.msg);
      }
      ExecutionsOfAllAppend(children, sub.value);
      Transfer(total, before, multiset(state.executions), multiset(ExecutionsOfAll(children)),
        multiset(ExecutionsOf(sub.value)), multiset(ExecutionsOfAll(children + [sub.value])));
      DeclaredChildrenAppend(children, sub.value, e, declared);
      children := children + [sub.value];
      k := k + 1;
    }
    r := Ok(children);
  }

  /** The children of a choice (`loop` false) or loop execution e: the remaining executions of
      children of e's node within e's span — the first one only for a choice, all of them
      that start before e stops for a loop — built recursively. At least one must exist. */
  method BuildExecuted(state: State, e: Execution, loop: bool, depth: Tree -> nat)
    returns (r: Result<seq<ExecutionTree>>)
    modifies state
    ensures state.path == old(state.path)
    ensures r.Ok? ==> |state.executions| <= |old(state.executions)|
    ensures r.Ok? ==> multiset(old(state.executions)) == multiset(state.executions) + multiset(ExecutionsOfAll(r.value))
    ensures r.Ok? ==> ExecutedChildren(r.value, e) && (if loop then |r.value| >= 1 else |r.value| == 1)
    decreases |state.executions|, 3
  {
    if !loop {
      var i := FindChildOf(state.executions, e);
      if i == |state.executions| {
        return Err(ASSERTION_ERROR);
      }
      var sub := TakeChild(state, i, depth);
      if sub.Err? {
        return Err(sub.msg);
      }
      r := Ok([sub.value]);
      assert ExecutionsOfAll(r.value) == ExecutionsOf(sub.value) + ExecutionsOfAll([]);
    } else {
      r := BuildLoopBody(state, e, depth);
    }
  }

  /** Every tree is well built, lies within e and executes a child of e's node. */
  predicate ExecutedChildren(cs: seq<ExecutionTree>, e: Execution) {
    forall k :: 0 <= k < |cs| ==> WellBuilt(cs[k]) && Within(cs[k].execution, e) && IsChildOf(cs[k].execution.node, e.node)
  }

  method BuildLoopBody(state: State, e: Execution, depth: Tree -> nat)
    returns (r: Result<seq<ExecutionTree>>)
    modifies state
    ensures state.path == old(state.path)
    ensures r.Ok? ==> |state.executions| <= |old(state.executions)|
    ensures r.Ok? ==> multiset(old(state.executions)) == multiset(state.executions) + multiset(ExecutionsOfAll(r.value))
    ensures r.Ok? ==> ExecutedChildren(r.value, e) && |r.value| >= 1
    decreases |state.executions|, 2
  {
    ghost var total := multiset(state.executions);
    ghost var bound := |state.executions|;
    var children: seq<ExecutionTree> := [];
    var i := 0;
    while i < |state.executions| && state.executions[i].start < e.stop
      invariant |state.executions| <= bound
      invariant state.path == old(state.path)
      invariant ExecutedChildren(children, e)
      invariant total == multiset(state.executions) + multiset(ExecutionsOfAll(children))
      decreases |state.executions| - i
    {
      var x := state.executions[i];
      if IsChildOf(x.node, e.node) && Within(x, e) {
        var next := AppendChild(state, i, e, children, depth, total);
        if next.Err? {
          return Err(next.msg);
        }
        children := next.value;
      } else {
        i := i + 1;
      }
    }
    if |children| == 0 {
      return Err(ASSERTION_ERROR);
    }
    r := Ok(children);
  }

  /** One iteration of the loop-body scan: build the i-th execution, a child of e within its
      span, and append it to the children built so far. */
  method AppendChild(state: State, i: nat, e: Execution, children: seq<ExecutionTree>, depth: Tree -> nat,
                     ghost total: multiset<Execution>)
    returns (r: Result<seq<ExecutionTree>>)
    requires i < |state.executions|
    requires IsChildOf(state.executions[i].node, e.node) && Within(state.executions[i], e)
    requires ExecutedChildren(children, e)
    requires total == multiset(state.executions) + multiset(ExecutionsOfAll(children))
    modifies state
    ensures state.path == old(state.path)
    ensures r.Ok? ==> |state.executions| < |old(state.executions)|
    ensures r.Ok? ==> ExecutedChildren(r.value, e) && |r.value| == |children| + 1
    ensures r.Ok? ==> total == multiset(state.executions) + multiset(ExecutionsOfAll(r.value))
    decreases |state.executions|, 1
  {
    ghost var before := multiset(state.executions);
    var sub := TakeChild(state, i, depth);
    if sub.Err? {
      return Err(sub.msg);
    }
    ExecutionsOfAllAppend(children, sub.value);
    Transfer(total, before, multiset(state.executions), multiset(ExecutionsOfAll(children)),
      multiset(ExecutionsOf(sub.value)), multiset(ExecutionsOfAll(children + [sub.value])));
    r := Ok(children + [sub.value]);
  }

  /** Pop the i-th execution and build its subtree. */
  method TakeChild(state: State, i: nat, depth: Tree -> nat) returns (r: Result<ExecutionTree>)
    requires i < |state.executions|
    modifies state
    ensures state.path == old(state.path)
    ensures r.Ok? ==> r.value.execution == old(state.executions[i]) && WellBuilt(r.value)
    ensures r.Ok? ==> |state.executions| < |old(state.executions)|
    ensures r.Ok? ==> multiset(old(state.executions)) == multiset(state.executions) + multiset(ExecutionsOf(r.value))
    decreases |state.executions|, 0
  {
    var c := state.executions[i];
    PopCount(state.executions, i);
    state.executions := state.executions[..i] + state.executions[i + 1..];
    r := BuildExecutionTree(state, Some(c), depth);
  }

  /** The first execution of `child` within the span of `e`, or |es| when there is none. */
  method FindChild(es: seq<Execution>, e: Execution, child: Tree) returns (i: nat)
    ensures i <= |es|
    ensures i < |es| ==> es[i].node == child && Within(es[i], e)
    ensures forall j :: 0 <= j < i ==> !(es[j].node == child && Within(es[j], e))
  {
    i := 0;
    while i < |es| && !(es[i].node == child && Within(es[i], e))
      invariant i <= |es|
      invariant forall j :: 0 <= j < i ==> !(es[j].node == child && Within(es[j], e))
    {
      i := i + 1;
    }
  }

  /** The first execution of a child of e's node within the span of `e`, or |es|. */
  method FindChildOf(es: seq<Execution>, e: Execution) returns (i: nat)
    ensures i <= |es|
    ensures i < |es| ==> IsChildOf(es[i].node, e.node) && Within(es[i], e)
    ensures forall j :: 0 <= j < i ==> !(IsChildOf(es[j].node, e.node) && Within(es[j], e))
  {
    i := 0;
    while i < |es| && !(IsChildOf(es[i].node, e.node) && Within(es[i], e))
      invariant i <= |es|
      invariant forall j :: 0 <= j < i ==> !(IsChildOf(es[j].node, e.node) && Within(es[j], e))
    {
      i := i + 1;
    }
  }
}
