/** The skip-probability derivation of DerivationPipeline (derivation.py): the distribution
    on trace variants, the numbering of skip alignments, and the skip probability of a node,
    combined from each skip alignment's skip probabilities, the conditional probabilities of
    the skip alignments and the probabilities of the variants. */
module Derivation {
  import opened Wrappers
  import opened ProcessTree
  import opened Alignment
  import Skips
  import Probabilities
  import Strings

  const ZERO_DIVISION_ERROR: string := "ZeroDivisionError"

  // ---------------------------------------------------------------------------------------
  // variant_prob and variant_prob_dist

  /** The trace variants of a log with their numbers of traces, in the dictionary's order. */
  type Variants = seq<(seq<string>, int)>

  /** A probability per trace variant, in the dictionary's order. */
  type VariantDist = seq<(seq<string>, real)>

  /** No key occurs twice, as in a dictionary: the first key does not occur again, and so on. */
  predicate DistinctKeys<T>(d: seq<(seq<string>, T)>) {
    d == [] || ((forall j :: 0 < j < |d| ==> d[j].0 != d[0].0) && DistinctKeys(d[1..]))
  }

  /** The dictionary's value for a key, or None when it has none. */
  function Get<T>(d: seq<(seq<string>, T)>, v: seq<string>): (r: Option<T>)
    ensures r.Some? <==> exists i :: 0 <= i < |d| && d[i].0 == v
  {
    if d == [] then None
    else if d[0].0 == v then Some(d[0].1)
    else
      var r := Get(d[1..], v);
      assert forall i :: 0 < i < |d| ==> d[i] == d[1..][i - 1];
      r
  }

  /** With distinct keys, each entry is the value of its key. */
  lemma {:induction false} GetEntry<T>(d: seq<(seq<string>, T)>, i: nat)
    requires DistinctKeys(d) && i < |d|
    ensures Get(d, d[i].0) == Some(d[i].1)
  {
    if i > 0 {
      GetEntry(d[1..], i - 1);
      assert d[1..][i - 1] == d[i];
    }
  }

  /** sum(variants.values()). */
  function Total(vars: Variants): int {
    if vars == [] then 0 else vars[0].1 + Total(vars[1..])
  }

  /** variant_prob: the variant's share of all traces, 0 for a variant the dictionary does not
      know; a known variant of a dictionary whose counts sum to 0 divides by zero. */
  function VariantProb(v: seq<string>, vars: Variants): Result<real> {
    match Get(vars, v)
    case None => Ok(0.0)
    case Some(n) => if Total(vars) == 0 then Err(ZERO_DIVISION_ERROR) else Ok(n as real / Total(vars) as real)
  }

  /** variant_prob_dist, over the variant dictionary of the log (get_variant_dict is not part of
      this model): the probability of each variant, in the dictionary's order. */
  function VariantProbDist(vars: Variants): (r: Result<VariantDist>)
    ensures r.Ok? ==> |r.value| == |vars| && forall i :: 0 <= i < |vars| ==> r.value[i].0 == vars[i].0
  {
    if vars != [] && Total(vars) == 0 then Err(ZERO_DIVISION_ERROR)
    else Ok(seq(|vars|, i requires 0 <= i < |vars| => (vars[i].0, VariantProb(vars[i].0, vars).Extract())))
  }

  /** The probabilities of a distribution, in order. */
  function Probs(d: VariantDist): (r: seq<real>)
    ensures |r| == |d|
  {
    seq(|d|, i requires 0 <= i < |d| => d[i].1)
  }

  /** The counts of the variants as reals, in order. */
  function Counts(vars: Variants): (r: seq<real>)
    ensures |r| == |vars|
  {
    seq(|vars|, i requires 0 <= i < |vars| => vars[i].1 as real)
  }

  lemma {:induction false} CountsSum(vars: Variants)
    ensures Probabilities.SeqSum(Counts(vars)) == Total(vars) as real
  {
    if vars != [] {
      assert Counts(vars)[1..] == Counts(vars[1..]);
      CountsSum(vars[1..]);
    }
  }

  lemma {:induction false} DistValues(vars: Variants)
    requires DistinctKeys(vars) && VariantProbDist(vars).Ok? && Total(vars) != 0
    ensures Probs(VariantProbDist(vars).value) == Probabilities.Divided(Counts(vars), Total(vars) as real)
  {
    var r := VariantProbDist(vars);
    var t := Total(vars) as real;
    forall i | 0 <= i < |vars|
      ensures Probs(r.value)[i] == Probabilities.Divided(Counts(vars), t)[i]
    {
      GetEntry(vars, i);
    }
  }

  /** Values divided by their non-zero sum sum to 1, and lie in [0, 1] when none is negative. */
  lemma {:induction false} DividedBySum(xs: seq<real>, t: real)
    requires t == Probabilities.SeqSum(xs) && t != 0.0
    ensures Probabilities.SeqSum(Probabilities.Divided(xs, t)) == 1.0
    ensures (forall j :: 0 <= j < |xs| ==> xs[j] >= 0.0) ==>
      forall i :: 0 <= i < |xs| ==> 0.0 <= Probabilities.Divided(xs, t)[i] <= 1.0
  {
    Probabilities.SeqSumDivided(xs, t);
    Probabilities.SelfRatio(t);
    if forall j :: 0 <= j < |xs| ==> xs[j] >= 0.0 {
      forall i | 0 <= i < |xs|
        ensures 0.0 <= Probabilities.Divided(xs, t)[i] <= 1.0
      {
        Probabilities.SeqSumBound(xs, i);
        Probabilities.UnitRatio(xs[i], t);
      }
    }
  }

  /** With distinct variants, the distribution exists unless the counts sum to 0; each
      variant's probability is its count over the total, so that they sum to 1, and counts
      that are not negative give probabilities in [0, 1]. */
  lemma {:induction false} VariantProbDistSpec(vars: Variants)
    requires DistinctKeys(vars)
    ensures VariantProbDist(vars).Ok? <==> vars == [] || Total(vars) != 0
    ensures VariantProbDist(vars).Ok? ==>
      forall i :: 0 <= i < |vars| ==> VariantProbDist(vars).value[i].1 == vars[i].1 as real / Total(vars) as real
    ensures VariantProbDist(vars).Ok? && vars != [] ==> Probabilities.SeqSum(Probs(VariantProbDist(vars).value)) == 1.0
    ensures VariantProbDist(vars).Ok? && (forall i :: 0 <= i < |vars| ==> vars[i].1 >= 0) ==>
      forall i :: 0 <= i < |vars| ==> 0.0 <= VariantProbDist(vars).value[i].1 <= 1.0
  {
    if VariantProbDist(vars).Ok? && vars != [] {
      DistShares(vars);
    }
  }

  lemma {:induction false} DistShares(vars: Variants)
    requires DistinctKeys(vars) && VariantProbDist(vars).Ok? && vars != []
    ensures forall i :: 0 <= i < |vars| ==> VariantProbDist(vars).value[i].1 == vars[i].1 as real / Total(vars) as real
    ensures Probabilities.SeqSum(Probs(VariantProbDist(vars).value)) == 1.0
    ensures (forall i :: 0 <= i < |vars| ==> vars[i].1 >= 0) ==>
      forall i :: 0 <= i < |vars| ==> 0.0 <= VariantProbDist(vars).value[i].1 <= 1.0
  {
    var r := VariantProbDist(vars).value;
    var t := Total(vars) as real;
    var xs := Counts(vars);
    DistValues(vars);
    forall i | 0 <= i < |vars|
      ensures r[i].1 == xs[i] / t
    {
      assert r[i].1 == Probs(r)[i] == Probabilities.Divided(xs, t)[i];
    }
    CountsSum(vars);
    DividedBySum(xs, t);
    if forall i :: 0 <= i < |vars| ==> vars[i].1 >= 0 {
      assert forall j :: 0 <= j < |xs| ==> xs[j] >= 0.0;
      forall i | 0 <= i < |vars|
        ensures 0.0 <= r[i].1 <= 1.0
      {
        assert r[i].1 == Probabilities.Divided(xs, t)[i];
      }
    }
  }

  // ---------------------------------------------------------------------------------------
  // rename_sagns

  /** The skip alignments of a dictionary in iteration order, list after list. */
  function Flatten(skipDict: SkipDict): seq<State> {
    if skipDict == [] then [] else Flatten(skipDict[..|skipDict| - 1]) + skipDict[|skipDict| - 1].1
  }

  predicate Distinct(f: seq<State>) {
    forall a, b :: 0 <= a < b < |f| ==> f[a] != f[b]
  }

  /** Each skip alignment is named by its position in iteration order. */
  predicate NamedInOrder(f: seq<State>)
    reads f
  {
    forall n :: 0 <= n < |f| ==> f[n].name == n
  }

  lemma {:induction false} FlattenPrefix(skipDict: SkipDict, k: nat)
    requires k <= |skipDict|
    ensures Flatten(skipDict[..k]) <= Flatten(skipDict)
    decreases |skipDict|
  {
    if k < |skipDict| {
      var init := skipDict[..|skipDict| - 1];
      assert skipDict[..k] == init[..k];
      FlattenPrefix(init, k);
    } else {
      assert skipDict[..k] == skipDict;
    }
  }

  /** The flattened alignments are the dictionary's alignments. */
  lemma {:induction false} FlattenMembers(skipDict: SkipDict)
    ensures forall n :: 0 <= n < |Flatten(skipDict)| ==> Flatten(skipDict)[n] in StatesOf(skipDict)
  {
    if skipDict != [] {
      var last := |skipDict| - 1;
      var init := skipDict[..last];
      FlattenMembers(init);
      forall n | 0 <= n < |Flatten(skipDict)|
        ensures Flatten(skipDict)[n] in StatesOf(skipDict)
      {
        if n < |Flatten(init)| {
          var s := Flatten(init)[n];
          var k, i :| 0 <= k < |init| && 0 <= i < |init[k].1| && s == init[k].1[i];
          assert s == skipDict[k].1[i];
        } else {
          assert Flatten(skipDict)[n] == skipDict[last].1[n - |Flatten(init)|];
        }
      }
    }
  }

  lemma {:induction false} FlattenStep(skipDict: SkipDict, k: nat)
    requires k < |skipDict|
    ensures Flatten(skipDict[..k + 1]) == Flatten(skipDict[..k]) + skipDict[k].1
    ensures Flatten(skipDict[..k + 1]) <= Flatten(skipDict)
  {
    assert skipDict[..k + 1][..k] == skipDict[..k];
    FlattenPrefix(skipDict, k + 1);
  }

  /** rename_sagns: numbers the skip alignments 0, 1, ... in iteration order. The lists are
      taken to hold distinct alignments, so that no name is overwritten. */
  method RenameSagns(skipDict: SkipDict)
    requires Distinct(Flatten(skipDict))
    modifies StatesOf(skipDict)
    ensures NamedInOrder(Flatten(skipDict))
    ensures forall s :: s in StatesOf(skipDict) ==> s.path == old(s.path) && s.executions == old(s.executions)
  {
    ghost var f := Flatten(skipDict);
    FlattenMembers(skipDict);
    var counter := 0;
    for k := 0 to |skipDict|
      invariant counter <= |f| && Flatten(skipDict[..k]) == f[..counter]
      invariant forall n :: 0 <= n < counter ==> f[n].name == n
      invariant forall s :: s in StatesOf(skipDict) ==> s.path == old(s.path) && s.executions == old(s.executions)
    {
      FlattenStep(skipDict, k);
      var states := skipDict[k].1;
      ghost var start := counter;
      for i := 0 to |states|
        invariant counter == start + i
        invariant forall n :: 0 <= n < counter ==> f[n].name == n
        invariant forall s :: s in StatesOf(skipDict) ==> s.path == old(s.path) && s.executions == old(s.executions)
      {
        assert states[i] == Flatten(skipDict[..k + 1])[counter] == f[counter];
        states[i].name := counter;
        counter := counter + 1;
      }
      assert Flatten(skipDict[..k + 1]) == f[..counter];
    }
    assert skipDict[..|skipDict|] == skipDict;
  }

  // ---------------------------------------------------------------------------------------
  // The skip alignments as the prob_per_* methods read them

  /** A skip alignment as prob_per_variant_and_node and prob_per_node read it: the state
      itself, which keys the probability tables, with its name and its path. */
  datatype Sagn = Sagn(state: State, name: int, path: seq<Step>)

  /** A skip-alignment dictionary, read as values. */
  type SagnDict = seq<(string, seq<Sagn>)>

  function View(s: State): (r: Sagn)
    reads s
    ensures r.state == s && r.name == s.name && r.path == s.path
  {
    Sagn(s, s.name, s.path)
  }

  /** The dictionary's skip alignments with their current names and paths: rename_sagns has
      numbered them, and the prob_per_* methods only read them. */
  function Snapshot(skipDict: SkipDict): (r: SagnDict)
    reads StatesOf(skipDict)
    ensures |r| == |skipDict|
    ensures forall k :: 0 <= k < |r| ==> r[k].0 == skipDict[k].0 && |r[k].1| == |skipDict[k].1|
    ensures forall k, i :: 0 <= k < |r| && 0 <= i < |r[k].1| ==> r[k].1[i] == View(skipDict[k].1[i])
  {
    if skipDict == [] then []
    else
      var init := skipDict[..|skipDict| - 1];
      var last := skipDict[|skipDict| - 1];
      assert forall k, i :: 0 <= k < |init| && 0 <= i < |init[k].1| ==> init[k].1[i] == skipDict[k].1[i];
      assert forall i :: 0 <= i < |last.1| ==> last.1[i] == skipDict[|skipDict| - 1].1[i];
      Snapshot(init) + [(last.0, seq(|last.1|, i requires 0 <= i < |last.1| reads last.1 => View(last.1[i])))]
  }

  // ---------------------------------------------------------------------------------------
  // prob_per_state_and_node

  /** conditional_skip_prob's result: per skip alignment, the skip probability of each node. */
  type SkipProbs = map<State, map<Tree, real>>

  /** skip_agn_probs_traversal's conditional probabilities: per node, per skip alignment. */
  type SagnProbs = map<Tree, map<State, real>>

  /** The tables the prob_per_* methods share: the skip alignments, the skip probabilities
      (of the copies in the backup dictionary), the conditional probabilities of the skip
      alignments, the variant distribution, and the skip alignments of each name. */
  datatype Tables = Tables(skipDict: SagnDict, backup: SagnDict, skipProb: SkipProbs, sagnProb: SagnProbs,
                           variantProb: VariantDist, ids: map<int, State>, idsBackup: map<int, State>)

  /** Every lookup of prob_per_state_and_node finds its key. */
  predicate StateKnown(node: Tree, id: int, variant: seq<string>, t: Tables) {
    && id in t.idsBackup && t.idsBackup[id] in t.skipProb && node in t.skipProb[t.idsBackup[id]]
    && node in t.sagnProb && id in t.ids && t.ids[id] in t.sagnProb[node]
    && Get(t.variantProb, variant).Some?
  }

  /** The node's skip probability in the backup copy of skip alignment `id`. */
  function SkipFactor(node: Tree, id: int, t: Tables): real
    requires id in t.idsBackup && t.idsBackup[id] in t.skipProb && node in t.skipProb[t.idsBackup[id]]
  {
    t.skipProb[t.idsBackup[id]][node]
  }

  /** The conditional probability of skip alignment `id` for the node. */
  function SagnFactor(node: Tree, id: int, t: Tables): real
    requires node in t.sagnProb && id in t.ids && t.ids[id] in t.sagnProb[node]
  {
    t.sagnProb[node][t.ids[id]]
  }

  /** prob_per_state_and_node: the skip probability times the skip alignment's conditional
      probability times the variant's probability. */
  function ProbPerStateAndNode(node: Tree, id: int, variant: seq<string>, t: Tables): real
    requires StateKnown(node, id, variant, t)
  {
    SkipFactor(node, id, t) * SagnFactor(node, id, t) * Get(t.variantProb, variant).value
  }

  /** Three probabilities give a probability no larger than any of them, and 0 when one is 0. */
  lemma {:induction false} ProbPerStateAndNodeBounds(node: Tree, id: int, variant: seq<string>, t: Tables)
    requires StateKnown(node, id, variant, t)
    requires 0.0 <= SkipFactor(node, id, t) <= 1.0 && 0.0 <= SagnFactor(node, id, t) <= 1.0
    requires 0.0 <= Get(t.variantProb, variant).value <= 1.0
    ensures 0.0 <= ProbPerStateAndNode(node, id, variant, t)
    ensures ProbPerStateAndNode(node, id, variant, t) <= SkipFactor(node, id, t)
    ensures ProbPerStateAndNode(node, id, variant, t) <= SagnFactor(node, id, t)
    ensures ProbPerStateAndNode(node, id, variant, t) <= Get(t.variantProb, variant).value
    ensures SkipFactor(node, id, t) == 0.0 || SagnFactor(node, id, t) == 0.0 || Get(t.variantProb, variant).value == 0.0
      ==> ProbPerStateAndNode(node, id, variant, t) == 0.0
  {
    Product3Bounds(SkipFactor(node, id, t), SagnFactor(node, id, t), Get(t.variantProb, variant).value,
                   ProbPerStateAndNode(node, id, variant, t));
  }

  lemma {:induction false} Product3Bounds(a: real, b: real, c: real, p: real)
    requires 0.0 <= a <= 1.0 && 0.0 <= b <= 1.0 && 0.0 <= c <= 1.0
    requires p == (a * b) * c
    ensures 0.0 <= p && p <= a && p <= b && p <= c
    ensures a == 0.0 || b == 0.0 || c == 0.0 ==> p == 0.0
  {
    ProductBounds(a, b, a * b);
    ProductBounds(a * b, c, p);
  }

  /** The product of two probabilities is a probability no larger than either. */
  lemma {:induction false} ProductBounds(x: real, y: real, z: real)
    requires 0.0 <= x <= 1.0 && 0.0 <= y <= 1.0 && z == x * y
    ensures 0.0 <= z <= x && z <= y && (x == 0.0 || y == 0.0 ==> z == 0.0)
  {
    ScaleDownLeft(x, y, z);
    ScaleDown(x, y, z);
    MulNonnegative(x, y, z);
    if x == 0.0 || y == 0.0 {
      ZeroFactor(x, y, z);
    }
  }

  lemma {:induction false} MulNonnegative(x: real, y: real, z: real)
    requires x >= 0.0 && y >= 0.0 && z == x * y
    ensures z >= 0.0
  {
  }

  lemma {:induction false} ScaleDownLeft(x: real, y: real, z: real)
    requires x <= 1.0 && y >= 0.0 && z == x * y
    ensures z <= y
  {
    MulNonnegative(1.0 - x, y, y - z);
  }

  lemma {:induction false} ScaleDown(x: real, y: real, z: real)
    requires x >= 0.0 && y <= 1.0 && z == x * y
    ensures z <= x
  {
    MulNonnegative(x, 1.0 - y, x - z);
  }

  lemma {:induction false} ZeroFactor(x: real, y: real, z: real)
    requires z == x * y && (x == 0.0 || y == 0.0)
    ensures z == 0.0
  {
  }

  // ---------------------------------------------------------------------------------------
  // Sums of results, as the loops of prob_per_variant_and_node and prob_per_node add them up

  /** The sum of a sequence of results in order; the first failure decides the error, as in a
      loop that adds each result and stops at the first exception. */
  function SumOf(rs: seq<Result<real>>): Result<real> {
    if rs == [] then Ok(0.0)
    else
      var m :- SumOf(rs[..|rs| - 1]);
      var x :- rs[|rs| - 1];
      Ok(m + x)
  }

  /** Once a prefix fails, the whole sum fails with the same error. */
  lemma {:induction false} SumOfFails(rs: seq<Result<real>>, n: nat)
    requires n <= |rs| && SumOf(rs[..n]).Err?
    ensures SumOf(rs) == SumOf(rs[..n])
    decreases |rs|
  {
    if n < |rs| {
      var init := rs[..|rs| - 1];
      assert init[..n] == rs[..n];
      SumOfFails(init, n);
    } else {
      assert rs[..n] == rs;
    }
  }

  /** A sum is the sum of its first results plus its last one. */
  lemma {:induction false} SumOfLast(rs: seq<Result<real>>, init: seq<Result<real>>, last: Result<real>)
    requires |rs| > 0 && rs[..|rs| - 1] == init && rs[|rs| - 1] == last
    ensures SumOf(rs) == (var m :- SumOf(init); var x :- last; Ok(m + x))
  {
  }

  /** One step of a summing loop: the sum of the first i + 1 results from that of the first i. */
  lemma {:induction false} SumPrefixNext(rs: seq<Result<real>>, i: nat, m: real, x: Result<real>)
    requires i < |rs| && SumOf(rs[..i]) == Ok(m) && rs[i] == x
    ensures SumOf(rs[..i + 1]) == if x.Err? then Err(x.msg) else Ok(m + x.value)
  {
    assert rs[..i + 1][..i] == rs[..i];
  }

  /** A summing loop that has run to the end, or has met a failure, holds the whole sum. */
  lemma {:induction false} SumPrefixEnd(rs: seq<Result<real>>, n: nat)
    requires n <= |rs| && (n == |rs| || SumOf(rs[..n]).Err?)
    ensures SumOf(rs) == SumOf(rs[..n])
  {
    if n == |rs| {
      assert rs[..n] == rs;
    } else {
      SumOfFails(rs, n);
    }
  }

  /** The sum fails exactly when one of the results fails, and then with the first failure. */
  lemma {:induction false} SumOfErr(rs: seq<Result<real>>)
    ensures SumOf(rs).Err? <==> exists i :: 0 <= i < |rs| && rs[i].Err?
    ensures SumOf(rs).Err? ==> exists i :: 0 <= i < |rs| && rs[i] == SumOf(rs) && forall j :: 0 <= j < i ==> rs[j].Ok?
    decreases |rs|
  {
    if rs != [] {
      var init := rs[..|rs| - 1];
      SumOfErr(init);
      assert forall i :: 0 <= i < |init| ==> init[i] == rs[i];
      if SumOf(init).Err? {
        var i :| 0 <= i < |init| && init[i] == SumOf(init) && forall j :: 0 <= j < i ==> init[j].Ok?;
        assert rs[i] == SumOf(rs);
      } else if rs[|rs| - 1].Err? {
        assert forall j :: 0 <= j < |rs| - 1 ==> rs[j].Ok?;
      } else {
        assert forall i :: 0 <= i < |rs| ==> i < |init| || rs[i] == rs[|rs| - 1];
      }
    }
  }

  /** Results that are never negative sum to a non-negative value. */
  lemma {:induction false} SumOfNonnegative(rs: seq<Result<real>>)
    requires forall i :: 0 <= i < |rs| && rs[i].Ok? ==> rs[i].value >= 0.0
    ensures SumOf(rs).Ok? ==> SumOf(rs).value >= 0.0
    decreases |rs|
  {
    if rs != [] {
      var init := rs[..|rs| - 1];
      assert forall i :: 0 <= i < |init| ==> init[i] == rs[i];
      SumOfNonnegative(init);
    }
  }

  /** Results that are all 0 sum to 0. */
  lemma {:induction false} SumOfZero(rs: seq<Result<real>>)
    requires forall i :: 0 <= i < |rs| ==> rs[i] == Ok(0.0)
    ensures SumOf(rs) == Ok(0.0)
    decreases |rs|
  {
    if rs != [] {
      var init := rs[..|rs| - 1];
      assert forall i :: 0 <= i < |init| ==> init[i] == rs[i];
      SumOfZero(init);
    }
  }

  /** The integer sum of a sequence of results in order; the first failure decides the error. */
  function CountOf(rs: seq<Result<int>>): Result<int> {
    if rs == [] then Ok(0)
    else
      var c :- CountOf(rs[..|rs| - 1]);
      var x :- rs[|rs| - 1];
      Ok(c + x)
  }

  lemma {:induction false} CountOfStep(rs: seq<Result<int>>, i: nat, c: int, x: Result<int>)
    requires i < |rs| && CountOf(rs[..i]) == Ok(c) && rs[i] == x
    ensures CountOf(rs[..i + 1]) == if x.Err? then Err(x.msg) else Ok(c + x.value)
  {
    assert rs[..i + 1][..i] == rs[..i];
  }

  lemma {:induction false} CountOfFails(rs: seq<Result<int>>, n: nat)
    requires n <= |rs| && CountOf(rs[..n]).Err?
    ensures CountOf(rs) == CountOf(rs[..n])
    decreases |rs|
  {
    if n < |rs| {
      var init := rs[..|rs| - 1];
      assert init[..n] == rs[..n];
      CountOfFails(init, n);
    } else {
      assert rs[..n] == rs;
    }
  }

  /** A sum of counts that are never negative fails exactly when one count fails; otherwise
      it is non-negative, and positive exactly when one count is. */
  lemma {:induction false} CountOfSpec(rs: seq<Result<int>>)
    requires forall i :: 0 <= i < |rs| && rs[i].Ok? ==> rs[i].value >= 0
    ensures CountOf(rs).Err? <==> exists i :: 0 <= i < |rs| && rs[i].Err?
    ensures CountOf(rs).Ok? ==> CountOf(rs).value >= 0
    ensures CountOf(rs).Ok? ==> (CountOf(rs).value > 0 <==> exists i :: 0 <= i < |rs| && rs[i].Ok? && rs[i].value > 0)
    decreases |rs|
  {
    if rs != [] {
      var init := rs[..|rs| - 1];
      assert forall i :: 0 <= i < |init| ==> init[i] == rs[i];
      CountOfSpec(init);
      if CountOf(init).Ok? && rs[|rs| - 1].Ok? {
        assert forall i :: 0 <= i < |rs| ==> i < |init| || rs[i] == rs[|rs| - 1];
      }
    }
  }

  // ---------------------------------------------------------------------------------------
  // prob_per_variant_and_node

  /** The key of a variant in the skip-alignment dictionaries, `", ".join(variant)`. */
  function Key(variant: seq<string>): string {
    Strings.Join(variant, ", ")
  }

  /** The position of a key in a skip-alignment dictionary. */
  function ListIndex(skipDict: SagnDict, key: string): (r: Option<nat>)
    ensures r.Some? ==> r.value < |skipDict| && skipDict[r.value].0 == key
    ensures r.None? ==> forall k :: 0 <= k < |skipDict| ==> skipDict[k].0 != key
  {
    if skipDict == [] then None
    else if skipDict[0].0 == key then Some(0)
    else match ListIndex(skipDict[1..], key)
      case None => None
      case Some(j) => Some(j + 1)
  }

  /** The list of skip alignments of a key, empty for a key the dictionary does not have. */
  function ListOf(skipDict: SagnDict, key: string): seq<Sagn> {
    match ListIndex(skipDict, key)
    case None => []
    case Some(k) => skipDict[k].1
  }

  /** A skip alignment's term of the first sum of prob_per_variant_and_node. */
  function StateTerm(node: Tree, variant: seq<string>, s: Sagn, t: Tables): real
  {
    if StateKnown(node, s.name, variant, t) then ProbPerStateAndNode(node, s.name, variant, t) else 0.0
  }

  /** The first sum of prob_per_variant_and_node: over the variant's skip alignments. */
  function ProductSum(node: Tree, variant: seq<string>, states: seq<Sagn>, t: Tables): real
  {
    if states == [] then 0.0
    else ProductSum(node, variant, states[..|states| - 1], t) + StateTerm(node, variant, states[|states| - 1], t)
  }

  /** The conditional probability of skip alignment `s` for the node, 0 when it has none. */
  function SagnProb(node: Tree, s: Sagn, t: Tables): real
  {
    if node in t.sagnProb && s.name in t.ids && t.ids[s.name] in t.sagnProb[node] then SagnFactor(node, s.name, t) else 0.0
  }

  /** A backup skip alignment's term of the second sum of prob_per_variant_and_node: its
      conditional probability when it executes or skips the node. */
  function ReachShare(node: Tree, s: Sagn, t: Tables): Result<real>
  {
    var n :- Skips.Executions(node, s.path, 1);
    Ok(if n > 0 then SagnProb(node, s, t) else 0.0)
  }

  function ReachShares(node: Tree, backup: seq<Sagn>, t: Tables): seq<Result<real>>
  {
    seq(|backup|, i requires 0 <= i < |backup| => ReachShare(node, backup[i], t))
  }

  /** The second sum of prob_per_variant_and_node: the conditional probability of the skip
      alignments (of the backup list) that reach the node. */
  function ReachMass(node: Tree, backup: seq<Sagn>, t: Tables): Result<real>
  {
    if backup == [] then Ok(0.0)
    else
      var m :- ReachMass(node, backup[..|backup| - 1], t);
      var r :- ReachShare(node, backup[|backup| - 1], t);
      Ok(m + r)
  }

  /** The mass is the sum of the shares. */
  lemma {:induction false} ReachMassSum(node: Tree, backup: seq<Sagn>, t: Tables)
    ensures ReachMass(node, backup, t) == SumOf(ReachShares(node, backup, t))
  {
    if backup != [] {
      var init := backup[..|backup| - 1];
      ReachMassSum(node, init, t);
      var rs := ReachShares(node, backup, t);
      assert rs[..|rs| - 1] == ReachShares(node, init, t);
      SumOfLast(rs, ReachShares(node, init, t), ReachShare(node, backup[|backup| - 1], t));
    }
  }

  /** What prob_per_variant_and_node computes: the summed products divided by the mass of the
      reaching skip alignments, or 0 when that mass is 0. */
  function VariantNodeProb(node: Tree, variant: seq<string>, t: Tables): Result<real>
  {
    var mass :- ReachMass(node, ListOf(t.backup, Key(variant)), t);
    Ok(if mass == 0.0 then 0.0 else ProductSum(node, variant, ListOf(t.skipDict, Key(variant)), t) / mass)
  }

  /** The lookups of prob_per_variant_and_node for a backup skip alignment find their keys. */
  predicate BackupKnown(node: Tree, s: Sagn, t: Tables)
  {
    node in t.sagnProb && s.name in t.ids && t.ids[s.name] in t.sagnProb[node]
  }

  /** Every lookup of the first loop of prob_per_variant_and_node finds its key. */
  predicate StatesKnown(node: Tree, variant: seq<string>, states: seq<Sagn>, t: Tables)
  {
    forall i :: 0 <= i < |states| ==> StateKnown(node, states[i].name, variant, t)
  }

  /** Every lookup of the second loop of prob_per_variant_and_node finds its key. */
  predicate BackupsKnown(node: Tree, backup: seq<Sagn>, t: Tables)
  {
    forall i :: 0 <= i < |backup| ==> BackupKnown(node, backup[i], t)
  }

  /** Every lookup of prob_per_variant_and_node finds its key. */
  predicate VariantKnown(node: Tree, variant: seq<string>, t: Tables)
  {
    && ListIndex(t.skipDict, Key(variant)).Some?
    && ListIndex(t.backup, Key(variant)).Some?
    && StatesKnown(node, variant, ListOf(t.skipDict, Key(variant)), t)
    && BackupsKnown(node, ListOf(t.backup, Key(variant)), t)
  }

  /** prob_per_variant_and_node. */
  method ProbPerVariantAndNode(node: Tree, variant: seq<string>, t: Tables) returns (r: Result<real>)
    requires VariantKnown(node, variant, t)
    ensures r == VariantNodeProb(node, variant, t)
  {
    var key := Strings.Join(variant, ", ");
    var prob := SumProducts(node, variant, ListOf(t.skipDict, key), t);
    var mass := SumReaching(node, ListOf(t.backup, key), t);
    if mass.Err? {
      return Err(mass.msg);
    }
    if mass.value == 0.0 {
      return Ok(0.0);
    }
    return Ok(prob * 1.0 / mass.value);
  }

  /** The first loop of prob_per_variant_and_node. */
  method SumProducts(node: Tree, variant: seq<string>, states: seq<Sagn>, t: Tables) returns (prob: real)
    requires StatesKnown(node, variant, states, t)
    ensures prob == ProductSum(node, variant, states, t)
  {
    prob := 0.0;
    for i := 0 to |states|
      invariant prob == ProductSum(node, variant, states[..i], t)
    {
      assert states[..i + 1][..i] == states[..i];
      prob := prob + ProbPerStateAndNode(node, states[i].name, variant, t);
    }
    assert states[..|states|] == states;
  }

  /** The second loop of prob_per_variant_and_node. */
  method SumReaching(node: Tree, backup: seq<Sagn>, t: Tables) returns (mass: Result<real>)
    requires BackupsKnown(node, backup, t)
    ensures mass == ReachMass(node, backup, t)
  {
    ghost var rs := ReachShares(node, backup, t);
    ReachMassSum(node, backup, t);
    var m := 0.0;
    for i := 0 to |backup|
      invariant SumOf(rs[..i]) == Ok(m)
    {
      var r := ReachOf(node, backup[i], t);
      SumPrefixNext(rs, i, m, r);
      if r.Err? {
        SumPrefixEnd(rs, i + 1);
        return Err(r.msg);
      }
      m := m + r.value;
    }
    SumPrefixEnd(rs, |backup|);
    return Ok(m);
  }

  /** The body of the second loop of prob_per_variant_and_node, for one skip alignment. */
  method ReachOf(node: Tree, s: Sagn, t: Tables) returns (r: Result<real>)
    requires BackupKnown(node, s, t)
    ensures r == ReachShare(node, s, t)
  {
    var skipCnt := Skips.CountSkipExecutions(node, s.path, 1);
    var nskipCnt := Skips.CountNonSkipExecutions(node, s.path, 1);
    if nskipCnt.Err? {
      return Err(nskipCnt.msg);
    }
    r := Ok(if skipCnt + nskipCnt.value > 0 then t.sagnProb[node][t.ids[s.name]] else 0.0);
  }

  // ---------------------------------------------------------------------------------------
  // prob_per_node

  /** A reach count that succeeds is never negative. */
  lemma {:induction false} ReachNonnegative(node: Tree, path: seq<Step>)
    ensures Skips.Executions(node, path, 1).Ok? ==> Skips.Executions(node, path, 1).value >= 0
  {
    Skips.NonSkipNonnegative(node, path, 1);
  }

  function Reaches(node: Tree, backup: seq<Sagn>): seq<Result<int>>
  {
    seq(|backup|, i requires 0 <= i < |backup| => Skips.Executions(node, backup[i].path, 1))
  }

  /** The counts of prob_per_node's innermost loop: skip_cnt + nskip_cnt over the backup skip
      alignments of one variant. */
  function CountsOf(node: Tree, backup: seq<Sagn>): Result<int>
  {
    if backup == [] then Ok(0)
    else
      var c :- CountsOf(node, backup[..|backup| - 1]);
      var x :- Skips.Executions(node, backup[|backup| - 1].path, 1);
      Ok(c + x)
  }

  /** The counts are the sum of the executions of each skip alignment. */
  lemma {:induction false} CountsOfSum(node: Tree, backup: seq<Sagn>)
    ensures CountsOf(node, backup) == CountOf(Reaches(node, backup))
  {
    if backup != [] {
      var init := backup[..|backup| - 1];
      CountsOfSum(node, init);
      var rs := Reaches(node, backup);
      assert rs[..|rs| - 1] == Reaches(node, init);
    }
  }

  /** The variant's probability, 0 for a variant the distribution does not have. */
  function Weight(v: seq<string>, t: Tables): real {
    match Get(t.variantProb, v)
    case None => 0.0
    case Some(p) => p
  }

  /** A variant's term of the second sum of prob_per_node: its probability when one of its
      backup skip alignments executes or skips the node. */
  function VariantShare(node: Tree, v: seq<string>, t: Tables): Result<real>
  {
    var c :- CountsOf(node, ListOf(t.backup, Key(v)));
    Ok(if c > 0 then Weight(v, t) else 0.0)
  }

  function VariantShares(node: Tree, vs: Variants, t: Tables): (r: seq<Result<real>>)
    ensures |r| == |vs|
  {
    if vs == [] then [] else VariantShares(node, vs[..|vs| - 1], t) + [VariantShare(node, vs[|vs| - 1].0, t)]
  }

  lemma {:induction false} VariantSharesIndex(node: Tree, vs: Variants, t: Tables, i: nat)
    requires i < |vs|
    ensures VariantShares(node, vs, t)[i] == VariantShare(node, vs[i].0, t)
  {
    if i < |vs| - 1 {
      VariantSharesIndex(node, vs[..|vs| - 1], t, i);
    }
  }

  /** The second sum of prob_per_node: the probability of the variants that reach the node. */
  function VariantReach(node: Tree, vs: Variants, t: Tables): Result<real>
  {
    SumOf(VariantShares(node, vs, t))
  }

  function VariantProbs(node: Tree, vs: Variants, t: Tables): (r: seq<Result<real>>)
    ensures |r| == |vs|
  {
    if vs == [] then [] else VariantProbs(node, vs[..|vs| - 1], t) + [VariantNodeProb(node, vs[|vs| - 1].0, t)]
  }

  lemma {:induction false} VariantProbsIndex(node: Tree, vs: Variants, t: Tables, i: nat)
    requires i < |vs|
    ensures VariantProbs(node, vs, t)[i] == VariantNodeProb(node, vs[i].0, t)
  {
    if i < |vs| - 1 {
      VariantProbsIndex(node, vs[..|vs| - 1], t, i);
    }
  }

  /** The first sum of prob_per_node: prob_per_variant_and_node over the variants. */
  function NodeSum(node: Tree, vs: Variants, t: Tables): Result<real>
  {
    SumOf(VariantProbs(node, vs, t))
  }

  /** What prob_per_node computes: the first sum divided by the probability of the variants
      that reach the node, or 0 when no variant reaches it. */
  function NodeProb(node: Tree, vs: Variants, t: Tables): Result<real>
  {
    var p :- NodeSum(node, vs, t);
    var m :- VariantReach(node, vs, t);
    Ok(if m == 0.0 then 0.0 else p / m)
  }

  /** Every lookup of prob_per_node finds its key. */
  predicate NodeKnown(node: Tree, vs: Variants, t: Tables)
  {
    forall i :: 0 <= i < |vs| ==> VariantKnown(node, vs[i].0, t) && Get(t.variantProb, vs[i].0).Some?
  }

  lemma {:induction false} VariantProbsAt(node: Tree, vs: Variants, t: Tables, i: nat)
    requires NodeKnown(node, vs, t) && i < |vs|
    ensures VariantKnown(node, vs[i].0, t) && VariantProbs(node, vs, t)[i] == VariantNodeProb(node, vs[i].0, t)
  {
    VariantProbsIndex(node, vs, t, i);
  }

  /** prob_per_node. */
  method ProbPerNode(node: Tree, variants: Variants, t: Tables) returns (r: Result<real>)
    requires NodeKnown(node, variants, t)
    ensures r == NodeProb(node, variants, t)
  {
    ghost var qs := VariantProbs(node, variants, t);
    forall i | 0 <= i < |variants|
      ensures qs[i] == VariantNodeProb(node, variants[i].0, t)
    {
      VariantProbsIndex(node, variants, t, i);
    }
    var prob := SumVariants(node, variants, t, qs);
    if prob.Err? {
      return Err(prob.msg);
    }
    var mass := SumReachingVariants(node, variants, t);
    if mass.Err? {
      return Err(mass.msg);
    }
    if mass.value == 0.0 {
      return Ok(0.0);
    }
    return Ok(prob.value * 1.0 / mass.value);
  }

  /** The first loop of prob_per_node. */
  method SumVariants(node: Tree, vs: Variants, t: Tables, ghost qs: seq<Result<real>>) returns (prob: Result<real>)
    requires NodeKnown(node, vs, t)
    requires |qs| == |vs| && forall i :: 0 <= i < |vs| ==> qs[i] == VariantNodeProb(node, vs[i].0, t)
    ensures prob == SumOf(qs)
  {
    var p := 0.0;
    for i := 0 to |vs|
      invariant SumOf(qs[..i]) == Ok(p)
    {
      assert VariantKnown(node, vs[i].0, t);
      var q := ProbPerVariantAndNode(node, vs[i].0, t);
      SumPrefixNext(qs, i, p, q);
      if q.Err? {
        SumPrefixEnd(qs, i + 1);
        return Err(q.msg);
      }
      p := p + q.value;
    }
    SumPrefixEnd(qs, |vs|);
    return Ok(p);
  }

  /** The second loop of prob_per_node. */
  method SumReachingVariants(node: Tree, vs: Variants, t: Tables) returns (mass: Result<real>)
    requires forall i :: 0 <= i < |vs| ==> ListIndex(t.backup, Key(vs[i].0)).Some? && Get(t.variantProb, vs[i].0).Some?
    ensures mass == VariantReach(node, vs, t)
  {
    ghost var ws := VariantShares(node, vs, t);
    var m := 0.0;
    for i := 0 to |vs|
      invariant SumOf(ws[..i]) == Ok(m)
    {
      var r := VariantReachOf(node, vs[i].0, t);
      VariantSharesIndex(node, vs, t, i);
      SumPrefixNext(ws, i, m, r);
      if r.Err? {
        SumPrefixEnd(ws, i + 1);
        return Err(r.msg);
      }
      m := m + r.value;
    }
    SumPrefixEnd(ws, |vs|);
    return Ok(m);
  }

  /** The body of the second loop of prob_per_node, for one variant. */
  method VariantReachOf(node: Tree, v: seq<string>, t: Tables) returns (r: Result<real>)
    requires ListIndex(t.backup, Key(v)).Some? && Get(t.variantProb, v).Some?
    ensures r == VariantShare(node, v, t)
  {
    var key := Strings.Join(v, ", ");
    var counts := CountReaching(node, ListOf(t.backup, key));
    if counts.Err? {
      return Err(counts.msg);
    }
    r := Ok(if counts.value > 0 then Get(t.variantProb, v).value else 0.0);
  }

  /** The innermost loop of prob_per_node: skip_cnt + nskip_cnt over the skip alignments. */
  method CountReaching(node: Tree, backup: seq<Sagn>) returns (counts: Result<int>)
    ensures counts == CountsOf(node, backup)
  {
    ghost var rs := Reaches(node, backup);
    CountsOfSum(node, backup);
    var skipCnt, nskipCnt := 0, 0;
    for i := 0 to |backup|
      invariant CountOf(rs[..i]) == Ok(skipCnt + nskipCnt)
    {
      var sk, ns := ReachCount(node, backup[i]);
      assert rs[i] == Skips.Executions(node, backup[i].path, 1);
      CountOfStep(rs, i, skipCnt + nskipCnt, Skips.Executions(node, backup[i].path, 1));
      if ns.Err? {
        CountOfFails(rs, i + 1);
        return Err(ns.msg);
      }
      skipCnt, nskipCnt := skipCnt + sk, nskipCnt + ns.value;
    }
    assert rs[..|backup|] == rs;
    return Ok(skipCnt + nskipCnt);
  }

  /** The two counts of one skip alignment in prob_per_node's innermost loop. */
  method ReachCount(node: Tree, s: Sagn) returns (skips: int, nonSkips: Result<int>)
    ensures Skips.Executions(node, s.path, 1) == if nonSkips.Err? then Err(nonSkips.msg) else Ok(skips + nonSkips.value)
  {
    skips := Skips.CountSkipExecutions(node, s.path, 1);
    nonSkips := Skips.CountNonSkipExecutions(node, s.path, 1);
  }
  // ---------------------------------------------------------------------------------------
  // recur_node_prob

  /** Every lookup of prob_per_node finds its key, for every node of the tree. */
  predicate TreeKnown(tree: Tree, vs: Variants, t: Tables)
  {
    forall n :: n in Nodes(tree) ==> NodeKnown(n, vs, t)
  }

  /** recur_node_prob: prob_per_node for every node of the tree, children first. It fails
      exactly when prob_per_node fails for some node; otherwise it maps each node of the tree,
      and nothing else, to its probability. */
  method RecurNodeProb(tree: Tree, variants: Variants, t: Tables) returns (r: Result<map<Tree, real>>)
    requires TreeKnown(tree, variants, t)
    ensures r.Ok? ==> r.value.Keys == Nodes(tree)
    ensures r.Ok? ==> forall n :: n in r.value ==> NodeProb(n, variants, t) == Ok(r.value[n])
    ensures r.Err? ==> exists n :: n in Nodes(tree) && NodeProb(n, variants, t) == Err(r.msg)
    decreases tree, 1
  {
    assert tree in Nodes(tree);
    match tree
    case Leaf(_, _, _) =>
      var p := ProbPerNode(tree, variants, t);
      if p.Err? {
        return Err(p.msg);
      }
      assert Nodes(tree) == {tree};
      return Ok(map[tree := p.value]);
    case Op(_, _, _) =>
      NodesOfOp(tree);
      var result := RecurChildren(tree, variants, t);
      if result.Err? {
        return Err(result.msg);
      }
      var p := ProbPerNode(tree, variants, t);
      if p.Err? {
        return Err(p.msg);
      }
      var m := result.value[tree := p.value];
      assert m.Keys == Nodes(tree);
      forall n | n in m
        ensures NodeProb(n, variants, t) == Ok(m[n])
      {
        if n != tree {
          assert m[n] == result.value[n];
        }
      }
      return Ok(m);
  }

  /** The loop of recur_node_prob over the children of an operator node. */
  method RecurChildren(tree: Tree, variants: Variants, t: Tables) returns (r: Result<map<Tree, real>>)
    requires tree.Op? && TreeKnown(tree, variants, t)
    ensures r.Ok? ==> forall n :: n in r.value <==> exists j :: 0 <= j < |tree.children| && n in Nodes(tree.children[j])
    ensures r.Ok? ==> forall n :: n in r.value ==> NodeProb(n, variants, t) == Ok(r.value[n])
    ensures r.Err? ==> exists n :: n in Nodes(tree) && NodeProb(n, variants, t) == Err(r.msg)
    decreases tree, 0
  {
    var cs := tree.children;
    var result: map<Tree, real> := map[];
    for i := 0 to |cs|
      invariant forall n :: n in result <==> exists j :: 0 <= j < i && n in Nodes(cs[j])
      invariant forall n :: n in result ==> NodeProb(n, variants, t) == Ok(result[n])
    {
      ChildNodes(tree, i);
      var res := RecurNodeProb(cs[i], variants, t);
      if res.Err? {
        return Err(res.msg);
      }
      result := result + res.value;
    }
    return Ok(result);
  }


  // ---------------------------------------------------------------------------------------
  // Properties of prob_per_node

  /** The counts of a variant fail exactly when the count of one of its skip alignments fails;
      otherwise they are positive exactly when one of its skip alignments executes or skips
      the node. */
  lemma {:induction false} CountsOfSpec(node: Tree, backup: seq<Sagn>)
    ensures CountsOf(node, backup).Err? <==> exists i :: 0 <= i < |backup| && Skips.Executions(node, backup[i].path, 1).Err?
    ensures CountsOf(node, backup).Ok? ==> CountsOf(node, backup).value >= 0
    ensures CountsOf(node, backup).Ok? ==>
      (CountsOf(node, backup).value > 0 <==> exists i :: 0 <= i < |backup| && Skips.Executions(node, backup[i].path, 1).Ok? && Skips.Executions(node, backup[i].path, 1).value > 0)
  {
    var rs := Reaches(node, backup);
    forall i | 0 <= i < |rs| && rs[i].Ok?
      ensures rs[i].value >= 0
    {
      ReachNonnegative(node, backup[i].path);
    }
    CountOfSpec(rs);
    CountsOfSum(node, backup);
    assert forall i :: 0 <= i < |backup| ==> rs[i] == Skips.Executions(node, backup[i].path, 1);
  }

  /** The first sum of prob_per_node fails exactly when prob_per_variant_and_node fails for
      some variant, and then with the failure of the first such variant. */
  lemma {:induction false} NodeSumErr(node: Tree, vs: Variants, t: Tables)
    ensures NodeSum(node, vs, t).Err? <==> exists i :: 0 <= i < |vs| && VariantNodeProb(node, vs[i].0, t).Err?
    ensures NodeSum(node, vs, t).Err? ==>
      exists i :: 0 <= i < |vs| && VariantNodeProb(node, vs[i].0, t) == NodeSum(node, vs, t)
        && forall j :: 0 <= j < i ==> VariantNodeProb(node, vs[j].0, t).Ok?
  {
    var qs := VariantProbs(node, vs, t);
    SumOfErr(qs);
    assert NodeSum(node, vs, t) == SumOf(qs);
    forall i | 0 <= i < |vs|
      ensures qs[i] == VariantNodeProb(node, vs[i].0, t)
    {
      VariantProbsIndex(node, vs, t, i);
    }
  }

  /** The mass of skip alignments that all miss the node is 0. */
  lemma {:induction false} ReachMassUnreached(node: Tree, backup: seq<Sagn>, t: Tables)
    requires forall i :: 0 <= i < |backup| ==> Skips.Executions(node, backup[i].path, 1) == Ok(0)
    ensures ReachMass(node, backup, t) == Ok(0.0)
  {
    SumOfZero(ReachShares(node, backup, t));
    ReachMassSum(node, backup, t);
  }

  /** prob_per_variant_and_node is 0 for a node that none of the variant's skip alignments
      executes or skips. */
  lemma {:induction false} VariantNodeUnreached(node: Tree, variant: seq<string>, t: Tables)
    requires forall i :: 0 <= i < |ListOf(t.backup, Key(variant))| ==>
      Skips.Executions(node, ListOf(t.backup, Key(variant))[i].path, 1) == Ok(0)
    ensures VariantNodeProb(node, variant, t) == Ok(0.0)
  {
    ReachMassUnreached(node, ListOf(t.backup, Key(variant)), t);
  }

  /** The backup skip alignments of every variant miss the node. */
  predicate Unreached(node: Tree, vs: Variants, t: Tables)
  {
    forall i, j :: 0 <= i < |vs| && 0 <= j < |ListOf(t.backup, Key(vs[i].0))| ==>
      Skips.Executions(node, ListOf(t.backup, Key(vs[i].0))[j].path, 1) == Ok(0)
  }

  /** prob_per_node is 0 for a node that no skip alignment of any variant executes or
      skips: both of its sums are 0. */
  lemma {:induction false} NodeUnreached(node: Tree, vs: Variants, t: Tables)
    requires Unreached(node, vs, t)
    ensures NodeSum(node, vs, t) == Ok(0.0)
    ensures VariantReach(node, vs, t) == Ok(0.0)
    ensures NodeProb(node, vs, t) == Ok(0.0)
  {
    var qs := VariantProbs(node, vs, t);
    forall i | 0 <= i < |vs|
      ensures qs[i] == Ok(0.0)
    {
      VariantProbsIndex(node, vs, t, i);
      VariantNodeUnreached(node, vs[i].0, t);
    }
    SumOfZero(qs);
    var ws := VariantShares(node, vs, t);
    forall i | 0 <= i < |vs|
      ensures ws[i] == Ok(0.0)
    {
      VariantSharesIndex(node, vs, t, i);
      CountsOfSpec(node, ListOf(t.backup, Key(vs[i].0)));
    }
    SumOfZero(ws);
  }

  /** Every probability in the tables is non-negative. */
  predicate NonnegativeTables(t: Tables) {
    && (forall s, n :: s in t.skipProb && n in t.skipProb[s] ==> t.skipProb[s][n] >= 0.0)
    && (forall n, s :: n in t.sagnProb && s in t.sagnProb[n] ==> t.sagnProb[n][s] >= 0.0)
    && (forall i :: 0 <= i < |t.variantProb| ==> t.variantProb[i].1 >= 0.0)
  }

  /** The probability of a variant that the distribution has is one of its entries. */
  lemma {:induction false} GetIsEntry<T>(d: seq<(seq<string>, T)>, v: seq<string>)
    requires Get(d, v).Some?
    ensures exists i :: 0 <= i < |d| && d[i].1 == Get(d, v).value
  {
    if d[0].0 != v {
      GetIsEntry(d[1..], v);
      var i :| 0 <= i < |d[1..]| && d[1..][i].1 == Get(d[1..], v).value;
      assert d[i + 1].1 == Get(d, v).value;
    }
  }

  lemma {:induction false} WeightNonnegative(v: seq<string>, t: Tables)
    requires NonnegativeTables(t)
    ensures Weight(v, t) >= 0.0
  {
    if Get(t.variantProb, v).Some? {
      GetIsEntry(t.variantProb, v);
    }
  }

  lemma {:induction false} ProductSumNonnegative(node: Tree, variant: seq<string>, states: seq<Sagn>, t: Tables)
    requires NonnegativeTables(t)
    ensures ProductSum(node, variant, states, t) >= 0.0
    decreases |states|
  {
    if states != [] {
      var s := states[|states| - 1];
      ProductSumNonnegative(node, variant, states[..|states| - 1], t);
      if StateKnown(node, s.name, variant, t) {
        GetIsEntry(t.variantProb, variant);
        var a, b, c := SkipFactor(node, s.name, t), SagnFactor(node, s.name, t), Get(t.variantProb, variant).value;
        MulNonnegative(a, b, a * b);
        MulNonnegative(a * b, c, ProbPerStateAndNode(node, s.name, variant, t));
      }
    }
  }

  lemma {:induction false} ReachMassNonnegative(node: Tree, backup: seq<Sagn>, t: Tables)
    requires NonnegativeTables(t)
    ensures ReachMass(node, backup, t).Ok? ==> ReachMass(node, backup, t).value >= 0.0
  {
    SumOfNonnegative(ReachShares(node, backup, t));
    ReachMassSum(node, backup, t);
  }

  lemma {:induction false} QuotientNonnegative(p: real, m: real, q: real)
    requires p >= 0.0 && m > 0.0 && q == p / m
    ensures q >= 0.0
  {
  }

  lemma {:induction false} VariantNodeNonnegative(node: Tree, variant: seq<string>, t: Tables)
    requires NonnegativeTables(t)
    ensures VariantNodeProb(node, variant, t).Ok? ==> VariantNodeProb(node, variant, t).value >= 0.0
  {
    var states := ListOf(t.skipDict, Key(variant));
    var backup := ListOf(t.backup, Key(variant));
    ProductSumNonnegative(node, variant, states, t);
    ReachMassNonnegative(node, backup, t);
    if ReachMass(node, backup, t).Ok? && ReachMass(node, backup, t).value != 0.0 {
      QuotientNonnegative(ProductSum(node, variant, states, t), ReachMass(node, backup, t).value,
                          VariantNodeProb(node, variant, t).value);
    }
  }

  lemma {:induction false} NodeSumNonnegative(node: Tree, vs: Variants, t: Tables)
    requires NonnegativeTables(t)
    ensures NodeSum(node, vs, t).Ok? ==> NodeSum(node, vs, t).value >= 0.0
  {
    var qs := VariantProbs(node, vs, t);
    forall i | 0 <= i < |vs| && qs[i].Ok?
      ensures qs[i].value >= 0.0
    {
      VariantProbsIndex(node, vs, t, i);
      VariantNodeNonnegative(node, vs[i].0, t);
    }
    SumOfNonnegative(qs);
  }

  lemma {:induction false} VariantReachNonnegative(node: Tree, vs: Variants, t: Tables)
    requires NonnegativeTables(t)
    ensures VariantReach(node, vs, t).Ok? ==> VariantReach(node, vs, t).value >= 0.0
  {
    var ws := VariantShares(node, vs, t);
    forall i | 0 <= i < |vs| && ws[i].Ok?
      ensures ws[i].value >= 0.0
    {
      VariantSharesIndex(node, vs, t, i);
      WeightNonnegative(vs[i].0, t);
    }
    SumOfNonnegative(ws);
  }

  /** prob_per_node of non-negative tables is non-negative. */
  lemma {:induction false} NodeProbNonnegative(node: Tree, vs: Variants, t: Tables)
    requires NonnegativeTables(t)
    ensures NodeProb(node, vs, t).Ok? ==> NodeProb(node, vs, t).value >= 0.0
  {
    NodeSumNonnegative(node, vs, t);
    VariantReachNonnegative(node, vs, t);
    if NodeProb(node, vs, t).Ok? && VariantReach(node, vs, t).value != 0.0 {
      QuotientNonnegative(NodeSum(node, vs, t).value, VariantReach(node, vs, t).value, NodeProb(node, vs, t).value);
    }
  }
}
