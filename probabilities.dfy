/** The EbiOccurance helpers of probabilities.py that do not call out to the ebi tool:
    activity lookup by id, the trace-count tables, and the per-node scores of skip alignments
    normalised per variant. */
module Probabilities {
  import opened Wrappers
  import opened ProcessTree
  import opened Alignment
  import Skips

  const ASSERTION_ERROR: string := "AssertionError"
  const KEY_ERROR: string := "KeyError"
  const INDEX_ERROR: string := "IndexError"

  // ---------------------------------------------------------------------------------------
  // _id_to_activity

  /** _id_to_activity: the name of the first node in pre-order with the id, which must be a
      leaf; None when no node has the id. */
  function IdToActivity(t: Tree, id: string): Result<Option<string>>
    decreases t, 1
  {
    if t.id == id then
      if t.Leaf? then Ok(Some(t.name)) else Err(ASSERTION_ERROR)
    else match t
      case Leaf(_, _, _) => Ok(None)
      case Op(_, _, cs) => IdToActivityIn(cs, id)
  }

  function IdToActivityIn(cs: seq<Tree>, id: string): Result<Option<string>>
    decreases cs, 0
  {
    if cs == [] then Ok(None)
    else
      var res :- IdToActivity(cs[0], id);
      if res.Some? then Ok(res) else IdToActivityIn(cs[1..], id)
  }

  /** The activity for an id is the name of the node get_tree_node_by_id finds; the lookup
      raises when that node is an operator, and gives None exactly when no node has the id. */
  lemma {:induction false} IdToActivitySpec(t: Tree, id: string)
    ensures IdToActivity(t, id) ==
      match Skips.GetTreeNodeById(t, id)
      case None => Ok(None)
      case Some(n) => if n.Leaf? then Ok(Some(n.name)) else Err(ASSERTION_ERROR)
    ensures IdToActivity(t, id) == Ok(None) <==> id !in Ids(t)
    decreases t, 1
  {
    Skips.GetTreeNodeByIdSpec(t, id);
    if t.id != id && t.Op? {
      IdToActivityInSpec(t.children, id);
    }
  }

  lemma {:induction false} IdToActivityInSpec(cs: seq<Tree>, id: string)
    ensures IdToActivityIn(cs, id) ==
      match Skips.FirstInChildren(cs, id)
      case None => Ok(None)
      case Some(n) => if n.Leaf? then Ok(Some(n.name)) else Err(ASSERTION_ERROR)
    decreases cs, 0
  {
    if cs != [] {
      IdToActivitySpec(cs[0], id);
      IdToActivityInSpec(cs[1..], id);
    }
  }

  // ---------------------------------------------------------------------------------------
  // trace_probs: the counting part and the branch with a given measure

  /** The alignments of each variant, in the order of the source's dictionary of lists. */
  type AgnDict = seq<(string, seq<seq<Step>>)>

  /** The ids of the nodes along a model path (a log-only move never occurs in one). */
  function MoveIds(trace: seq<ModelMove>): seq<string> {
    if trace == [] then []
    else [if trace[0].NoMove? then SKIP else trace[0].node.id] + MoveIds(trace[1..])
  }

  function VariantsOf(agns: AgnDict): set<string> {
    set k | 0 <= k < |agns| :: agns[k].0
  }

  /** All alignments listed for the variant, in order. */
  function AlignmentsOf(agns: AgnDict, v: string): seq<seq<Step>> {
    if agns == [] then []
    else AlignmentsOf(agns[..|agns| - 1], v) + (if agns[|agns| - 1].0 == v then agns[|agns| - 1].1 else [])
  }

  lemma {:induction false} AlignmentsOfUnknown(agns: AgnDict, v: string)
    requires v !in VariantsOf(agns)
    ensures AlignmentsOf(agns, v) == []
  {
    if agns != [] {
      var init := agns[..|agns| - 1];
      assert VariantsOf(init) <= VariantsOf(agns) by {
        forall w | w in VariantsOf(init)
          ensures w in VariantsOf(agns)
        {
          var k :| 0 <= k < |init| && init[k].0 == w;
          assert agns[k].0 == w;
        }
      }
      AlignmentsOfUnknown(init, v);
    }
  }

  /** The model paths of a list of alignments. */
  function ModelPaths(ps: seq<seq<Step>>): seq<seq<ModelMove>> {
    if ps == [] then [] else ModelPaths(ps[..|ps| - 1]) + [ModelTrace(ps[|ps| - 1])]
  }

  function Bump<K>(m: map<K, int>, k: K): map<K, int> {
    if k in m then m[k := m[k] + 1] else m[k := 1]
  }

  /** The table of how often each model path occurs among the alignments. */
  function CountTable(ps: seq<seq<Step>>): map<seq<ModelMove>, int> {
    CountFrom(map[], ps)
  }

  /** The table m with the model paths of ps counted in. */
  function CountFrom(m: map<seq<ModelMove>, int>, ps: seq<seq<Step>>): map<seq<ModelMove>, int> {
    if ps == [] then m else Bump(CountFrom(m, ps[..|ps| - 1]), ModelTrace(ps[|ps| - 1]))
  }

  lemma {:induction false} CountFromAppend(m: map<seq<ModelMove>, int>, a: seq<seq<Step>>, b: seq<seq<Step>>)
    ensures CountFrom(m, a + b) == CountFrom(CountFrom(m, a), b)
  {
    if b == [] {
      assert a + b == a;
    } else {
      assert (a + b)[..|a + b| - 1] == a + b[..|b| - 1];
      CountFromAppend(m, a, b[..|b| - 1]);
    }
  }

  /** The sum of the values of a map. */
  ghost function SumValues<K>(m: map<K, int>): int
    decreases |m.Keys|
  {
    if m == map[] then 0
    else
      var k :| k in m;
      m[k] + SumValues(m - {k})
  }

  lemma {:induction false} SumValuesRemove<K>(m: map<K, int>, k: K)
    requires k in m
    ensures SumValues(m) == m[k] + SumValues(m - {k})
    decreases |m.Keys|
  {
    var j :| j in m && SumValues(m) == m[j] + SumValues(m - {j});
    if j != k {
      assert (m - {j}).Keys == m.Keys - {j};
      SumValuesRemove(m - {j}, k);
      assert (m - {k}).Keys == m.Keys - {k};
      SumValuesRemove(m - {k}, j);
      assert m - {j} - {k} == m - {k} - {j};
    }
  }

  lemma {:induction false} SumValuesBump<K>(m: map<K, int>, k: K)
    ensures SumValues(Bump(m, k)) == SumValues(m) + 1
  {
    var b := Bump(m, k);
    SumValuesRemove(b, k);
    assert b - {k} == m - {k};
    if k in m {
      SumValuesRemove(m, k);
    } else {
      assert m - {k} == m;
    }
  }

  /** trace_counts for one variant: its keys are the model paths of the alignments, each
      counted as often as it occurs, and the counts add up to the number of alignments. */
  lemma {:induction false} CountTableSpec(ps: seq<seq<Step>>)
    ensures forall mp :: mp in CountTable(ps) <==> mp in ModelPaths(ps)
    ensures forall mp :: mp in CountTable(ps) ==> CountTable(ps)[mp] == multiset(ModelPaths(ps))[mp]
    ensures forall mp :: mp in CountTable(ps) ==> CountTable(ps)[mp] >= 1
    ensures SumValues(CountTable(ps)) == |ps|
  {
    if ps != [] {
      var init := ps[..|ps| - 1];
      assert CountTable(ps) == Bump(CountTable(init), ModelTrace(ps[|ps| - 1]));
      CountTableSpec(init);
      SumValuesBump(CountTable(init), ModelTrace(ps[|ps| - 1]));
    }
  }

  lemma {:induction false} VariantsOfSnoc(agns: AgnDict, k: nat)
    requires k < |agns|
    ensures VariantsOf(agns[..k + 1]) == VariantsOf(agns[..k]) + {agns[k].0}
  {
    forall w | w in VariantsOf(agns[..k])
      ensures w in VariantsOf(agns[..k + 1])
    {
      var j :| 0 <= j < k && agns[..k][j].0 == w;
      assert agns[..k + 1][j].0 == w;
    }
    assert agns[..k + 1][k].0 == agns[k].0;
  }

  lemma {:induction false} AlignmentsOfSnoc(agns: AgnDict, k: nat, w: string)
    requires k < |agns|
    ensures AlignmentsOf(agns[..k + 1], w) == AlignmentsOf(agns[..k], w) + (if agns[k].0 == w then agns[k].1 else [])
  {
    assert agns[..k + 1][..k] == agns[..k];
  }

  /** Every alignment of every variant has a step. For an alignment without steps,
      `list(zip(*agn))[1]` raises IndexError. */
  predicate StepsPresent(agns: AgnDict) {
    forall k :: 0 <= k < |agns| ==> [] !in agns[k].1
  }

  /** The inner loop of trace_probs' counting: one variant's alignments counted into its table;
      an alignment without steps raises IndexError. */
  method CountAlignments(table: map<seq<ModelMove>, int>, ass: seq<seq<Step>>) returns (r: Result<map<seq<ModelMove>, int>>)
    ensures r.Ok? <==> [] !in ass
    ensures r.Err? ==> r.msg == INDEX_ERROR
    ensures r.Ok? ==> r.value == CountFrom(table, ass)
  {
    var t := table;
    for i := 0 to |ass|
      invariant t == CountFrom(table, ass[..i])
      invariant [] !in ass[..i]
    {
      if ass[i] == [] {
        return Err(INDEX_ERROR);
      }
      var modelPath := ModelTrace(ass[i]);
      assert ass[..i + 1][..i] == ass[..i];
      if modelPath !in t {
        t := t[modelPath := 1];
      } else {
        t := t[modelPath := t[modelPath] + 1];
      }
    }
    assert ass[..|ass|] == ass;
    return Ok(t);
  }

  /** trace_counts after the first k entries: one table per variant seen, counting the model
      paths of its alignments so far. */
  ghost predicate CountedUpTo(counts: map<string, map<seq<ModelMove>, int>>, agns: AgnDict, k: nat)
    requires k <= |agns|
  {
    && counts.Keys == VariantsOf(agns[..k])
    && forall v :: v in counts ==> counts[v] == CountTable(AlignmentsOf(agns[..k], v))
  }

  lemma {:induction false} CountedStep(counts: map<string, map<seq<ModelMove>, int>>, agns: AgnDict, k: nat,
                                       t: map<seq<ModelMove>, int>)
    requires k < |agns| && CountedUpTo(counts, agns, k)
    requires t == CountFrom(if agns[k].0 in counts then counts[agns[k].0] else map[], agns[k].1)
    ensures CountedUpTo(counts[agns[k].0 := t], agns, k + 1)
  {
    var v := agns[k].0;
    var counts' := counts[v := t];
    VariantsOfSnoc(agns, k);
    assert counts'.Keys == VariantsOf(agns[..k + 1]);
    forall w | w in counts'
      ensures counts'[w] == CountTable(AlignmentsOf(agns[..k + 1], w))
    {
      AlignmentsOfSnoc(agns, k, w);
      if w == v {
        var before := AlignmentsOf(agns[..k], v);
        if v !in counts {
          AlignmentsOfUnknown(agns[..k], v);
        }
        calc {
          CountTable(AlignmentsOf(agns[..k + 1], v));
          CountFrom(map[], before + agns[k].1);
          { CountFromAppend(map[], before, agns[k].1); }
          CountFrom(CountTable(before), agns[k].1);
        }
        assert counts'[w] == t;
      } else {
        assert counts'[w] == counts[w];
        assert AlignmentsOf(agns[..k + 1], w) == AlignmentsOf(agns[..k], w);
      }
    }
  }

  lemma {:induction false} StepsPresentSnoc(agns: AgnDict, k: nat)
    requires k < |agns| && StepsPresent(agns[..k]) && [] !in agns[k].1
    ensures StepsPresent(agns[..k + 1])
  {
    var prefix := agns[..k + 1];
    forall j | 0 <= j < k + 1
      ensures [] !in prefix[j].1
    {
      if j < k {
        assert prefix[j] == agns[..k][j];
      }
    }
  }

  /** The counting loops of trace_probs: trace_counts[var][model path]. An alignment without
      steps raises IndexError. */
  method TraceCounts(agns: AgnDict) returns (r: Result<map<string, map<seq<ModelMove>, int>>>)
    ensures r.Ok? <==> StepsPresent(agns)
    ensures r.Err? ==> r.msg == INDEX_ERROR
    ensures r.Ok? ==> r.value.Keys == VariantsOf(agns)
    ensures r.Ok? ==> forall v :: v in r.value ==> r.value[v] == CountTable(AlignmentsOf(agns, v))
  {
    var counts: map<string, map<seq<ModelMove>, int>> := map[];
    for k := 0 to |agns|
      invariant CountedUpTo(counts, agns, k)
      invariant StepsPresent(agns[..k])
    {
      var (v, ass) := agns[k];
      var table := if v in counts then counts[v] else map[];
      var t := CountAlignments(table, ass);
      if t.Err? {
        assert agns[k].1 == ass;
        return Err(t.msg);
      }
      StepsPresentSnoc(agns, k);
      CountedStep(counts, agns, k, t.value);
      counts := counts[v := t.value];
    }
    assert agns[..|agns|] == agns;
    return Ok(counts);
  }

  /** The model-path id tuples of all alignments. */
  function PathIdsOf(agns: AgnDict): set<seq<string>> {
    set k, i | 0 <= k < |agns| && 0 <= i < |agns[k].1| :: MoveIds(ModelTrace(agns[k].1[i]))
  }

  /** trace_probs with a measure: the probability of every distinct model path, read from the
      measure, the count tables, and the time -1. The counting comes first, so an alignment
      without steps raises IndexError; then a path the measure lacks raises KeyError. */
  method TraceProbs(agns: AgnDict, measure: map<seq<string>, real>)
    returns (r: Result<(map<seq<string>, real>, map<string, map<seq<ModelMove>, int>>, int)>)
    ensures r.Ok? <==> StepsPresent(agns) && PathIdsOf(agns) <= measure.Keys
    ensures r.Err? ==> r.msg == if StepsPresent(agns) then KEY_ERROR else INDEX_ERROR
    ensures r.Ok? ==> r.value.0.Keys == PathIdsOf(agns)
    ensures r.Ok? ==> forall ids :: ids in r.value.0 ==> r.value.0[ids] == measure[ids]
    ensures r.Ok? ==> r.value.1.Keys == VariantsOf(agns)
    ensures r.Ok? ==> forall v :: v in r.value.1 ==> r.value.1[v] == CountTable(AlignmentsOf(agns, v))
    ensures r.Ok? ==> r.value.2 == -1
  {
    var traceCounts :- TraceCounts(agns);
    var probs: map<seq<string>, real> := map[];
    for k := 0 to |agns|
      invariant forall k', i :: 0 <= k' < k && 0 <= i < |agns[k'].1| ==> MoveIds(ModelTrace(agns[k'].1[i])) in probs
      invariant forall ids :: ids in probs ==> ids in PathIdsOf(agns) && ids in measure && probs[ids] == measure[ids]
    {
      var ass := agns[k].1;
      for i := 0 to |ass|
        invariant forall k', i' :: ((0 <= k' < k && 0 <= i' < |agns[k'].1|) || (k' == k && 0 <= i' < i)) ==>
          MoveIds(ModelTrace(agns[k'].1[i'])) in probs
        invariant forall ids :: ids in probs ==> ids in PathIdsOf(agns) && ids in measure && probs[ids] == measure[ids]
      {
        var ids := MoveIds(ModelTrace(ass[i]));
        assert ids in PathIdsOf(agns);
        if ids !in probs {
          if ids !in measure {
            return Err(KEY_ERROR);
          }
          probs := probs[ids := measure[ids]];
        }
      }
    }
    r := Ok((probs, traceCounts, -1));
  }

  // ---------------------------------------------------------------------------------------
  // _skip_agn_probs, skip_agn_probs_per_node and skip_agn_probs_traversal

  type TraceProbTable = map<seq<string>, real>
  type TraceCountTable = map<string, map<seq<ModelMove>, int>>

  /** The node with this id is referenced by a skip alignment: one of its executions is of a
      node with the id, or one of its skip or tau-path moves is on such a node. */
  predicate Referenced(id: string, executions: seq<Execution>, path: seq<Step>) {
    || (exists k :: 0 <= k < |executions| && executions[k].node.id == id)
    || (exists i :: 0 <= i < |path| && path[i].model.IsSkipLike() && path[i].model.node.id == id)
  }

  /** The two table lookups for a coinciding alignment succeed and the count is positive. */
  predicate Covers(agn: seq<Step>, v: string, tp: TraceProbTable, tc: TraceCountTable) {
    var mp := ModelTrace(agn);
    MoveIds(mp) in tp && v in tc && mp in tc[v] && tc[v][mp] > 0
  }

  /** The share of one coinciding alignment: its model path's probability divided by how
      often that path occurs for the variant (0 outside the tables, which never happens
      under the callers' requirements). */
  function PartialProb(agn: seq<Step>, v: string, tp: TraceProbTable, tc: TraceCountTable): real {
    var mp := ModelTrace(agn);
    if Covers(agn, v, tp, tc) then tp[MoveIds(mp)] / tc[v][mp] as real else 0.0
  }

  /** The sum of the shares of a set of coinciding alignments. */
  ghost function Score(agns: set<seq<Step>>, v: string, tp: TraceProbTable, tc: TraceCountTable): real
    decreases |agns|
  {
    if agns == {} then 0.0
    else
      var a :| a in agns;
      PartialProb(a, v, tp, tc) + Score(agns - {a}, v, tp, tc)
  }

  lemma {:induction false} ScoreRemove(agns: set<seq<Step>>, a: seq<Step>, v: string, tp: TraceProbTable, tc: TraceCountTable)
    requires a in agns
    ensures Score(agns, v, tp, tc) == PartialProb(a, v, tp, tc) + Score(agns - {a}, v, tp, tc)
    decreases |agns|
  {
    var b :| b in agns && Score(agns, v, tp, tc) == PartialProb(b, v, tp, tc) + Score(agns - {b}, v, tp, tc);
    if b != a {
      ScoreRemove(agns - {b}, a, v, tp, tc);
      ScoreRemove(agns - {a}, b, v, tp, tc);
      assert agns - {b} - {a} == agns - {a} - {b};
    }
  }

  /** Trace probabilities that are not negative give scores that are not negative. */
  lemma {:induction false} ScoreNonnegative(agns: set<seq<Step>>, v: string, tp: TraceProbTable, tc: TraceCountTable)
    requires forall ids :: ids in tp ==> tp[ids] >= 0.0
    ensures Score(agns, v, tp, tc) >= 0.0
    decreases |agns|
  {
    if agns != {} {
      var a :| a in agns;
      ScoreRemove(agns, a, v, tp, tc);
      ScoreNonnegative(agns - {a}, v, tp, tc);
    }
  }

  /** The score of a skip alignment for a node: 0 when it does not reference the node, else
      the summed shares of its coinciding alignments. */
  ghost function SkipScore(id: string, executions: seq<Execution>, path: seq<Step>, agns: set<seq<Step>>,
                           v: string, tp: TraceProbTable, tc: TraceCountTable): real
  {
    if Referenced(id, executions, path) then Score(agns, v, tp, tc) else 0.0
  }

  /** _skip_agn_probs. */
  method SkipAgnProbs(state: State, node: Tree, v: string, agns: set<seq<Step>>, tp: TraceProbTable, tc: TraceCountTable)
    returns (prob: real)
    requires Referenced(node.id, state.executions, state.path) ==> forall a :: a in agns ==> Covers(a, v, tp, tc)
    ensures prob == SkipScore(node.id, state.executions, state.path, agns, v, tp, tc)
    ensures !Referenced(node.id, state.executions, state.path) ==> prob == 0.0
  {
    prob := 0.0;
    if !Referenced(node.id, state.executions, state.path) {
      return;
    }
    var rest := agns;
    while rest != {}
      invariant rest <= agns
      invariant prob + Score(rest, v, tp, tc) == Score(agns, v, tp, tc)
      decreases |rest|
    {
      var agn :| agn in rest;
      ScoreRemove(rest, agn, v, tp, tc);
      var modelPath := ModelTrace(agn);
      var modelPathIds := MoveIds(modelPath);
      prob := prob + tp[modelPathIds] / tc[v][modelPath] as real;
      rest := rest - {agn};
    }
  }

  function SeqSum(xs: seq<real>): real {
    if xs == [] then 0.0 else xs[0] + SeqSum(xs[1..])
  }

  /** The scores of a variant's states normalised to a distribution: each divided by their
      sum when that is positive, else all 0. */
  function Normalize(xs: seq<real>): (r: seq<real>)
    ensures |r| == |xs|
  {
    var t := SeqSum(xs);
    seq(|xs|, i requires 0 <= i < |xs| => if t > 0.0 then xs[i] / t else 0.0)
  }

  function Divided(xs: seq<real>, t: real): (r: seq<real>)
    requires t != 0.0
    ensures |r| == |xs| && forall i :: 0 <= i < |xs| ==> r[i] == xs[i] / t
  {
    seq(|xs|, i requires 0 <= i < |xs| => xs[i] / t)
  }

  lemma {:induction false} SeqSumDivided(xs: seq<real>, t: real)
    requires t != 0.0
    ensures SeqSum(Divided(xs, t)) == SeqSum(xs) / t
  {
    if xs != [] {
      assert Divided(xs, t)[1..] == Divided(xs[1..], t);
      SeqSumDivided(xs[1..], t);
      assert xs[0] / t + SeqSum(xs[1..]) / t == (xs[0] + SeqSum(xs[1..])) / t;
    }
  }

  lemma {:induction false} SeqSumBound(xs: seq<real>, i: nat)
    requires i < |xs| && forall j :: 0 <= j < |xs| ==> xs[j] >= 0.0
    ensures 0.0 <= xs[i] <= SeqSum(xs)
  {
    if i == 0 {
      SeqSumNonnegative(xs[1..]);
    } else {
      SeqSumBound(xs[1..], i - 1);
    }
  }

  lemma {:induction false} SeqSumNonnegative(xs: seq<real>)
    requires forall j :: 0 <= j < |xs| ==> xs[j] >= 0.0
    ensures SeqSum(xs) >= 0.0
  {
    if xs != [] {
      SeqSumNonnegative(xs[1..]);
    }
  }

  /** The conditional probabilities of a variant's states: they sum to 1 when the scores have a
      positive sum and are all 0 otherwise; with scores that are not negative each lies in
      [0, 1], and a state's share is proportional to its score. */
  lemma {:induction false} NormalizeSpec(xs: seq<real>)
    ensures SeqSum(xs) > 0.0 ==> SeqSum(Normalize(xs)) == 1.0
    ensures !(SeqSum(xs) > 0.0) ==> forall i :: 0 <= i < |xs| ==> Normalize(xs)[i] == 0.0
    ensures SeqSum(xs) > 0.0 ==> forall i :: 0 <= i < |xs| ==> Normalize(xs)[i] * SeqSum(xs) == xs[i]
    ensures (forall j :: 0 <= j < |xs| ==> xs[j] >= 0.0) ==>
      forall i :: 0 <= i < |xs| ==> 0.0 <= Normalize(xs)[i] <= 1.0
  {
    if SeqSum(xs) > 0.0 {
      NormalizePositive(xs);
      if forall j :: 0 <= j < |xs| ==> xs[j] >= 0.0 {
        NormalizeBounds(xs);
      }
    } else {
      NormalizeZero(xs);
    }
  }

  lemma {:induction false} NormalizeZero(xs: seq<real>)
    requires !(SeqSum(xs) > 0.0)
    ensures forall i :: 0 <= i < |xs| ==> Normalize(xs)[i] == 0.0
  {
  }

  lemma {:induction false} NormalizePositive(xs: seq<real>)
    requires SeqSum(xs) > 0.0
    ensures SeqSum(Normalize(xs)) == 1.0
    ensures forall i :: 0 <= i < |xs| ==> Normalize(xs)[i] * SeqSum(xs) == xs[i]
  {
    var t := SeqSum(xs);
    assert Normalize(xs) == Divided(xs, t);
    SeqSumDivided(xs, t);
    SelfRatio(t);
    DividedTimes(xs, t);
  }

  lemma {:induction false} SelfRatio(t: real)
    requires t != 0.0
    ensures t / t == 1.0
  {
  }

  lemma {:induction false} DividedTimes(xs: seq<real>, t: real)
    requires t != 0.0
    ensures forall i :: 0 <= i < |xs| ==> Divided(xs, t)[i] * t == xs[i]
  {
    forall i | 0 <= i < |xs|
      ensures Divided(xs, t)[i] * t == xs[i]
    {
      RatioTimes(xs[i], t);
    }
  }

  lemma {:induction false} RatioTimes(a: real, t: real)
    requires t != 0.0
    ensures a / t * t == a
  {
  }

  lemma {:induction false} NormalizeBounds(xs: seq<real>)
    requires SeqSum(xs) > 0.0 && forall j :: 0 <= j < |xs| ==> xs[j] >= 0.0
    ensures forall i :: 0 <= i < |xs| ==> 0.0 <= Normalize(xs)[i] <= 1.0
  {
    var t := SeqSum(xs);
    forall i | 0 <= i < |xs|
      ensures 0.0 <= Normalize(xs)[i] <= 1.0
    {
      assert Normalize(xs)[i] == xs[i] / t;
      SeqSumBound(xs, i);
      UnitRatio(xs[i], t);
    }
  }

  lemma {:induction false} UnitRatio(a: real, t: real)
    requires 0.0 <= a <= t && t > 0.0
    ensures 0.0 <= a / t <= 1.0
  {
    assert a / t * t == a;
  }

  function Coinciding(c: map<State, set<seq<Step>>>, s: State): set<seq<Step>> {
    if s in c then c[s] else {}
  }

  /** The scores of a variant's skip alignments for a node, in list order. */
  ghost predicate ScoresOf(node: Tree, v: string, states: seq<State>, c: map<State, set<seq<Step>>>,
                           tp: TraceProbTable, tc: TraceCountTable, scores: seq<real>)
    reads states
  {
    |scores| == |states| &&
    forall i :: 0 <= i < |states| ==>
      scores[i] == SkipScore(node.id, states[i].executions, states[i].path, Coinciding(c, states[i]), v, tp, tc)
  }

  /** What skip_agn_probs_per_node needs of its inputs: every state has its coinciding set, and
      a state that references the node finds each of them in the tables. */
  predicate StatesCovered(node: Tree, v: string, states: seq<State>, c: map<State, set<seq<Step>>>,
                          tp: TraceProbTable, tc: TraceCountTable)
    reads states
  {
    forall i :: 0 <= i < |states| ==>
      && states[i] in c
      && (Referenced(node.id, states[i].executions, states[i].path) ==> forall a :: a in c[states[i]] ==> Covers(a, v, tp, tc))
  }

  /** The first loop of skip_agn_probs_per_node for one variant: the scores of its states. */
  method VariantScores(node: Tree, v: string, states: seq<State>, c: map<State, set<seq<Step>>>,
                       tp: TraceProbTable, tc: TraceCountTable) returns (scores: seq<real>)
    requires StatesCovered(node, v, states, c, tp, tc)
    ensures ScoresOf(node, v, states, c, tp, tc, scores)
  {
    scores := [];
    for i := 0 to |states|
      invariant |scores| == i
      invariant forall j :: 0 <= j < i ==>
        scores[j] == SkipScore(node.id, states[j].executions, states[j].path, Coinciding(c, states[j]), v, tp, tc)
    {
      var score := SkipAgnProbs(states[i], node, v, c[states[i]], tp, tc);
      scores := scores + [score];
    }
  }

  /** The second loop of skip_agn_probs_per_node for one variant: each score divided by the
      variant's total, or 0 when the total is not positive. */
  method NormalizeScores(scores: seq<real>) returns (cond: seq<real>)
    ensures cond == Normalize(scores)
  {
    var total := SeqSum(scores);
    cond := [];
    for i := 0 to |scores|
      invariant |cond| == i && forall j :: 0 <= j < i ==> cond[j] == Normalize(scores)[j]
    {
      cond := cond + [if total > 0.0 then scores[i] / total else 0.0];
    }
  }

  /** The values of a map along a list of keys. */
  function Values(states: seq<State>, m: map<State, real>): (r: seq<real>)
    ensures |r| == |states|
  {
    seq(|states|, i requires 0 <= i < |states| => if states[i] in m then m[states[i]] else 0.0)
  }

  /** skip_agn_probs_per_node's result for one variant: each skip alignment has its score, and
      its conditional probability is its score normalised over the variant's list. */
  ghost predicate VariantAgrees(node: Tree, v: string, states: seq<State>, c: map<State, set<seq<Step>>>,
                                tp: TraceProbTable, tc: TraceCountTable, score: map<State, real>, cond: map<State, real>)
    reads states
  {
    && (forall i :: 0 <= i < |states| ==> states[i] in score && states[i] in cond)
    && ScoresOf(node, v, states, c, tp, tc, Values(states, score))
    && Values(states, cond) == Normalize(Values(states, score))
  }

  /** skip_agn_probs_per_node's result: an entry for every skip alignment, as its variant gives. */
  ghost predicate PerNode(node: Tree, skipDict: SkipDict, c: map<State, set<seq<Step>>>,
                          tp: TraceProbTable, tc: TraceCountTable, score: map<State, real>, cond: map<State, real>)
    reads StatesOf(skipDict)
  {
    && score.Keys == StatesOf(skipDict)
    && cond.Keys == StatesOf(skipDict)
    && forall k :: 0 <= k < |skipDict| ==> VariantAgreesIn(node, skipDict, k, c, tp, tc, score, cond)
  }

  ghost predicate VariantAgreesIn(node: Tree, skipDict: SkipDict, k: int, c: map<State, set<seq<Step>>>,
                                  tp: TraceProbTable, tc: TraceCountTable, score: map<State, real>, cond: map<State, real>)
    requires 0 <= k < |skipDict|
    reads skipDict[k].1
  {
    VariantAgrees(node, skipDict[k].0, skipDict[k].1, c, tp, tc, score, cond)
  }

  /** Writes one variant's values into a result map, `m[states[i]] = vals[i]` in order. */
  function Put(m0: map<State, real>, states: seq<State>, vals: seq<real>): (m: map<State, real>)
    requires |vals| == |states|
    ensures m.Keys == m0.Keys + set i | 0 <= i < |states| :: states[i]
  {
    if states == [] then m0
    else
      var m := Put(m0, states[..|states| - 1], vals[..|vals| - 1]);
      assert forall i :: 0 <= i < |states| - 1 ==> states[i] == states[..|states| - 1][i];
      m[states[|states| - 1] := vals[|vals| - 1]]
  }

  /** With distinct keys every written value survives, and entries for other keys keep theirs. */
  lemma {:induction false} PutSpec(m0: map<State, real>, states: seq<State>, vals: seq<real>)
    requires |vals| == |states|
    requires forall i, j :: 0 <= i < j < |states| ==> states[i] != states[j]
    ensures Values(states, Put(m0, states, vals)) == vals
    ensures forall s :: s in m0 && s !in states ==> Put(m0, states, vals)[s] == m0[s]
  {
    if states != [] {
      var n := |states| - 1;
      var init, vinit := states[..n], vals[..n];
      assert forall i, j :: 0 <= i < j < |init| ==> init[i] != init[j] by {
        forall i, j | 0 <= i < j < |init|
          ensures init[i] != init[j]
        {
          assert init[i] == states[i] && init[j] == states[j];
        }
      }
      PutSpec(m0, init, vinit);
      var m := Put(m0, states, vals);
      var m' := Put(m0, init, vinit);
      assert m == m'[states[n] := vals[n]];
      forall i | 0 <= i < |states|
        ensures states[i] in m && m[states[i]] == vals[i]
      {
        if i < n {
          assert states[i] != states[n];
          assert init[i] == states[i] && vinit[i] == vals[i];
          assert Values(init, m')[i] == vinit[i];
        }
      }
      forall s | s in m0 && s !in states
        ensures m[s] == m0[s]
      {
        assert s != states[n];
        assert s !in init;
      }
    }
  }

  /** skip_agn_probs_per_node: the scores of a node's skip alignments and, per variant, their
      conditional probabilities. The lists are taken to hold distinct alignments, so no entry
      is written twice. */
  method SkipAgnProbsPerNode(node: Tree, skipDict: SkipDict, c: map<State, set<seq<Step>>>,
                             tp: TraceProbTable, tc: TraceCountTable)
    returns (score: map<State, real>, cond: map<State, real>)
    requires DistinctStates(skipDict)
    requires forall k :: 0 <= k < |skipDict| ==> StatesCovered(node, skipDict[k].0, skipDict[k].1, c, tp, tc)
    ensures PerNode(node, skipDict, c, tp, tc, score, cond)
  {
    score, cond := map[], map[];
    for k := 0 to |skipDict|
      invariant score.Keys == cond.Keys == StatesOf(skipDict[..k])
      invariant forall k' :: 0 <= k' < k ==> VariantAgreesIn(node, skipDict, k', c, tp, tc, score, cond)
    {
      score, cond := VariantProbs(node, skipDict, k, c, tp, tc, score, cond);
    }
    assert skipDict[..|skipDict|] == skipDict;
  }

  /** The body of skip_agn_probs_per_node's loop for the k-th variant. */
  method VariantProbs(node: Tree, skipDict: SkipDict, k: nat, c: map<State, set<seq<Step>>>,
                      tp: TraceProbTable, tc: TraceCountTable, score0: map<State, real>, cond0: map<State, real>)
    returns (score: map<State, real>, cond: map<State, real>)
    requires DistinctStates(skipDict) && k < |skipDict|
    requires StatesCovered(node, skipDict[k].0, skipDict[k].1, c, tp, tc)
    requires score0.Keys == cond0.Keys == StatesOf(skipDict[..k])
    requires forall k' :: 0 <= k' < k ==> VariantAgreesIn(node, skipDict, k', c, tp, tc, score0, cond0)
    ensures score.Keys == cond.Keys == StatesOf(skipDict[..k + 1])
    ensures forall k' :: 0 <= k' < k + 1 ==> VariantAgreesIn(node, skipDict, k', c, tp, tc, score, cond)
  {
    var (v, states) := skipDict[k];
    assert forall k', i :: 0 <= k' < k && 0 <= i < |skipDict[k'].1| ==> allocated(skipDict[k'].1[i]);
    var scores := VariantScores(node, v, states, c, tp, tc);
    var cnd := NormalizeScores(scores);
    score := Put(score0, states, scores);
    cond := Put(cond0, states, cnd);
    PutSpec(score0, states, scores);
    PutSpec(cond0, states, cnd);
    VariantStep(node, skipDict, k, c, tp, tc, score0, cond0, scores, cnd, score, cond);
  }

  lemma {:induction false} VariantStep(node: Tree, skipDict: SkipDict, k: nat, c: map<State, set<seq<Step>>>,
                    tp: TraceProbTable, tc: TraceCountTable, score0: map<State, real>, cond0: map<State, real>,
                    scores: seq<real>, cnd: seq<real>, score: map<State, real>, cond: map<State, real>)
    requires DistinctStates(skipDict) && k < |skipDict|
    requires score0.Keys == cond0.Keys == StatesOf(skipDict[..k])
    requires forall k' :: 0 <= k' < k ==> VariantAgreesIn(node, skipDict, k', c, tp, tc, score0, cond0)
    requires ScoresOf(node, skipDict[k].0, skipDict[k].1, c, tp, tc, scores) && cnd == Normalize(scores)
    requires forall s :: s in score <==> s in score0 || s in skipDict[k].1
    requires forall s :: s in cond <==> s in cond0 || s in skipDict[k].1
    requires Values(skipDict[k].1, score) == scores && Values(skipDict[k].1, cond) == cnd
    requires forall s :: s in score0 && s !in skipDict[k].1 ==> score[s] == score0[s]
    requires forall s :: s in cond0 && s !in skipDict[k].1 ==> cond[s] == cond0[s]
    ensures score.Keys == cond.Keys == StatesOf(skipDict[..k + 1])
    ensures forall k' :: 0 <= k' < k + 1 ==> VariantAgreesIn(node, skipDict, k', c, tp, tc, score, cond)
  {
    KeepAgreements(node, skipDict, k, c, tp, tc, score0, cond0, score, cond);
    assert VariantAgreesIn(node, skipDict, k, c, tp, tc, score, cond);
    StatesOfSnoc(skipDict, k);
  }

  /** Writing a later variant's entries keeps an earlier variant's, as no alignment is in both. */
  lemma {:induction false} KeepAgreement(node: Tree, skipDict: SkipDict, k': nat, k: nat, c: map<State, set<seq<Step>>>,
                      tp: TraceProbTable, tc: TraceCountTable,
                      score0: map<State, real>, cond0: map<State, real>, score: map<State, real>, cond: map<State, real>)
    requires DistinctStates(skipDict) && k' < k < |skipDict|
    requires VariantAgreesIn(node, skipDict, k', c, tp, tc, score0, cond0)
    requires forall s :: s in score0 ==> s in score
    requires forall s :: s in cond0 ==> s in cond
    requires forall s :: s in score0 && s !in skipDict[k].1 ==> score[s] == score0[s]
    requires forall s :: s in cond0 && s !in skipDict[k].1 ==> cond[s] == cond0[s]
    ensures VariantAgreesIn(node, skipDict, k', c, tp, tc, score, cond)
  {
    var ss := skipDict[k'].1;
    assert Values(ss, score) == Values(ss, score0);
    assert Values(ss, cond) == Values(ss, cond0);
  }

  lemma {:induction false} KeepAgreements(node: Tree, skipDict: SkipDict, k: nat, c: map<State, set<seq<Step>>>,
                       tp: TraceProbTable, tc: TraceCountTable,
                       score0: map<State, real>, cond0: map<State, real>, score: map<State, real>, cond: map<State, real>)
    requires DistinctStates(skipDict) && k < |skipDict|
    requires forall k' :: 0 <= k' < k ==> VariantAgreesIn(node, skipDict, k', c, tp, tc, score0, cond0)
    requires forall s :: s in score0 ==> s in score
    requires forall s :: s in cond0 ==> s in cond
    requires forall s :: s in score0 && s !in skipDict[k].1 ==> score[s] == score0[s]
    requires forall s :: s in cond0 && s !in skipDict[k].1 ==> cond[s] == cond0[s]
    ensures forall k' :: 0 <= k' < k ==> VariantAgreesIn(node, skipDict, k', c, tp, tc, score, cond)
  {
    forall k' | 0 <= k' < k
      ensures VariantAgreesIn(node, skipDict, k', c, tp, tc, score, cond)
    {
      KeepAgreement(node, skipDict, k', k, c, tp, tc, score0, cond0, score, cond);
    }
  }

  lemma {:induction false} StatesOfSnoc(skipDict: SkipDict, k: nat)
    requires k < |skipDict|
    ensures forall s :: s in StatesOf(skipDict[..k + 1]) <==> s in StatesOf(skipDict[..k]) || s in skipDict[k].1
  {
    var a, b := skipDict[..k], skipDict[..k + 1];
    forall s | s in StatesOf(b)
      ensures s in StatesOf(a) || s in skipDict[k].1
    {
      var k', i :| 0 <= k' < |b| && 0 <= i < |b[k'].1| && s == b[k'].1[i];
      if k' < k {
        assert s == a[k'].1[i];
      }
    }
    forall s | s in StatesOf(a) || s in skipDict[k].1
      ensures s in StatesOf(b)
    {
      if s in StatesOf(a) {
        var k', i :| 0 <= k' < |a| && 0 <= i < |a[k'].1| && s == a[k'].1[i];
        assert s == b[k'].1[i];
      } else {
        var i :| 0 <= i < |skipDict[k].1| && s == skipDict[k].1[i];
        assert s == b[k].1[i];
      }
    }
  }

  /** Per variant, the conditional probabilities of its skip alignments for a node form a
      distribution when their scores have a positive sum and are all 0 otherwise; with trace
      probabilities that are not negative each lies in [0, 1]. */
  lemma {:induction false} PerNodeDistribution(node: Tree, skipDict: SkipDict, c: map<State, set<seq<Step>>>, tp: TraceProbTable,
                            tc: TraceCountTable, score: map<State, real>, cond: map<State, real>, k: nat)
    requires PerNode(node, skipDict, c, tp, tc, score, cond) && k < |skipDict|
    ensures SeqSum(Values(skipDict[k].1, score)) > 0.0 ==> SeqSum(Values(skipDict[k].1, cond)) == 1.0
    ensures !(SeqSum(Values(skipDict[k].1, score)) > 0.0) ==>
      forall i :: 0 <= i < |skipDict[k].1| ==> Values(skipDict[k].1, cond)[i] == 0.0
    ensures (forall ids :: ids in tp ==> tp[ids] >= 0.0) ==>
      forall i :: 0 <= i < |skipDict[k].1| ==> 0.0 <= Values(skipDict[k].1, cond)[i] <= 1.0
  {
    var ss := skipDict[k].1;
    assert VariantAgreesIn(node, skipDict, k, c, tp, tc, score, cond);
    var xs := Values(ss, score);
    NormalizeSpec(xs);
    if forall ids :: ids in tp ==> tp[ids] >= 0.0 {
      forall i | 0 <= i < |ss|
        ensures xs[i] >= 0.0
      {
        ScoreNonnegative(Coinciding(c, ss[i]), skipDict[k].0, tp, tc);
      }
    }
  }

  /** skip_agn_probs_traversal: skip_agn_probs_per_node for the node and, recursively, for the
      nodes below it, merged into one map per result. */
  method SkipAgnProbsTraversal(tree: Tree, skipDict: SkipDict, c: map<State, set<seq<Step>>>,
                               tp: TraceProbTable, tc: TraceCountTable)
    returns (score: map<Tree, map<State, real>>, cond: map<Tree, map<State, real>>)
    requires DistinctStates(skipDict)
    requires forall n, k :: n in Nodes(tree) && 0 <= k < |skipDict| ==>
      StatesCovered(n, skipDict[k].0, skipDict[k].1, c, tp, tc)
    ensures score.Keys == Nodes(tree) && cond.Keys == Nodes(tree)
    ensures forall n :: n in score ==> PerNode(n, skipDict, c, tp, tc, score[n], cond[n])
    decreases tree, 1
  {
    assert tree in Nodes(tree);
    var s0, c0 := SkipAgnProbsPerNode(tree, skipDict, c, tp, tc);
    match tree
    case Leaf(_, _, _) =>
      assert Nodes(tree) == {tree};
      score, cond := map[tree := s0], map[tree := c0];
    case Op(_, _, _) =>
      NodesOfOp(tree);
      score, cond := TraverseChildren(tree, skipDict, c, tp, tc, s0, c0);
  }

  /** The loop of skip_agn_probs_traversal over the children of an operator node, starting
      from the node's own entries. */
  method TraverseChildren(tree: Tree, skipDict: SkipDict, c: map<State, set<seq<Step>>>,
                          tp: TraceProbTable, tc: TraceCountTable, s0: map<State, real>, c0: map<State, real>)
    returns (score: map<Tree, map<State, real>>, cond: map<Tree, map<State, real>>)
    requires tree.Op? && DistinctStates(skipDict)
    requires forall n, k :: n in Nodes(tree) && 0 <= k < |skipDict| ==>
      StatesCovered(n, skipDict[k].0, skipDict[k].1, c, tp, tc)
    requires PerNode(tree, skipDict, c, tp, tc, s0, c0)
    ensures score.Keys == cond.Keys
    ensures forall n :: n in score <==> n == tree || exists j :: 0 <= j < |tree.children| && n in Nodes(tree.children[j])
    ensures forall n :: n in score ==> PerNode(n, skipDict, c, tp, tc, score[n], cond[n])
    decreases tree, 0
  {
    var cs := tree.children;
    score, cond := map[tree := s0], map[tree := c0];
    assert forall s :: s in StatesOf(skipDict) ==> allocated(s);
    for i := 0 to |cs|
      invariant score.Keys == cond.Keys
      invariant forall n :: n in score <==> n == tree || exists j :: 0 <= j < i && n in Nodes(cs[j])
      invariant forall n :: n in score ==> PerNode(n, skipDict, c, tp, tc, score[n], cond[n])
    {
      ChildNodes(tree, i);
      var nscore, ncond := SkipAgnProbsTraversal(cs[i], skipDict, c, tp, tc);
      MergedKeys(tree, i, score, nscore);
      score, cond := score + nscore, cond + ncond;
    }
  }

  /** The nodes covered after merging the tables of child i. */
  lemma {:induction false} MergedKeys<V>(tree: Tree, i: nat, m: map<Tree, V>, next: map<Tree, V>)
    requires tree.Op? && i < |tree.children|
    requires forall n :: n in m <==> n == tree || exists j :: 0 <= j < i && n in Nodes(tree.children[j])
    requires next.Keys == Nodes(tree.children[i])
    ensures forall n :: n in m + next <==> n == tree || exists j :: 0 <= j < i + 1 && n in Nodes(tree.children[j])
  {
  }
}
