/** Alignments between a trace and a process tree. The Python module that defines them is not
    part of this model; this module fixes the shapes the core reads: a path of (log label,
    model move) pairs, and executions that mark which span of the path a node covers. */
module Alignment {
  import opened ProcessTree

  /** The `'>>'` marker: as a log label it makes a model-only move. */
  const SKIP: string := ">>"

  /** The model component of a step. */
  datatype ModelMove =
    | NoMove                       // '>>': a log-only move
    | Move(node: Tree)             // a move on a leaf (an activity or a tau)
    | Skip(node: Tree, cost: int)  // the skip of a whole subtree
    | TauPath(node: Tree)          // a silent path through a subtree
  {
    /** The move names a subtree rather than a leaf. */
    predicate IsSkipLike() {
      Skip? || TauPath?
    }
  }

  /** One alignment step `(log_label, model_move)`. */
  datatype Step = Step(log: string, model: ModelMove)

  /** The span [start, stop) of the path that an execution of `node` covers. */
  datatype Execution = Execution(node: Tree, start: int, stop: int)

  /** Every execution span lies within a path of length n. */
  predicate SpansWithin(executions: seq<Execution>, n: nat) {
    forall k :: 0 <= k < |executions| ==> 0 <= executions[k].start && executions[k].stop <= n
  }

  /** The model trace: the model moves other than `'>>'`, in order. */
  function ModelTrace(path: seq<Step>): seq<ModelMove> {
    if path == [] then []
    else (if path[0].model.NoMove? then [] else [path[0].model]) + ModelTrace(path[1..])
  }

  /** The model trace keeps exactly the moves that are not `'>>'`. */
  lemma {:induction false} ModelTraceMembers(path: seq<Step>, m: ModelMove)
    ensures m in ModelTrace(path) <==> !m.NoMove? && exists i :: 0 <= i < |path| && path[i].model == m
    ensures |ModelTrace(path)| <= |path|
  {
    if path != [] {
      ModelTraceMembers(path[1..], m);
      if exists i :: 0 <= i < |path| && path[i].model == m {
        var i :| 0 <= i < |path| && path[i].model == m;
        if i > 0 {
          assert path[1..][i - 1].model == m;
        }
      }
      if m in ModelTrace(path[1..]) {
        var i :| 0 <= i < |path[1..]| && path[1..][i].model == m;
        assert path[i + 1].model == m;
      }
    }
  }

  lemma {:induction false} ModelTraceAppend(a: seq<Step>, b: seq<Step>)
    ensures ModelTrace(a + b) == ModelTrace(a) + ModelTrace(b)
  {
    if a == [] {
      assert a + b == b;
    } else {
      ModelTraceAppend(a[1..], b);
      assert (a + b)[0] == a[0] && (a + b)[1..] == a[1..] + b;
    }
  }

  /** A log move contributes nothing to the model trace. */
  lemma {:induction false} ModelTraceDrop(a: seq<Step>, x: Step, b: seq<Step>)
    requires x.model.NoMove?
    ensures ModelTrace(a + [x] + b) == ModelTrace(a + b)
  {
    ModelTraceAppend(a + [x], b);
    ModelTraceAppend(a, [x]);
    ModelTraceAppend(a, b);
    assert ModelTrace([x]) == [] + ModelTrace([x][1..]);
  }

  /** The model trace depends on the model moves only, not on the log labels. */
  lemma {:induction false} ModelTraceOfModels(a: seq<Step>, b: seq<Step>)
    requires |a| == |b| && forall k :: 0 <= k < |a| ==> a[k].model == b[k].model
    ensures ModelTrace(a) == ModelTrace(b)
  {
    if a != [] {
      ModelTraceOfModels(a[1..], b[1..]);
    }
  }

  /** The log labels other than `'>>'`, in order. */
  function LogLabels(path: seq<Step>): seq<string> {
    if path == [] then [] else LogLabel(path[0]) + LogLabels(path[1..])
  }

  function LogLabel(s: Step): seq<string> {
    if s.log == SKIP then [] else [s.log]
  }

  lemma {:induction false} LogLabelsAppend(a: seq<Step>, b: seq<Step>)
    ensures LogLabels(a + b) == LogLabels(a) + LogLabels(b)
  {
    if a == [] {
      assert a + b == b;
    } else {
      LogLabelsAppend(a[1..], b);
      assert (a + b)[0] == a[0] && (a + b)[1..] == a[1..] + b;
      calc {
        LogLabels(a + b);
        LogLabel(a[0]) + LogLabels(a[1..] + b);
        LogLabel(a[0]) + (LogLabels(a[1..]) + LogLabels(b));
      }
    }
  }

  /** The log labels depend on the log components only. */
  lemma {:induction false} LogLabelsOfLogs(a: seq<Step>, b: seq<Step>)
    requires |a| == |b| && forall k :: 0 <= k < |a| ==> a[k].log == b[k].log
    ensures LogLabels(a) == LogLabels(b)
  {
    if a != [] {
      LogLabelsOfLogs(a[1..], b[1..]);
    }
  }

  lemma {:induction false} LogLabelsSnoc(a: seq<Step>, x: Step)
    ensures LogLabels(a + [x]) == LogLabels(a) + LogLabel(x)
  {
    LogLabelsAppend(a, [x]);
    assert LogLabels([x]) == LogLabel(x) + LogLabels([x][1..]);
  }

  /** An alignment state: its path, the executions of its nodes, and a name. */
  class State {
    var path: seq<Step>
    var executions: seq<Execution>
    var name: int

    constructor (path: seq<Step>, executions: seq<Execution>)
      ensures this.path == path && this.executions == executions && name == 0
    {
      this.path := path;
      this.executions := executions;
      name := 0;
    }
  }

  /** The skip alignments of each variant, in the order of the source's dictionary of lists. */
  type SkipDict = seq<(string, seq<State>)>

  /** No state occurs twice in the skip-alignment dictionary. */
  predicate DistinctStates(skipDict: SkipDict) {
    forall k, i, k', i' ::
      (0 <= k < |skipDict| && 0 <= i < |skipDict[k].1| && 0 <= k' < |skipDict| && 0 <= i' < |skipDict[k'].1|
       && skipDict[k].1[i] == skipDict[k'].1[i']) ==> k == k' && i == i'
  }

  function StatesOf(skipDict: SkipDict): set<State> {
    set k, i | 0 <= k < |skipDict| && 0 <= i < |skipDict[k].1| :: skipDict[k].1[i]
  }
}
