/** ExecutionManager of execution.py: narrowing the execution spans of a skip alignment,
    removing its log moves, merging the log moves back into the reshuffled alignments, and
    the checks over the coinciding alignments found per variant. */
module ExecutionManager {
  import opened Wrappers
  import opened ProcessTree
  import opened Alignment
  import opened Shuffles
  import opened Strings
  import opened ExecutionTrees

  // ---------------------------------------------------------------------------------------
  // correct_to_narrowest_moves

  /** Every span is well ordered and lies within a path of length n. */
  predicate SpansOrdered(executions: seq<Execution>, n: nat) {
    forall k :: 0 <= k < |executions| ==> 0 <= executions[k].start <= executions[k].stop <= n
  }

  /** A position may bound the span of `node`: it is not a log move and its move lies inside. */
  predicate Good(path: seq<Step>, node: Tree, p: int)
    requires 0 <= p < |path|
  {
    !path[p].model.NoMove? && Contains(node, path[p].model.node)
  }

  /** One pass of the narrowing loop, with its six rules in the source's order: a log move at
      either end, then a skip or tau path outside the node at either end, then a leaf move
      outside the node at either end. None when no rule applies (the `break`). */
  function NarrowStep(path: seq<Step>, e: Execution): Option<Execution>
    requires 0 <= e.start < e.stop <= |path|
  {
    var first := path[e.start].model;
    var last := path[e.stop - 1].model;
    if first.NoMove? then Some(e.(start := e.start + 1))
    else if last.NoMove? then Some(e.(stop := e.stop - 1))
    else if first.IsSkipLike() && !Contains(e.node, first.node) then Some(e.(start := e.start + 1))
    else if last.IsSkipLike() && !Contains(e.node, last.node) then Some(e.(stop := e.stop - 1))
    else if !first.IsSkipLike() && !Contains(e.node, first.node) then Some(e.(start := e.start + 1))
    else if !last.IsSkipLike() && !Contains(e.node, last.node) then Some(e.(stop := e.stop - 1))
    else None
  }

  /** The span the narrowing loop leaves for e: the rules applied while the span is not empty. */
  function Narrow(path: seq<Step>, e: Execution): (r: Execution)
    requires 0 <= e.start && e.stop <= |path|
    ensures r.node == e.node && e.start <= r.start && r.stop <= e.stop
    ensures e.start <= e.stop ==> r.start <= r.stop
    decreases e.stop - e.start
  {
    if e.stop <= e.start then e
    else match NarrowStep(path, e)
      case None => e
      case Some(e') => Narrow(path, e')
  }

  /** A rule fires exactly when an end of the span is not Good, and it drops that end. */
  lemma {:induction false} NarrowStepSpec(path: seq<Step>, e: Execution)
    requires 0 <= e.start < e.stop <= |path|
    ensures NarrowStep(path, e).None? <==> Good(path, e.node, e.start) && Good(path, e.node, e.stop - 1)
    ensures NarrowStep(path, e).Some? ==>
      var e' := NarrowStep(path, e).value;
      e'.node == e.node &&
      ((e' == e.(start := e.start + 1) && !Good(path, e.node, e.start)) ||
       (e' == e.(stop := e.stop - 1) && !Good(path, e.node, e.stop - 1)))
  {
  }

  /** Narrowing drops only positions that are not Good, and ends on an empty span or on two
      Good ends. Together: when the span holds a Good position, the result runs from
      the first Good position to the last. */
  lemma {:induction false} NarrowSpec(path: seq<Step>, e: Execution)
    requires 0 <= e.start && e.stop <= |path|
    ensures var r := Narrow(path, e);
      && (r.start < r.stop ==> Good(path, e.node, r.start) && Good(path, e.node, r.stop - 1))
      && (forall p :: e.start <= p < r.start && p < e.stop ==> !Good(path, e.node, p))
      && (forall p :: r.stop <= p < e.stop && e.start <= p ==> !Good(path, e.node, p))
    decreases e.stop - e.start
  {
    if e.start < e.stop {
      NarrowStepSpec(path, e);
      match NarrowStep(path, e)
      case None =>
      case Some(e') =>
        NarrowSpec(path, e');
    }
  }

  /** Running the narrowing a second time changes nothing. */
  lemma {:induction false} NarrowIdempotent(path: seq<Step>, e: Execution)
    requires 0 <= e.start && e.stop <= |path|
    ensures Narrow(path, Narrow(path, e)) == Narrow(path, e)
  {
    NarrowSpec(path, e);
    var r := Narrow(path, e);
    if r.start < r.stop {
      NarrowStepSpec(path, r);
    }
  }

  /** correct_to_narrowest_moves: narrows every execution span of the state in place. */
  method CorrectToNarrowestMoves(state: State)
    requires SpansWithin(state.executions, |state.path|)
    modifies state
    ensures state.path == old(state.path)
    ensures state.executions == NarrowAll(state.path, old(state.executions))
  {
    ghost var original := state.executions;
    for i := 0 to |state.executions|
      invariant state.path == old(state.path)
      invariant |state.executions| == |original|
      invariant forall k :: 0 <= k < i ==> state.executions[k] == Narrow(state.path, original[k])
      invariant forall k :: i <= k < |original| ==> state.executions[k] == original[k]
    {
      var e := state.executions[i];
      while e.stop > e.start
        invariant 0 <= e.start && e.stop <= |state.path|
        invariant Narrow(state.path, e) == Narrow(state.path, original[i])
        decreases e.stop - e.start
      {
        var first := state.path[e.start].model;
        var last := state.path[e.stop - 1].model;
        if first.NoMove? {
          e := e.(start := e.start + 1);
        } else if last.NoMove? {
          e := e.(stop := e.stop - 1);
        } else if first.IsSkipLike() && !Contains(e.node, first.node) {
          e := e.(start := e.start + 1);
        } else if last.IsSkipLike() && !Contains(e.node, last.node) {
          e := e.(stop := e.stop - 1);
        } else if !first.IsSkipLike() && !Contains(e.node, first.node) {
          e := e.(start := e.start + 1);
        } else if !last.IsSkipLike() && !Contains(e.node, last.node) {
          e := e.(stop := e.stop - 1);
        } else {
          break;
        }
      }
      state.executions := state.executions[i := e];
    }
  }

  /** Every span narrowed, as correct_to_narrowest_moves leaves them. */
  function NarrowAll(path: seq<Step>, executions: seq<Execution>): (r: seq<Execution>)
    requires SpansWithin(executions, |path|)
    ensures |r| == |executions|
    ensures SpansOrdered(executions, |path|) ==> SpansOrdered(r, |path|)
  {
    seq(|executions|, k requires 0 <= k < |executions| => Narrow(path, executions[k]))
  }

  /** After narrowing, the span of every execution fits its path, and no non-empty span starts
      on a log move. */
  lemma {:induction false} NarrowedAll(path: seq<Step>, executions: seq<Execution>)
    requires SpansOrdered(executions, |path|)
    ensures SpansOrdered(NarrowAll(path, executions), |path|) && NarrowedStarts(path, NarrowAll(path, executions))
  {
    var r := NarrowAll(path, executions);
    forall k | 0 <= k < |r|
      ensures 0 <= r[k].start <= r[k].stop <= |path|
      ensures r[k].start < r[k].stop ==> !path[r[k].start].model.NoMove?
    {
      NarrowSpec(path, executions[k]);
    }
  }

  // ---------------------------------------------------------------------------------------
  // remove_log_moves

  /** No non-empty span starts on a log move: what the narrowing guarantees. */
  predicate NarrowedStarts(path: seq<Step>, executions: seq<Execution>)
    requires SpansOrdered(executions, |path|)
  {
    forall k :: 0 <= k < |executions| && executions[k].start < executions[k].stop ==>
      !path[executions[k].start].model.NoMove?
  }

  /** A log label with the suffix of its index in the log: `label + str(n)`. */
  function Tag(name: string, n: nat): string {
    name + NatToString(n)
  }

  /** A tagged label ends in a digit, so it is never the `'>>'` marker. */
  lemma {:induction false} TagNotSkip(name: string, n: nat)
    ensures Tag(name, n) != SKIP
  {
    var t := Tag(name, n);
    assert t[|t| - 1] == NatToString(n)[|NatToString(n)| - 1];
  }

  /** The index update for a log move removed at position i: a span around i loses one step
      at its end, a span after i moves one to the left, any other span is kept. */
  function Shift(e: Execution, i: int): Execution {
    if e.start < i && e.stop > i then e.(stop := e.stop - 1)
    else if e.start > i then e.(start := e.start - 1, stop := e.stop - 1)
    else e
  }

  function ShiftAll(executions: seq<Execution>, i: int): (r: seq<Execution>)
    ensures |r| == |executions| && forall k :: 0 <= k < |r| ==> r[k] == Shift(executions[k], i)
  {
    seq(|executions|, k requires 0 <= k < |executions| => Shift(executions[k], i))
  }

  /** What remove_log_moves returns, together with the new path and executions. */
  datatype Removal = Removal(path: seq<Step>, executions: seq<Execution>, logMoves: seq<string>, logPath: seq<string>)

  /** The removal loop from position i on: a log move is tagged, recorded in both lists and
      popped, shifting the spans; a synchronous move is tagged in place and recorded in the
      log path; a model move is passed over. */
  function RemoveFrom(path: seq<Step>, executions: seq<Execution>, i: nat,
                      logMoves: seq<string>, logPath: seq<string>): Removal
    requires i <= |path|
    decreases |path| - i
  {
    if i == |path| then Removal(path, executions, logMoves, logPath)
    else if path[i].model.NoMove? then
      var l := Tag(path[i].log, |logPath|);
      RemoveFrom(path[..i] + path[i + 1..], ShiftAll(executions, i), i, logMoves + [l], logPath + [l])
    else if path[i].log != SKIP then
      var l := Tag(path[i].log, |logPath|);
      RemoveFrom(path[i := Step(l, path[i].model)], executions, i + 1, logMoves, logPath + [l])
    else RemoveFrom(path, executions, i + 1, logMoves, logPath)
  }

  /** The labels that enter the log path, before tagging: those of the log moves and of the
      synchronous moves. */
  function RawLabels(path: seq<Step>): seq<string> {
    if path == [] then []
    else (if path[0].model.NoMove? || path[0].log != SKIP then [path[0].log] else []) + RawLabels(path[1..])
  }

  predicate NoLogMoves(path: seq<Step>) {
    forall k :: 0 <= k < |path| ==> !path[k].model.NoMove?
  }

  /** No log move is left, once none is left before position i. */
  lemma {:induction false} RemoveNoLogMoves(path: seq<Step>, executions: seq<Execution>, i: nat,
                                           logMoves: seq<string>, logPath: seq<string>)
    requires i <= |path|
    requires forall k :: 0 <= k < i ==> !path[k].model.NoMove?
    ensures NoLogMoves(RemoveFrom(path, executions, i, logMoves, logPath).path)
    decreases |path| - i
  {
    if i < |path| {
      if path[i].model.NoMove? {
        var l := Tag(path[i].log, |logPath|);
        var p := path[..i] + path[i + 1..];
        assert forall k :: 0 <= k < i ==> p[k] == path[k];
        assert RemoveFrom(path, executions, i, logMoves, logPath)
          == RemoveFrom(p, ShiftAll(executions, i), i, logMoves + [l], logPath + [l]);
        RemoveNoLogMoves(p, ShiftAll(executions, i), i, logMoves + [l], logPath + [l]);
      } else if path[i].log != SKIP {
        var l := Tag(path[i].log, |logPath|);
        RemoveNoLogMoves(path[i := Step(l, path[i].model)], executions, i + 1, logMoves, logPath + [l]);
      } else {
        RemoveNoLogMoves(path, executions, i + 1, logMoves, logPath);
      }
    }
  }

  /** Every popped step is one recorded log move; the executions keep their number. */
  lemma {:induction false} RemoveLength(path: seq<Step>, executions: seq<Execution>, i: nat,
                                       logMoves: seq<string>, logPath: seq<string>)
    requires i <= |path|
    ensures var r := RemoveFrom(path, executions, i, logMoves, logPath);
      |r.path| + |r.logMoves| == |path| + |logMoves| && |r.executions| == |executions|
    decreases |path| - i
  {
    if i < |path| {
      if path[i].model.NoMove? {
        var l := Tag(path[i].log, |logPath|);
        assert |path[..i] + path[i + 1..]| == |path| - 1;
        assert RemoveFrom(path, executions, i, logMoves, logPath)
          == RemoveFrom(path[..i] + path[i + 1..], ShiftAll(executions, i), i, logMoves + [l], logPath + [l]);
        RemoveLength(path[..i] + path[i + 1..], ShiftAll(executions, i), i, logMoves + [l], logPath + [l]);
      } else if path[i].log != SKIP {
        var l := Tag(path[i].log, |logPath|);
        RemoveLength(path[i := Step(l, path[i].model)], executions, i + 1, logMoves, logPath + [l]);
      } else {
        RemoveLength(path, executions, i + 1, logMoves, logPath);
      }
    }
  }

  /** The log path interleaves the labels now on the path with the log moves. */
  lemma {:induction false} RemoveInterleaves(path: seq<Step>, executions: seq<Execution>, i: nat,
                                            logMoves: seq<string>, logPath: seq<string>)
    requires i <= |path|
    requires Interleaves(logPath, LogLabels(path[..i]), logMoves)
    ensures var r := RemoveFrom(path, executions, i, logMoves, logPath);
      Interleaves(r.logPath, LogLabels(r.path), r.logMoves)
    decreases |path| - i
  {
    if i == |path| {
      assert path[..i] == path;
    } else if path[i].model.NoMove? {
      var l := Tag(path[i].log, |logPath|);
      LabelsAfterLogMove(path, i, logMoves, logPath, l);
      RemoveInterleaves(path[..i] + path[i + 1..], ShiftAll(executions, i), i, logMoves + [l], logPath + [l]);
    } else if path[i].log != SKIP {
      var l := Tag(path[i].log, |logPath|);
      TagNotSkip(path[i].log, |logPath|);
      LabelsAfterSync(path, i, logMoves, logPath, l);
      RemoveInterleaves(path[i := Step(l, path[i].model)], executions, i + 1, logMoves, logPath + [l]);
    } else {
      LabelsAfterModelMove(path, i, logMoves, logPath);
      RemoveInterleaves(path, executions, i + 1, logMoves, logPath);
    }
  }

  lemma {:induction false} LabelsAfterLogMove(path: seq<Step>, i: nat, logMoves: seq<string>, logPath: seq<string>, l: string)
    requires i < |path| && Interleaves(logPath, LogLabels(path[..i]), logMoves)
    ensures Interleaves(logPath + [l], LogLabels((path[..i] + path[i + 1..])[..i]), logMoves + [l])
  {
    assert (path[..i] + path[i + 1..])[..i] == path[..i];
    InterleavesSnoc(logPath, LogLabels(path[..i]), logMoves, l);
  }

  lemma {:induction false} LabelsAfterSync(path: seq<Step>, i: nat, logMoves: seq<string>, logPath: seq<string>, l: string)
    requires i < |path| && l != SKIP && Interleaves(logPath, LogLabels(path[..i]), logMoves)
    ensures Interleaves(logPath + [l], LogLabels(path[i := Step(l, path[i].model)][..i + 1]), logMoves)
  {
    var x := Step(l, path[i].model);
    assert path[i := x][..i + 1] == path[..i] + [x];
    LogLabelsSnoc(path[..i], x);
    InterleavesSnoc(logPath, LogLabels(path[..i]), logMoves, l);
  }

  lemma {:induction false} LabelsAfterModelMove(path: seq<Step>, i: nat, logMoves: seq<string>, logPath: seq<string>)
    requires i < |path| && path[i].log == SKIP && Interleaves(logPath, LogLabels(path[..i]), logMoves)
    ensures Interleaves(logPath, LogLabels(path[..i + 1]), logMoves)
  {
    assert path[..i + 1] == path[..i] + [path[i]];
    LogLabelsSnoc(path[..i], path[i]);
    assert LogLabels(path[..i]) + LogLabel(path[i]) == LogLabels(path[..i]);
  }

  /** Entry k of the log path is the k-th raw label tagged with k. */
  predicate TaggedLog(logPath: seq<string>, raw: seq<string>) {
    |logPath| == |raw| && forall k :: 0 <= k < |raw| ==> logPath[k] == Tag(raw[k], k)
  }

  lemma {:induction false} TaggedLogSnoc(logPath: seq<string>, raw: seq<string>, x: string)
    requires TaggedLog(logPath, raw)
    ensures TaggedLog(logPath + [Tag(x, |logPath|)], raw + [x])
  {
  }

  /** Every log-path entry carries its own index as suffix. */
  lemma {:induction false} RemoveTags(path: seq<Step>, executions: seq<Execution>, i: nat,
                                     logMoves: seq<string>, logPath: seq<string>, raw: seq<string>)
    requires i <= |path|
    requires TaggedLog(logPath, raw)
    ensures TaggedLog(RemoveFrom(path, executions, i, logMoves, logPath).logPath, raw + RawLabels(path[i..]))
    decreases |path| - i
  {
    if i == |path| {
      assert path[i..] == [] && raw + [] == raw;
    } else {
      var x := path[i];
      assert path[i..][0] == x && path[i..][1..] == path[i + 1..];
      if x.model.NoMove? || x.log != SKIP {
        var l := Tag(x.log, |logPath|);
        TaggedLogSnoc(logPath, raw, x.log);
        assert raw + RawLabels(path[i..]) == (raw + [x.log]) + RawLabels(path[i + 1..]);
        if x.model.NoMove? {
          var p := path[..i] + path[i + 1..];
          assert p[i..] == path[i + 1..];
          RemoveTags(p, ShiftAll(executions, i), i, logMoves + [l], logPath + [l], raw + [x.log]);
        } else {
          var p := path[i := Step(l, x.model)];
          assert p[i + 1..] == path[i + 1..];
          RemoveTags(p, executions, i + 1, logMoves, logPath + [l], raw + [x.log]);
        }
      } else {
        assert RawLabels(path[i..]) == RawLabels(path[i + 1..]);
        RemoveTags(path, executions, i + 1, logMoves, logPath, raw);
      }
    }
  }

  /** The steps a span covers, as model moves. */
  function Covered(path: seq<Step>, e: Execution): seq<ModelMove>
    requires 0 <= e.start <= e.stop <= |path|
  {
    ModelTrace(path[e.start..e.stop])
  }

  /** Popping a log move at position i, with the span update, keeps a narrowed span narrowed,
      within the shorter path, and covering the same model moves. */
  lemma {:induction false} ShiftOne(path: seq<Step>, e: Execution, i: nat)
    requires i < |path| && path[i].model.NoMove?
    requires 0 <= e.start <= e.stop <= |path|
    requires e.start < e.stop ==> !path[e.start].model.NoMove?
    ensures var p := path[..i] + path[i + 1..]; var e' := Shift(e, i);
      && 0 <= e'.start <= e'.stop <= |p|
      && (e'.start < e'.stop ==> !p[e'.start].model.NoMove?)
      && Covered(p, e') == Covered(path, e)
  {
    var p := path[..i] + path[i + 1..];
    if e.start < i < e.stop {
      var a, b := path[e.start..i], path[i + 1..e.stop];
      assert p[e.start..e.stop - 1] == a + b;
      assert path[e.start..e.stop] == a + [path[i]] + b;
      ModelTraceDrop(a, path[i], b);
      assert p[e.start] == path[e.start];
    } else if e.start > i {
      assert p[e.start - 1..e.stop - 1] == path[e.start..e.stop];
    } else {
      assert p[e.start..e.stop] == path[e.start..e.stop];
    }
  }

  /** Re-tagging the log label at position i changes no span's covered model moves. */
  lemma {:induction false} RetagOne(path: seq<Step>, e: Execution, i: nat, x: Step)
    requires i < |path| && x.model == path[i].model
    requires 0 <= e.start <= e.stop <= |path|
    ensures Covered(path[i := x], e) == Covered(path, e)
  {
    ModelTraceOfModels(path[i := x][e.start..e.stop], path[e.start..e.stop]);
  }

  /** Once the spans are narrowed, removing the log moves keeps every span within the new path
      and covering exactly the model moves it covered before. */
  lemma {:induction false} RemoveSpans(path: seq<Step>, executions: seq<Execution>, i: nat,
                                      logMoves: seq<string>, logPath: seq<string>)
    requires i <= |path|
    requires SpansOrdered(executions, |path|) && NarrowedStarts(path, executions)
    ensures var r := RemoveFrom(path, executions, i, logMoves, logPath);
      && |r.executions| == |executions| && SpansOrdered(r.executions, |r.path|)
      && forall k :: 0 <= k < |executions| ==> Covered(r.path, r.executions[k]) == Covered(path, executions[k])
    decreases |path| - i
  {
    RemoveLength(path, executions, i, logMoves, logPath);
    if i < |path| {
      if path[i].model.NoMove? {
        var l := Tag(path[i].log, |logPath|);
        var p := path[..i] + path[i + 1..];
        var es := ShiftAll(executions, i);
        forall k | 0 <= k < |executions|
          ensures 0 <= es[k].start <= es[k].stop <= |p|
          ensures es[k].start < es[k].stop ==> !p[es[k].start].model.NoMove?
          ensures Covered(p, es[k]) == Covered(path, executions[k])
        {
          ShiftOne(path, executions[k], i);
        }
        RemoveSpans(p, es, i, logMoves + [l], logPath + [l]);
      } else {
        var x := if path[i].log != SKIP then Step(Tag(path[i].log, |logPath|), path[i].model) else path[i];
        var p := path[i := x];
        forall k | 0 <= k < |executions|
          ensures Covered(p, executions[k]) == Covered(path, executions[k])
          ensures executions[k].start < executions[k].stop ==> !p[executions[k].start].model.NoMove?
        {
          RetagOne(path, executions[k], i, x);
        }
        if path[i].log != SKIP {
          RemoveSpans(p, executions, i + 1, logMoves, logPath + [x.log]);
        } else {
          assert p == path;
          RemoveSpans(path, executions, i + 1, logMoves, logPath);
        }
      }
    }
  }

  /** remove_log_moves from the initial state, with all it promises: no log move remains on
      the path; the path shrinks by the number of log moves; the log path interleaves the
      labels left on the path with the log moves, so the log moves form a subsequence of it;
      entry k of the log path is the k-th log or synchronous label with suffix k; and, after
      narrowing, every span covers the same model moves as before. */
  lemma {:induction false} RemoveLogMovesSpec(path: seq<Step>, executions: seq<Execution>)
    ensures var r := RemoveFrom(path, executions, 0, [], []);
      && NoLogMoves(r.path)
      && |r.path| == |path| - |r.logMoves|
      && Interleaves(r.logPath, LogLabels(r.path), r.logMoves)
      && Subseq(r.logMoves, r.logPath)
      && TaggedLog(r.logPath, RawLabels(path))
      && (SpansOrdered(executions, |path|) && NarrowedStarts(path, executions) ==>
            SpansOrdered(r.executions, |r.path|) && |r.executions| == |executions|
            && forall k :: 0 <= k < |executions| ==> Covered(r.path, r.executions[k]) == Covered(path, executions[k]))
  {
    var r := RemoveFrom(path, executions, 0, [], []);
    RemoveNoLogMoves(path, executions, 0, [], []);
    RemoveLength(path, executions, 0, [], []);
    assert path[..0] == [];
    RemoveInterleaves(path, executions, 0, [], []);
    InterleavesSubseq(r.logPath, LogLabels(r.path), r.logMoves);
    RemoveTags(path, executions, 0, [], [], []);
    assert path[0..] == path && [] + RawLabels(path) == RawLabels(path);
    if SpansOrdered(executions, |path|) && NarrowedStarts(path, executions) {
      RemoveSpans(path, executions, 0, [], []);
    }
  }

  /** The two steps in the order coninciding_agns takes them: after narrowing, removing the log
      moves leaves every span within the new path, covering the model moves its narrowed
      span covered. */
  lemma {:induction false} NarrowThenRemove(path: seq<Step>, executions: seq<Execution>)
    requires SpansOrdered(executions, |path|)
    ensures var narrowed := NarrowAll(path, executions);
      var r := RemoveFrom(path, narrowed, 0, [], []);
      && SpansOrdered(r.executions, |r.path|) && |r.executions| == |executions|
      && forall k :: 0 <= k < |executions| ==> Covered(r.path, r.executions[k]) == Covered(path, narrowed[k])
  {
    NarrowedAll(path, executions);
    RemoveLogMovesSpec(path, NarrowAll(path, executions));
  }

  /** remove_log_moves: pops the log moves from the path, tags the log labels with their
      index in the log, and shifts the spans; returns the log moves and the log path. */
  method RemoveLogMoves(state: State) returns (logMoves: seq<string>, logPath: seq<string>)
    modifies state
    ensures Removal(state.path, state.executions, logMoves, logPath)
      == RemoveFrom(old(state.path), old(state.executions), 0, [], [])
  {
    var i := 0;
    logMoves := [];
    logPath := [];
    while i < |state.path|
      invariant i <= |state.path|
      invariant RemoveFrom(state.path, state.executions, i, logMoves, logPath)
        == RemoveFrom(old(state.path), old(state.executions), 0, [], [])
      decreases |state.path| - i
    {
      if state.path[i].model.NoMove? {
        var l := state.path[i].log + NatToString(|logPath|);
        logMoves := logMoves + [l];
        logPath := logPath + [l];
        ghost var before := state.executions;
        ghost var path := state.path;
        for k := 0 to |state.executions|
          invariant state.path == path
          invariant |state.executions| == |before|
          invariant forall j :: 0 <= j < k ==> state.executions[j] == Shift(before[j], i)
          invariant forall j :: k <= j < |before| ==> state.executions[j] == before[j]
        {
          var e := state.executions[k];
          if e.start < i && e.stop > i {
            e := e.(stop := e.stop - 1);
          } else if e.start > i {
            e := e.(start := e.start - 1, stop := e.stop - 1);
          }
          state.executions := state.executions[k := e];
        }
        assert state.executions == ShiftAll(before, i);
        state.path := state.path[..i] + state.path[i + 1..];
      } else {
        if state.path[i].log != SKIP {
          var l := state.path[i].log + NatToString(|logPath|);
          state.path := state.path[i := Step(l, state.path[i].model)];
          logPath := logPath + [l];
        }
        i := i + 1;
      }
    }
  }

  // ---------------------------------------------------------------------------------------
  // ExecutionManager.shuffle: merging the log moves back in

  /** The first merge loop: from ms on, pass over model moves ('>>' labels) and over labels
      that continue the log path in order; reading past the end of the log path raises. */
  function ScanStart(a: seq<Step>, pending: seq<string>, ms: nat): (r: Result<nat>)
    requires ms <= |a|
    ensures r.Ok? ==> ms <= r.value <= |a|
    decreases |a| - ms
  {
    if ms == |a| then Ok(ms)
    else if pending == [] then Err(INDEX_ERROR)
    else if a[ms].log == SKIP || a[ms].log == pending[0] then
      ScanStart(a, if a[ms].log == pending[0] then pending[1..] else pending, ms + 1)
    else Ok(ms)
  }

  /** Back to the start of the run of model moves that ends at ms. */
  function BackOverSkips(a: seq<Step>, ms: nat): (r: nat)
    requires ms <= |a|
    ensures r <= ms && (forall k :: r <= k < ms ==> a[k].log == SKIP) && (r == 0 || a[r - 1].log != SKIP)
    decreases ms
  {
    if ms > 0 && a[ms - 1].log == SKIP then BackOverSkips(a, ms - 1) else ms
  }

  /** The end of the run of model moves that starts at me. */
  function SkipsEnd(a: seq<Step>, me: nat): (r: nat)
    requires me <= |a|
    ensures me <= r <= |a| && (forall k :: me <= k < r ==> a[k].log == SKIP) && (r == |a| || a[r].log != SKIP)
    decreases |a| - me
  {
    if me < |a| && a[me].log == SKIP then SkipsEnd(a, me + 1) else me
  }

  /** The alignments that sink log move l into a: the run of model moves around the place
      the log path has reached is shuffled, in order, with the single step (l, '>>'). */
  function MergeInto(a: seq<Step>, l: string, logPath: seq<string>): Result<seq<seq<Step>>> {
    var scanned :- ScanStart(a, logPath, 0);
    var ms := BackOverSkips(a, scanned);
    var me := SkipsEnd(a, ms);
    var sinks := AllOrderPreservingShuffles([a[ms..me], [Step(l, NoMove)]]);
    Ok(seq(|sinks|, k requires 0 <= k < |sinks| => a[..ms] + sinks[k] + a[me..]))
  }

  /** One round of the merge: log move l sunk into every alignment of the base, in order. */
  function MergeEach(base: seq<seq<Step>>, l: string, logPath: seq<string>): Result<seq<seq<Step>>> {
    if base == [] then Ok([])
    else
      var first :- MergeInto(base[0], l, logPath);
      var rest :- MergeEach(base[1..], l, logPath);
      Ok(first + rest)
  }

  /** All rounds of the merge, one per log move, in the order of the log moves. */
  function MergeLogMoves(base: seq<seq<Step>>, logMoves: seq<string>, logPath: seq<string>): Result<seq<seq<Step>>>
    decreases |logMoves|
  {
    if logMoves == [] then Ok(base)
    else
      var next :- MergeEach(base, logMoves[0], logPath);
      MergeLogMoves(next, logMoves[1..], logPath)
  }

  /** The log path without the log moves: the labels of the synchronous moves. */
  function SyncLabels(logPath: seq<string>, logMoves: seq<string>): seq<string> {
    if logPath == [] then []
    else (if logPath[0] in logMoves then [] else [logPath[0]]) + SyncLabels(logPath[1..], logMoves)
  }

  /** The alignments yielded for the candidates: a candidate whose labels are the synchronous
      ones gets every log move merged in, and the merged alignments whose labels are the
      whole log path are kept. */
  function Yielded(candidates: seq<seq<Step>>, logMoves: seq<string>, logPath: seq<string>): Result<seq<seq<Step>>> {
    if candidates == [] then Ok([])
    else
      var here :- if LogLabels(candidates[0]) == SyncLabels(logPath, logMoves)
        then MergeLogMoves([candidates[0]], logMoves, logPath)
        else Ok([]);
      var rest :- Yielded(candidates[1..], logMoves, logPath);
      Ok(Matching(here, logPath) + rest)
  }

  /** The alignments whose labels are exactly the log path. */
  function Matching(agns: seq<seq<Step>>, logPath: seq<string>): seq<seq<Step>> {
    if agns == [] then []
    else (if LogLabels(agns[0]) == logPath then [agns[0]] else []) + Matching(agns[1..], logPath)
  }

  /** ExecutionManager.shuffle: the coinciding alignments of a skip alignment, one per
      reshuffle of its execution tree that agrees with the log once the log moves are back. */
  function CoincidingOf(tree: ExecutionTree, path: seq<Step>, logMoves: seq<string>, logPath: seq<string>)
    : Result<seq<seq<Step>>>
  {
    var candidates :- Shuffle(tree, path);
    Yielded(candidates, logMoves, logPath)
  }

  /** out has the model moves of a and n more steps. */
  predicate Extends(out: seq<Step>, a: seq<Step>, n: nat) {
    ModelTrace(out) == ModelTrace(a) && |out| == |a| + n
  }

  /** Interleaving log moves into w leaves its model trace as it is. */
  lemma {:induction false} InterleavedLogMoves(r: seq<Step>, w: seq<Step>, b: seq<Step>)
    requires Interleaves(r, w, b)
    requires forall k :: 0 <= k < |b| ==> b[k].model.NoMove?
    ensures ModelTrace(r) == ModelTrace(w)
    decreases |r|
  {
    if r != [] {
      if w != [] && r[0] == w[0] && Interleaves(r[1..], w[1..], b) {
        InterleavedLogMoves(r[1..], w[1..], b);
      } else {
        InterleavedLogMoves(r[1..], w, b[1..]);
      }
    }
  }

  /** Replacing a[ms..me] by a part with the same model trace keeps the model trace of a. */
  lemma {:induction false} ModelTraceSplice(a: seq<Step>, ms: nat, me: nat, part: seq<Step>)
    requires ms <= me <= |a| && ModelTrace(part) == ModelTrace(a[ms..me])
    ensures ModelTrace(a[..ms] + part + a[me..]) == ModelTrace(a)
  {
    ModelTraceAppend(a[..ms] + part, a[me..]);
    ModelTraceAppend(a[..ms], part);
    assert a == a[..ms] + a[ms..me] + a[me..];
    ModelTraceAppend(a[..ms] + a[ms..me], a[me..]);
    ModelTraceAppend(a[..ms], a[ms..me]);
  }

  /** Each alignment with l sunk in has a's model moves and one step more. */
  lemma {:induction false} MergeIntoSpec(a: seq<Step>, l: string, logPath: seq<string>)
    ensures MergeInto(a, l, logPath).Ok? ==>
      forall out :: out in MergeInto(a, l, logPath).value ==> Extends(out, a, 1)
  {
    var scanned := ScanStart(a, logPath, 0);
    if scanned.Ok? {
      var ms := BackOverSkips(a, scanned.value);
      var me := SkipsEnd(a, ms);
      var w := a[ms..me];
      var x := Step(l, NoMove);
      var sinks := AllOrderPreservingShuffles([w, [x]]);
      assert sinks == Shuffles2(w, [x]);
      Shuffles2Spec(w, [x]);
      forall out | out in MergeInto(a, l, logPath).value
        ensures Extends(out, a, 1)
      {
        var k :| 0 <= k < |sinks| && out == a[..ms] + sinks[k] + a[me..];
        assert sinks[k] in sinks;
        InterleavedLogMoves(sinks[k], w, [x]);
        InterleavesSubseq(sinks[k], w, [x]);
        ModelTraceSplice(a, ms, me, sinks[k]);
      }
    }
  }

  /** Each alignment of a merge round extends one of the base alignments by one step. */
  lemma {:induction false} MergeEachSpec(base: seq<seq<Step>>, l: string, logPath: seq<string>)
    ensures MergeEach(base, l, logPath).Ok? ==>
      forall out :: out in MergeEach(base, l, logPath).value ==> exists a :: a in base && Extends(out, a, 1)
  {
    if base != [] && MergeEach(base, l, logPath).Ok? {
      MergeIntoSpec(base[0], l, logPath);
      MergeEachSpec(base[1..], l, logPath);
      var first := MergeInto(base[0], l, logPath).value;
      var rest := MergeEach(base[1..], l, logPath).value;
      forall out | out in first + rest
        ensures exists a :: a in base && Extends(out, a, 1)
      {
        if out in first {
          assert base[0] in base;
        } else {
          var a :| a in base[1..] && Extends(out, a, 1);
          assert a in base;
        }
      }
    }
  }

  /** After all rounds, each alignment extends a base alignment by one step per log move,
      keeping its model moves. */
  lemma {:induction false} MergeLogMovesSpec(base: seq<seq<Step>>, logMoves: seq<string>, logPath: seq<string>)
    ensures MergeLogMoves(base, logMoves, logPath).Ok? ==>
      forall out :: out in MergeLogMoves(base, logMoves, logPath).value ==>
        exists a :: a in base && Extends(out, a, |logMoves|)
    decreases |logMoves|
  {
    if logMoves == [] {
      assert forall out :: out in base ==> Extends(out, out, 0);
    } else if MergeLogMoves(base, logMoves, logPath).Ok? {
      var next := MergeEach(base, logMoves[0], logPath).value;
      MergeEachSpec(base, logMoves[0], logPath);
      MergeLogMovesSpec(next, logMoves[1..], logPath);
      assert MergeLogMoves(base, logMoves, logPath) == MergeLogMoves(next, logMoves[1..], logPath);
      var n := |logMoves[1..]|;
      assert n + 1 == |logMoves|;
      forall out | out in MergeLogMoves(next, logMoves[1..], logPath).value
        ensures exists a :: a in base && Extends(out, a, n + 1)
      {
        var b :| b in next && Extends(out, b, n);
        var a :| a in base && Extends(b, a, 1);
        assert Extends(out, a, n + 1);
      }
    }
  }

  lemma {:induction false} MatchingMember(agns: seq<seq<Step>>, logPath: seq<string>, x: seq<Step>)
    ensures x in Matching(agns, logPath) <==> x in agns && LogLabels(x) == logPath
  {
    if agns != [] {
      MatchingMember(agns[1..], logPath, x);
      assert agns == [agns[0]] + agns[1..];
    }
  }

  /** What ExecutionManager.shuffle yields: alignments whose labels are the whole log path,
      each obtained from a candidate whose labels are the synchronous ones by adding one
      step per log move and no model move. */
  lemma {:induction false} YieldedSpec(candidates: seq<seq<Step>>, logMoves: seq<string>, logPath: seq<string>)
    ensures Yielded(candidates, logMoves, logPath).Ok? ==>
      forall out :: out in Yielded(candidates, logMoves, logPath).value ==>
        && LogLabels(out) == logPath
        && exists c :: c in candidates && LogLabels(c) == SyncLabels(logPath, logMoves) && Extends(out, c, |logMoves|)
  {
    if candidates != [] && Yielded(candidates, logMoves, logPath).Ok? {
      var c := candidates[0];
      var sync := LogLabels(c) == SyncLabels(logPath, logMoves);
      var here := if sync then MergeLogMoves([c], logMoves, logPath).value else [];
      var rest := Yielded(candidates[1..], logMoves, logPath).value;
      YieldedSpec(candidates[1..], logMoves, logPath);
      MergeLogMovesSpec([c], logMoves, logPath);
      forall out | out in Matching(here, logPath) + rest
        ensures LogLabels(out) == logPath
        ensures exists c :: c in candidates && LogLabels(c) == SyncLabels(logPath, logMoves) && Extends(out, c, |logMoves|)
      {
        if out in Matching(here, logPath) {
          MatchingMember(here, logPath, out);
          assert c in candidates;
        } else {
          var c' :| c' in candidates[1..] && LogLabels(c') == SyncLabels(logPath, logMoves) && Extends(out, c', |logMoves|);
          assert c' in candidates;
        }
      }
    }
  }

  /** ExecutionManager.shuffle yields only alignments that agree with the whole log path and
      come from a reshuffle of the execution tree that agrees with the synchronous labels,
      with exactly the log moves added. */
  lemma {:induction false} CoincidingOfSpec(tree: ExecutionTree, path: seq<Step>, logMoves: seq<string>, logPath: seq<string>)
    ensures CoincidingOf(tree, path, logMoves, logPath).Ok? ==>
      forall out :: out in CoincidingOf(tree, path, logMoves, logPath).value ==>
        && LogLabels(out) == logPath
        && exists c :: c in Shuffle(tree, path).value && LogLabels(c) == SyncLabels(logPath, logMoves)
             && Extends(out, c, |logMoves|)
  {
    if Shuffle(tree, path).Ok? {
      YieldedSpec(Shuffle(tree, path).value, logMoves, logPath);
    }
  }

  // ---------------------------------------------------------------------------------------
  // validate and coinciding_agns_var

  const VALUE_ERROR: string := "ValueError"

  /** Two sets of coinciding alignments of one variant share an alignment. */
  predicate Overlap<A>(sets: seq<set<A>>) {
    exists i, j :: 0 <= i < j < |sets| && sets[i] * sets[j] != {}
  }

  /** The two nested loops of validate for one variant: true iff no two sets intersect. */
  method Disjoint<A>(sets: seq<set<A>>) returns (ok: bool)
    ensures ok <==> !Overlap(sets)
  {
    for i := 0 to |sets|
      invariant forall i', j :: 0 <= i' < i && i' < j < |sets| ==> sets[i'] * sets[j] == {}
    {
      for j := i + 1 to |sets|
        invariant forall j' :: i < j' < j ==> sets[i] * sets[j'] == {}
      {
        if sets[i] * sets[j] != {} {
          return false;
        }
      }
    }
    return true;
  }

  /** validate: raises ValueError iff, for some variant, two of its sets of coinciding
      alignments intersect (the theorem says they never do). */
  method Validate<K, A>(globalC: map<K, seq<set<A>>>) returns (r: Result<()>)
    ensures r.Err? <==> exists v :: v in globalC && Overlap(globalC[v])
    ensures r.Err? ==> r.msg == VALUE_ERROR
  {
    var todo := globalC.Keys;
    while todo != {}
      invariant todo <= globalC.Keys
      invariant forall v :: v in globalC.Keys - todo ==> !Overlap(globalC[v])
      decreases todo
    {
      var v :| v in todo;
      var ok := Disjoint(globalC[v]);
      if !ok {
        return Err(VALUE_ERROR);
      }
      todo := todo - {v};
    }
    return Ok(());
  }

  /** The union of a variant's sets of coinciding alignments. */
  ghost function UnionAll<A>(sets: seq<set<A>>): set<A> {
    if sets == [] then {} else sets[0] + UnionAll(sets[1..])
  }

  lemma {:induction false} UnionAllMember<A>(sets: seq<set<A>>, x: A)
    ensures x in UnionAll(sets) <==> exists i :: 0 <= i < |sets| && x in sets[i]
  {
    if sets != [] {
      UnionAllMember(sets[1..], x);
      if x in UnionAll(sets[1..]) {
        var i :| 0 <= i < |sets[1..]| && x in sets[1..][i];
        assert x in sets[i + 1];
      }
      if exists i :: 0 <= i < |sets| && x in sets[i] {
        var i :| 0 <= i < |sets| && x in sets[i];
        if i > 0 {
          assert x in sets[1..][i - 1];
        }
      }
    }
  }

  lemma {:induction false} UnionAllSnoc<A>(sets: seq<set<A>>, s: set<A>)
    ensures UnionAll(sets + [s]) == UnionAll(sets) + s
  {
    if sets == [] {
      assert sets + [s] == [s] && [s][1..] == [];
    } else {
      assert (sets + [s])[0] == sets[0] && (sets + [s])[1..] == sets[1..] + [s];
      UnionAllSnoc(sets[1..], s);
    }
  }

  /** The running union `u = u.union(fs)` over a list of sets. */
  method Union<A>(sets: seq<set<A>>) returns (all: set<A>)
    ensures all == UnionAll(sets)
  {
    all := {};
    for i := 0 to |sets|
      invariant all == UnionAll(sets[..i])
    {
      assert sets[..i + 1] == sets[..i] + [sets[i]];
      UnionAllSnoc(sets[..i], sets[i]);
      all := all + sets[i];
    }
    assert sets[..|sets|] == sets;
  }

  /** coinciding_agns_var: per variant, the union of its sets of coinciding alignments. */
  method CoincidingAgnsVar<K, A>(globalC: map<K, seq<set<A>>>) returns (varC: map<K, set<A>>)
    ensures varC.Keys == globalC.Keys
    ensures forall v :: v in globalC ==> varC[v] == UnionAll(globalC[v])
  {
    varC := map[];
    var todo := globalC.Keys;
    while todo != {}
      invariant todo <= globalC.Keys
      invariant varC.Keys == globalC.Keys - todo
      invariant forall v :: v in varC ==> varC[v] == UnionAll(globalC[v])
      decreases todo
    {
      var v :| v in todo;
      var all := Union(globalC[v]);
      varC := varC[v := all];
      todo := todo - {v};
    }
  }

  // ---------------------------------------------------------------------------------------
  // coninciding_agns

  /** State.unfold, which is not part of this model: the path and executions of each
      alignment a skip alignment unfolds into. */
  type Unfolding = (seq<Step>, seq<Execution>) -> seq<(seq<Step>, seq<Execution>)>

  /** What correct_to_narrowest_moves followed by remove_log_moves makes of a skip alignment. */
  function Prepared(path: seq<Step>, executions: seq<Execution>): Removal
    requires SpansWithin(executions, |path|)
  {
    RemoveFrom(path, NarrowAll(path, executions), 0, [], [])
  }

  /** frozenset over a list: its distinct elements. */
  function AsSet(xs: seq<seq<Step>>): (r: set<seq<Step>>)
    ensures forall x :: x in r <==> x in xs
  {
    set x | x in xs
  }

  /** The set coninciding_agns records for one unfolded alignment `unf`: the execution tree
      built over a copy of it (rooted at its first execution in sort order, holding only its
      executions), shuffled and filtered against the log path. */
  ghost predicate FromTree(cs: set<seq<Step>>, tree: ExecutionTree, unf: (seq<Step>, seq<Execution>),
                           logMoves: seq<string>, logPath: seq<string>, depth: Tree -> nat)
  {
    && WellBuilt(tree)
    && multiset(ExecutionsOf(tree)) <= multiset(unf.1)
    && tree.execution in unf.1
    && (forall x :: x in unf.1 ==> KeyLe(tree.execution, x, depth))
    && CoincidingOf(tree, unf.0, logMoves, logPath).Ok?
    && cs == AsSet(CoincidingOf(tree, unf.0, logMoves, logPath).value)
  }

  /** One set per unfolded alignment, each obtained from its own execution tree. */
  ghost predicate Collected(sets: seq<set<seq<Step>>>, trees: seq<ExecutionTree>,
                            unfolded: seq<(seq<Step>, seq<Execution>)>,
                            logMoves: seq<string>, logPath: seq<string>, depth: Tree -> nat)
  {
    && |sets| == |unfolded| && |trees| == |unfolded|
    && forall k :: 0 <= k < |sets| ==> FromTree(sets[k], trees[k], unfolded[k], logMoves, logPath, depth)
  }

  /** A skip alignment that had `path0` and `executions0`, once narrowed and with its log
      moves removed. */
  predicate IsPrepared(s: State, path0: seq<Step>, executions0: seq<Execution>)
    requires SpansWithin(executions0, |path0|)
    reads s
  {
    var p := Prepared(path0, executions0);
    s.path == p.path && s.executions == p.executions
  }

  /** The sets coninciding_agns collects for a skip alignment that had `path0` and
      `executions0`: one per alignment its prepared form unfolds into. */
  ghost predicate CollectedFrom(path0: seq<Step>, executions0: seq<Execution>,
                                sets: seq<set<seq<Step>>>, trees: seq<ExecutionTree>,
                                unfold: Unfolding, depth: Tree -> nat)
    requires SpansWithin(executions0, |path0|)
  {
    var p := Prepared(path0, executions0);
    Collected(sets, trees, unfold(p.path, p.executions), p.logMoves, p.logPath, depth)
  }

  /** The inner step of coninciding_agns for one unfolded alignment: build the execution tree
      of a copy of it and collect what shuffle yields from it. */
  method CoincidingOfUnfolded(unf: (seq<Step>, seq<Execution>), logMoves: seq<string>, logPath: seq<string>,
                              depth: Tree -> nat)
    returns (r: Result<set<seq<Step>>>, ghost tree: ExecutionTree)
    ensures r.Ok? ==> FromTree(r.value, tree, unf, logMoves, logPath, depth)
    ensures r.Ok? ==> forall out :: out in r.value ==> LogLabels(out) == logPath
    ensures unf.1 == [] ==> r == Err(INDEX_ERROR)
  {
    var copy := new State(unf.0, unf.1);
    var built := BuildExecutionTree(copy, None, depth);
    if built.Err? {
      return Err(built.msg), ExecutionTree(Execution(Leaf("", "", false), 0, 0), []);
    }
    tree := built.value;
    assert multiset(unf.1) == multiset(copy.executions) + multiset(ExecutionsOf(built.value));
    var cs := CoincidingOf(built.value, unf.0, logMoves, logPath);
    if cs.Err? {
      return Err(cs.msg), tree;
    }
    CoincidingOfSpec(built.value, unf.0, logMoves, logPath);
    r := Ok(AsSet(cs.value));
  }

  /** The body of coninciding_agns for one state: narrow its spans, remove its log moves, and
      for every unfolded alignment build the execution tree of a copy and collect the
      coinciding alignments. Returns one set per unfolded alignment, and the log path. */
  method CoincidingOfState(state: State, unfold: Unfolding, depth: Tree -> nat)
    returns (r: Result<seq<set<seq<Step>>>>, logPath: seq<string>, ghost trees: seq<ExecutionTree>)
    requires SpansWithin(state.executions, |state.path|)
    modifies state
    ensures IsPrepared(state, old(state.path), old(state.executions))
    ensures logPath == Prepared(old(state.path), old(state.executions)).logPath
    ensures r.Ok? ==> CollectedFrom(old(state.path), old(state.executions), r.value, trees, unfold, depth)
    ensures r.Ok? ==> forall k, out :: 0 <= k < |r.value| && out in r.value[k] ==> LogLabels(out) == logPath
  {
    CorrectToNarrowestMoves(state);
    assert state.executions == NarrowAll(old(state.path), old(state.executions));
    var logMoves;
    logMoves, logPath := RemoveLogMoves(state);
    ghost var path, executions := state.path, state.executions;
    var unfolded := unfold(state.path, state.executions);
    var found: seq<set<seq<Step>>> := [];
    trees := [];
    for k := 0 to |unfolded|
      invariant state.path == path && state.executions == executions
      invariant |found| == k && |trees| == k
      invariant forall k' {:trigger FromTree(found[k'], trees[k'], unfolded[k'], logMoves, logPath, depth)} ::
        0 <= k' < k ==> FromTree(found[k'], trees[k'], unfolded[k'], logMoves, logPath, depth)
      invariant forall k', out :: 0 <= k' < k && out in found[k'] ==> LogLabels(out) == logPath
    {
      var collected, tree := CoincidingOfUnfolded(unfolded[k], logMoves, logPath, depth);
      if collected.Err? {
        return Err(collected.msg), logPath, trees;
      }
      found := found + [collected.value];
      trees := trees + [tree];
    }
    r := Ok(found);
  }

  const ZERO_DIVISION_ERROR: string := "ZeroDivisionError"

  /** The entries of a list of lists, one after the other. */
  ghost function Flatten<A>(xss: seq<seq<A>>): seq<A> {
    if xss == [] then [] else Flatten(xss[..|xss| - 1]) + xss[|xss| - 1]
  }

  lemma {:induction false} FlattenSnoc<A>(xss: seq<seq<A>>, xs: seq<A>)
    ensures Flatten(xss + [xs]) == Flatten(xss) + xs
  {
    assert (xss + [xs])[..|xss|] == xss;
  }


  /** C after the first |row| skip alignments of a variant: it holds exactly those of them with a
      non-empty list of sets, each mapped to the union of its list. */
  ghost predicate UnionsRecorded(c: map<State, set<seq<Step>>>, states: seq<State>, row: seq<seq<set<seq<Step>>>>)
  {
    && |row| <= |states|
    && (forall s :: s in c ==> s in states[..|row|])
    && (forall i {:trigger row[i]} :: 0 <= i < |row| ==> (states[i] in c <==> row[i] != []))
    && (forall i {:trigger row[i]} :: 0 <= i < |row| && row[i] != [] ==> states[i] in c && c[states[i]] == UnionAll(row[i]))
  }

  lemma {:induction false} UnionsRecordedStep(c: map<State, set<seq<Step>>>, c': map<State, set<seq<Step>>>,
                                              states: seq<State>, row: seq<seq<set<seq<Step>>>>, sets: seq<set<seq<Step>>>)
    requires forall i, j :: 0 <= i < j < |states| ==> states[i] != states[j]
    requires UnionsRecorded(c, states, row) && |row| < |states|
    requires c' == if sets != [] then c[states[|row|] := UnionAll(sets)] else c
    ensures UnionsRecorded(c', states, row + [sets])
  {
    var n := |row|;
    assert states[..n + 1] == states[..n] + [states[n]];
    forall i | 0 <= i < n
      ensures states[i] != states[n]
    {
    }
  }

  /** The inner loop of coninciding_agns for one variant after its first |row| skip alignments:
      those are prepared, with their sets and trees in row and rowTrees, C holds their unions,
      and the rest still have the paths and spans they had on entry. */
  ghost predicate VariantProgress(states: seq<State>, paths0: seq<seq<Step>>, executions0: seq<seq<Execution>>,
                                  c: map<State, set<seq<Step>>>, row: seq<seq<set<seq<Step>>>>,
                                  rowTrees: seq<seq<ExecutionTree>>, unfold: Unfolding, depth: Tree -> nat)
    reads set i | 0 <= i < |states| :: states[i]
  {
    && |row| == |rowTrees| <= |states| == |paths0| == |executions0|
    && (forall i {:trigger executions0[i]} :: 0 <= i < |states| ==> SpansWithin(executions0[i], |paths0[i]|))
    && (forall i {:trigger IsPrepared(states[i], paths0[i], executions0[i])} :: 0 <= i < |row| ==>
         IsPrepared(states[i], paths0[i], executions0[i]))
    && (forall i {:trigger CollectedFrom(paths0[i], executions0[i], row[i], rowTrees[i], unfold, depth)} ::
         0 <= i < |row| ==> CollectedFrom(paths0[i], executions0[i], row[i], rowTrees[i], unfold, depth))
    && UnionsRecorded(c, states, row)
    && (forall i {:trigger paths0[i]} :: |row| <= i < |states| ==>
         states[i].path == paths0[i] && states[i].executions == executions0[i])
  }

  /** One turn of the inner loop: skip alignment i of the variant is prepared and unfolded, and
      C gains the union of its sets when there are any; r.value.1 is the list of its sets. */
  method CoincidingOfMember(states: seq<State>, i: nat, ghost paths0: seq<seq<Step>>, ghost executions0: seq<seq<Execution>>,
                            c: map<State, set<seq<Step>>>, ghost row: seq<seq<set<seq<Step>>>>,
                            ghost rowTrees: seq<seq<ExecutionTree>>, unfold: Unfolding, depth: Tree -> nat)
    returns (r: Result<(map<State, set<seq<Step>>>, seq<set<seq<Step>>>)>, ghost trees: seq<ExecutionTree>)
    requires forall i, j :: 0 <= i < j < |states| ==> states[i] != states[j]
    requires VariantProgress(states, paths0, executions0, c, row, rowTrees, unfold, depth)
    requires |row| == i < |states|
    modifies states[i]
    ensures r.Ok? ==> VariantProgress(states, paths0, executions0, r.value.0, row + [r.value.1], rowTrees + [trees], unfold, depth)
  {
    var state := states[i];
    var sets, ignored;
    assert state.path == paths0[i] && state.executions == executions0[i];
    sets, ignored, trees := CoincidingOfState(state, unfold, depth);
    if sets.Err? {
      return Err(sets.msg), trees;
    }
    var c' := c;
    if |sets.value| > 0 {
      var all := Union(sets.value);
      c' := c[state := all];
    }
    UnionsRecordedStep(c, c', states, row, sets.value);
    forall j | 0 <= j < |states| && j != i
      ensures states[j].path == old(states[j].path) && states[j].executions == old(states[j].executions)
    {
      assert states[j] != state by {
        if j < i {
          assert states[j] != states[i];
        } else {
          assert states[i] != states[j];
        }
      }
    }
    ghost var row', rowTrees' := row + [sets.value], rowTrees + [trees];
    forall j | 0 <= j < |row'|
      ensures CollectedFrom(paths0[j], executions0[j], row'[j], rowTrees'[j], unfold, depth)
    {
      if j < i {
        assert row'[j] == row[j] && rowTrees'[j] == rowTrees[j];
      }
    }
    r := Ok((c', sets.value));
  }

  /** The inner loop of coninciding_agns for one variant: every skip alignment of it is
      processed, C gains the union of its sets when there are any, and already_found collects
      all its sets in order. */
  method CoincidingOfVariant(states: seq<State>, ghost paths0: seq<seq<Step>>, ghost executions0: seq<seq<Execution>>,
                             unfold: Unfolding, depth: Tree -> nat)
    returns (r: Result<(map<State, set<seq<Step>>>, seq<set<seq<Step>>>)>,
             ghost row: seq<seq<set<seq<Step>>>>, ghost rowTrees: seq<seq<ExecutionTree>>)
    requires forall i, j :: 0 <= i < j < |states| ==> states[i] != states[j]
    requires |paths0| == |states| && |executions0| == |states|
    requires forall i :: 0 <= i < |states| ==>
      states[i].path == paths0[i] && states[i].executions == executions0[i] &&
      SpansWithin(executions0[i], |paths0[i]|)
    modifies set i | 0 <= i < |states| :: states[i]
    ensures r.Ok? ==> |row| == |states| && |rowTrees| == |states|
    ensures r.Ok? ==> forall i {:trigger IsPrepared(states[i], paths0[i], executions0[i])} :: 0 <= i < |states| ==>
      IsPrepared(states[i], paths0[i], executions0[i])
    ensures r.Ok? ==> forall i {:trigger CollectedFrom(paths0[i], executions0[i], row[i], rowTrees[i], unfold, depth)} ::
      0 <= i < |states| ==> CollectedFrom(paths0[i], executions0[i], row[i], rowTrees[i], unfold, depth)
    ensures r.Ok? ==> UnionsRecorded(r.value.0, states, row)
    ensures r.Ok? ==> r.value.1 == Flatten(row)
  {
    var cNew: map<State, set<seq<Step>>> := map[];
    var alreadyFound: seq<set<seq<Step>>> := [];
    row, rowTrees := [], [];
    for i := 0 to |states|
      invariant |row| == i
      invariant alreadyFound == Flatten(row)
      invariant VariantProgress(states, paths0, executions0, cNew, row, rowTrees, unfold, depth)
    {
      var result, trees := CoincidingOfMember(states, i, paths0, executions0, cNew, row, rowTrees, unfold, depth);
      if result.Err? {
        return Err(result.msg), row, rowTrees;
      }
      FlattenSnoc(row, result.value.1);
      cNew := result.value.0;
      alreadyFound := alreadyFound + result.value.1;
      row, rowTrees := row + [result.value.1], rowTrees + [trees];
    }
    r := Ok((cNew, alreadyFound));
  }

  /** `index` gives the position of every skip alignment, so none is listed twice. */
  ghost predicate Indexed(skipDict: SkipDict, index: map<State, (int, int)>) {
    forall k, i {:trigger skipDict[k].1[i]} :: 0 <= k < |skipDict| && 0 <= i < |skipDict[k].1| ==>
      skipDict[k].1[i] in index && index[skipDict[k].1[i]] == (k, i)
  }

  /** C after the first |found| variants: it holds exactly their skip alignments with a
      non-empty list of sets, each mapped to the union of its list, and none of the rest. */
  ghost predicate UnionsRecordedAll(c: map<State, set<seq<Step>>>, skipDict: SkipDict, found: seq<seq<seq<set<seq<Step>>>>>)
  {
    && |found| <= |skipDict|
    && (forall k {:trigger found[k]} :: 0 <= k < |found| ==> |found[k]| == |skipDict[k].1|)
    && c.Keys <= StatesOf(skipDict)
    && (forall k, i {:trigger found[k][i]} :: 0 <= k < |found| && 0 <= i < |skipDict[k].1| ==>
         (skipDict[k].1[i] in c <==> found[k][i] != []))
    && (forall k, i {:trigger found[k][i]} :: 0 <= k < |found| && 0 <= i < |skipDict[k].1| && found[k][i] != [] ==>
         skipDict[k].1[i] in c && c[skipDict[k].1[i]] == UnionAll(found[k][i]))
    && (forall k, i :: |found| <= k < |skipDict| && 0 <= i < |skipDict[k].1| ==> skipDict[k].1[i] !in c)
  }

  lemma {:induction false} UnionsRecordedAllStep(c: map<State, set<seq<Step>>>, cVar: map<State, set<seq<Step>>>,
                                                 skipDict: SkipDict, found: seq<seq<seq<set<seq<Step>>>>>,
                                                 row: seq<seq<set<seq<Step>>>>, index: map<State, (int, int)>)
    requires Indexed(skipDict, index)
    requires UnionsRecordedAll(c, skipDict, found) && |found| < |skipDict|
    requires UnionsRecorded(cVar, skipDict[|found|].1, row) && |row| == |skipDict[|found|].1|
    ensures UnionsRecordedAll(c + cVar, skipDict, found + [row])
  {
    var n := |found|;
    var states := skipDict[n].1;
    assert states[..|row|] == states;
    forall s | s in cVar
      ensures s in StatesOf(skipDict)
      ensures forall k, i :: 0 <= k < |skipDict| && 0 <= i < |skipDict[k].1| && skipDict[k].1[i] == s ==> k == n
    {
      var j :| 0 <= j < |states| && states[j] == s;
    }
  }

  /** The variants of the first n entries. */
  ghost function Variants(skipDict: SkipDict, n: nat): (r: set<string>)
    requires n <= |skipDict|
  {
    if n == 0 then {} else Variants(skipDict, n - 1) + {skipDict[n - 1].0}
  }

  lemma {:induction false} VariantsSpec(skipDict: SkipDict, n: nat)
    requires n <= |skipDict|
    ensures forall v :: v in Variants(skipDict, n) <==> exists k :: 0 <= k < n && skipDict[k].0 == v
  {
    if n > 0 {
      VariantsSpec(skipDict, n - 1);
    }
  }

  /** global_C after the first |found| variants: every variant seen so far maps to the list of
      sets of its last entry. */
  ghost predicate GlobalRecorded(g: map<string, seq<set<seq<Step>>>>, skipDict: SkipDict,
                                 found: seq<seq<seq<set<seq<Step>>>>>)
  {
    && |found| <= |skipDict|
    && g.Keys == Variants(skipDict, |found|)
    && forall k {:trigger found[k]} :: 0 <= k < |found| && (forall k' :: k < k' < |found| ==> skipDict[k'].0 != skipDict[k].0) ==>
         skipDict[k].0 in g && g[skipDict[k].0] == Flatten(found[k])
  }

  lemma {:induction false} GlobalRecordedStep(g: map<string, seq<set<seq<Step>>>>, skipDict: SkipDict,
                                              found: seq<seq<seq<set<seq<Step>>>>>, row: seq<seq<set<seq<Step>>>>)
    requires GlobalRecorded(g, skipDict, found) && |found| < |skipDict|
    ensures GlobalRecorded(g[skipDict[|found|].0 := Flatten(row)], skipDict, found + [row])
  {
    var n := |found|;
    var g', found' := g[skipDict[n].0 := Flatten(row)], found + [row];
    assert Variants(skipDict, n + 1) == Variants(skipDict, n) + {skipDict[n].0};
    forall k | 0 <= k < |found'| && (forall k' :: k < k' < |found'| ==> skipDict[k'].0 != skipDict[k].0)
      ensures skipDict[k].0 in g' && g'[skipDict[k].0] == Flatten(found'[k])
    {
      if k < n {
        assert skipDict[n].0 != skipDict[k].0;
        assert found'[k] == found[k];
      } else {
        assert found'[k] == row;
      }
    }
  }

  /** What coninciding_agns has recorded after its first |found| variants: the sets and trees of
      skip alignment i of variant k are found[k][i] and trees[k][i], and C and global_C hold
      what they contributed. */
  ghost predicate AgnsRecorded(skipDict: SkipDict, paths0: seq<seq<seq<Step>>>, executions0: seq<seq<seq<Execution>>>,
                               c: map<State, set<seq<Step>>>, globalC: map<string, seq<set<seq<Step>>>>,
                               found: seq<seq<seq<set<seq<Step>>>>>, trees: seq<seq<seq<ExecutionTree>>>,
                               unfold: Unfolding, depth: Tree -> nat)
  {
    && |found| == |trees| <= |skipDict| == |paths0| == |executions0|
    && (forall k :: 0 <= k < |skipDict| ==> |paths0[k]| == |skipDict[k].1| == |executions0[k]|)
    && (forall k, i {:trigger executions0[k][i]} :: 0 <= k < |skipDict| && 0 <= i < |skipDict[k].1| ==>
         SpansWithin(executions0[k][i], |paths0[k][i]|))
    && (forall k {:trigger found[k]} :: 0 <= k < |trees| ==> |found[k]| == |trees[k]| == |skipDict[k].1| > 0)
    && UnionsRecordedAll(c, skipDict, found)
    && GlobalRecorded(globalC, skipDict, found)
    && (forall k, i {:trigger CollectedFrom(paths0[k][i], executions0[k][i], found[k][i], trees[k][i], unfold, depth)} ::
         0 <= k < |found| && 0 <= i < |skipDict[k].1| ==>
         CollectedFrom(paths0[k][i], executions0[k][i], found[k][i], trees[k][i], unfold, depth))
  }

  /** The skip alignments of the variants from n on still have the paths and spans they had on
      entry. */
  ghost predicate PendingFrom(skipDict: SkipDict, paths0: seq<seq<seq<Step>>>, executions0: seq<seq<seq<Execution>>>, n: nat)
    requires |paths0| == |skipDict| == |executions0|
    requires forall k :: 0 <= k < |skipDict| ==> |paths0[k]| == |skipDict[k].1| == |executions0[k]|
    reads StatesOf(skipDict)
  {
    forall k, i {:trigger paths0[k][i]} :: n <= k < |skipDict| && 0 <= i < |skipDict[k].1| ==>
      skipDict[k].1[i].path == paths0[k][i] && skipDict[k].1[i].executions == executions0[k][i]
  }

  /** The skip alignments of the first n variants are narrowed and have their log moves
      removed. */
  ghost predicate PreparedUpTo(skipDict: SkipDict, paths0: seq<seq<seq<Step>>>, executions0: seq<seq<seq<Execution>>>, n: nat)
    requires |paths0| == |skipDict| == |executions0|
    requires forall k :: 0 <= k < |skipDict| ==> |paths0[k]| == |skipDict[k].1| == |executions0[k]|
    requires forall k, i {:trigger executions0[k][i]} :: 0 <= k < |skipDict| && 0 <= i < |skipDict[k].1| ==>
      SpansWithin(executions0[k][i], |paths0[k][i]|)
    reads StatesOf(skipDict)
  {
    forall k, i {:trigger IsPrepared(skipDict[k].1[i], paths0[k][i], executions0[k][i])} ::
      0 <= k < n && k < |skipDict| && 0 <= i < |skipDict[k].1| ==>
      IsPrepared(skipDict[k].1[i], paths0[k][i], executions0[k][i])
  }

  /** coninciding_agns after its first |found| variants. */
  ghost predicate AgnsProgress(skipDict: SkipDict, paths0: seq<seq<seq<Step>>>, executions0: seq<seq<seq<Execution>>>,
                               c: map<State, set<seq<Step>>>, globalC: map<string, seq<set<seq<Step>>>>,
                               found: seq<seq<seq<set<seq<Step>>>>>, trees: seq<seq<seq<ExecutionTree>>>,
                               unfold: Unfolding, depth: Tree -> nat)
    reads StatesOf(skipDict)
  {
    && AgnsRecorded(skipDict, paths0, executions0, c, globalC, found, trees, unfold, depth)
    && PendingFrom(skipDict, paths0, executions0, |found|)
    && PreparedUpTo(skipDict, paths0, executions0, |found|)
  }

  lemma {:induction false} AgnsRecordedStep(skipDict: SkipDict, index: map<State, (int, int)>,
                                            paths0: seq<seq<seq<Step>>>, executions0: seq<seq<seq<Execution>>>,
                                            c: map<State, set<seq<Step>>>, globalC: map<string, seq<set<seq<Step>>>>,
                                            found: seq<seq<seq<set<seq<Step>>>>>, trees: seq<seq<seq<ExecutionTree>>>,
                                            cVar: map<State, set<seq<Step>>>, row: seq<seq<set<seq<Step>>>>,
                                            rowTrees: seq<seq<ExecutionTree>>, unfold: Unfolding, depth: Tree -> nat)
    requires Indexed(skipDict, index)
    requires AgnsRecorded(skipDict, paths0, executions0, c, globalC, found, trees, unfold, depth)
    requires |found| < |skipDict| && |skipDict[|found|].1| > 0
    requires |row| == |skipDict[|found|].1| == |rowTrees|
    requires UnionsRecorded(cVar, skipDict[|found|].1, row)
    requires forall i {:trigger CollectedFrom(paths0[|found|][i], executions0[|found|][i], row[i], rowTrees[i], unfold, depth)} ::
      0 <= i < |row| ==> CollectedFrom(paths0[|found|][i], executions0[|found|][i], row[i], rowTrees[i], unfold, depth)
    ensures AgnsRecorded(skipDict, paths0, executions0, c + cVar, globalC[skipDict[|found|].0 := Flatten(row)],
                         found + [row], trees + [rowTrees], unfold, depth)
  {
    UnionsRecordedAllStep(c, cVar, skipDict, found, row, index);
    GlobalRecordedStep(globalC, skipDict, found, row);
    var found', trees' := found + [row], trees + [rowTrees];
    forall k, i | 0 <= k < |found'| && 0 <= i < |skipDict[k].1|
      ensures CollectedFrom(paths0[k][i], executions0[k][i], found'[k][i], trees'[k][i], unfold, depth)
    {
      if k < |found| {
        assert found'[k] == found[k] && trees'[k] == trees[k];
      } else {
        assert found'[k] == row && trees'[k] == rowTrees;
      }
    }
    forall k | 0 <= k < |trees'|
      ensures |found'[k]| == |trees'[k]| == |skipDict[k].1| > 0
    {
      if k < |trees| {
        assert found'[k] == found[k] && trees'[k] == trees[k];
      }
    }
  }

  /** One turn of coninciding_agns's loop: the skip alignments of the next variant are prepared
      and unfolded, their unions are added to C and their sets become the variant's entry in
      global_C. */
  method CoincidingOfEntry(skipDict: SkipDict, k: nat, ghost index: map<State, (int, int)>,
                           ghost paths0: seq<seq<seq<Step>>>, ghost executions0: seq<seq<seq<Execution>>>,
                           c: map<State, set<seq<Step>>>, globalC: map<string, seq<set<seq<Step>>>>,
                           ghost found: seq<seq<seq<set<seq<Step>>>>>, ghost trees: seq<seq<seq<ExecutionTree>>>,
                           unfold: Unfolding, depth: Tree -> nat)
    returns (r: Result<(map<State, set<seq<Step>>>, map<string, seq<set<seq<Step>>>>)>,
             ghost row: seq<seq<set<seq<Step>>>>, ghost rowTrees: seq<seq<ExecutionTree>>)
    requires Indexed(skipDict, index)
    requires AgnsProgress(skipDict, paths0, executions0, c, globalC, found, trees, unfold, depth)
    requires |found| == k < |skipDict| && |skipDict[k].1| > 0
    modifies set i | 0 <= i < |skipDict[k].1| :: skipDict[k].1[i]
    ensures r.Ok? ==>
      AgnsProgress(skipDict, paths0, executions0, r.value.0, r.value.1, found + [row], trees + [rowTrees], unfold, depth)
  {
    var states := skipDict[k].1;
    forall i, j | 0 <= i < j < |states|
      ensures states[i] != states[j]
    {
      assert index[skipDict[k].1[i]] == (k, i) && index[skipDict[k].1[j]] == (k, j);
    }
    var result;
    result, row, rowTrees := CoincidingOfVariant(states, paths0[k], executions0[k], unfold, depth);
    if result.Err? {
      return Err(result.msg), row, rowTrees;
    }
    AgnsRecordedStep(skipDict, index, paths0, executions0, c, globalC, found, trees,
                     result.value.0, row, rowTrees, unfold, depth);
    forall k', i | k < k' < |skipDict| && 0 <= i < |skipDict[k'].1|
      ensures skipDict[k'].1[i].path == paths0[k'][i] && skipDict[k'].1[i].executions == executions0[k'][i]
    {
      assert index[skipDict[k'].1[i]] == (k', i);
      assert skipDict[k'].1[i] !in set j | 0 <= j < |states| :: states[j];
    }
    forall k', i | 0 <= k' < k && 0 <= i < |skipDict[k'].1|
      ensures IsPrepared(skipDict[k'].1[i], paths0[k'][i], executions0[k'][i])
    {
      assert index[skipDict[k'].1[i]] == (k', i);
      assert skipDict[k'].1[i] !in set j | 0 <= j < |states| :: states[j];
    }
    r := Ok((c + result.value.0, globalC[skipDict[k].0 := result.value.1]));
  }

  /** coninciding_agns: per variant, the sets of coinciding alignments of its skip alignments
      (global_C), and per skip alignment the union of its sets (C; the entries of the unfolded
      alignments are not kept, as they are fresh objects). found[k][i] and trees[k][i] are the
      sets and trees of skip alignment i of variant k. The compression ratio it prints divides
      by the number of skip alignments of each variant and by the number of variants, so a
      variant without skip alignments, or an empty dictionary, divides by zero. */
  method CoincidingAgns(skipDict: SkipDict, ghost index: map<State, (int, int)>, ghost paths0: seq<seq<seq<Step>>>, ghost executions0: seq<seq<seq<Execution>>>, unfold: Unfolding, depth: Tree -> nat)
    returns (r: Result<(map<State, set<seq<Step>>>, map<string, seq<set<seq<Step>>>>)>,
             ghost found: seq<seq<seq<set<seq<Step>>>>>, ghost trees: seq<seq<seq<ExecutionTree>>>)
    requires Indexed(skipDict, index)
    requires forall k, i :: 0 <= k < |skipDict| && 0 <= i < |skipDict[k].1| ==>
      SpansWithin(skipDict[k].1[i].executions, |skipDict[k].1[i].path|)
    requires |paths0| == |skipDict| == |executions0|
    requires forall k :: 0 <= k < |skipDict| ==> |paths0[k]| == |skipDict[k].1| == |executions0[k]|
    requires forall k, i :: 0 <= k < |skipDict| && 0 <= i < |skipDict[k].1| ==>
      paths0[k][i] == skipDict[k].1[i].path && executions0[k][i] == skipDict[k].1[i].executions
    modifies StatesOf(skipDict)
    ensures r.Ok? ==> |found| == |skipDict| && |trees| == |skipDict|
    ensures r.Ok? ==> forall k :: 0 <= k < |skipDict| ==> |found[k]| == |skipDict[k].1| == |trees[k]|
    ensures r.Ok? ==> forall k, i {:trigger skipDict[k].1[i]} :: 0 <= k < |skipDict| && 0 <= i < |skipDict[k].1| ==>
      CollectedFrom(paths0[k][i], executions0[k][i], found[k][i], trees[k][i], unfold, depth)
    ensures r.Ok? ==> forall k, i {:trigger skipDict[k].1[i]} :: 0 <= k < |skipDict| && 0 <= i < |skipDict[k].1| ==>
      IsPrepared(skipDict[k].1[i], paths0[k][i], executions0[k][i])
    ensures r.Ok? ==> UnionsRecordedAll(r.value.0, skipDict, found)
    ensures r.Ok? ==> GlobalRecorded(r.value.1, skipDict, found)
    ensures r.Ok? ==> |skipDict| > 0 && forall k :: 0 <= k < |skipDict| ==> |skipDict[k].1| > 0
    ensures skipDict == [] ==> r == Err(ZERO_DIVISION_ERROR)
  {
    var c: map<State, set<seq<Step>>> := map[];
    var globalC: map<string, seq<set<seq<Step>>>> := map[];
    found, trees := [], [];
    for k := 0 to |skipDict|
      invariant |found| == k
      invariant AgnsProgress(skipDict, paths0, executions0, c, globalC, found, trees, unfold, depth)
    {
      if |skipDict[k].1| == 0 {
        return Err(ZERO_DIVISION_ERROR), found, trees;
      }
      var result, row, rowTrees := CoincidingOfEntry(skipDict, k, index, paths0, executions0, c, globalC, found, trees, unfold, depth);
      if result.Err? {
        return Err(result.msg), found, trees;
      }
      c, globalC := result.value.0, result.value.1;
      found, trees := found + [row], trees + [rowTrees];
    }
    if |skipDict| == 0 {
      return Err(ZERO_DIVISION_ERROR), found, trees;
    }
    r := Ok((c, globalC));
  }
}
