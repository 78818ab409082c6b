/** Callbacks that land while the handler thread or `start` is still at work.

    A step's own work may call back at any moment: from another thread while
    `start` or the handler thread is in the middle of a run, or synchronously
    from inside its own `executeImpl`, before `execute` returns
    (BootStep.java:78). Either way the callback only posts a runnable
    (BootTask.java:162-173), so it changes nothing a run reads; what matters is
    where its event lands in the queue relative to the events the run posts
    itself. The runs post in two places: the cascade's failure branch posts one
    failure per waiting step (BootTask.java:197-208), and the dispatch loop
    starts steps (BootTask.java:151-160). So:
    - `during[j]` lists the callbacks that land before the cascade's `j`-th
      post; the slot after its last post (or after a success cascade, which
      posts nothing) is the one just before the dispatch loop's first turn.
      Callbacks landing while the completion is recorded, before the cascade,
      give the same queue as landing in `during[0]`.
    - `arrivals[i]` lists the callbacks that land after the turn at position
      `i` of the iteration order.
    - A run that finishes the batch has no step whose work is under way
      (`BatchInvariant.FinishAwaiting`), so nothing can land during it.
    With nothing landing each transition here is the corresponding one of
    `BootTasks`. */
module Interleavings {
  import opened Types
  import opened Results
  import opened TaskResults
  import opened BootSteps
  import opened DependencyCheck
  import opened BootTasks
  import opened BatchInvariant

  /** The callbacks `es` land in turn. Only a step whose own work is still under
      way calls back (`OnStepFinished`); any other entry does not land. */
  function Arrive(t: BootTask, es: seq<Event>): (r: BootTask)
    ensures r.stepMap == t.stepMap && r.executing == t.executing && r.order == t.order
    ensures r.container == t.container && r.failed == t.failed
    ensures r.taskResult == t.taskResult && r.running == t.running
    ensures IsPrefix(t.queue, r.queue) && r.awaiting <= t.awaiting
    ensures forall j :: |t.queue| <= j < |r.queue| ==>
      r.queue[j] in es && r.queue[j].stepType in t.awaiting && r.queue[j].stepType !in r.awaiting
    decreases |es|
  {
    if es == [] then
      t
    else
      var e := es[0];
      if e.stepType in t.awaiting then
        var t1 := OnStepFinished(t, e.stepType, e.result);
        var r := Arrive(t1, es[1..]);
        PrefixOfPrefix(t.queue, t1.queue, r.queue);
        assert forall j :: |t1.queue| <= j < |r.queue| ==> r.queue[j] in es[1..];
        r
      else
        var r := Arrive(t, es[1..]);
        assert forall j :: |t.queue| <= j < |r.queue| ==> r.queue[j] in es[1..];
        r
  }

  /** The callbacks that land after the turn at position `i`. */
  function Landing(arrivals: seq<seq<Event>>, i: nat): seq<Event>
  {
    if i < |arrivals| then arrivals[i] else []
  }

  /** `executeStepsWithoutDependency` with callbacks landing between its turns.
      It starts exactly the steps that were ready when it began, each once, in
      iteration order: the callbacks do not change which steps it starts. */
  function DispatchWith(t: BootTask, i: nat, arrivals: seq<seq<Event>>): (r: BootTask)
    requires i <= |t.order| && NoDuplicates(t.order)
    ensures r.executing == t.executing + ReadySteps(t, i)
    ensures r.stepMap.Keys == t.stepMap.Keys
    ensures r.order == t.order && r.container == t.container && r.failed == t.failed
    ensures r.taskResult == t.taskResult && r.running == t.running
    decreases |t.order| - i
  {
    if i == |t.order| then
      t
    else
      var k := t.order[i];
      if IsReady(t, k) then
        var t1 := StartStep(t, k);
        var t2 := Arrive(t1, Landing(arrivals, i));
        DispatchKeepsLaterReadiness(t, k, i);
        ArriveKeepsReadiness(t1, Landing(arrivals, i), i + 1);
        DispatchWith(t2, i + 1, arrivals)
      else
        var t2 := Arrive(t, Landing(arrivals, i));
        ArriveKeepsReadiness(t, Landing(arrivals, i), i + 1);
        DispatchWith(t2, i + 1, arrivals)
  }

  /** Callbacks landing do not make any step ready or unready. */
  lemma ArriveKeepsReadiness(t: BootTask, es: seq<Event>, i: nat)
    requires i <= |t.order|
    ensures ReadySteps(Arrive(t, es), i) == ReadySteps(t, i)
  {
    var r := Arrive(t, es);
    assert forall k :: IsReady(r, k) <==> IsReady(t, k);
    ReadyStepsAgree(t, r, i);
  }

  /** With no callbacks landing, the loop is `DispatchFrom`. */
  lemma {:induction false} DispatchWithout(t: BootTask, i: nat)
    requires i <= |t.order| && NoDuplicates(t.order)
    ensures DispatchWith(t, i, []) == DispatchFrom(t, i)
    decreases |t.order| - i
  {
    if i < |t.order| {
      var k := t.order[i];
      var t1 := if IsReady(t, k) then StartStep(t, k) else t;
      assert Arrive(t1, Landing([], i)) == t1;
      DispatchWithout(t1, i + 1);
    }
  }

  /** The dispatch loop's effect on the step map depends only on the step map,
      the executing list, the order and the container, not on the queue. */
  lemma {:induction false} DispatchFromSameView(t: BootTask, t': BootTask, i: nat)
    requires i <= |t.order| && NoDuplicates(t.order)
    requires t'.stepMap == t.stepMap && t'.executing == t.executing && t'.order == t.order
    requires t'.container == t.container
    ensures DispatchFrom(t', i).stepMap == DispatchFrom(t, i).stepMap
    decreases |t.order| - i
  {
    if i < |t.order| {
      var k := t.order[i];
      if IsReady(t, k) {
        DispatchFromSameView(StartStep(t, k), StartStep(t', k), i + 1);
      } else {
        DispatchFromSameView(t, t', i + 1);
      }
    }
  }

  /** Whatever lands during the loop, it leaves the step map and the executing
      list exactly as the loop without callbacks does. */
  lemma {:induction false} DispatchWithSameSteps(t: BootTask, i: nat, arrivals: seq<seq<Event>>)
    requires i <= |t.order| && NoDuplicates(t.order)
    ensures DispatchWith(t, i, arrivals).stepMap == DispatchFrom(t, i).stepMap
    ensures DispatchWith(t, i, arrivals).executing == DispatchFrom(t, i).executing
    decreases |t.order| - i
  {
    if i < |t.order| {
      var k := t.order[i];
      var t1 := if IsReady(t, k) then StartStep(t, k) else t;
      var t2 := Arrive(t1, Landing(arrivals, i));
      DispatchWithSameSteps(t2, i + 1, arrivals);
      DispatchFromSameView(t1, t2, i + 1);
    }
  }

  /** The cascade's failure branch posting `fs` in turn, with `during[j]`
      landing before the post of `fs[j]` and `during[|fs|]` after the last one.
      It posts exactly `fs`, in order, after what was already queued. */
  function PostWith(t: BootTask, fs: seq<Event>, during: seq<seq<Event>>, j: nat): (r: BootTask)
    ensures r.stepMap == t.stepMap && r.executing == t.executing && r.order == t.order
    ensures r.container == t.container && r.failed == t.failed
    ensures r.taskResult == t.taskResult && r.running == t.running
    ensures IsPrefix(t.queue, r.queue) && r.awaiting <= t.awaiting
    ensures during == [] ==> r == t.(queue := t.queue + fs)
    decreases |fs|
  {
    var t1 := Arrive(t, Landing(during, j));
    if fs == [] then
      t1
    else
      var t2 := t1.(queue := t1.queue + [fs[0]]);
      var r := PostWith(t2, fs[1..], during, j + 1);
      PrefixOfPrefix(t.queue, t2.queue, r.queue);
      assert t1.queue + [fs[0]] + fs[1..] == t1.queue + fs;
      r
  }

  /** The loop over the remaining steps after `k` finished, with callbacks
      landing between its posts and after it. It leaves the step map as the
      loop without callbacks does, and without callbacks it is that loop. */
  function CascadeWith(t: BootTask, k: StepType, res: Result, during: seq<seq<Event>>): (r: BootTask)
    ensures r.stepMap == Cascade(t, k, res).stepMap && r.executing == t.executing && r.order == t.order
    ensures r.container == t.container && r.failed == t.failed
    ensures r.taskResult == t.taskResult && r.running == t.running
    ensures during == [] ==> r == Cascade(t, k, res)
  {
    if res.IsSuccessful() then
      Arrive(Cascade(t, k, res), Landing(during, 0))
    else
      PostWith(t, SynthesizedFailures(t.order, t.stepMap, k), during, 0)
  }

  /** `handleStepResult` with callbacks landing during its cascade (`during`)
      and during its dispatch loop (`arrivals`). */
  function HandleStepResultWith(t: BootTask, k: StepType, res: Result,
                                during: seq<seq<Event>>, arrivals: seq<seq<Event>>): (r: Outcome)
    requires t.taskResult.Some? && NoDuplicates(t.order)
    ensures r.task.stepMap.Keys == t.stepMap.Keys - {k}
    ensures r.report.Some? <==> (t.stepMap.Keys - {k} == {} && k in t.stepMap)
  {
    var t2 := Noted(t, k, res);
    if k in t.stepMap && |t2.stepMap| == 0 then
      TaskFinished(t2)
    else
      Outcome(DispatchWith(CascadeWith(t2, k, res, during), 0, arrivals), None)
  }

  /** The handler thread's next run with callbacks landing during it. */
  function RunNextWith(t: BootTask, during: seq<seq<Event>>, arrivals: seq<seq<Event>>): (r: Outcome)
    requires |t.queue| > 0 && NoDuplicates(t.order)
    ensures t.taskResult.None? ==> r == Outcome(t.(queue := t.queue[1..]), None)
    ensures t.taskResult.Some? ==>
      (r.report.Some? <==> t.queue[0].stepType in t.stepMap && t.stepMap.Keys == {t.queue[0].stepType})
  {
    var rest := t.(queue := t.queue[1..]);
    if rest.taskResult.None? then
      Outcome(rest, None)
    else
      var e := t.queue[0];
      var tr := rest.taskResult.value.SetStepResult(e.stepType, e.result);
      HandleStepResultWith(rest.(taskResult := Some(tr)), e.stepType, e.result, during, arrivals)
  }

  /** `start` with callbacks landing during its dispatch loop. */
  function StartWith(t: BootTask, steps: seq<BootStep>, order: seq<StepType>, arrivals: seq<seq<Event>>): (r: StartOutcome)
    requires IsOrderOf(order, Load(steps))
    ensures t.running <==> r.Rejected?
  {
    if t.running then
      Rejected
    else
      var m := Load(steps);
      var base := t.(running := true, stepMap := m, order := order, executing := [], queue := [], awaiting := {});
      if |m| == 0 then
        Started(base.(running := false), Some(NewTaskResult().SetResult(true)))
      else
        match CheckDependencyChains(GraphOf(m), order)
        case Invalid(d) => Started(base.(running := false), Some(FromDependencyError(d)))
        case Valid => Started(DispatchWith(base.(taskResult := Some(NewTaskResult())), 0, arrivals), None)
  }

  // ---------------------------------------------------------------------------
  // Agreement with the transitions without callbacks

  /** Callbacks landing during the run change only the queue and the set of
      steps awaited: the report, the step map, the executing list, the failed
      list and the container are those of `handleStepResult`, and with no
      callbacks the outcome is exactly that of `handleStepResult`. */
  lemma HandleStepResultWithAgrees(t: BootTask, k: StepType, res: Result,
                                   during: seq<seq<Event>>, arrivals: seq<seq<Event>>)
    requires t.taskResult.Some? && NoDuplicates(t.order)
    ensures var r := HandleStepResultWith(t, k, res, during, arrivals); var o := HandleStepResult(t, k, res);
      && r.report == o.report && r.task.stepMap == o.task.stepMap && r.task.executing == o.task.executing
      && r.task.failed == o.task.failed && r.task.container == o.task.container
      && r.task.taskResult == o.task.taskResult && r.task.running == o.task.running
      && (during == [] && arrivals == [] ==> r == o)
  {
    var t2 := Noted(t, k, res);
    if !(k in t.stepMap && |t2.stepMap| == 0) {
      var c := Cascade(t2, k, res);
      var cw := CascadeWith(t2, k, res, during);
      DispatchWithSameSteps(cw, 0, arrivals);
      DispatchFromSameView(c, cw, 0);
      assert forall u :: IsReady(cw, u) <==> IsReady(c, u);
      ReadyStepsAgree(c, cw, 0);
      DispatchWithout(c, 0);
    }
  }

  /** The same for the handler thread's next run. */
  lemma RunNextWithAgrees(t: BootTask, during: seq<seq<Event>>, arrivals: seq<seq<Event>>)
    requires |t.queue| > 0 && NoDuplicates(t.order)
    ensures var r := RunNextWith(t, during, arrivals); var o := RunNext(t);
      && r.report == o.report && r.task.stepMap == o.task.stepMap && r.task.executing == o.task.executing
      && r.task.failed == o.task.failed && r.task.container == o.task.container
      && r.task.taskResult == o.task.taskResult && r.task.running == o.task.running
      && (during == [] && arrivals == [] ==> r == o)
  {
    var rest := t.(queue := t.queue[1..]);
    if rest.taskResult.Some? {
      var e := t.queue[0];
      var tr := rest.taskResult.value.SetStepResult(e.stepType, e.result);
      HandleStepResultWithAgrees(rest.(taskResult := Some(tr)), e.stepType, e.result, during, arrivals);
    }
  }

  /** The same for `start`. */
  lemma StartWithAgrees(t: BootTask, steps: seq<BootStep>, order: seq<StepType>, arrivals: seq<seq<Event>>)
    requires IsOrderOf(order, Load(steps))
    ensures var r := StartWith(t, steps, order, arrivals); var o := Start(t, steps, order);
      && r.Rejected? == o.Rejected?
      && (r.Started? ==>
            && r.report == o.report && r.task.stepMap == o.task.stepMap && r.task.executing == o.task.executing
            && r.task.taskResult == o.task.taskResult && r.task.running == o.task.running)
      && (arrivals == [] ==> r == o)
  {
    if !t.running {
      var m := Load(steps);
      var base := t.(running := true, stepMap := m, order := order, executing := [], queue := [], awaiting := {});
      var l := base.(taskResult := Some(NewTaskResult()));
      DispatchWithSameSteps(l, 0, arrivals);
      DispatchWithout(l, 0);
    }
  }

  // ---------------------------------------------------------------------------
  // The invariant holds whenever the callbacks land

  /** Callbacks landing keep the invariant. */
  lemma {:induction false} ArrivePreserves(t: BootTask, g: Graph, es: seq<Event>)
    requires Inv(t, g)
    ensures Inv(Arrive(t, es), g)
    decreases |es|
  {
    if es != [] {
      var e := es[0];
      if e.stepType in t.awaiting {
        OnStepFinishedPreserves(t, g, e.stepType, e.result);
        ArrivePreserves(OnStepFinished(t, e.stepType, e.result), g, es[1..]);
      } else {
        ArrivePreserves(t, g, es[1..]);
      }
    }
  }

  lemma {:induction false} DispatchWithPreserves(t: BootTask, g: Graph, i: nat, arrivals: seq<seq<Event>>)
    requires Inv(t, g) && i <= |t.order|
    ensures Inv(DispatchWith(t, i, arrivals), g)
    decreases |t.order| - i, 1
  {
    if i < |t.order| {
      DispatchWithRestPreserves(t, g, i, arrivals);
    }
  }

  /** The loop from a position before the end: one turn, then the rest. */
  lemma {:induction false} DispatchWithRestPreserves(t: BootTask, g: Graph, i: nat, arrivals: seq<seq<Event>>)
    requires Inv(t, g) && i < |t.order|
    ensures Inv(DispatchWith(t, i, arrivals), g)
    decreases |t.order| - i, 0
  {
    var t' := DispatchWithTurnPreserves(t, g, i, arrivals);
    DispatchWithPreserves(t', g, i + 1, arrivals);
  }

  /** One turn and the callbacks landing after it keep the invariant; `t'` is
      the state the rest of the loop continues from. */
  lemma DispatchWithTurnPreserves(t: BootTask, g: Graph, i: nat, arrivals: seq<seq<Event>>) returns (t': BootTask)
    requires Inv(t, g) && i < |t.order|
    ensures Inv(t', g) && t'.order == t.order && DispatchWith(t, i, arrivals) == DispatchWith(t', i + 1, arrivals)
  {
    var k := t.order[i];
    var t1 := if IsReady(t, k) then StartStep(t, k) else t;
    if IsReady(t, k) {
      StartStepPreserves(t, g, k);
    }
    ArrivePreserves(t1, g, Landing(arrivals, i));
    t' := Arrive(t1, Landing(arrivals, i));
  }

  /** Starting an idle task on fresh steps that load to something and pass
      validation gives a batch that satisfies the invariant, whatever callbacks
      land during `start`'s dispatch loop. */
  lemma StartWithEstablishes(t: BootTask, steps: seq<BootStep>, order: seq<StepType>, arrivals: seq<seq<Event>>)
    requires IsOrderOf(order, Load(steps)) && Idle(t) && FreshSteps(steps)
    requires Load(steps) != map[] && CheckDependencyChains(GraphOf(Load(steps)), order).Valid?
    ensures var r := StartWith(t, steps, order, arrivals);
      r.Started? && r.report.None? && Inv(r.task, GraphOf(Load(steps)))
  {
    var m := Load(steps);
    var l := Launched(t, m, order);
    assert StartWith(t, steps, order, arrivals) == Started(DispatchWith(l, 0, arrivals), None);
    LaunchedInv(t, steps, order);
    DispatchWithPreserves(l, GraphOf(m), 0, arrivals);
  }

  /** Posting one synthesized failure keeps the invariant: it is for a
      remaining step not yet started, which depends on a failed step. */
  lemma PostFailurePreserves(t: BootTask, g: Graph, f: Event)
    requires Inv(t, g) && !f.result.IsSuccessful()
    requires f.stepType in t.stepMap && f.stepType !in t.executing
    requires DependsOnFailed(t.failed, t.stepMap[f.stepType])
    ensures Inv(t.(queue := t.queue + [f]), g)
  {
    var q := t.queue + [f];
    assert forall i :: 0 <= i < |t.queue| ==> q[i] == t.queue[i];
    forall i | 0 <= i < |q| && q[i].result.IsSuccessful()
      ensures q[i].stepType in t.stepMap && q[i].stepType in t.executing && OnlyEventFor(q, i)
    {
      assert i < |t.queue| && OnlyEventFor(t.queue, i);
    }
  }

  /** Posting failures for remaining, not-started steps that depend on a failed
      step keeps the invariant, whatever lands between the posts. */
  lemma {:induction false} PostWithPreserves(t: BootTask, g: Graph, fs: seq<Event>, during: seq<seq<Event>>, j: nat)
    requires Inv(t, g)
    requires forall n :: 0 <= n < |fs| ==>
      && !fs[n].result.IsSuccessful() && fs[n].stepType in t.stepMap && fs[n].stepType !in t.executing
      && DependsOnFailed(t.failed, t.stepMap[fs[n].stepType])
    ensures Inv(PostWith(t, fs, during, j), g)
    decreases |fs|
  {
    var t1 := Arrive(t, Landing(during, j));
    ArrivePreserves(t, g, Landing(during, j));
    if fs != [] {
      PostFailurePreserves(t1, g, fs[0]);
      PostWithPreserves(t1.(queue := t1.queue + [fs[0]]), g, fs[1..], during, j + 1);
    }
  }

  /** Each posted event is judged on its own, so the invariant holds for any
      prefix of the queue. */
  lemma InvOfQueuePrefix(t: BootTask, g: Graph, n: nat)
    requires Inv(t, g) && n <= |t.queue|
    ensures Inv(t.(queue := t.queue[..n]), g)
  {
    var q := t.queue[..n];
    forall i | 0 <= i < |q| && q[i].result.IsSuccessful() ensures OnlyEventFor(q, i) {
      assert OnlyEventFor(t.queue, i);
    }
  }

  /** The cascade after the head event was recorded keeps the invariant,
      whatever lands between its posts and after it. */
  lemma CascadeWithPreserves(t: BootTask, g: Graph, during: seq<seq<Event>>)
    requires Inv(t, g) && |t.queue| > 0 && Recording(t).stepMap != map[]
    ensures Inv(CascadeWith(Recording(t), t.queue[0].stepType, t.queue[0].result, during), g)
  {
    var e := t.queue[0];
    var x := Recording(t);
    HeadEventFacts(t, g);
    if e.result.IsSuccessful() {
      CascadeSuccessPreserves(t, g);
      ArrivePreserves(Cascade(x, e.stepType, e.result), g, Landing(during, 0));
    } else {
      CascadeFailurePreserves(t, g);
      var c := Cascade(x, e.stepType, e.result);
      InvOfQueuePrefix(c, g, |x.queue|);
      assert c.(queue := c.queue[..|x.queue|]) == x;
      var fs := SynthesizedFailures(x.order, x.stepMap, e.stepType);
      assert e.stepType in x.failed;
      forall n | 0 <= n < |fs|
        ensures fs[n].stepType !in x.executing && DependsOnFailed(x.failed, x.stepMap[fs[n].stepType])
      {
        assert x.stepMap[fs[n].stepType].ContainDependency(e.stepType);
      }
      PostWithPreserves(x, g, fs, during, 0);
    }
  }

  lemma RunNextWithIsRecordingThenCascade(t: BootTask, during: seq<seq<Event>>, arrivals: seq<seq<Event>>)
    requires t.taskResult.Some? && NoDuplicates(t.order) && |t.queue| > 0
    ensures var e := t.queue[0]; var x := Recording(t);
      !(e.stepType in t.stepMap && x.stepMap == map[]) ==>
        RunNextWith(t, during, arrivals) ==
          Outcome(DispatchWith(CascadeWith(x, e.stepType, e.result, during), 0, arrivals), None)
  {
    var e := t.queue[0];
    var rest := t.(queue := t.queue[1..]);
    var tr := t.taskResult.value.SetStepResult(e.stepType, e.result);
    assert Noted(rest.(taskResult := Some(tr)), e.stepType, e.result) == Recording(t);
  }

  /** Handling the next completion keeps the invariant while the batch goes on,
      whatever callbacks land during its cascade and its dispatch loop; when it
      finishes the report is the one `RunNext` hands over. */
  lemma RunNextWithPreserves(t: BootTask, g: Graph, during: seq<seq<Event>>, arrivals: seq<seq<Event>>)
    requires Inv(t, g) && |t.queue| > 0
    ensures var r := RunNextWith(t, during, arrivals);
      && (r.report.None? ==> Inv(r.task, g))
      && r.report == RunNext(t).report
  {
    RunNextWithAgrees(t, during, arrivals);
    var e := t.queue[0];
    var x := Recording(t);
    HeadEventFacts(t, g);
    if !(e.stepType in t.stepMap && x.stepMap == map[]) {
      RunNextWithIsRecordingThenCascade(t, during, arrivals);
      assert x.stepMap != map[];
      CascadeWithPreserves(t, g, during);
      DispatchWithPreserves(CascadeWith(x, e.stepType, e.result, during), g, 0, arrivals);
    }
  }
}
