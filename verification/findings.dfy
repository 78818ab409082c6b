/** Two places where `BootTask` as written departs from what it evidently
    intends, each modelled as written next to a concrete run that shows it.
    The rest of the model uses the corrected definitions in `BootTasks`. */
module Findings {
  import opened Types
  import opened Results
  import opened VariableContainers
  import opened TaskResults
  import opened BootSteps
  import opened DependencyCheck
  import opened BootTasks

  // ---------------------------------------------------------------------------
  // A leftover runnable after the batch finished

  /** One run of the handler thread as written: the runnable dereferences
      `taskResult` unconditionally, so once the batch has finished (the field is
      null) it throws instead of handling the event. */
  datatype HandlerRun = Handled(outcome: Outcome) | NullDereference

  function RunNextAsWritten(t: BootTask): (r: HandlerRun)
    requires |t.queue| > 0 && NoDuplicates(t.order)
    ensures r.NullDereference? <==> t.taskResult.None?
    ensures r.Handled? ==> r.outcome == RunNext(t)
  {
    var rest := t.(queue := t.queue[1..]);
    if rest.taskResult.None? then NullDereference else Handled(HandleEvent(rest, t.queue[0]))
  }

  const A := StepType(0)
  const B := StepType(1)
  const D := StepType(2)

  /** `D` depends on both `A` and `B`; neither depends on anything. */
  function JoinSteps(): seq<BootStep>
  {
    [NewStep(A), NewStep(B), NewStep(D).AddDependency(A, false).AddDependency(B, false)]
  }

  const JoinOrder: seq<StepType> := [A, B, D]

  const JoinMap: map<StepType, BootStep> :=
    map[A := NewStep(A), B := NewStep(B), D := BootStep(D, [A, B], [], false)]

  /** Loading one more step stores it under its type. */
  lemma LoadAppend(steps: seq<BootStep>, s: BootStep)
    ensures Load(steps + [s]) == Load(steps)[s.stepType := s]
  {
    assert (steps + [s])[..|steps|] == steps;
  }

  lemma JoinLoads()
    ensures Load(JoinSteps()) == JoinMap
    ensures IsOrderOf(JoinOrder, JoinMap)
    ensures CheckDependencyChains(GraphOf(JoinMap), JoinOrder).Valid?
  {
    JoinLoadsMap();
    JoinOrderFits();
    JoinIsValid();
  }

  lemma JoinStepsDeclared()
    ensures JoinSteps() == [NewStep(A), NewStep(B), JoinMap[D]]
  {
    assert NewStep(D).AddDependency(A, false) == BootStep(D, [A], [], false);
    assert [A] + [B] == [A, B];
    assert NewStep(D).AddDependency(A, false).AddDependency(B, false) == BootStep(D, [A, B], [], false);
  }

  lemma LoadFirstTwo()
    ensures Load([NewStep(A), NewStep(B)]) == map[A := NewStep(A), B := NewStep(B)]
  {
    LoadAppend([], NewStep(A));
    LoadAppend([NewStep(A)], NewStep(B));
    assert [NewStep(A)] + [NewStep(B)] == [NewStep(A), NewStep(B)];
  }

  lemma JoinLoadsMap()
    ensures Load(JoinSteps()) == JoinMap
  {
    JoinStepsDeclared();
    LoadFirstTwo();
    LoadAppend([NewStep(A), NewStep(B)], JoinMap[D]);
    assert [NewStep(A), NewStep(B)] + [JoinMap[D]] == [NewStep(A), NewStep(B), JoinMap[D]];
  }

  lemma JoinOrderFits()
    ensures IsOrderOf(JoinOrder, JoinMap)
  {
    assert forall x :: x in JoinOrder <==> x == A || x == B || x == D;
  }

  const JoinGraph: Graph := map[A := [], B := [], D := [A, B]]

  lemma JoinGraphRanked()
    ensures GraphOf(JoinMap) == JoinGraph
    ensures AllLoaded(JoinGraph) && Ranked(JoinGraph, map[A := 0, B := 0, D := 1])
  {
  }

  lemma JoinIsValid()
    ensures CheckDependencyChains(GraphOf(JoinMap), JoinOrder).Valid?
  {
    JoinOrderFits();
    JoinGraphRanked();
    RankedGraphIsValid(JoinGraph, JoinOrder, map[A := 0, B := 0, D := 1]);
  }

  const C := StepType(3)
  const Root := StepType(4)

  /** A diamond: `Root` reaches `C` along two paths, through `A` and through `B`. */
  const DiamondGraph: Graph := map[Root := [A, B], A := [C], B := [C], C := []]

  /** Each branch of the search carries its own copy of the chain, so after the
      branch through `A` has visited `C`, the branch through `B` meets `C` again
      without that being reported as circular. */
  lemma DiamondIsValid()
    ensures CheckDependencyChains(DiamondGraph, [Root, A, B, C]).Valid?
  {
    assert Elems([Root, A, B, C]) == DiamondGraph.Keys;
    RankedGraphIsValid(DiamondGraph, [Root, A, B, C], map[Root := 2, A := 1, B := 1, C := 0]);
  }

  /** The dispatch loop starts nothing when no step from position `i` on is ready. */
  lemma {:induction false} NothingReadyDispatchesNothing(t: BootTask, i: nat)
    requires i <= |t.order| && NoDuplicates(t.order)
    requires forall j :: i <= j < |t.order| ==> !IsReady(t, t.order[j])
    ensures DispatchFrom(t, i) == t
    decreases |t.order| - i
  {
    if i < |t.order| {
      NothingReadyDispatchesNothing(t, i + 1);
    }
  }

  /** The diamond just loaded, before the dispatch loop. */
  function JoinLoaded(): BootTask
  {
    BootTask(true, JoinMap, JoinOrder, [], [], Empty(), Some(NewTaskResult()), [], {})
  }

  /** The diamond once `A` and `B` were started. */
  function JoinRunning(): BootTask
  {
    BootTask(true, JoinMap[A := NewStep(A).(isInvalid := true)][B := NewStep(B).(isInvalid := true)],
             JoinOrder, [A, B], [], Empty(), Some(NewTaskResult()), [], {A, B})
  }

  lemma JoinStartDispatches()
    ensures IsOrderOf(JoinOrder, Load(JoinSteps()))
    ensures Start(NewBootTask(), JoinSteps(), JoinOrder) == Started(DispatchFrom(JoinLoaded(), 0), None)
  {
    JoinLoads();
  }

  /** The diamond once `A` alone was started. */
  function JoinOneStarted(): BootTask
  {
    BootTask(true, JoinMap[A := NewStep(A).(isInvalid := true)],
             JoinOrder, [A], [], Empty(), Some(NewTaskResult()), [], {A})
  }

  lemma JoinDispatchesA()
    ensures DispatchFrom(JoinLoaded(), 0) == DispatchFrom(JoinOneStarted(), 1)
  {
    var base := JoinLoaded();
    assert IsReady(base, A);
    assert StartStep(base, A) == JoinOneStarted();
  }

  lemma JoinDispatchesB()
    ensures DispatchFrom(JoinOneStarted(), 1) == DispatchFrom(JoinRunning(), 2)
  {
    var b1 := JoinOneStarted();
    assert IsReady(b1, B);
    assert StartStep(b1, B) == JoinRunning();
  }

  lemma JoinDispatchSkipsD()
    ensures DispatchFrom(JoinRunning(), 2) == JoinRunning()
  {
    var b2 := JoinRunning();
    assert !IsReady(b2, D);
    assert DispatchFrom(b2, 2) == DispatchFrom(b2, 3) == b2;
  }

  lemma JoinDispatch()
    ensures DispatchFrom(JoinLoaded(), 0) == JoinRunning()
  {
    JoinDispatchesA();
    JoinDispatchesB();
    JoinDispatchSkipsD();
  }

  /** Starting the join dispatches `A` and `B`, whose own work is then under way. */
  lemma JoinStarts()
    ensures IsOrderOf(JoinOrder, Load(JoinSteps()))
    ensures Start(NewBootTask(), JoinSteps(), JoinOrder) == Started(JoinRunning(), None)
  {
    JoinStartDispatches();
    JoinDispatch();
  }

  const FailA := Failure(Some("A failed"))
  const FailB := Failure(Some("B failed"))
  const FailD := Event(D, Failure(Some(DependentFailedMessage)))

  /** When only `D` still waits for `k`, a failure of `k` posts exactly one failure, for `D`. */
  lemma OnlyDWaits(m: map<StepType, BootStep>, k: StepType)
    requires D in m && m[D].ContainDependency(k)
    requires A in m ==> !m[A].ContainDependency(k)
    requires B in m ==> !m[B].ContainDependency(k)
    ensures SynthesizedFailures(JoinOrder, m, k) == [FailD]
  {
    assert SynthesizedFailures([], m, k) == [];
    assert [D][1..] == [];
    assert SynthesizedFailures([D], m, k) == [FailD];
    assert [B, D][1..] == [D];
    assert SynthesizedFailures([B, D], m, k) == [FailD];
    assert JoinOrder[1..] == [B, D];
  }

  /** Both `A` and `B` reported failure; the handler thread has not run yet. */
  function BothFailed(): BootTask
  {
    JoinRunning().(queue := [Event(A, FailA), Event(B, FailB)], awaiting := {})
  }

  /** The handler ran `A`'s failure: `D` waits for `A`, so its failure is posted. */
  function AfterFirst(): BootTask
  {
    JoinRunning().(stepMap := JoinRunning().stepMap - {A}, failed := [A],
                      taskResult := Some(NewTaskResult().SetStepResult(A, FailA)),
                      queue := [Event(B, FailB), FailD], awaiting := {})
  }

  /** The handler ran `B`'s failure: `D` waits for `B` too, so a second failure is posted. */
  function AfterSecond(): BootTask
  {
    AfterFirst().(stepMap := map[D := JoinMap[D]], failed := [A, B],
                  taskResult := Some(NewTaskResult().SetStepResult(A, FailA).SetStepResult(B, FailB)),
                  queue := [FailD, FailD])
  }

  lemma BothFail()
    ensures OnStepFinished(OnStepFinished(JoinRunning(), A, FailA), B, FailB) == BothFailed()
  {
  }

  /** `A`'s failure recorded and `A` removed, before the loop over the remaining steps. */
  function FirstRecorded(): BootTask
  {
    BothFailed().(queue := [Event(B, FailB)], failed := [A], stepMap := BothFailed().stepMap - {A},
                  taskResult := Some(NewTaskResult().SetStepResult(A, FailA)))
  }

  /** `B`'s failure recorded and `B` removed, before the loop over the remaining steps. */
  function SecondRecorded(): BootTask
  {
    AfterFirst().(queue := [FailD], failed := [A, B], stepMap := map[D := JoinMap[D]],
                  taskResult := Some(NewTaskResult().SetStepResult(A, FailA).SetStepResult(B, FailB)))
  }

  /** The handler thread takes the oldest event of a batch in progress: a failure
      of a step that is not the last remaining one is recorded, the step is
      removed, and the loop over the remaining steps and the dispatch loop run. */
  lemma RunNextFailureOfRemaining(t: BootTask, k: StepType, res: Result, rest: seq<Event>)
    requires t.taskResult.Some? && NoDuplicates(t.order) && t.queue == [Event(k, res)] + rest
    requires !res.IsSuccessful() && k in t.stepMap && t.stepMap.Keys - {k} != {}
    ensures RunNext(t) == Outcome(DispatchFrom(Cascade(
      t.(queue := rest, taskResult := Some(t.taskResult.value.SetStepResult(k, res)),
         failed := t.failed + [k], stepMap := t.stepMap - {k}), k, res), 0), None)
  {
    assert t.queue[1..] == rest;
    assert (t.stepMap - {k}).Keys != {};
  }

  lemma FirstRecords()
    ensures RunNext(BothFailed()) == Outcome(DispatchFrom(Cascade(FirstRecorded(), A, FailA), 0), None)
  {
    var t := BothFailed();
    assert B in t.stepMap.Keys - {A};
    var x := t.(queue := [Event(B, FailB)], taskResult := Some(t.taskResult.value.SetStepResult(A, FailA)),
                failed := t.failed + [A], stepMap := t.stepMap - {A});
    assert x == FirstRecorded();
    RunNextFailureOfRemaining(t, A, FailA, [Event(B, FailB)]);
  }

  lemma FirstCascades()
    ensures Cascade(FirstRecorded(), A, FailA) == AfterFirst()
  {
    var m := FirstRecorded().stepMap;
    assert m.Keys == {B, D};
    OnlyDWaits(m, A);
  }

  lemma OnlyDRemains()
    ensures AfterFirst().stepMap - {B} == map[D := JoinMap[D]]
  {
  }

  lemma SecondRecords()
    ensures RunNext(AfterFirst()) == Outcome(DispatchFrom(Cascade(SecondRecorded(), B, FailB), 0), None)
  {
    var t := AfterFirst();
    OnlyDRemains();
    assert D in t.stepMap.Keys - {B};
    var x := t.(queue := [FailD], taskResult := Some(t.taskResult.value.SetStepResult(B, FailB)),
                failed := t.failed + [B], stepMap := t.stepMap - {B});
    assert x == SecondRecorded();
    RunNextFailureOfRemaining(t, B, FailB, [FailD]);
  }

  lemma SecondCascades()
    ensures Cascade(SecondRecorded(), B, FailB) == AfterSecond()
  {
    OnlyDWaits(SecondRecorded().stepMap, B);
  }

  lemma FirstSettles()
    ensures DispatchFrom(AfterFirst(), 0) == AfterFirst()
  {
    NothingReadyDispatchesNothing(AfterFirst(), 0);
  }

  lemma SecondSettles()
    ensures DispatchFrom(AfterSecond(), 0) == AfterSecond()
  {
    NothingReadyDispatchesNothing(AfterSecond(), 0);
  }

  lemma FirstFailurePostsForD()
    ensures RunNext(BothFailed()) == Outcome(AfterFirst(), None)
  {
    FirstRecords();
    FirstCascades();
    FirstSettles();
  }

  lemma SecondFailurePostsForDAgain()
    ensures RunNext(AfterFirst()) == Outcome(AfterSecond(), None)
  {
    SecondRecords();
    SecondCascades();
    SecondSettles();
  }

  lemma FirstFailureOfDFinishes()
    ensures var o := RunNext(AfterSecond());
      && o.report.Some? && !o.report.value.IsSuccessful()
      && o.task.taskResult.None? && o.task.queue == [FailD] && o.task.order == JoinOrder
      && !o.task.running
  {
    var t := AfterSecond();
    assert t.stepMap.Keys == {t.queue[0].stepType};
    assert t.failed != [];
    RunNextFinishesLast(t);
    assert t.queue[1..] == [FailD];
  }

  /** An event for the last remaining step finishes the batch; later events stay posted. */
  lemma RunNextFinishesLast(t: BootTask)
    requires t.taskResult.Some? && NoDuplicates(t.order) && |t.queue| > 0
    requires t.stepMap.Keys == {t.queue[0].stepType}
    ensures var o := RunNext(t);
      && o.report.Some? && (o.report.value.IsSuccessful() <==> t.failed == [] && t.queue[0].result.IsSuccessful())
      && o.task.taskResult.None? && o.task.queue == t.queue[1..] && o.task.order == t.order
      && !o.task.running
  {
    var e := t.queue[0];
    var rest := t.(queue := t.queue[1..]);
    var tr := t.taskResult.value.SetStepResult(e.stepType, e.result);
    var t1 := rest.(taskResult := Some(tr));
    var t2 := if e.result.IsSuccessful() then t1.(container := t1.container.PutVariable(e.stepType, e.result.GetValue()))
              else t1.(failed := t1.failed + [e.stepType]);
    assert |(t2.stepMap - {e.stepType})| == 0;
    assert RunNext(t) == TaskFinished(t2.(stepMap := t2.stepMap - {e.stepType}));
  }

  /** Starting the join leaves it in `JoinRunning()` (`JoinStarts`).
      Both `A` and `B` then report failure before the handler thread runs. Handling
      `A`'s failure posts a failure for `D`; handling `B`'s posts a second one.
      The first of those finishes the batch and sets `taskResult` to null, and the
      second, already posted, then runs on a finished batch: as written it
      dereferences null, while the corrected handler drops it and leaves the
      task idle and startable. */
  lemma StaleFailureAfterFinish()
    ensures OnStepFinished(OnStepFinished(JoinRunning(), A, FailA), B, FailB) == BothFailed()
    ensures RunNext(BothFailed()) == Outcome(AfterFirst(), None) && |AfterFirst().queue| == 2
    ensures RunNext(AfterFirst()) == Outcome(AfterSecond(), None) && |AfterSecond().queue| == 2
    ensures var o := RunNext(AfterSecond());
      && o.report.Some? && !o.report.value.IsSuccessful()
      && o.task.queue == [FailD] && o.task.order == JoinOrder
      && RunNextAsWritten(o.task).NullDereference?
      && RunNext(o.task).report.None? && !RunNext(o.task).task.running
      && RunNext(o.task).task.queue == []
  {
    FailuresPostedTwice();
    TwoEventsWaitEachTime();
    StaleFailureFound();
  }

  /** Both failures reach the queue, and handling each posts a failure for `D`. */
  lemma FailuresPostedTwice()
    ensures OnStepFinished(OnStepFinished(JoinRunning(), A, FailA), B, FailB) == BothFailed()
    ensures RunNext(BothFailed()) == Outcome(AfterFirst(), None)
    ensures RunNext(AfterFirst()) == Outcome(AfterSecond(), None)
  {
    BothFail();
    FirstFailurePostsForD();
    SecondFailurePostsForDAgain();
  }

  /** After each of the two failures is handled, two events wait on the queue. */
  lemma TwoEventsWaitEachTime()
    ensures |AfterFirst().queue| == 2 && |AfterSecond().queue| == 2
  {
  }

  /** The batch finished by the first failure of `D` still has the second one posted. */
  lemma StaleFailureFound()
    ensures var o := RunNext(AfterSecond());
      && o.report.Some? && !o.report.value.IsSuccessful()
      && o.task.queue == [FailD] && o.task.order == JoinOrder
      && RunNextAsWritten(o.task).NullDereference?
      && RunNext(o.task).report.None? && !RunNext(o.task).task.running
      && RunNext(o.task).task.queue == []
  {
    var t := AfterSecond();
    assert t.stepMap.Keys == {t.queue[0].stepType};
    assert t.failed != [];
    RunNextFinishesLast(t);
    assert t.queue[1..] == [FailD];
    StaleEventDropped(RunNext(t));
  }

  /** On a finished batch the handler drops the one event still posted and
      changes nothing else. */
  lemma StaleEventDropped(o: Outcome)
    requires o.report.Some? && !o.report.value.IsSuccessful()
    requires o.task.taskResult.None? && !o.task.running
    requires o.task.queue == [FailD] && o.task.order == JoinOrder
    ensures && o.report.Some? && !o.report.value.IsSuccessful()
      && o.task.queue == [FailD] && o.task.order == JoinOrder
      && RunNextAsWritten(o.task).NullDereference?
      && RunNext(o.task).report.None? && !RunNext(o.task).task.running
      && RunNext(o.task).task.queue == []
  {
  }

  // ---------------------------------------------------------------------------
  // The early finishes of `start` never release the executor

  /** `start` as written: the executor is created before loading, and neither the
      empty-load return nor the validation-failure return releases it, so the
      task stays marked as running. */
  function StartAsWritten(t: BootTask, steps: seq<BootStep>, order: seq<StepType>): (r: StartOutcome)
    requires IsOrderOf(order, Load(steps))
    ensures t.running <==> r.Rejected?
    ensures r.Started? ==> r.task.running
    ensures r.Started? && r.report.None? ==> r == Start(t, steps, order)
    ensures r.Started? && r.report.Some? ==> Start(t, steps, order) == Started(r.task.(running := false), r.report)
  {
    if t.running then
      Rejected
    else
      var m := Load(steps);
      var base := t.(running := true, stepMap := m, order := order, executing := [], queue := [], awaiting := {});
      if |m| == 0 then
        Started(base, Some(NewTaskResult().SetResult(true)))
      else
        match CheckDependencyChains(GraphOf(m), order)
        case Invalid(d) => Started(base, Some(FromDependencyError(d)))
        case Valid => Started(ExecuteStepsWithoutDependency(base.(taskResult := Some(NewTaskResult()))), None)
  }

  /** A task whose first `start` loaded nothing refuses every later `start` as
      written, while the corrected `start` accepts it. */
  lemma EmptyLoadBlocksRestart(steps: seq<BootStep>, order: seq<StepType>)
    requires IsOrderOf(order, Load(steps))
    ensures var first := StartAsWritten(NewBootTask(), [], []);
      && first.Started? && first.report.Some? && first.report.value.IsSuccessful()
      && StartAsWritten(first.task, steps, order).Rejected?
    ensures var first := Start(NewBootTask(), [], []);
      first.Started? && Start(first.task, steps, order).Started?
  {
    assert Load([]) == map[];
    assert IsOrderOf([], Load([]));
  }

  /** A step that lists itself as a dependency. */
  function SelfDependent(): seq<BootStep>
  {
    [NewStep(A).AddDependency(A, false)]
  }

  lemma SelfDependentLoads()
    ensures Load(SelfDependent()) == map[A := BootStep(A, [A], [], false)]
    ensures IsOrderOf([A], Load(SelfDependent()))
  {
    var s := BootStep(A, [A], [], false);
    assert [] + [A] == [A];
    assert NewStep(A).AddDependency(A, false) == s;
    assert SelfDependent() == [] + [s];
    LoadAppend([], s);
    assert Load([]) == map[];
    assert Elems([A]) == {A};
  }

  /** A task whose first `start` failed validation (a step depending on itself)
      likewise refuses every later `start` as written, while the corrected
      `start` accepts it. */
  lemma InvalidGraphBlocksRestart(steps: seq<BootStep>, order: seq<StepType>)
    requires IsOrderOf(order, Load(steps))
    ensures IsOrderOf([A], Load(SelfDependent()))
    ensures var first := StartAsWritten(NewBootTask(), SelfDependent(), [A]);
      && first.Started? && first.report.Some? && first.report.value.IsDependenciesError()
      && StartAsWritten(first.task, steps, order).Rejected?
    ensures Start(Start(NewBootTask(), SelfDependent(), [A]).task, steps, order).Started?
  {
    SelfDependentLoads();
    var m := Load(SelfDependent());
    SelfDependencyIsCircular(GraphOf(m), [A], A);
  }

  /** The corrected `start` leaves the task startable after either early finish. */
  lemma EarlyFinishAllowsRestart(t: BootTask, steps: seq<BootStep>, order: seq<StepType>,
                                 steps2: seq<BootStep>, order2: seq<StepType>)
    requires IsOrderOf(order, Load(steps)) && IsOrderOf(order2, Load(steps2))
    requires Start(t, steps, order).Started? && Start(t, steps, order).report.Some?
    ensures Start(Start(t, steps, order).task, steps2, order2).Started?
  {
  }
}
