/** The orchestrator (`BootTask`): loading, validation, dispatch of ready steps
    and the completion handling that runs on the task's single handler thread.

    Every runnable the task posts to its handler thread is modelled as an event
    in `queue`, handled one at a time in FIFO order by `RunNext`. A step's own
    work (`executeImpl`) is outside the model: dispatching a step that reaches it
    puts the step in `awaiting`, and the step's later callback is the transition
    `OnStepFinished`, which only enqueues. */
module BootTasks {
  import opened Types
  import opened Results
  import opened VariableContainers
  import opened TaskResults
  import opened BootSteps
  import opened DependencyCheck

  /** Stand-in for the formatted "dependency [T] failed" message. */
  const DependentFailedMessage: string := "dependent step failed"

  /** One posted runnable: the completion of `stepType` with `result`. */
  datatype Event = Event(stepType: StepType, result: Result)

  /** No two events of `es` are for the same type. */
  predicate DistinctTypes(es: seq<Event>)
  {
    forall i, j :: 0 <= i < j < |es| ==> es[i].stepType != es[j].stepType
  }

  /** Putting an event for a new type in front keeps the types distinct. */
  lemma ConsKeepsDistinctTypes(e: Event, rest: seq<Event>, others: seq<StepType>)
    requires DistinctTypes(rest) && e.stepType !in others
    requires forall j :: 0 <= j < |rest| ==> rest[j].stepType in others
    ensures DistinctTypes([e] + rest)
  {
    var r := [e] + rest;
    forall i, j | 0 <= i < j < |r| ensures r[i].stepType != r[j].stepType {
      assert r[j] == rest[j - 1];
      if i > 0 { assert r[i] == rest[i - 1]; }
    }
  }

  /** The task's fields. `running` is `executor != null`; `taskResult` is null
      outside a batch; `order` is the iteration order of `stepMap`, fixed when the
      steps are loaded (nothing is inserted afterwards, so removals keep the
      relative order of the rest); `awaiting` holds the dispatched steps whose own
      work has not called back yet. */
  datatype BootTask = BootTask(
    running: bool,
    stepMap: map<StepType, BootStep>,
    order: seq<StepType>,
    executing: seq<StepType>,
    failed: seq<StepType>,
    container: VariableContainer,
    taskResult: Option<TaskResult>,
    queue: seq<Event>,
    awaiting: set<StepType>)

  /** A transition's new state and the result, if any, it handed to `onTaskFinished`. */
  datatype Outcome = Outcome(task: BootTask, report: Option<TaskResult>)

  /** What `start` does: either it throws because a batch is in progress, or it starts. */
  datatype StartOutcome = Rejected | Started(task: BootTask, report: Option<TaskResult>)

  /** The task as its constructor leaves it. */
  function NewBootTask(): (t: BootTask)
    ensures !t.running && t.taskResult.None? && t.stepMap == map[]
    ensures t.failed == [] && t.executing == [] && t.queue == [] && t.awaiting == {}
    ensures forall k :: !t.container.IsVariableExist(k)
  {
    BootTask(false, map[], [], [], [], Empty(), None, [], {})
  }

  // ---------------------------------------------------------------------------
  // Loading

  /** `load()` calling `loadBootStep` for each step in turn: each step is stored
      under its own type, and a later step of the same type replaces an earlier one. */
  function Load(steps: seq<BootStep>): (m: map<StepType, BootStep>)
    ensures forall k :: k in m <==> exists i :: 0 <= i < |steps| && steps[i].stepType == k
    ensures forall k :: k in m ==> m[k].stepType == k && m[k] in steps
    ensures forall i :: 0 <= i < |steps| && IsLastOfType(steps, i) ==> m[steps[i].stepType] == steps[i]
  {
    if steps == [] then
      map[]
    else
      var m := Load(steps[..|steps| - 1]);
      LoadOneMore(steps, m);
      m[steps[|steps| - 1].stepType := steps[|steps| - 1]]
  }

  /** Storing the last step on top of what the earlier ones stored. */
  lemma LoadOneMore(steps: seq<BootStep>, m: map<StepType, BootStep>)
    requires |steps| > 0
    requires var init := steps[..|steps| - 1];
      && (forall k :: k in m <==> exists i :: 0 <= i < |init| && init[i].stepType == k)
      && (forall k :: k in m ==> m[k].stepType == k && m[k] in init)
      && (forall i :: 0 <= i < |init| && IsLastOfType(init, i) ==> m[init[i].stepType] == init[i])
    ensures var r := m[steps[|steps| - 1].stepType := steps[|steps| - 1]];
      && (forall k :: k in r <==> exists i :: 0 <= i < |steps| && steps[i].stepType == k)
      && (forall k :: k in r ==> r[k].stepType == k && r[k] in steps)
      && (forall i :: 0 <= i < |steps| && IsLastOfType(steps, i) ==> r[steps[i].stepType] == steps[i])
  {
    LoadOneMoreKeys(steps, m);
    LoadOneMoreValues(steps, m);
    LoadOneMoreLast(steps, m);
  }

  lemma LoadOneMoreKeys(steps: seq<BootStep>, m: map<StepType, BootStep>)
    requires |steps| > 0
    requires var init := steps[..|steps| - 1];
      forall k :: k in m <==> exists i :: 0 <= i < |init| && init[i].stepType == k
    ensures var r := m[steps[|steps| - 1].stepType := steps[|steps| - 1]];
      forall k :: k in r <==> exists i :: 0 <= i < |steps| && steps[i].stepType == k
  {
    var n := |steps| - 1;
    var init := steps[..n];
    var r := m[steps[n].stepType := steps[n]];
    forall k ensures k in r <==> exists i :: 0 <= i < |steps| && steps[i].stepType == k {
      if k in r && k != steps[n].stepType {
        var i :| 0 <= i < |init| && init[i].stepType == k;
        assert steps[i] == init[i];
      }
      if exists i :: 0 <= i < |steps| && steps[i].stepType == k {
        var i :| 0 <= i < |steps| && steps[i].stepType == k;
        if i < n {
          assert init[i] == steps[i];
        }
      }
    }
  }

  lemma LoadOneMoreValues(steps: seq<BootStep>, m: map<StepType, BootStep>)
    requires |steps| > 0
    requires forall k :: k in m ==> m[k].stepType == k && m[k] in steps[..|steps| - 1]
    ensures var r := m[steps[|steps| - 1].stepType := steps[|steps| - 1]];
      forall k :: k in r ==> r[k].stepType == k && r[k] in steps
  {
    var n := |steps| - 1;
    assert forall x :: x in steps[..n] ==> x in steps;
  }

  lemma LoadOneMoreLast(steps: seq<BootStep>, m: map<StepType, BootStep>)
    requires |steps| > 0
    requires var init := steps[..|steps| - 1];
      forall i :: 0 <= i < |init| && IsLastOfType(init, i) ==> init[i].stepType in m && m[init[i].stepType] == init[i]
    ensures var r := m[steps[|steps| - 1].stepType := steps[|steps| - 1]];
      forall i :: 0 <= i < |steps| && IsLastOfType(steps, i) ==> steps[i].stepType in r && r[steps[i].stepType] == steps[i]
  {
    var n := |steps| - 1;
    var init := steps[..n];
    var r := m[steps[n].stepType := steps[n]];
    forall i | 0 <= i < |steps| && IsLastOfType(steps, i)
      ensures steps[i].stepType in r && r[steps[i].stepType] == steps[i]
    {
      if i < n {
        assert steps[i].stepType != steps[n].stepType;
        LastOfTypeInPrefix(steps, i);
        assert init[i] == steps[i];
      }
    }
  }

  /** No later step has the type of `steps[i]`. */
  predicate IsLastOfType(steps: seq<BootStep>, i: int)
    requires 0 <= i < |steps|
  {
    forall j :: i < j < |steps| ==> steps[j].stepType != steps[i].stepType
  }

  lemma LastOfTypeInPrefix(steps: seq<BootStep>, i: int)
    requires 0 <= i < |steps| - 1 && IsLastOfType(steps, i)
    ensures IsLastOfType(steps[..|steps| - 1], i)
  {
    var init := steps[..|steps| - 1];
    forall j | i < j < |init| ensures init[j].stepType != init[i].stepType {
      assert init[j] == steps[j] && init[i] == steps[i];
    }
  }

  /** The dependency graph of the loaded steps, as validation sees it. */
  function GraphOf(m: map<StepType, BootStep>): (g: Graph)
    ensures g.Keys == m.Keys
    ensures forall k :: k in g ==> g[k] == m[k].stepDependencies
  {
    map k | k in m :: m[k].stepDependencies
  }

  // ---------------------------------------------------------------------------
  // Dispatch: `executeStepsWithoutDependency`

  /** A step the dispatch loop starts: still remaining, not started before, and
      with no outstanding step dependency. */
  predicate IsReady(t: BootTask, k: StepType)
  {
    k in t.stepMap && k !in t.executing && !t.stepMap[k].HasStepDependencies()
  }

  /** Reference definition: the ready steps among `order[i..]`, in order. */
  function ReadySteps(t: BootTask, i: nat): (r: seq<StepType>)
    requires i <= |t.order|
    ensures forall k :: k in r <==> k in t.order[i..] && IsReady(t, k)
    decreases |t.order| - i
  {
    if i == |t.order| then []
    else if IsReady(t, t.order[i]) then [t.order[i]] + ReadySteps(t, i + 1)
    else ReadySteps(t, i + 1)
  }

  /** Starting one ready step: it is recorded as executing and `execute` runs;
      a failure `execute` reports at once is posted, otherwise the step's own
      work is now under way. */
  function StartStep(t: BootTask, k: StepType): (r: BootTask)
    requires k in t.stepMap
    ensures r.executing == t.executing + [k]
    ensures r.stepMap == t.stepMap[k := t.stepMap[k].Execute(t.container).step]
    ensures r.order == t.order && r.container == t.container && r.failed == t.failed
    ensures r.taskResult == t.taskResult && r.running == t.running
    ensures var ex := t.stepMap[k].Execute(t.container);
      && (ex.ReachedImpl() ==> r.awaiting == t.awaiting + {k} && r.queue == t.queue)
      && (!ex.ReachedImpl() ==> r.awaiting == t.awaiting && r.queue == t.queue + [Event(k, ex.report.value)])
  {
    var ex := t.stepMap[k].Execute(t.container);
    var t' := t.(executing := t.executing + [k], stepMap := t.stepMap[k := ex.step]);
    match ex.report
    case Some(res) => t'.(queue := t'.queue + [Event(k, res)])
    case None => t'.(awaiting := t'.awaiting + {k})
  }

  /** The dispatch loop from position `i` of the iteration order. Because no type
      occurs twice in `order`, it starts exactly the steps that were ready when
      it began, each once, in iteration order. */
  function DispatchFrom(t: BootTask, i: nat): (r: BootTask)
    requires i <= |t.order| && NoDuplicates(t.order)
    ensures r.executing == t.executing + ReadySteps(t, i)
    ensures r.stepMap.Keys == t.stepMap.Keys
    ensures r.order == t.order && r.container == t.container && r.failed == t.failed
    ensures r.taskResult == t.taskResult && r.running == t.running
    decreases |t.order| - i
  {
    if i == |t.order| then
      t
    else
      var k := t.order[i];
      if IsReady(t, k) then
        var t' := StartStep(t, k);
        DispatchKeepsLaterReadiness(t, k, i);
        DispatchFrom(t', i + 1)
      else
        DispatchFrom(t, i + 1)
  }

  /** The dispatch loop leaves every step's outstanding dependencies alone and
      only ever appends to the handler queue. */
  lemma {:induction false} DispatchFromKeeps(t: BootTask, i: nat)
    requires i <= |t.order| && NoDuplicates(t.order)
    ensures var r := DispatchFrom(t, i);
      && (forall u :: u in r.stepMap ==> r.stepMap[u].stepDependencies == t.stepMap[u].stepDependencies)
      && IsPrefix(t.queue, r.queue)
    decreases |t.order| - i
  {
    if i < |t.order| {
      var k := t.order[i];
      if IsReady(t, k) {
        var t' := StartStep(t, k);
        DispatchKeepsLaterReadiness(t, k, i);
        DispatchFromKeeps(t', i + 1);
        PrefixOfPrefix(t.queue, t'.queue, DispatchFrom(t', i + 1).queue);
      } else {
        DispatchFromKeeps(t, i + 1);
      }
    }
  }

  /** `a` is an initial part of `b`. */
  predicate IsPrefix<T(==)>(a: seq<T>, b: seq<T>)
  {
    |a| <= |b| && b[..|a|] == a
  }

  lemma PrefixOfPrefix<T>(a: seq<T>, b: seq<T>, c: seq<T>)
    requires IsPrefix(a, b) && IsPrefix(b, c)
    ensures IsPrefix(a, c)
  {
    assert c[..|a|] == c[..|b|][..|a|];
  }

  /** Starting the step at position `i` does not change which later steps are ready. */
  lemma DispatchKeepsLaterReadiness(t: BootTask, k: StepType, i: nat)
    requires i < |t.order| && NoDuplicates(t.order) && t.order[i] == k && k in t.stepMap
    ensures ReadySteps(StartStep(t, k), i + 1) == ReadySteps(t, i + 1)
  {
    var t' := StartStep(t, k);
    forall j | i + 1 <= j < |t.order| ensures IsReady(t', t.order[j]) <==> IsReady(t, t.order[j]) {
      assert t.order[j] != k;
    }
    ReadyStepsAgree(t, t', i + 1);
  }

  /** Two states that agree on readiness for every type from `i` on have the same ready list. */
  lemma {:induction false} ReadyStepsAgree(t: BootTask, t': BootTask, i: nat)
    requires i <= |t.order| && t'.order == t.order
    requires forall j :: i <= j < |t.order| ==> (IsReady(t', t.order[j]) <==> IsReady(t, t.order[j]))
    ensures ReadySteps(t', i) == ReadySteps(t, i)
    decreases |t.order| - i
  {
    if i < |t.order| {
      ReadyStepsAgree(t, t', i + 1);
    }
  }

  /** `executeStepsWithoutDependency()`: one pass of the dispatch loop over the
      whole iteration order, starting every step that is ready. */
  function ExecuteStepsWithoutDependency(t: BootTask): (r: BootTask)
    requires NoDuplicates(t.order)
    ensures r.executing == t.executing + ReadySteps(t, 0)
    ensures r.stepMap.Keys == t.stepMap.Keys && r.taskResult == t.taskResult && r.container == t.container
  {
    DispatchFrom(t, 0)
  }

  // ---------------------------------------------------------------------------
  // Completion handling on the handler thread

  /** `onStepFinished`: the completion is posted to the handler thread, nothing
      else happens. A step's own work calls it exactly once, after its dispatch. */
  function OnStepFinished(t: BootTask, k: StepType, res: Result): (r: BootTask)
    requires k in t.awaiting
    ensures r.queue == t.queue + [Event(k, res)] && r.awaiting == t.awaiting - {k}
    ensures r.stepMap == t.stepMap && r.taskResult == t.taskResult && r.executing == t.executing
    ensures r.container == t.container && r.failed == t.failed && r.order == t.order && r.running == t.running
  {
    t.(queue := t.queue + [Event(k, res)], awaiting := t.awaiting - {k})
  }

  /** The synthesized failures the cascade posts when `k` failed: one for each
      remaining step still waiting for `k`, in iteration order. */
  function SynthesizedFailures(order: seq<StepType>, m: map<StepType, BootStep>, k: StepType): (r: seq<Event>)
    ensures forall j :: 0 <= j < |r| ==>
      r[j].result == Failure(Some(DependentFailedMessage)) && r[j].stepType in m && r[j].stepType in order
      && m[r[j].stepType].ContainDependency(k)
    ensures forall u :: u in order && u in m && m[u].ContainDependency(k) ==> Event(u, Failure(Some(DependentFailedMessage))) in r
    ensures NoDuplicates(order) ==> DistinctTypes(r)
  {
    if order == [] then []
    else
      var rest := SynthesizedFailures(order[1..], m, k);
      var u := order[0];
      if u in m && m[u].ContainDependency(k) then
        var r := [Event(u, Failure(Some(DependentFailedMessage)))] + rest;
        assert forall j :: 0 <= j < |rest| ==> r[j + 1] == rest[j];
        assert NoDuplicates(order) ==> DistinctTypes(r) by {
          if NoDuplicates(order) {
            NoDuplicatesTail(order);
            ConsKeepsDistinctTypes(r[0], rest, order[1..]);
          }
        }
        r
      else
        assert NoDuplicates(order) ==> NoDuplicates(order[1..]) by {
          if NoDuplicates(order) { NoDuplicatesTail(order); }
        }
        rest
  }

  /** The loop over the remaining steps after `k` finished: on success every step
      waiting for `k` stops waiting for it (one occurrence); on failure each such
      step gets a failure of its own posted and keeps waiting for `k`. */
  function Cascade(t: BootTask, k: StepType, res: Result): (r: BootTask)
    ensures r.stepMap.Keys == t.stepMap.Keys
    ensures res.IsSuccessful() ==> r.queue == t.queue
    ensures res.IsSuccessful() ==> forall u :: u in t.stepMap ==> r.stepMap[u] == t.stepMap[u].StepFinished(k)
    ensures !res.IsSuccessful() ==> r.stepMap == t.stepMap
    ensures !res.IsSuccessful() ==> r.queue == t.queue + SynthesizedFailures(t.order, t.stepMap, k)
    ensures r.order == t.order && r.executing == t.executing && r.failed == t.failed && r.container == t.container
    ensures r.taskResult == t.taskResult && r.running == t.running && r.awaiting == t.awaiting
  {
    if res.IsSuccessful() then
      t.(stepMap := map u | u in t.stepMap :: t.stepMap[u].StepFinished(k))
    else
      t.(queue := t.queue + SynthesizedFailures(t.order, t.stepMap, k))
  }

  /** `taskFinished`: the overall flag is whether no step failed; the result is
      handed over and the run state is cleared, so the task may be started again. */
  function TaskFinished(t: BootTask): (r: Outcome)
    requires t.taskResult.Some?
    ensures r.report.Some? && r.report.value.IsSuccessful() == (t.failed == [])
    ensures r.report.value.stepResults == t.taskResult.value.stepResults
    ensures !r.report.value.IsDependenciesError() <== !t.taskResult.value.IsDependenciesError()
    ensures r.task.taskResult.None? && !r.task.running
    ensures r.task.failed == [] && r.task.executing == []
    ensures forall u :: !r.task.container.IsVariableExist(u)
    ensures r.task.stepMap == t.stepMap && r.task.queue == t.queue && r.task.awaiting == t.awaiting
    ensures r.task.order == t.order
  {
    var tr := t.taskResult.value.SetResult(t.failed == []);
    Outcome(t.(taskResult := None, failed := [], executing := [], container := t.container.Clear(), running := false),
            Some(tr))
  }

  /** What `handleStepResult` notes before the loop over the remaining steps:
      a success's value goes into the container, a failure into `failedSteps`,
      and the step leaves the step map. */
  function Noted(t: BootTask, k: StepType, res: Result): (r: BootTask)
    ensures r.stepMap == t.stepMap - {k} && r.executing == t.executing && r.order == t.order
    ensures r.failed == if res.IsSuccessful() then t.failed else t.failed + [k]
    ensures r.container == if res.IsSuccessful() then t.container.PutVariable(k, res.GetValue()) else t.container
    ensures r.queue == t.queue && r.taskResult == t.taskResult && r.awaiting == t.awaiting && r.running == t.running
  {
    var t1 := if res.IsSuccessful() then t.(container := t.container.PutVariable(k, res.GetValue()))
              else t.(failed := t.failed + [k]);
    if k in t1.stepMap then t1.(stepMap := t1.stepMap - {k}) else t1
  }

  /** `handleStepResult(k, res)`: the result is noted; if that removed the last
      remaining step the batch finishes, otherwise the remaining steps are told
      (one cascade over them) and the dispatch loop runs again. */
  function HandleStepResult(t: BootTask, k: StepType, res: Result): (r: Outcome)
    requires t.taskResult.Some? && NoDuplicates(t.order)
    ensures res.IsSuccessful() && r.task.taskResult.Some? ==> r.task.container == t.container.PutVariable(k, res.GetValue())
    ensures k in t.stepMap ==> k !in r.task.stepMap
    ensures r.task.stepMap.Keys == t.stepMap.Keys - {k}
    ensures r.report.Some? <==> (t.stepMap.Keys - {k} == {} && k in t.stepMap)
    ensures r.report.Some? ==> (r.report.value.IsSuccessful() <==> t.failed == [] && res.IsSuccessful())
    ensures r.report.None? ==> r.task.failed == if res.IsSuccessful() then t.failed else t.failed + [k]
    ensures r.report.None? ==> r.task.taskResult == t.taskResult
    ensures r.report.Some? ==> r.report.value.stepResults == t.taskResult.value.stepResults && r.task.taskResult.None?
  {
    var t2 := Noted(t, k, res);
    if k in t.stepMap && |t2.stepMap| == 0 then
      TaskFinished(t2)
    else
      Outcome(DispatchFrom(Cascade(t2, k, res), 0), None)
  }

  /** When the batch goes on, `handleStepResult` tells the remaining steps about
      `k` and then starts exactly the steps that this made ready: on success
      every remaining step drops `k` from its outstanding dependencies, and on
      failure the dependents' failures are posted behind what was already
      queued. */
  lemma HandleStepResultContinues(t: BootTask, k: StepType, res: Result)
    requires t.taskResult.Some? && NoDuplicates(t.order)
    ensures var r := HandleStepResult(t, k, res);
      r.report.None? ==>
        && r.task.executing == t.executing + ReadySteps(Cascade(Noted(t, k, res), k, res), 0)
        && (res.IsSuccessful() ==>
              forall u :: u in r.task.stepMap ==> r.task.stepMap[u].stepDependencies == t.stepMap[u].StepFinished(k).stepDependencies)
        && (!res.IsSuccessful() ==>
              IsPrefix(t.queue + SynthesizedFailures(t.order, t.stepMap - {k}, k), r.task.queue))
  {
    var t2 := Noted(t, k, res);
    if !(k in t.stepMap && |t2.stepMap| == 0) {
      DispatchFromKeeps(Cascade(t2, k, res), 0);
    }
  }

  /** The body of the runnable `onStepFinished` posts, for a batch in progress:
      record the result, then handle it. */
  function HandleEvent(t: BootTask, e: Event): (r: Outcome)
    requires t.taskResult.Some? && NoDuplicates(t.order)
    ensures var tr := t.taskResult.value.SetStepResult(e.stepType, e.result);
      && (r.report.Some? <==> e.stepType in t.stepMap && t.stepMap.Keys == {e.stepType})
      && (r.report.None? ==> r.task.taskResult == Some(tr))
      && (r.report.Some? ==> r.report.value.stepResults == tr.stepResults && r.task.taskResult.None?)
      && r.task.stepMap.Keys == t.stepMap.Keys - {e.stepType}
  {
    var tr := t.taskResult.value.SetStepResult(e.stepType, e.result);
    HandleStepResult(t.(taskResult := Some(tr)), e.stepType, e.result)
  }

  /** The handler thread runs the oldest posted runnable. Once the batch has
      finished (`taskResult` is null) a leftover runnable is dropped and changes
      nothing else. */
  function RunNext(t: BootTask): (r: Outcome)
    requires |t.queue| > 0 && NoDuplicates(t.order)
    ensures t.taskResult.None? ==> r == Outcome(t.(queue := t.queue[1..]), None)
    ensures t.taskResult.Some? ==> r == HandleEvent(t.(queue := t.queue[1..]), t.queue[0])
    ensures t.taskResult.Some? ==>
      var e := t.queue[0];
      var tr := t.taskResult.value.SetStepResult(e.stepType, e.result);
      && (r.report.Some? <==> e.stepType in t.stepMap && t.stepMap.Keys == {e.stepType})
      && (r.report.None? ==> r.task.taskResult == Some(tr))
      && (r.report.Some? ==> r.report.value.stepResults == tr.stepResults && r.task.taskResult.None?)
  {
    var rest := t.(queue := t.queue[1..]);
    if rest.taskResult.None? then Outcome(rest, None) else HandleEvent(rest, t.queue[0])
  }

  // ---------------------------------------------------------------------------
  // Starting a batch

  /** The iteration order lists each loaded type exactly once. */
  predicate IsOrderOf(order: seq<StepType>, m: map<StepType, BootStep>)
  {
    NoDuplicates(order) && Elems(order) == m.Keys
  }

  /** `start(callback)`: refused while a batch is in progress; otherwise the
      steps are loaded into a cleared step map, an empty load finishes at once
      as a success, an invalid graph finishes at once with the dependency error,
      and a valid one starts every step without dependencies. Both early
      finishes leave the task startable again. */
  function Start(t: BootTask, steps: seq<BootStep>, order: seq<StepType>): (r: StartOutcome)
    requires IsOrderOf(order, Load(steps))
    ensures t.running <==> r.Rejected?
    ensures r.Started? && Load(steps) == map[] ==>
      && r.report.Some? && r.report.value.IsSuccessful() && !r.report.value.IsDependenciesError()
      && r.report.value.stepResults == map[] && !r.task.running
    ensures r.Started? && Load(steps) != map[] && CheckDependencyChains(GraphOf(Load(steps)), order).Invalid? ==>
      && r.report == Some(FromDependencyError(CheckDependencyChains(GraphOf(Load(steps)), order).defect))
      && r.task.executing == [] && r.task.queue == [] && r.task.awaiting == {} && !r.task.running
    ensures r.Started? && r.report.None? ==> r.task.running && r.task.taskResult == Some(NewTaskResult())
  {
    if t.running then
      Rejected
    else
      var m := Load(steps);
      var base := t.(running := true, stepMap := m, order := order, executing := [], queue := [], awaiting := {});
      if |m| == 0 then
        Started(base.(running := false), Some(NewTaskResult().SetResult(true)))
      else
        match CheckDependencyChains(GraphOf(m), order)
        case Invalid(d) => Started(base.(running := false), Some(FromDependencyError(d)))
        case Valid => Started(ExecuteStepsWithoutDependency(base.(taskResult := Some(NewTaskResult()))), None)
  }
}
