/** The invariant of a batch in progress, and its preservation by every
    transition of the handler thread and of the steps' own work.

    `g` is the dependency graph as loaded (each step's declared dependencies);
    it does not change during a batch, while each step's outstanding list
    shrinks as its dependencies succeed. */
module BatchInvariant {
  import opened Types
  import opened Results
  import opened VariableContainers
  import opened TaskResults
  import opened BootSteps
  import opened DependencyCheck
  import opened BootTasks

  /** The results recorded so far. */
  function Recorded(t: BootTask): map<StepType, Result>
    requires t.taskResult.Some?
  {
    t.taskResult.value.stepResults
  }

  predicate SucceededIn(rec: map<StepType, Result>, k: StepType)
  {
    k in rec && rec[k].IsSuccessful()
  }

  predicate Succeeded(t: BootTask, k: StepType)
    requires t.taskResult.Some?
  {
    SucceededIn(Recorded(t), k)
  }

  /** Every type in `ds` has a recorded success. */
  predicate AllSucceeded(rec: map<StepType, Result>, ds: seq<StepType>)
  {
    forall d :: d in ds ==> SucceededIn(rec, d)
  }

  /** Every type in `ds` has either succeeded or is still outstanding for `s`. */
  predicate StillAwaited(rec: map<StepType, Result>, ds: seq<StepType>, s: BootStep)
  {
    forall d :: d in ds ==> d in s.stepDependencies || SucceededIn(rec, d)
  }

  /** The value dependencies of `s` are among `ds`. */
  predicate ValuesDeclared(s: BootStep, ds: seq<StepType>)
  {
    forall d :: d in s.variableDependencies ==> d in ds
  }

  /** One of the steps `s` still waits for has failed. */
  predicate DependsOnFailed(failed: seq<StepType>, s: BootStep)
  {
    exists f :: f in failed && f in s.stepDependencies
  }

  /** No other event in `q` is for the type of `q[i]`. */
  predicate OnlyEventFor(q: seq<Event>, i: int)
    requires 0 <= i < |q|
  {
    forall j :: 0 <= j < |q| && j != i ==> q[j].stepType != q[i].stepType
  }

  // ---------------------------------------------------------------------------
  // The parts of the invariant

  /** A batch is in progress; the iteration order lists the loaded types once;
      every loaded type is either still remaining or has a recorded result. */
  ghost predicate Shape(t: BootTask, g: Graph)
  {
    && t.running && t.taskResult.Some? && !t.taskResult.value.IsDependenciesError()
    && NoDuplicates(t.order) && Elems(t.order) == g.Keys
    && t.stepMap.Keys <= g.Keys && t.stepMap != map[]
    && Recorded(t).Keys !! t.stepMap.Keys
    && Recorded(t).Keys + t.stepMap.Keys == g.Keys
  }

  /** `failedSteps` names exactly the types recorded as failures, and the
      container holds exactly the non-null values of the recorded successes. */
  ghost predicate Books(t: BootTask)
    requires t.taskResult.Some?
  {
    && (forall k :: k in t.failed <==> k in Recorded(t) && !Recorded(t)[k].IsSuccessful())
    && (forall k :: t.container.GetVariable(k) == if SucceededIn(Recorded(t), k) then Recorded(t)[k].GetValue() else None)
  }

  /** Posted events are for loaded types only. */
  ghost predicate PendingLoaded(q: seq<Event>, g: Graph)
  {
    forall i :: 0 <= i < |q| ==> q[i].stepType in g
  }

  /** Nothing is posted for a type already recorded as a success. */
  ghost predicate PendingNotSucceeded(q: seq<Event>, rec: map<StepType, Result>)
  {
    forall i :: 0 <= i < |q| ==> !SucceededIn(rec, q[i].stepType)
  }

  /** Nothing is posted for a step whose own work is still under way. */
  ghost predicate PendingNotAwaiting(q: seq<Event>, awaiting: set<StepType>)
  {
    forall i :: 0 <= i < |q| ==> q[i].stepType !in awaiting
  }

  /** A posted success is for a started, remaining step, and is its only event. */
  ghost predicate PendingSuccessUnique(q: seq<Event>, m: map<StepType, BootStep>, executing: seq<StepType>)
  {
    forall i :: 0 <= i < |q| && q[i].result.IsSuccessful() ==>
      q[i].stepType in m && q[i].stepType in executing && OnlyEventFor(q, i)
  }

  /** An event for a remaining step not yet started is the cascade's failure:
      one of the step's outstanding dependencies failed. */
  ghost predicate PendingFailureExplained(q: seq<Event>, m: map<StepType, BootStep>, executing: seq<StepType>, failed: seq<StepType>)
  {
    forall i :: 0 <= i < |q| && q[i].stepType in m && q[i].stepType !in executing ==>
      DependsOnFailed(failed, m[q[i].stepType])
  }

  ghost predicate Pending(t: BootTask, g: Graph)
    requires t.taskResult.Some?
  {
    && PendingLoaded(t.queue, g) && PendingNotSucceeded(t.queue, Recorded(t))
    && PendingNotAwaiting(t.queue, t.awaiting)
    && PendingSuccessUnique(t.queue, t.stepMap, t.executing)
    && PendingFailureExplained(t.queue, t.stepMap, t.executing, t.failed)
  }

  /** Dispatch bookkeeping: each step is started at most once; a remaining step
      has used its one `execute` exactly when it was started; a started step had
      nothing outstanding; a step whose own work is under way is started and remaining. */
  ghost predicate Dispatched(t: BootTask, g: Graph)
  {
    && NoDuplicates(t.executing) && Elems(t.executing) <= g.Keys
    && (forall k :: k in t.stepMap ==> (t.stepMap[k].isInvalid <==> k in t.executing))
    && (forall k :: k in t.stepMap && k in t.executing ==> t.stepMap[k].stepDependencies == [])
    && (forall k :: k in t.awaiting ==> k in t.stepMap && k in t.executing)
  }

  /** The ordering guarantee: a started step had every declared dependency
      succeed; a remaining step still waits for each declared dependency that has
      not succeeded; a step's value dependencies are among its declared ones. */
  ghost predicate Ordering(t: BootTask, g: Graph)
    requires t.taskResult.Some?
  {
    && (forall k :: k in t.executing ==> k in g && AllSucceeded(Recorded(t), g[k]))
    && (forall k :: k in t.stepMap ==> k in g && StillAwaited(Recorded(t), g[k], t.stepMap[k]))
    && (forall k :: k in t.stepMap ==> k in g && ValuesDeclared(t.stepMap[k], g[k]))
  }

  ghost predicate Inv(t: BootTask, g: Graph)
  {
    && Shape(t, g) && Books(t) && Pending(t, g) && Dispatched(t, g) && Ordering(t, g)
  }

  // ---------------------------------------------------------------------------
  // Starting a batch establishes the invariant

  /** Steps as built by their constructor and `addDependency`: never executed, and
      every value dependency also declared as a step dependency. */
  predicate FreshSteps(steps: seq<BootStep>)
  {
    forall i :: 0 <= i < |steps| ==> !steps[i].isInvalid && ValuesDeclared(steps[i], steps[i].stepDependencies)
  }

  /** A task that is idle as its constructor or `taskFinished` leaves it. */
  ghost predicate Idle(t: BootTask)
  {
    !t.running && t.failed == [] && forall k :: !t.container.IsVariableExist(k)
  }

  /** The state `start` hands to the dispatch loop for a valid, non-empty load. */
  function Launched(t: BootTask, m: map<StepType, BootStep>, order: seq<StepType>): BootTask
  {
    t.(running := true, stepMap := m, order := order, executing := [], queue := [], awaiting := {},
       taskResult := Some(NewTaskResult()))
  }

  /** Starting an idle task on fresh steps that load to something and pass
      validation dispatches from a state that satisfies the invariant, so the
      started batch satisfies it too. */
  lemma StartEstablishes(t: BootTask, steps: seq<BootStep>, order: seq<StepType>)
    requires IsOrderOf(order, Load(steps)) && Idle(t) && FreshSteps(steps)
    requires Load(steps) != map[] && CheckDependencyChains(GraphOf(Load(steps)), order).Valid?
    ensures var r := Start(t, steps, order);
      r.Started? && r.report.None? && Inv(r.task, GraphOf(Load(steps)))
  {
    var m := Load(steps);
    var l := Launched(t, m, order);
    assert Start(t, steps, order) == Started(DispatchFrom(l, 0), None);
    LaunchedInv(t, steps, order);
    DispatchFromPreserves(l, GraphOf(m), 0);
  }

  lemma LaunchedInv(t: BootTask, steps: seq<BootStep>, order: seq<StepType>)
    requires IsOrderOf(order, Load(steps)) && Idle(t) && FreshSteps(steps) && Load(steps) != map[]
    ensures Inv(Launched(t, Load(steps), order), GraphOf(Load(steps)))
  {
    var m := Load(steps);
    forall k | k in m ensures !m[k].isInvalid && ValuesDeclared(m[k], m[k].stepDependencies) {
      var i :| 0 <= i < |steps| && steps[i] == m[k];
    }
    LaunchedMapInv(t, m, order);
  }

  /** The same, for any non-empty map of fresh steps. */
  lemma LaunchedMapInv(t: BootTask, m: map<StepType, BootStep>, order: seq<StepType>)
    requires IsOrderOf(order, m) && Idle(t) && m != map[]
    requires forall k :: k in m ==> !m[k].isInvalid && ValuesDeclared(m[k], m[k].stepDependencies)
    ensures Inv(Launched(t, m, order), GraphOf(m))
  {
    var g := GraphOf(m);
    var l := Launched(t, m, order);
    assert Recorded(l) == map[];
    assert |m| > 0 by {
      var k :| k in m;
    }
    assert Shape(l, g);
    forall k ensures l.container.GetVariable(k) == None {
      assert !t.container.IsVariableExist(k);
    }
    assert Books(l);
    assert Pending(l, g);
    assert Dispatched(l, g);
    LaunchedOrdering(l, m);
  }

  lemma LaunchedOrdering(l: BootTask, m: map<StepType, BootStep>)
    requires l.taskResult.Some? && Recorded(l) == map[] && l.executing == [] && l.stepMap == m
    requires forall k :: k in m ==> ValuesDeclared(m[k], m[k].stepDependencies)
    ensures Ordering(l, GraphOf(m))
  {
    var g := GraphOf(m);
    forall k | k in l.stepMap ensures k in g && StillAwaited(Recorded(l), g[k], l.stepMap[k]) {
    }
  }

  // ---------------------------------------------------------------------------
  // Starting one step preserves the invariant

  lemma StartStepPreserves(t: BootTask, g: Graph, k: StepType)
    requires Inv(t, g) && IsReady(t, k)
    ensures Inv(StartStep(t, k), g)
  {
    StartStepShapeBooks(t, g, k);
    StartStepQueueShape(t, k);
    StartStepPendingFirst(t, g, k);
    StartStepPendingSecond(t, k);
    StartStepDispatched(t, g, k);
    StartStepOrdering(t, g, k);
  }

  lemma StartStepShapeBooks(t: BootTask, g: Graph, k: StepType)
    requires Shape(t, g) && Books(t) && k in t.stepMap
    ensures Shape(StartStep(t, k), g) && Books(StartStep(t, k))
  {
    var r := StartStep(t, k);
    assert r.stepMap.Keys == t.stepMap.Keys && r.taskResult == t.taskResult;
    assert r.failed == t.failed && r.container == t.container;
  }

  /** What starting a ready step does to the queue: the old events stay, none
      of them is for `k`, and at most a failure for `k` is added. */
  lemma StartStepQueueShape(t: BootTask, k: StepType)
    requires PendingFailureExplained(t.queue, t.stepMap, t.executing, t.failed) && IsReady(t, k)
    ensures var q := StartStep(t, k).queue; var n := |t.queue|;
      && (forall i :: 0 <= i < n ==> q[i] == t.queue[i] && t.queue[i].stepType != k)
      && (|q| == n || (|q| == n + 1 && q[n].stepType == k && !q[n].result.IsSuccessful()))
  {
    assert !DependsOnFailed(t.failed, t.stepMap[k]);
  }

  lemma StartStepPendingFirst(t: BootTask, g: Graph, k: StepType)
    requires Shape(t, g) && PendingLoaded(t.queue, g) && PendingNotSucceeded(t.queue, Recorded(t))
    requires PendingNotAwaiting(t.queue, t.awaiting) && IsReady(t, k) && k !in t.awaiting
    requires var q := StartStep(t, k).queue; var n := |t.queue|;
      && (forall i :: 0 <= i < n ==> q[i] == t.queue[i] && t.queue[i].stepType != k)
      && (|q| == n || (|q| == n + 1 && q[n].stepType == k && !q[n].result.IsSuccessful()))
    ensures var r := StartStep(t, k);
      PendingLoaded(r.queue, g) && PendingNotSucceeded(r.queue, Recorded(r)) && PendingNotAwaiting(r.queue, r.awaiting)
  {
    var r := StartStep(t, k);
    assert Recorded(r) == Recorded(t);
    assert k !in Recorded(t);
    assert r.awaiting <= t.awaiting + {k};
    assert |r.queue| != |t.queue| ==> k !in r.awaiting;
    QueueGrowsByOne(t.queue, r.queue, k, g, Recorded(t), t.awaiting, r.awaiting);
  }

  /** Appending at most one event, for a loaded type with no recorded success
      whose own work is not under way, keeps the first three pending facts. */
  lemma QueueGrowsByOne(q0: seq<Event>, q: seq<Event>, k: StepType, g: Graph,
                        rec: map<StepType, Result>, aw0: set<StepType>, aw: set<StepType>)
    requires PendingLoaded(q0, g) && PendingNotSucceeded(q0, rec) && PendingNotAwaiting(q0, aw0)
    requires |q0| <= |q| && forall i :: 0 <= i < |q0| ==> q[i] == q0[i] && q0[i].stepType != k
    requires |q| == |q0| || (|q| == |q0| + 1 && q[|q0|].stepType == k)
    requires k in g && !SucceededIn(rec, k) && aw <= aw0 + {k} && (|q| != |q0| ==> k !in aw)
    ensures PendingLoaded(q, g) && PendingNotSucceeded(q, rec) && PendingNotAwaiting(q, aw)
  {
    forall i | 0 <= i < |q| ensures q[i].stepType in g && !SucceededIn(rec, q[i].stepType) && q[i].stepType !in aw {
      if i < |q0| {
        assert q[i] == q0[i];
      }
    }
  }

  lemma StartStepPendingSecond(t: BootTask, k: StepType)
    requires PendingSuccessUnique(t.queue, t.stepMap, t.executing)
    requires PendingFailureExplained(t.queue, t.stepMap, t.executing, t.failed) && IsReady(t, k)
    requires var q := StartStep(t, k).queue; var n := |t.queue|;
      && (forall i :: 0 <= i < n ==> q[i] == t.queue[i] && t.queue[i].stepType != k)
      && (|q| == n || (|q| == n + 1 && q[n].stepType == k && !q[n].result.IsSuccessful()))
    ensures var r := StartStep(t, k);
      && PendingSuccessUnique(r.queue, r.stepMap, r.executing)
      && PendingFailureExplained(r.queue, r.stepMap, r.executing, r.failed)
  {
    var r := StartStep(t, k);
    var q := r.queue;
    var n := |t.queue|;
    forall i | 0 <= i < |q| && q[i].result.IsSuccessful()
      ensures q[i].stepType in r.stepMap && q[i].stepType in r.executing && OnlyEventFor(q, i)
    {
      assert i < n && OnlyEventFor(t.queue, i);
      forall j | 0 <= j < |q| && j != i ensures q[j].stepType != q[i].stepType {
        if j < n {
          assert t.queue[j].stepType != t.queue[i].stepType;
        }
      }
    }
    forall i | 0 <= i < |q| && q[i].stepType in r.stepMap && q[i].stepType !in r.executing
      ensures DependsOnFailed(r.failed, r.stepMap[q[i].stepType])
    {
      var u := q[i].stepType;
      assert i < n && u != k;
      assert DependsOnFailed(t.failed, t.stepMap[u]);
      assert r.stepMap[u] == t.stepMap[u];
    }
  }

  lemma StartStepDispatched(t: BootTask, g: Graph, k: StepType)
    requires Shape(t, g) && Dispatched(t, g) && IsReady(t, k)
    ensures Dispatched(StartStep(t, k), g)
  {
    var r := StartStep(t, k);
    assert !t.stepMap[k].isInvalid;
    assert NoDuplicates(r.executing) by {
      forall a, b | 0 <= a < b < |r.executing| ensures r.executing[a] != r.executing[b] {
        if b == |t.executing| { assert r.executing[a] == t.executing[a]; }
        else { assert r.executing[a] == t.executing[a] && r.executing[b] == t.executing[b]; }
      }
    }
  }

  lemma StartStepOrdering(t: BootTask, g: Graph, k: StepType)
    requires t.taskResult.Some? && Ordering(t, g) && IsReady(t, k)
    ensures Ordering(StartStep(t, k), g)
  {
    var r := StartStep(t, k);
    var rec := Recorded(t);
    assert Recorded(r) == rec;
    assert AllSucceeded(rec, g[k]) by {
      assert StillAwaited(rec, g[k], t.stepMap[k]);
      assert t.stepMap[k].stepDependencies == [];
    }
    forall u | u in r.stepMap ensures StillAwaited(rec, g[u], r.stepMap[u]) && ValuesDeclared(r.stepMap[u], g[u]) {
      assert StillAwaited(rec, g[u], t.stepMap[u]) && ValuesDeclared(t.stepMap[u], g[u]);
      assert r.stepMap[u].stepDependencies == t.stepMap[u].stepDependencies;
      assert r.stepMap[u].variableDependencies == t.stepMap[u].variableDependencies;
    }
  }

  lemma {:induction false} DispatchFromPreserves(t: BootTask, g: Graph, i: nat)
    requires Inv(t, g) && i <= |t.order|
    ensures Inv(DispatchFrom(t, i), g)
    decreases |t.order| - i, 1
  {
    if i == |t.order| {
      DispatchFromUnfolds(t, i);
    } else {
      DispatchRestPreserves(t, g, i);
    }
  }

  /** The loop from a position before the end: one turn, then the rest. */
  lemma {:induction false} DispatchRestPreserves(t: BootTask, g: Graph, i: nat)
    requires Inv(t, g) && i < |t.order|
    ensures Inv(DispatchFrom(t, i), g)
    decreases |t.order| - i, 0
  {
    var t' := DispatchTurnPreserves(t, g, i);
    DispatchFromPreserves(t', g, i + 1);
  }

  /** One turn of the dispatch loop keeps the invariant; `t'` is the state the
      rest of the loop continues from. */
  lemma DispatchTurnPreserves(t: BootTask, g: Graph, i: nat) returns (t': BootTask)
    requires Inv(t, g) && i < |t.order|
    ensures Inv(t', g) && t'.order == t.order && DispatchFrom(t, i) == DispatchFrom(t', i + 1)
  {
    DispatchFromUnfolds(t, i);
    if IsReady(t, t.order[i]) {
      StartStepPreserves(t, g, t.order[i]);
      t' := StartStep(t, t.order[i]);
    } else {
      t' := t;
    }
  }

  /** One turn of the dispatch loop. */
  lemma DispatchFromUnfolds(t: BootTask, i: nat)
    requires i <= |t.order| && NoDuplicates(t.order)
    ensures i == |t.order| ==> DispatchFrom(t, i) == t
    ensures i < |t.order| && IsReady(t, t.order[i]) ==>
      && StartStep(t, t.order[i]).order == t.order
      && DispatchFrom(t, i) == DispatchFrom(StartStep(t, t.order[i]), i + 1)
    ensures i < |t.order| && !IsReady(t, t.order[i]) ==> DispatchFrom(t, i) == DispatchFrom(t, i + 1)
  {
  }

  /** A ready step sees, at the moment it is started, every declared dependency
      recorded as a success and the value each produced (null when it produced
      none) in the container; so its value check fails exactly when some value
      dependency produced null, and it never meets the "already executed" guard. */
  lemma ReadyStepSeesDependencyValues(t: BootTask, g: Graph, k: StepType)
    requires Inv(t, g) && IsReady(t, k)
    ensures forall d :: d in g[k] ==> Succeeded(t, d) && t.container.GetVariable(d) == Recorded(t)[d].GetValue()
    ensures t.stepMap[k].Execute(t.container).ReachedImpl()
        <==> forall d :: d in t.stepMap[k].variableDependencies ==> Recorded(t)[d].GetValue().Some?
    ensures t.stepMap[k].Execute(t.container).report != Some(Failure(Some(AlreadyExecutedMessage)))
  {
    var rec := Recorded(t);
    assert StillAwaited(rec, g[k], t.stepMap[k]) && ValuesDeclared(t.stepMap[k], g[k]);
    assert t.stepMap[k].stepDependencies == [];
    ExecuteReachesImplIff(t.stepMap[k], t.container);
  }

  // ---------------------------------------------------------------------------
  // The steps' own work calling back preserves the invariant

  lemma OnStepFinishedPreserves(t: BootTask, g: Graph, k: StepType, res: Result)
    requires Inv(t, g) && k in t.awaiting
    ensures Inv(OnStepFinished(t, k, res), g)
  {
    var r := OnStepFinished(t, k, res);
    assert Recorded(r) == Recorded(t);
    assert Shape(r, g) && Books(r) && Dispatched(r, g) && Ordering(r, g);
    OnStepFinishedPending(t, g, k, res);
  }

  lemma OnStepFinishedPending(t: BootTask, g: Graph, k: StepType, res: Result)
    requires Shape(t, g) && Pending(t, g) && Dispatched(t, g) && k in t.awaiting
    ensures Pending(OnStepFinished(t, k, res), g)
  {
    assert k in t.stepMap && k in t.executing && k !in Recorded(t);
    OnStepFinishedPendingFirst(t, g, k, res);
    OnStepFinishedPendingSecond(t, k, res);
  }

  lemma OnStepFinishedPendingFirst(t: BootTask, g: Graph, k: StepType, res: Result)
    requires t.taskResult.Some? && PendingLoaded(t.queue, g) && PendingNotSucceeded(t.queue, Recorded(t))
    requires PendingNotAwaiting(t.queue, t.awaiting) && k in t.awaiting && k in g && k !in Recorded(t)
    ensures var r := OnStepFinished(t, k, res);
      PendingLoaded(r.queue, g) && PendingNotSucceeded(r.queue, Recorded(r)) && PendingNotAwaiting(r.queue, r.awaiting)
  {
    var r := OnStepFinished(t, k, res);
    assert Recorded(r) == Recorded(t);
    assert forall i :: 0 <= i < |t.queue| ==> r.queue[i] == t.queue[i];
  }

  lemma OnStepFinishedPendingSecond(t: BootTask, k: StepType, res: Result)
    requires PendingSuccessUnique(t.queue, t.stepMap, t.executing)
    requires PendingFailureExplained(t.queue, t.stepMap, t.executing, t.failed)
    requires PendingNotAwaiting(t.queue, t.awaiting) && k in t.awaiting && k in t.stepMap && k in t.executing
    ensures var r := OnStepFinished(t, k, res);
      && PendingSuccessUnique(r.queue, r.stepMap, r.executing)
      && PendingFailureExplained(r.queue, r.stepMap, r.executing, r.failed)
  {
    var r := OnStepFinished(t, k, res);
    var q := r.queue;
    var n := |t.queue|;
    assert forall i :: 0 <= i < n ==> q[i] == t.queue[i] && t.queue[i].stepType != k;
    assert q[n] == Event(k, res);
    forall i | 0 <= i < |q| && q[i].result.IsSuccessful() ensures OnlyEventFor(q, i) {
      if i < n {
        assert OnlyEventFor(t.queue, i);
      }
      forall j | 0 <= j < |q| && j != i ensures q[j].stepType != q[i].stepType {
        if i < n && j < n {
          assert t.queue[j].stepType != t.queue[i].stepType;
        }
      }
    }
  }

  // ---------------------------------------------------------------------------
  // Handling a completion preserves the invariant (or finishes the batch)

  /** The state after the head event was recorded and its step removed, before
      the cascade: what both kinds of completion start from. */
  function Recording(t: BootTask): (r: BootTask)
    requires t.taskResult.Some? && |t.queue| > 0
  {
    var e := t.queue[0];
    var tr := t.taskResult.value.SetStepResult(e.stepType, e.result);
    var t1 := t.(queue := t.queue[1..], taskResult := Some(tr));
    var t2 := if e.result.IsSuccessful() then t1.(container := t1.container.PutVariable(e.stepType, e.result.GetValue()))
              else t1.(failed := t1.failed + [e.stepType]);
    if e.stepType in t2.stepMap then t2.(stepMap := t2.stepMap - {e.stepType}) else t2
  }

  lemma RunNextIsRecordingThenCascade(t: BootTask)
    requires t.taskResult.Some? && NoDuplicates(t.order) && |t.queue| > 0 && t.stepMap != map[]
    ensures var e := t.queue[0]; var x := Recording(t);
      RunNext(t) ==
        if e.stepType in t.stepMap && x.stepMap == map[] then TaskFinished(x)
        else Outcome(DispatchFrom(Cascade(x, e.stepType, e.result), 0), None)
  {
    var e := t.queue[0];
    var rest := t.(queue := t.queue[1..]);
    var tr := t.taskResult.value.SetStepResult(e.stepType, e.result);
    assert RunNext(t) == HandleStepResult(rest.(taskResult := Some(tr)), e.stepType, e.result);
  }

  /** What the invariant says about the event at the head of the queue. */
  lemma HeadEventFacts(t: BootTask, g: Graph)
    requires Inv(t, g) && |t.queue| > 0
    ensures var e := t.queue[0];
      && e.stepType in g && !Succeeded(t, e.stepType) && e.stepType !in t.awaiting
      && (e.result.IsSuccessful() ==>
            && e.stepType in t.stepMap && e.stepType in t.executing && e.stepType !in Recorded(t)
            && forall j :: 1 <= j < |t.queue| ==> t.queue[j].stepType != e.stepType)
  {
    var e := t.queue[0];
    if e.result.IsSuccessful() {
      assert OnlyEventFor(t.queue, 0);
    }
  }

  /** The fields of the state the cascade leaves after a success of the head event. */
  lemma SuccessFields(t: BootTask)
    requires t.taskResult.Some? && |t.queue| > 0 && t.queue[0].result.IsSuccessful()
    requires t.queue[0].stepType in t.stepMap
    ensures var e := t.queue[0]; var k := e.stepType; var r := Cascade(Recording(t), k, e.result);
      && r.taskResult.Some? && Recorded(r) == Recorded(t)[k := e.result]
      && r.queue == t.queue[1..] && r.failed == t.failed && r.executing == t.executing
      && r.awaiting == t.awaiting && r.order == t.order && r.running == t.running
      && r.container == t.container.PutVariable(k, e.result.GetValue())
      && r.stepMap.Keys == t.stepMap.Keys - {k}
      && forall u :: u in r.stepMap ==> r.stepMap[u] == t.stepMap[u].StepFinished(k)
  {
  }

  /** The fields of the state the cascade leaves after a failure of the head event. */
  lemma FailureFields(t: BootTask)
    requires t.taskResult.Some? && |t.queue| > 0 && !t.queue[0].result.IsSuccessful()
    ensures var e := t.queue[0]; var k := e.stepType; var r := Cascade(Recording(t), k, e.result);
      && r.taskResult.Some? && Recorded(r) == Recorded(t)[k := e.result]
      && r.queue == t.queue[1..] + SynthesizedFailures(t.order, t.stepMap - {k}, k)
      && r.failed == t.failed + [k] && r.executing == t.executing
      && r.awaiting == t.awaiting && r.order == t.order && r.running == t.running
      && r.container == t.container
      && r.stepMap == t.stepMap - {k}
  {
    var k := t.queue[0].stepType;
    var x := Recording(t);
    assert x.stepMap == t.stepMap - {k};
  }

  /** Recording a success and the cascade that follows keep the invariant. */
  lemma CascadeSuccessPreserves(t: BootTask, g: Graph)
    requires Inv(t, g) && |t.queue| > 0 && t.queue[0].result.IsSuccessful()
    requires Recording(t).stepMap != map[]
    ensures Inv(Cascade(Recording(t), t.queue[0].stepType, t.queue[0].result), g)
  {
    HeadEventFacts(t, g);
    SuccessFields(t);
    SuccessShapeBooks(t, g);
    SuccessPending(t, g);
    SuccessDispatched(t, g);
    SuccessOrdering(t, g);
  }

  lemma SuccessShapeBooks(t: BootTask, g: Graph)
    requires Shape(t, g) && Books(t) && |t.queue| > 0 && t.queue[0].result.IsSuccessful()
    requires t.queue[0].stepType in t.stepMap && Recording(t).stepMap != map[]
    ensures var r := Cascade(Recording(t), t.queue[0].stepType, t.queue[0].result); Shape(r, g) && Books(r)
  {
    SuccessShape(t, g);
    SuccessBooks(t);
  }

  lemma SuccessShape(t: BootTask, g: Graph)
    requires Shape(t, g) && |t.queue| > 0 && t.queue[0].result.IsSuccessful()
    requires t.queue[0].stepType in t.stepMap && Recording(t).stepMap != map[]
    ensures Shape(Cascade(Recording(t), t.queue[0].stepType, t.queue[0].result), g)
  {
    var k := t.queue[0].stepType;
    var r := Cascade(Recording(t), k, t.queue[0].result);
    var x := Recording(t);
    assert x.taskResult == Some(t.taskResult.value.SetStepResult(k, t.queue[0].result));
    assert x.stepMap == t.stepMap - {k};
    assert r.stepMap.Keys == x.stepMap.Keys && r.taskResult == x.taskResult;
    assert Recorded(r).Keys == Recorded(t).Keys + {k};
  }

  lemma SuccessBooks(t: BootTask)
    requires t.taskResult.Some? && Books(t) && |t.queue| > 0 && t.queue[0].result.IsSuccessful()
    requires t.queue[0].stepType in t.stepMap && Recorded(t).Keys !! t.stepMap.Keys
    ensures var r := Cascade(Recording(t), t.queue[0].stepType, t.queue[0].result);
      r.taskResult.Some? && Books(r)
  {
    var e := t.queue[0];
    SuccessFields(t);
    BooksAfterSuccess(t.failed, t.container, Recorded(t), e.stepType, e.result);
  }

  /** Recording a success for a type with no earlier record keeps the books. */
  lemma BooksAfterSuccess(failed: seq<StepType>, c: VariableContainer, rec: map<StepType, Result>,
                          k: StepType, res: Result)
    requires forall u :: u in failed <==> u in rec && !rec[u].IsSuccessful()
    requires forall u :: c.GetVariable(u) == if SucceededIn(rec, u) then rec[u].GetValue() else None
    requires res.IsSuccessful() && k !in rec
    ensures var rec' := rec[k := res];
      && (forall u :: u in failed <==> u in rec' && !rec'[u].IsSuccessful())
      && (forall u :: c.PutVariable(k, res.GetValue()).GetVariable(u)
                       == if SucceededIn(rec', u) then rec'[u].GetValue() else None)
  {
    var rec' := rec[k := res];
    var c' := c.PutVariable(k, res.GetValue());
    forall u ensures u in failed <==> u in rec' && !rec'[u].IsSuccessful() {
      if u != k {
        assert u in rec' <==> u in rec;
      }
    }
    forall u ensures c'.GetVariable(u) == if SucceededIn(rec', u) then rec'[u].GetValue() else None {
      if u != k {
        assert c'.GetVariable(u) == c.GetVariable(u);
        assert SucceededIn(rec', u) == SucceededIn(rec, u);
      } else {
        GetAfterPut(c, k, res.GetValue());
      }
    }
  }

  lemma SuccessPending(t: BootTask, g: Graph)
    requires t.taskResult.Some? && Pending(t, g) && |t.queue| > 0 && t.queue[0].result.IsSuccessful()
    requires var k := t.queue[0].stepType;
      && k in t.stepMap && k in t.executing && k !in Recorded(t) && k !in t.failed
      && forall j :: 1 <= j < |t.queue| ==> t.queue[j].stepType != k
    ensures Pending(Cascade(Recording(t), t.queue[0].stepType, t.queue[0].result), g)
  {
    var e := t.queue[0];
    var k := e.stepType;
    var r := Cascade(Recording(t), k, e.result);
    SuccessFields(t);
    var q := r.queue;
    var rec := Recorded(r);
    assert forall i :: 0 <= i < |q| ==> q[i] == t.queue[i + 1];
    forall i | 0 <= i < |q| ensures !SucceededIn(rec, q[i].stepType) {
      assert q[i].stepType != k;
      assert !SucceededIn(Recorded(t), t.queue[i + 1].stepType);
    }
    forall i | 0 <= i < |q| && q[i].result.IsSuccessful()
      ensures q[i].stepType in r.stepMap && q[i].stepType in r.executing && OnlyEventFor(q, i)
    {
      assert OnlyEventFor(t.queue, i + 1);
      assert q[i].stepType != k;
      forall j | 0 <= j < |q| && j != i ensures q[j].stepType != q[i].stepType {
        assert t.queue[j + 1].stepType != t.queue[i + 1].stepType;
      }
    }
    forall i | 0 <= i < |q| && q[i].stepType in r.stepMap && q[i].stepType !in r.executing
      ensures DependsOnFailed(r.failed, r.stepMap[q[i].stepType])
    {
      var u := q[i].stepType;
      assert t.queue[i + 1].stepType == u;
      assert DependsOnFailed(t.failed, t.stepMap[u]);
      var f :| f in t.failed && f in t.stepMap[u].stepDependencies;
      assert f != k;
      assert multiset(r.stepMap[u].stepDependencies) == multiset(t.stepMap[u].stepDependencies) - multiset{k};
      assert f in multiset(t.stepMap[u].stepDependencies);
      assert f in r.stepMap[u].stepDependencies;
    }
  }

  lemma SuccessDispatched(t: BootTask, g: Graph)
    requires t.taskResult.Some? && Dispatched(t, g) && |t.queue| > 0 && t.queue[0].result.IsSuccessful()
    requires var k := t.queue[0].stepType; k in t.stepMap && k !in t.awaiting
    ensures Dispatched(Cascade(Recording(t), t.queue[0].stepType, t.queue[0].result), g)
  {
    var e := t.queue[0];
    var k := e.stepType;
    var r := Cascade(Recording(t), k, e.result);
    SuccessFields(t);
    forall u | u in r.stepMap
      ensures (r.stepMap[u].isInvalid <==> u in r.executing)
      ensures u in r.executing ==> r.stepMap[u].stepDependencies == []
    {
      assert r.stepMap[u] == t.stepMap[u].StepFinished(k);
      if u in r.executing {
        assert t.stepMap[u].stepDependencies == [];
      }
    }
  }

  lemma SuccessOrdering(t: BootTask, g: Graph)
    requires t.taskResult.Some? && Ordering(t, g) && |t.queue| > 0 && t.queue[0].result.IsSuccessful()
    requires t.queue[0].stepType in t.stepMap
    ensures Ordering(Cascade(Recording(t), t.queue[0].stepType, t.queue[0].result), g)
  {
    var e := t.queue[0];
    var k := e.stepType;
    var r := Cascade(Recording(t), k, e.result);
    SuccessFields(t);
    var rec := Recorded(r);
    assert forall d :: SucceededIn(Recorded(t), d) ==> SucceededIn(rec, d);
    assert SucceededIn(rec, k);
    forall u | u in r.executing ensures u in g && AllSucceeded(rec, g[u]) {
      assert AllSucceeded(Recorded(t), g[u]);
    }
    forall u | u in r.stepMap ensures u in g && StillAwaited(rec, g[u], r.stepMap[u]) && ValuesDeclared(r.stepMap[u], g[u]) {
      var s := t.stepMap[u];
      assert StillAwaited(Recorded(t), g[u], s) && ValuesDeclared(s, g[u]);
      assert r.stepMap[u] == s.StepFinished(k);
      forall d | d in g[u] ensures d in r.stepMap[u].stepDependencies || SucceededIn(rec, d) {
        if d != k && d in s.stepDependencies {
          assert multiset(r.stepMap[u].stepDependencies)[d] == multiset(s.stepDependencies)[d];
        }
      }
    }
  }

  /** Recording a failure and the cascade that follows keep the invariant; the
      cascade's new events are failures for remaining steps that still wait for
      the failed one. */
  lemma CascadeFailurePreserves(t: BootTask, g: Graph)
    requires Inv(t, g) && |t.queue| > 0 && !t.queue[0].result.IsSuccessful()
    requires Recording(t).stepMap != map[]
    ensures Inv(Cascade(Recording(t), t.queue[0].stepType, t.queue[0].result), g)
  {
    HeadEventFacts(t, g);
    FailureFields(t);
    FailureShapeBooks(t, g);
    FailureNewEvents(t, g);
    FailurePendingFirst(t, g);
    FailurePendingSecond(t, g);
    FailureDispatched(t, g);
    FailureOrdering(t, g);
  }

  lemma FailureShapeBooks(t: BootTask, g: Graph)
    requires Shape(t, g) && Books(t) && |t.queue| > 0 && !t.queue[0].result.IsSuccessful()
    requires t.queue[0].stepType in g && !Succeeded(t, t.queue[0].stepType) && Recording(t).stepMap != map[]
    ensures var r := Cascade(Recording(t), t.queue[0].stepType, t.queue[0].result); Shape(r, g) && Books(r)
  {
    FailureFields(t);
    FailureShape(t, g);
    FailureBooks(t);
  }

  lemma FailureShape(t: BootTask, g: Graph)
    requires Shape(t, g) && |t.queue| > 0 && !t.queue[0].result.IsSuccessful()
    requires t.queue[0].stepType in g && Recording(t).stepMap != map[]
    ensures Shape(Cascade(Recording(t), t.queue[0].stepType, t.queue[0].result), g)
  {
    var k := t.queue[0].stepType;
    var r := Cascade(Recording(t), k, t.queue[0].result);
    FailureFields(t);
    assert Recorded(r).Keys == Recorded(t).Keys + {k};
  }

  lemma FailureBooks(t: BootTask)
    requires t.taskResult.Some? && Books(t) && |t.queue| > 0 && !t.queue[0].result.IsSuccessful()
    requires !Succeeded(t, t.queue[0].stepType)
    ensures Books(Cascade(Recording(t), t.queue[0].stepType, t.queue[0].result))
  {
    var e := t.queue[0];
    var k := e.stepType;
    var r := Cascade(Recording(t), k, e.result);
    FailureFields(t);
    var rec := Recorded(r);
    forall u ensures u in r.failed <==> u in rec && !rec[u].IsSuccessful() {
      if u != k {
        assert u in rec <==> u in Recorded(t);
      }
    }
    forall u ensures r.container.GetVariable(u) == if SucceededIn(rec, u) then rec[u].GetValue() else None {
      if u != k {
        assert SucceededIn(rec, u) == SucceededIn(Recorded(t), u);
      }
    }
  }

  /** The synthesized failures are for remaining steps not yet started, none of
      them awaiting or recorded. */
  lemma FailureNewEvents(t: BootTask, g: Graph)
    requires Shape(t, g) && Dispatched(t, g) && |t.queue| > 0
    ensures var k := t.queue[0].stepType; var added := SynthesizedFailures(t.order, t.stepMap - {k}, k);
      forall j :: 0 <= j < |added| ==>
        && !added[j].result.IsSuccessful() && added[j].stepType in g && added[j].stepType != k
        && added[j].stepType in t.stepMap && added[j].stepType !in t.executing
        && added[j].stepType !in t.awaiting && added[j].stepType !in Recorded(t)
        && k in t.stepMap[added[j].stepType].stepDependencies
  {
    var k := t.queue[0].stepType;
    var m := t.stepMap - {k};
    var added := SynthesizedFailures(t.order, m, k);
    forall j | 0 <= j < |added|
      ensures added[j].stepType !in t.executing && added[j].stepType !in t.awaiting
    {
      var u := added[j].stepType;
      assert u in m && m[u].ContainDependency(k);
      assert t.stepMap[u].stepDependencies != [];
    }
  }

  lemma FailurePendingFirst(t: BootTask, g: Graph)
    requires t.taskResult.Some? && |t.queue| > 0 && !t.queue[0].result.IsSuccessful()
    requires PendingLoaded(t.queue, g) && PendingNotSucceeded(t.queue, Recorded(t)) && PendingNotAwaiting(t.queue, t.awaiting)
    requires var k := t.queue[0].stepType; var added := SynthesizedFailures(t.order, t.stepMap - {k}, k);
      forall j :: 0 <= j < |added| ==>
        && added[j].stepType in g && added[j].stepType !in t.awaiting && added[j].stepType !in Recorded(t)
    ensures var r := Cascade(Recording(t), t.queue[0].stepType, t.queue[0].result);
      PendingLoaded(r.queue, g) && PendingNotSucceeded(r.queue, Recorded(r)) && PendingNotAwaiting(r.queue, r.awaiting)
  {
    var e := t.queue[0];
    var k := e.stepType;
    FailureFields(t);
    QueueAfterFailure(t.queue, SynthesizedFailures(t.order, t.stepMap - {k}, k), g, Recorded(t), e.result, t.awaiting);
  }

  /** Dropping the head event, recording it as a failure and appending events for
      loaded types with no record whose work is not under way keeps the first
      three pending facts. */
  lemma QueueAfterFailure(q0: seq<Event>, added: seq<Event>, g: Graph, rec: map<StepType, Result>,
                          res: Result, aw: set<StepType>)
    requires |q0| > 0 && PendingLoaded(q0, g) && PendingNotSucceeded(q0, rec) && PendingNotAwaiting(q0, aw)
    requires !res.IsSuccessful()
    requires forall j :: 0 <= j < |added| ==> added[j].stepType in g && added[j].stepType !in aw && added[j].stepType !in rec
    ensures var q := q0[1..] + added; var rec' := rec[q0[0].stepType := res];
      PendingLoaded(q, g) && PendingNotSucceeded(q, rec') && PendingNotAwaiting(q, aw)
  {
    var q := q0[1..] + added;
    var k := q0[0].stepType;
    var rec' := rec[k := res];
    forall i | 0 <= i < |q| ensures q[i].stepType in g && !SucceededIn(rec', q[i].stepType) && q[i].stepType !in aw {
      var u := q[i].stepType;
      if i < |q0| - 1 {
        assert q[i] == q0[i + 1];
      } else {
        assert q[i] == added[i - (|q0| - 1)];
      }
      if u != k {
        assert SucceededIn(rec', u) == SucceededIn(rec, u);
      }
    }
  }

  lemma FailurePendingSecond(t: BootTask, g: Graph)
    requires t.taskResult.Some? && |t.queue| > 0 && !t.queue[0].result.IsSuccessful()
    requires PendingSuccessUnique(t.queue, t.stepMap, t.executing)
    requires PendingFailureExplained(t.queue, t.stepMap, t.executing, t.failed)
    requires var k := t.queue[0].stepType; var added := SynthesizedFailures(t.order, t.stepMap - {k}, k);
      forall j :: 0 <= j < |added| ==>
        && !added[j].result.IsSuccessful() && added[j].stepType in t.stepMap
        && added[j].stepType !in t.executing && k in t.stepMap[added[j].stepType].stepDependencies
    ensures var r := Cascade(Recording(t), t.queue[0].stepType, t.queue[0].result);
      && PendingSuccessUnique(r.queue, r.stepMap, r.executing)
      && PendingFailureExplained(r.queue, r.stepMap, r.executing, r.failed)
  {
    var k := t.queue[0].stepType;
    var added := SynthesizedFailures(t.order, t.stepMap - {k}, k);
    FailureFields(t);
    FailureKeepsSuccessUnique(t.queue, added, t.stepMap, t.executing);
    FailureKeepsExplained(t.queue, added, t.stepMap, t.executing, t.failed);
  }

  /** After the head failure is taken off and failures for not-started steps are
      appended, each posted success is still the only event for its type. */
  lemma FailureKeepsSuccessUnique(q0: seq<Event>, added: seq<Event>, m: map<StepType, BootStep>, ex: seq<StepType>)
    requires |q0| > 0 && PendingSuccessUnique(q0, m, ex)
    requires forall j :: 0 <= j < |added| ==> !added[j].result.IsSuccessful() && added[j].stepType !in ex
    ensures PendingSuccessUnique(q0[1..] + added, m - {q0[0].stepType}, ex)
  {
    var q := q0[1..] + added;
    var n := |q0| - 1;
    assert forall i :: 0 <= i < n ==> q[i] == q0[i + 1];
    assert forall i :: n <= i < |q| ==> q[i] == added[i - n];
    forall i | 0 <= i < |q| && q[i].result.IsSuccessful()
      ensures q[i].stepType in m - {q0[0].stepType} && q[i].stepType in ex && OnlyEventFor(q, i)
    {
      assert i < n;
      assert OnlyEventFor(q0, i + 1);
      assert q0[0].stepType != q0[i + 1].stepType;
      forall j | 0 <= j < |q| && j != i ensures q[j].stepType != q[i].stepType {
        if j < n {
          assert q0[j + 1].stepType != q0[i + 1].stepType;
        } else {
          assert added[j - n].stepType !in ex;
        }
      }
    }
  }

  /** After the head failure is recorded and failures are appended for steps
      waiting on it, every event for a remaining, not-started step is still
      explained by a failed outstanding dependency. */
  lemma FailureKeepsExplained(q0: seq<Event>, added: seq<Event>, m: map<StepType, BootStep>,
                              ex: seq<StepType>, failed: seq<StepType>)
    requires |q0| > 0 && PendingFailureExplained(q0, m, ex, failed)
    requires forall j :: 0 <= j < |added| ==> added[j].stepType in m && q0[0].stepType in m[added[j].stepType].stepDependencies
    ensures PendingFailureExplained(q0[1..] + added, m - {q0[0].stepType}, ex, failed + [q0[0].stepType])
  {
    var k := q0[0].stepType;
    var q := q0[1..] + added;
    var m' := m - {k};
    var n := |q0| - 1;
    forall i | 0 <= i < |q| && q[i].stepType in m' && q[i].stepType !in ex
      ensures DependsOnFailed(failed + [k], m'[q[i].stepType])
    {
      var u := q[i].stepType;
      if i < n {
        assert q[i] == q0[i + 1];
        assert DependsOnFailed(failed, m[u]);
        var f :| f in failed && f in m[u].stepDependencies;
        assert f in failed + [k];
      } else {
        assert q[i] == added[i - n];
        assert k in failed + [k] && k in m'[u].stepDependencies;
      }
    }
  }

  lemma FailureDispatched(t: BootTask, g: Graph)
    requires t.taskResult.Some? && Dispatched(t, g) && |t.queue| > 0 && !t.queue[0].result.IsSuccessful()
    requires t.queue[0].stepType !in t.awaiting
    ensures Dispatched(Cascade(Recording(t), t.queue[0].stepType, t.queue[0].result), g)
  {
    FailureFields(t);
  }

  lemma FailureOrdering(t: BootTask, g: Graph)
    requires t.taskResult.Some? && Ordering(t, g) && |t.queue| > 0 && !t.queue[0].result.IsSuccessful()
    requires !Succeeded(t, t.queue[0].stepType)
    ensures Ordering(Cascade(Recording(t), t.queue[0].stepType, t.queue[0].result), g)
  {
    var e := t.queue[0];
    var k := e.stepType;
    var r := Cascade(Recording(t), k, e.result);
    FailureFields(t);
    var rec := Recorded(r);
    assert forall d :: SucceededIn(Recorded(t), d) ==> SucceededIn(rec, d) by {
      forall d | SucceededIn(Recorded(t), d) ensures SucceededIn(rec, d) {
        assert d != k;
      }
    }
    forall u | u in r.executing ensures u in g && AllSucceeded(rec, g[u]) {
      assert AllSucceeded(Recorded(t), g[u]);
    }
    forall u | u in r.stepMap ensures u in g && StillAwaited(rec, g[u], r.stepMap[u]) && ValuesDeclared(r.stepMap[u], g[u]) {
      assert StillAwaited(Recorded(t), g[u], t.stepMap[u]) && ValuesDeclared(t.stepMap[u], g[u]);
    }
  }

  /** While a batch is in progress no started step has a failed dependency: a
      step one of whose declared dependencies failed is never dispatched. */
  lemma FailedDependencyNeverDispatched(t: BootTask, g: Graph, k: StepType, d: StepType)
    requires Inv(t, g) && k in t.executing && d in g[k]
    ensures d !in t.failed && Succeeded(t, d)
  {
    assert AllSucceeded(Recorded(t), g[k]);
  }

  /** Handling the next completion of a batch in progress either keeps the
      invariant, or finishes the batch with a report in which every loaded step
      has a result and which is successful exactly when no recorded result is a
      failure. */
  lemma RunNextPreserves(t: BootTask, g: Graph)
    requires Inv(t, g) && |t.queue| > 0
    ensures var r := RunNext(t);
      && (r.report.None? ==> Inv(r.task, g))
      && (r.report.Some? ==>
            && r.report.value.stepResults.Keys == g.Keys
            && (r.report.value.IsSuccessful() <==> r.report.value.GetFailedSteps() == {})
            && !r.report.value.IsDependenciesError()
            && !r.task.running && r.task.taskResult.None? && r.task.awaiting == {}
            && r.task.failed == [] && r.task.executing == []
            && forall u :: !r.task.container.IsVariableExist(u))
  {
    var e := t.queue[0];
    var x := Recording(t);
    RunNextIsRecordingThenCascade(t);
    HeadEventFacts(t, g);
    if e.stepType in t.stepMap && x.stepMap == map[] {
      FinishReport(t, g);
    } else {
      assert x.stepMap != map[];
      if e.result.IsSuccessful() {
        CascadeSuccessPreserves(t, g);
      } else {
        CascadeFailurePreserves(t, g);
      }
      DispatchFromPreserves(Cascade(x, e.stepType, e.result), g, 0);
    }
  }

  /** The report handed over when the last remaining step completes. */
  lemma FinishReport(t: BootTask, g: Graph)
    requires Inv(t, g) && |t.queue| > 0
    requires t.queue[0].stepType in t.stepMap && Recording(t).stepMap == map[]
    ensures var r := TaskFinished(Recording(t));
      && r.report.value.stepResults.Keys == g.Keys
      && (r.report.value.IsSuccessful() <==> r.report.value.GetFailedSteps() == {})
      && !r.report.value.IsDependenciesError()
      && r.task.awaiting == {}
  {
    HeadEventFacts(t, g);
    LastRemaining(t);
    FinishKeys(t, g);
    FinishVerdict(t);
    FinishAwaiting(t, g);
  }

  lemma LastRemaining(t: BootTask)
    requires t.taskResult.Some? && |t.queue| > 0
    requires t.queue[0].stepType in t.stepMap && Recording(t).stepMap == map[]
    ensures t.stepMap.Keys == {t.queue[0].stepType}
  {
    var k := t.queue[0].stepType;
    assert Recording(t).stepMap == t.stepMap - {k};
    assert (t.stepMap - {k}).Keys == t.stepMap.Keys - {k} == {};
  }

  lemma FinishKeys(t: BootTask, g: Graph)
    requires Shape(t, g) && |t.queue| > 0 && t.stepMap.Keys == {t.queue[0].stepType}
    ensures Recorded(Recording(t)).Keys == g.Keys
  {
    var k := t.queue[0].stepType;
    assert Recorded(Recording(t)) == Recorded(t)[k := t.queue[0].result];
  }

  lemma FinishVerdict(t: BootTask)
    requires t.taskResult.Some? && Books(t) && |t.queue| > 0 && !Succeeded(t, t.queue[0].stepType)
    requires !t.taskResult.value.IsDependenciesError()
    requires t.queue[0].result.IsSuccessful() ==> t.queue[0].stepType !in Recorded(t)
    ensures var r := TaskFinished(Recording(t));
      && (r.report.value.IsSuccessful() <==> r.report.value.GetFailedSteps() == {})
      && !r.report.value.IsDependenciesError()
  {
    var e := t.queue[0];
    var k := e.stepType;
    var x := Recording(t);
    var r := TaskFinished(x);
    var rec := Recorded(x);
    assert rec == Recorded(t)[k := e.result];
    assert x.failed == (if e.result.IsSuccessful() then t.failed else t.failed + [k]);
    forall u ensures u in x.failed <==> u in rec && !rec[u].IsSuccessful() {
      if u != k {
        assert u in rec <==> u in Recorded(t);
      }
    }
    assert r.report.value.stepResults == rec;
    if x.failed != [] {
      assert x.failed[0] in r.report.value.GetFailedSteps();
    }
  }

  lemma FinishAwaiting(t: BootTask, g: Graph)
    requires t.taskResult.Some? && Dispatched(t, g) && |t.queue| > 0
    requires t.stepMap.Keys == {t.queue[0].stepType} && t.queue[0].stepType !in t.awaiting
    ensures TaskFinished(Recording(t)).task.awaiting == {}
  {
    assert Recording(t).awaiting == t.awaiting;
    assert forall u :: u in t.awaiting ==> u in t.stepMap && u != t.queue[0].stepType;
  }
}
