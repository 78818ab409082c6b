# aBoot boot-task orchestrator, modelled in Dafny

aBoot runs an Android app's start-up work as a batch of *boot steps*. Each step
declares the steps it depends on, and whether it needs the value they produce. A
`BootTask` does the following:

- loads the steps into a map keyed by step type;
- validates the dependency graph, checking that every dependency is loaded and
  that there is no circular dependency;
- dispatches every step that has no outstanding dependency;
- handles each completion on a single handler thread. A success releases the
  steps waiting for it. A failure posts a synthesized failure for each waiting
  step.
- reports a `TaskResult` once every loaded step has a result.

The project models that core as pure functions over immutable values and proves
what it promises.

| file | module | what it models |
|---|---|---|
| `types.dfy` | `Types` | step types (identity tokens), values, throwables, dependency defects, `Option` |
| `result.dfy` | `Results` | `Result`: the immutable success/failure value and its factories |
| `variable_container.dfy` | `VariableContainers` | the value store; null writes are ignored |
| `task_result.dfy` | `TaskResults` | `TaskResult`: the overall flag, the dependency error and the per-step results |
| `boot_step.dfy` | `BootSteps` | `BootStep`: dependency lists, the one-shot `execute` guard and its checks |
| `dependency_check.dfy` | `DependencyCheck` | both `checkDependencyChains` overloads, with soundness and completeness |
| `boot_task.dfy` | `BootTasks` | loading, `start`, dispatch, the handler queue, `handleStepResult`, `taskFinished` |
| `batch_invariant.dfy` | `BatchInvariant` | the invariant of a batch in progress, preserved by every transition |
| `interleaving.dfy` | `Interleavings` | callbacks that land while the handler thread or `start` is still at work |
| `handler_loop.dfy` | `HandlerLoop` | the handler thread draining its queue |
| `findings.dfy` | `Findings` | two departures of the code from its evident intent, each with a concrete run |

Modelling choices:

- A `BootStep.Type` is compared by reference, so it is an opaque token. Java `null` is `Option.None`.
- The `HashMap` iteration order is a parameter `order`, which lists each loaded type exactly once.
  - Every loop over `stepMap` follows it and skips removed types.
  - Nothing is inserted during a batch, so the order stays fixed.
- `executor.execute(runnable)` appends to a FIFO `queue` of completion events. `RunNext` runs the oldest one.
- A step whose `execute` reached `executeImpl` goes into `awaiting`. Its own work later calls `onStepFinished` (`OnStepFinished`) exactly once.
  - The model assumes `executeImpl` calls back at most once and does not write to the container.
  - When and in which order steps call back is left open. Between two runs of the handler thread a callback is `OnStepFinished`.
  - A callback may also land while a run is still at work: from another thread, or synchronously from inside `executeImpl` before `execute` returns. It only posts a runnable and reads nothing a run uses, so all that matters is where its event falls in the queue relative to the events the run posts itself.
  - A run posts events in two places: the cascade's failure branch (BootTask.java:197-208) and the dispatch loop (BootTask.java:151-160). `RunNextWith` and `HandleStepResultWith` therefore take two lists of slots:
    - `during[j]` lands before the cascade's `j`-th post, and the slot after its last post is the one just before the dispatch loop's first turn. A success cascade posts nothing, so only `during[0]` applies.
    - `arrivals[i]` lands after the dispatch loop's turn at position `i`.
  - Callbacks that land while the completion is being recorded, before the cascade, leave the same queue as `during[0]`.
  - A run that finishes the batch has no step whose work is under way (`BatchInvariant.FinishAwaiting`), so nothing lands during it. `start` runs before any step's work is under way, so its loop takes only `arrivals`.
  - With nothing landing, `StartWith`, `HandleStepResultWith` and `RunNextWith` are `Start`, `HandleStepResult` and `RunNext`.
  - So a batch's history is a sequence of `OnStepFinished`, `StartWith` and `RunNextWith`, and the invariant is proved for each of them.
- `start` clears the leftovers of an unfinished previous run (BootTask.java:68-76): `Start` resets `stepMap` and `executingSteps`, the new executor starts with an empty queue, and no step's work is awaited.
- The validation recursion never reads the `checked` set. It only adds to it. So the recursive function returns the types it would have added (`Pass(marked)`), and the top-level loop unions them.

## Model

| member | source | states |
|---|---|---|
| `Results.Of` | library/src/main/java/com/ukom/aboot/Result.java:47-49 | `of(r, v, m, t)` keeps all four fields as given |
| `Results.SuccessWith` | library/src/main/java/com/ukom/aboot/Result.java:55-57 | `success(v)` is successful, carries `v`, and has null message and throwable |
| `Results.Success` | library/src/main/java/com/ukom/aboot/Result.java:51-53 | `success()` is successful with a null value and null message and throwable |
| `Results.FailureWith` | library/src/main/java/com/ukom/aboot/Result.java:67-69 | `failure(msg, t)` is unsuccessful with a null value, the given message and the given throwable, either of which may be null |
| `Results.Failure` | library/src/main/java/com/ukom/aboot/Result.java:59-61 | `failure(msg)` is unsuccessful with a null value, the given message (possibly null) and no throwable |
| `Results.FailureOf` | library/src/main/java/com/ukom/aboot/Result.java:63-65 | `failure(t)` is unsuccessful with the message "some exception happened" and throwable `t`, which may be null |
| `Results.OfAccessorsRoundTrip` | library/src/main/java/com/ukom/aboot/Result.java:9-35 | handing the four accessors' answers back to `of` rebuilds the same result |
| `Results.AccessorsDetermineResult` | library/src/main/java/com/ukom/aboot/Result.java:9-19 | two results that agree on every accessor are equal (the fields are final) |
| `Results.FactoriesAreDistinguishable` | library/src/main/java/com/ukom/aboot/Result.java:55-69 | no success equals a failure, whatever the arguments; a success carries no message; a failure carries one exactly when it was given one, and `failure(t)` always carries the stock message |
| `VariableContainers.VariableContainer.GetVariable` | library/src/main/java/com/ukom/aboot/VariableContainer.java:19-29 | a key reads as non-null exactly when it exists; an absent key reads as null, not as an error |
| `VariableContainers.VariableContainer.PutVariable` | library/src/main/java/com/ukom/aboot/VariableContainer.java:23-25 | a null write changes nothing; a non-null write makes the key exist with that value; every other key is unchanged |
| `VariableContainers.VariableContainer.Clear` | library/src/main/java/com/ukom/aboot/VariableContainer.java:31-33 | after `clear` no key exists |
| `VariableContainers.Empty` | library/src/main/java/com/ukom/aboot/VariableContainer.java:17 | a new container holds no key |
| `VariableContainers.GetAfterPut` | library/src/main/java/com/ukom/aboot/VariableContainer.java:23-29 | reading right after writing returns the value written, or the old value when null was written |
| `VariableContainers.PutIdempotent` | library/src/main/java/com/ukom/aboot/VariableContainer.java:23-25 | writing the same value twice is the same as writing it once |
| `VariableContainers.PutCommutes` | library/src/main/java/com/ukom/aboot/VariableContainer.java:23-25 | writes to different keys commute |
| `TaskResults.TaskResult.GetStepResult` | library/src/main/java/com/ukom/aboot/TaskResult.java:24-26 | the recorded result, or null exactly when none was recorded |
| `TaskResults.TaskResult.GetSteps` | library/src/main/java/com/ukom/aboot/TaskResult.java:44-53 | exactly the recorded types whose result's success flag is the one asked for |
| `TaskResults.TaskResult.SetResult` | library/src/main/java/com/ukom/aboot/TaskResult.java:55-57 | afterwards `isSuccessful` answers the given flag, and the step results and dependency error are unchanged |
| `TaskResults.TaskResult.SetStepResult` | library/src/main/java/com/ukom/aboot/TaskResult.java:59-61 | records the result for its type, adds that type to the keys, and leaves every other type's record untouched |
| `TaskResults.NewTaskResult` | library/src/main/java/com/ukom/aboot/TaskResult.java:12-17 | the default result is unsuccessful, has no dependency error and records nothing |
| `TaskResults.FromDependencyError` | library/src/main/java/com/ukom/aboot/TaskResult.java:19-22 | a result built from a dependency exception is unsuccessful, is a dependency error and records nothing |
| `TaskResults.StepsPartition` | library/src/main/java/com/ukom/aboot/TaskResult.java:36-53 | failed and successful steps are disjoint and together are exactly the recorded types |
| `TaskResults.LaterStepResultWins` | library/src/main/java/com/ukom/aboot/TaskResult.java:59-61 | of two writes for one type only the later is visible, as if the first never happened |
| `TaskResults.SetStepResultMovesPartition` | library/src/main/java/com/ukom/aboot/TaskResult.java:36-61 | recording a result puts its type in the partition its flag names and moves no other type |
| `BootSteps.BootStep.AddDependency` | library/src/main/java/com/ukom/aboot/BootStep.java:81-84 | appends the type to the step dependencies, and to the variable dependencies exactly when a value is needed |
| `BootSteps.BootStep.StepFinished` | library/src/main/java/com/ukom/aboot/BootStep.java:35-39 | removes one occurrence of the type, keeping the multiset of the others; a step not waiting for it is unchanged; variable dependencies are never touched |
| `BootSteps.BootStep.Execute` | library/src/main/java/com/ukom/aboot/BootStep.java:56-76 | a consumed step reports "already executed" and stays as it is; otherwise the guard is set; every synchronous report is a failure |
| `BootSteps.BootStep.IsAllVariablesExist` | library/src/main/java/com/ukom/aboot/BootStep.java:42-54 | true exactly when every variable dependency exists in the container, an empty list included |
| `BootSteps.FirstMissing` | library/src/main/java/com/ukom/aboot/BootStep.java:42-54 | the scan finds nothing exactly when every variable dependency exists; otherwise it stops at the first missing one |
| `BootSteps.RemoveFirst` | library/src/main/java/com/ukom/aboot/BootStep.java:37 | `List.remove(Object)` removes exactly one occurrence when there is one and nothing otherwise |
| `BootSteps.NewStep` | library/src/main/java/com/ukom/aboot/BootStep.java:20-23 | a new step has no dependencies and has not executed |
| `BootSteps.ExecuteReachesImplIff` | library/src/main/java/com/ukom/aboot/BootStep.java:56-76 | `executeImpl` is reached exactly when the step is unconsumed, nothing is outstanding and every needed value exists |
| `BootSteps.SecondExecuteFails` | library/src/main/java/com/ukom/aboot/BootStep.java:57-63 | a second `execute` reports "already executed", changes nothing and never reaches `executeImpl`, whatever the container holds |
| `BootSteps.ExecuteCheckOrder` | library/src/main/java/com/ukom/aboot/BootStep.java:65-75 | outstanding dependencies are reported first; a missing value is reported only when nothing is outstanding |
| `BootSteps.AddDependencyKeepsVariablesAmongSteps` | library/src/main/java/com/ukom/aboot/BootStep.java:81-84 | every variable dependency stays among the step dependencies, counted with multiplicity |
| `BootSteps.StepFinishedClearsSingleDependency` | library/src/main/java/com/ukom/aboot/BootStep.java:35-39 | a type waited for once is no longer waited for; other dependencies are untouched |
| `DependencyCheck.CheckNode` | library/src/main/java/com/ukom/aboot/BootTask.java:121-149 | on a pass the step is marked; a missing dependency names a declared but unloaded type and its dependent; a circular one comes with a path that revisits the chain |
| `DependencyCheck.CheckDeps` | library/src/main/java/com/ukom/aboot/BootTask.java:129-145 | the loop over one step's dependencies: reports a missing type before a repeated one, then descends with a copy of the chain |
| `DependencyCheck.ValidationSound` | library/src/main/java/com/ukom/aboot/BootTask.java:103-119 | if validation passes, every dependency is loaded and no step depends on itself directly or transitively |
| `DependencyCheck.ValidationExact` | library/src/main/java/com/ukom/aboot/BootTask.java:103-149 | validation passes exactly when every dependency is loaded and there is no cycle, whatever the map's iteration order |
| `DependencyCheck.ValidationFailureExplained` | library/src/main/java/com/ukom/aboot/BootTask.java:131-137 | a reported missing dependency is declared and unloaded; a reported circular one comes with a walk back into the chain |
| `DependencyCheck.CheckFrom` | library/src/main/java/com/ukom/aboot/BootTask.java:110-117 | the loop over the roots: a reported missing dependency is declared by a loaded step and not loaded; a reported circular one ends on a type of the chain, and the chain plus that type is a path of the graph |
| `DependencyCheck.CheckDependencyChains` | library/src/main/java/com/ukom/aboot/BootTask.java:104-119 | validation reports only genuine defects; `ValidationExact` states that it passes exactly on complete, acyclic graphs |
| `DependencyCheck.SelfDependencyIsCircular` | library/src/main/java/com/ukom/aboot/BootTask.java:135-137 | a step that lists itself as a dependency fails validation |
| `DependencyCheck.SelfDependencyReportedCircular` | library/src/main/java/com/ukom/aboot/BootTask.java:135-137 | when every dependency is loaded, a step that lists itself is reported as a circular dependency |
| `DependencyCheck.RankedGraphIsValid` | library/src/main/java/com/ukom/aboot/BootTask.java:103-149 | a graph with every dependency loaded and ranked strictly below its dependent passes validation |
| `BootTasks.NewBootTask` | library/src/main/java/com/ukom/aboot/BootTask.java:41-46 | a new task is idle, has no steps, no failures and an empty container |
| `BootTasks.Load` | library/src/main/java/com/ukom/aboot/BootTask.java:51-53 | each step is stored under its own type, and a later step of the same type replaces an earlier one |
| `BootTasks.GraphOf` | library/src/main/java/com/ukom/aboot/BootTask.java:129 | validation sees each loaded type's declared step dependencies |
| `BootTasks.ReadySteps` | library/src/main/java/com/ukom/aboot/BootTask.java:154 | reference definition: exactly the remaining, not yet started types without outstanding dependencies |
| `BootTasks.StartStep` | library/src/main/java/com/ukom/aboot/BootTask.java:154-158 | a started step is recorded as executing and consumed; a synchronous failure is posted, otherwise its work is awaited |
| `BootTasks.DispatchFrom` | library/src/main/java/com/ukom/aboot/BootTask.java:151-160 | the loop starts exactly the steps ready when it began, in iteration order, and touches nothing but the dispatch state |
| `BootTasks.ExecuteStepsWithoutDependency` | library/src/main/java/com/ukom/aboot/BootTask.java:151-160 | one pass over the map starts exactly the steps ready when it began, in iteration order; the step types, the task result and the container are unchanged |
| `BootTasks.DispatchFromKeeps` | library/src/main/java/com/ukom/aboot/BootTask.java:151-160 | the loop leaves every step's outstanding dependencies alone and only appends to the handler queue |
| `BootTasks.DispatchKeepsLaterReadiness` | library/src/main/java/com/ukom/aboot/BootTask.java:151-160 | starting one step does not change which later steps are ready |
| `BootTasks.OnStepFinished` | library/src/main/java/com/ukom/aboot/BootTask.java:162-173 | a completion is only appended to the handler queue and its step is no longer awaited; the step map, the task result, the executing and failed lists, the container, the order and the running flag are unchanged |
| `BootTasks.SynthesizedFailures` | library/src/main/java/com/ukom/aboot/BootTask.java:195-208 | a failure is posted for each remaining step still waiting for the failed type, for no other step, and (the map's keys being distinct) exactly once per step |
| `BootTasks.Cascade` | library/src/main/java/com/ukom/aboot/BootTask.java:195-208 | a success releases one occurrence of the type from every remaining step; a failure posts the synthesized failures and leaves the steps unchanged |
| `BootTasks.TaskFinished` | library/src/main/java/com/ukom/aboot/BootTask.java:213-227 | the overall flag is whether no step failed; the step results are handed over; failures, the executing list and the container are cleared and the task is idle |
| `BootTasks.Noted` | library/src/main/java/com/ukom/aboot/BootTask.java:175-191 | before the loop over the remaining steps, a success's value is stored or the failed type is appended to `failedSteps`, and the type leaves the step map |
| `BootTasks.HandleStepResult` | library/src/main/java/com/ukom/aboot/BootTask.java:175-211 | the value is stored or the failure noted, the type is removed, and the batch finishes exactly when that removed the last step, successful iff no failure; if it goes on, a failure is in `failedSteps` |
| `BootTasks.HandleStepResultContinues` | library/src/main/java/com/ukom/aboot/BootTask.java:193-210 | if the batch goes on, the loop starts exactly the steps the cascade made ready; a success clears the type from every remaining step's outstanding list; a failure posts the dependents' failures behind what was already queued |
| `BootTasks.HandleEvent` | library/src/main/java/com/ukom/aboot/BootTask.java:165-171 | the result is recorded under its type; the batch finishes exactly when that type is the last remaining step, and then the report carries every recorded result and the task result is cleared; otherwise the task result is the recorded one; the type leaves the step map |
| `BootTasks.RunNext` | library/src/main/java/com/ukom/aboot/BootTask.java:165-171 | the oldest runnable is taken off the queue; after the batch finished nothing else changes (corrected, see Findings); otherwise its result is recorded, and the batch finishes exactly when its type is the last remaining step, handing over a report with every recorded result |
| `BootTasks.Start` | library/src/main/java/com/ukom/aboot/BootTask.java:59-101 | refused exactly while running; an empty load succeeds with no results; an invalid graph reports the dependency error and dispatches nothing; both leave the task idle (corrected, see Findings) |
| `BatchInvariant.StartEstablishes` | library/src/main/java/com/ukom/aboot/BootTask.java:73-98 | starting an idle task on fresh steps that pass validation gives a batch satisfying the invariant |
| `BatchInvariant.DispatchFromPreserves` | library/src/main/java/com/ukom/aboot/BootTask.java:151-160 | the dispatch loop keeps the invariant: no step starts twice, and a started step had all declared dependencies succeed |
| `BatchInvariant.StartStepPreserves` | library/src/main/java/com/ukom/aboot/BootTask.java:154-158 | starting one ready step keeps the invariant |
| `BatchInvariant.ReadyStepSeesDependencyValues` | library/src/main/java/com/ukom/aboot/BootTask.java:154-157 | a ready step sees every dependency recorded as a success and its value in the container; its value check fails exactly when a needed dependency produced null |
| `BatchInvariant.OnStepFinishedPreserves` | library/src/main/java/com/ukom/aboot/BootTask.java:162-173 | a step's own completion keeps the invariant |
| `BatchInvariant.RunNextPreserves` | library/src/main/java/com/ukom/aboot/BootTask.java:165-227 | handling a completion keeps the invariant, or finishes with a report covering every loaded step, successful iff no result failed, with no step's work still under way |
| `BatchInvariant.CascadeSuccessPreserves` | library/src/main/java/com/ukom/aboot/BootTask.java:177-201 | handling a success keeps the invariant before the dispatch loop |
| `BatchInvariant.CascadeFailurePreserves` | library/src/main/java/com/ukom/aboot/BootTask.java:180-205 | handling a failure keeps the invariant before the dispatch loop; every synthesized failure is explained by a failed dependency |
| `BatchInvariant.FailedDependencyNeverDispatched` | library/src/main/java/com/ukom/aboot/BootTask.java:199-205 | no started step has a failed declared dependency |
| `BatchInvariant.FinishReport` | library/src/main/java/com/ukom/aboot/BootTask.java:184-218 | when the last remaining step completes, the report covers every loaded type and is successful iff none failed |
| `Interleavings.Arrive` | library/src/main/java/com/ukom/aboot/BootTask.java:162-173 | callbacks landing only append, to the handler queue, events of steps whose work was under way, which are then no longer awaited; nothing else changes |
| `Interleavings.DispatchWith` | library/src/main/java/com/ukom/aboot/BootTask.java:151-160 | with callbacks landing between its turns, the loop still starts exactly the steps ready when it began, in iteration order |
| `Interleavings.DispatchWithout` | library/src/main/java/com/ukom/aboot/BootTask.java:151-160 | with no callbacks landing the loop is `DispatchFrom` |
| `Interleavings.DispatchWithSameSteps` | library/src/main/java/com/ukom/aboot/BootTask.java:151-160 | whatever lands during the loop, the step map and the executing list end as without callbacks |
| `Interleavings.ArriveKeepsReadiness` | library/src/main/java/com/ukom/aboot/BootTask.java:154 | a callback landing makes no step ready or unready |
| `Interleavings.PostWith` | library/src/main/java/com/ukom/aboot/BootTask.java:197-208 | the cascade's posts with callbacks landing between them: only the queue and `awaiting` change, the queue only grows, and with nothing landing exactly the failures are appended |
| `Interleavings.CascadeWith` | library/src/main/java/com/ukom/aboot/BootTask.java:195-208 | with callbacks landing between its posts, the loop leaves the step map as without them, and with nothing landing it is `Cascade` |
| `Interleavings.HandleStepResultWith` | library/src/main/java/com/ukom/aboot/BootTask.java:175-211 | the type leaves the step map, and the batch finishes exactly when that removed the last step |
| `Interleavings.RunNextWith` | library/src/main/java/com/ukom/aboot/BootTask.java:165-171 | the handler thread's next run with callbacks landing: after the batch finished only the head is dropped; otherwise the batch finishes exactly when the head's type is the last remaining step |
| `Interleavings.StartWith` | library/src/main/java/com/ukom/aboot/BootTask.java:59-101 | refused exactly while running |
| `Interleavings.HandleStepResultWithAgrees` | library/src/main/java/com/ukom/aboot/BootTask.java:175-211 | callbacks landing during the cascade or the loop change only the queue and `awaiting`; without them the outcome is `HandleStepResult`'s |
| `Interleavings.RunNextWithAgrees` | library/src/main/java/com/ukom/aboot/BootTask.java:165-171 | the same for the handler thread's next run |
| `Interleavings.StartWithAgrees` | library/src/main/java/com/ukom/aboot/BootTask.java:59-101 | the same for `start` |
| `Interleavings.ArrivePreserves` | library/src/main/java/com/ukom/aboot/BootTask.java:162-173 | callbacks landing keep the invariant |
| `Interleavings.PostFailurePreserves` | library/src/main/java/com/ukom/aboot/BootTask.java:204-205 | posting a failure for a remaining, not-started step that depends on a failed step keeps the invariant |
| `Interleavings.PostWithPreserves` | library/src/main/java/com/ukom/aboot/BootTask.java:197-208 | the cascade's posts keep the invariant whatever lands between them |
| `Interleavings.InvOfQueuePrefix` | library/src/main/java/com/ukom/aboot/BootTask.java:165-171 | the invariant judges each posted event on its own, so it holds for every prefix of the queue |
| `Interleavings.CascadeWithPreserves` | library/src/main/java/com/ukom/aboot/BootTask.java:177-208 | recording a completion and running the cascade keep the invariant whatever lands between the posts and after them |
| `Interleavings.DispatchWithPreserves` | library/src/main/java/com/ukom/aboot/BootTask.java:151-160 | the dispatch loop keeps the invariant whatever lands between its turns |
| `Interleavings.StartWithEstablishes` | library/src/main/java/com/ukom/aboot/BootTask.java:73-98 | starting an idle task on fresh steps that pass validation gives a batch satisfying the invariant, whatever lands during the loop |
| `Interleavings.RunNextWithPreserves` | library/src/main/java/com/ukom/aboot/BootTask.java:165-227 | handling a completion keeps the invariant whatever lands during its cascade and its loop, and hands over the report `RunNext` would |
| `HandlerLoop.RunHandler` | library/src/main/java/com/ukom/aboot/BootTask.java:165-171 | draining the queue keeps the invariant after every run, and a finishing run hands over a complete, correctly flagged report |
| `Findings.RunNextAsWritten` | library/src/main/java/com/ukom/aboot/BootTask.java:165-171 | the runnable as written dereferences the result exactly when the batch has already finished |
| `Findings.JoinStarts` | library/src/main/java/com/ukom/aboot/BootTask.java:95-160 | starting the join dispatches exactly the two steps without dependencies, whose own work is then under way |
| `Findings.StaleFailureAfterFinish` | library/src/main/java/com/ukom/aboot/BootTask.java:199-218 | two failed dependencies of one step post two failures for it; the first finishes the batch and the second dereferences null |
| `Findings.DiamondIsValid` | library/src/main/java/com/ukom/aboot/BootTask.java:139-143 | two paths to the same step (a diamond) are not reported as a cycle |
| `Findings.StartAsWritten` | library/src/main/java/com/ukom/aboot/BootTask.java:59-101 | `start` as written: both early finishes leave the task marked as running |
| `Findings.EmptyLoadBlocksRestart` | library/src/main/java/com/ukom/aboot/BootTask.java:60-85 | as written, after an empty load every later `start` is refused; the corrected one accepts it |
| `Findings.InvalidGraphBlocksRestart` | library/src/main/java/com/ukom/aboot/BootTask.java:60-94 | as written, after a failed validation every later `start` is refused; the corrected one accepts it |
| `Findings.EarlyFinishAllowsRestart` | library/src/main/java/com/ukom/aboot/BootTask.java:79-94 | after either early finish the corrected `start` can start again |

## Left out

- HandlerThreadExecutor.java (the Android `HandlerThread` and `Looper`) is reduced to "posted runnables run one at a time, in order". `release`, and the exception `execute` throws after release, are represented only by the `running` flag.
- `synchronized`, `volatile` and data races. The threads that run `executeImpl` are reduced to callbacks that land between runs of the handler thread, between the cascade's posts, or between turns of a dispatch loop.
- `executeImpl` bodies are abstract and external. Their callback is `OnStepFinished`, assumed to be called once per dispatched step, and they are assumed not to write to the container.
- `Log` calls, `toString`, and forwarding to `callback.onStepFinished` / `CallbackWrapper`: logging and observer plumbing with no effect on the task's state.
- Events left over from an earlier batch and delivered into a new one.
- Message texts: the formatted messages (missing dependency, circular chain, unfinished dependency, lack of variable, dependent failed) are fixed stand-in strings. The defect itself is kept as a `DependencyDefect` value that names the missing type and its dependent, or the chain and its tail.
- TaskDependenciesException is modelled by the `DependencyDefect` it carries.
- `getSteps`, `getFailedSteps` and `getSuccessfulSteps` return a `set`, not a `List` in `HashMap` key order. The order is unspecified in the source.
- `HashMap` iteration order is a parameter, `order`, not Java's hash order.
- `BatchInvariant.StartEstablishes` requires fresh steps (not yet executed, every variable dependency also declared as a step dependency), which is what the constructor and `addDependency` produce. A step object reused across batches fails with "already executed"; `Start` models that, but the invariant does not cover it.
- `Interleavings.StartWithEstablishes` requires fresh steps for the same reason as `BatchInvariant.StartEstablishes`.
- `HandlerLoop.RunHandler` takes a bound on the number of runnables it runs. A batch can post several failures for one step, so the queue's length alone does not bound the runs.
- A step that calls `addDependency` twice with the same type waits for it twice. `stepFinished` removes only one occurrence, so such a step is never ready and its batch never finishes. The model keeps this behaviour (`StepFinished` removes one occurrence) and proves no progress property that would exclude it.
- sample/src/main/java/com/ukom/sample/MainActivity.java is not part of this model.

## Findings

| source | as written | input that shows it | evidently intended | confidence | as-written member | corrected member |
|---|---|---|---|---|---|---|
| library/src/main/java/com/ukom/aboot/BootTask.java:168 | The runnable posted by `onStepFinished` calls `taskResult.setStepResult` unconditionally. `taskFinished` sets `taskResult` to null (line 218), but `release` uses `quitSafely`, so runnables that were already posted still run. | Step D depends on A and B, and A and B both fail before the handler runs. Handling A posts a failure for D, and handling B posts a second one. The first of those finishes the batch; the second then dereferences null. | A completion that arrives after the batch finished is ignored. | not executed | `Findings.RunNextAsWritten`, `Findings.StaleFailureAfterFinish` | `BootTasks.RunNext` |
| library/src/main/java/com/ukom/aboot/BootTask.java:79-94 | The empty-load and validation-failure returns neither release the executor created at line 62 nor set it to null. | A first `start` that loads nothing, or a step that depends on itself: every later `start` throws "The task is executing" (line 61). | Both early finishes leave the task startable, as `taskFinished` does. | not executed | `Findings.StartAsWritten`, `Findings.EmptyLoadBlocksRestart`, `Findings.InvalidGraphBlocksRestart` | `BootTasks.Start`, `Findings.EarlyFinishAllowsRestart` |
