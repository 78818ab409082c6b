/** The aggregate outcome of one batch: an overall flag, an optional dependency
    error and the last result recorded for each step type. */
module TaskResults {
  import opened Types
  import opened Results

  /** `dependenciesException` is non-null only when validation rejected the graph. */
  datatype TaskResult = TaskResult(
    result: bool,
    dependenciesException: Option<DependencyDefect>,
    stepResults: map<StepType, Result>)
  {
    predicate IsSuccessful() { result }

    predicate IsDependenciesError() { dependenciesException.Some? }

    /** `getStepResult`: the recorded result, or null when none was recorded. */
    function GetStepResult(t: StepType): (r: Option<Result>)
      ensures r.Some? <==> t in stepResults
      ensures r.Some? ==> r.value == stepResults[t]
    {
      if t in stepResults then Some(stepResults[t]) else None
    }

    /** `getSteps(b)`: the recorded step types whose result's success flag is `b`. */
    function GetSteps(b: bool): (r: set<StepType>)
      ensures forall t :: t in r <==> t in stepResults && stepResults[t].IsSuccessful() == b
    {
      set t | t in stepResults && stepResults[t].IsSuccessful() == b
    }

    function GetFailedSteps(): set<StepType> { GetSteps(false) }

    function GetSuccessfulSteps(): set<StepType> { GetSteps(true) }

    /** `setResult`: afterwards `isSuccessful` answers `b`; nothing else changes. */
    function SetResult(b: bool): (r: TaskResult)
      ensures r.IsSuccessful() == b
      ensures r.stepResults == stepResults && r.dependenciesException == dependenciesException
    {
      this.(result := b)
    }

    /** `setStepResult`: records `res` for `t`, replacing an earlier record;
        the records of other types are untouched. */
    function SetStepResult(t: StepType, res: Result): (r: TaskResult)
      ensures r.GetStepResult(t) == Some(res)
      ensures forall u :: u != t ==> r.GetStepResult(u) == GetStepResult(u)
      ensures r.stepResults.Keys == stepResults.Keys + {t}
      ensures r.result == result && r.dependenciesException == dependenciesException
    {
      this.(stepResults := stepResults[t := res])
    }
  }

  /** The no-argument constructor: not successful (Java's default `false`),
      no dependency error, nothing recorded. */
  function NewTaskResult(): (r: TaskResult)
    ensures !r.IsSuccessful() && !r.IsDependenciesError()
    ensures forall t :: r.GetStepResult(t).None?
  {
    TaskResult(false, None, map[])
  }

  /** The constructor taking a dependency exception: a failed batch that
      reports a dependency error and no step results. */
  function FromDependencyError(e: DependencyDefect): (r: TaskResult)
    ensures !r.IsSuccessful() && r.IsDependenciesError()
    ensures r.dependenciesException == Some(e)
    ensures forall t :: r.GetStepResult(t).None?
  {
    TaskResult(false, Some(e), map[])
  }

  /** The failed and the successful step types never overlap, and between
      them they are exactly the recorded step types. */
  lemma StepsPartition(tr: TaskResult)
    ensures tr.GetFailedSteps() !! tr.GetSuccessfulSteps()
    ensures tr.GetFailedSteps() + tr.GetSuccessfulSteps() == tr.stepResults.Keys
  {
  }

  /** Of two writes for the same step type only the later one is visible. */
  lemma LaterStepResultWins(tr: TaskResult, t: StepType, first: Result, second: Result)
    ensures tr.SetStepResult(t, first).SetStepResult(t, second).GetStepResult(t) == Some(second)
    ensures tr.SetStepResult(t, first).SetStepResult(t, second) == tr.SetStepResult(t, second)
  {
  }

  /** Recording a result moves its type into exactly the partition its flag names. */
  lemma SetStepResultMovesPartition(tr: TaskResult, t: StepType, res: Result)
    ensures t in tr.SetStepResult(t, res).GetSteps(res.IsSuccessful())
    ensures t !in tr.SetStepResult(t, res).GetSteps(!res.IsSuccessful())
    ensures forall b :: tr.SetStepResult(t, res).GetSteps(b) - {t} == tr.GetSteps(b) - {t}
  {
  }
}
