/** A boot step: its declared dependencies, the one-shot execution guard and the
    checks `execute` makes before handing over to the step's own work. */
module BootSteps {
  import opened Types
  import opened Results
  import opened VariableContainers

  const AlreadyExecutedMessage: string := "This BootStep has been executed, should create a new one!"
  /** Stand-ins for the two formatted messages (the type names are not modelled). */
  const UnfinishedDependencyMessage: string := "has unfinished dependent step"
  const LackOfVariableMessage: string := "lack of variable"

  /** `stepDependencies` and `variableDependencies` are Java ArrayLists: ordered,
      duplicates allowed. `isInvalid` becomes true on the first `execute`. */
  datatype BootStep = BootStep(
    stepType: StepType,
    stepDependencies: seq<StepType>,
    variableDependencies: seq<StepType>,
    isInvalid: bool)
  {
    /** `hasStepDependencies`: some step dependency is still outstanding. */
    predicate HasStepDependencies()
    {
      |stepDependencies| > 0
    }

    /** `containDependency`. */
    predicate ContainDependency(t: StepType)
    {
      t in stepDependencies
    }

    /** `addDependency(t, needVariable)`. */
    function AddDependency(t: StepType, needVariable: bool): (r: BootStep)
      ensures r.stepDependencies == stepDependencies + [t]
      ensures r.variableDependencies == variableDependencies + (if needVariable then [t] else [])
      ensures r.stepType == stepType && r.isInvalid == isInvalid
    {
      this.(stepDependencies := stepDependencies + [t],
            variableDependencies := if needVariable then variableDependencies + [t] else variableDependencies)
    }

    /** `stepFinished(t)`: drops the first occurrence of `t` (`List.remove(Object)`);
        a step that does not wait for `t` is unchanged. */
    function StepFinished(t: StepType): (r: BootStep)
      ensures !ContainDependency(t) ==> r == this
      ensures multiset(r.stepDependencies) == multiset(stepDependencies) - multiset{t}
      ensures r.variableDependencies == variableDependencies
      ensures r.stepType == stepType && r.isInvalid == isInvalid
    {
      if HasStepDependencies() && ContainDependency(t) then
        this.(stepDependencies := RemoveFirst(stepDependencies, t))
      else
        this
    }

    /** `isAllVariablesExist(container)`: the scan finds no missing value. */
    predicate IsAllVariablesExist(container: VariableContainer)
      ensures IsAllVariablesExist(container) <==> forall d :: d in variableDependencies ==> container.IsVariableExist(d)
    {
      FirstMissing(variableDependencies, container).None?
    }

    /** `execute(container, callback)` up to the call of `executeImpl`.
        The result says what the step reported synchronously, if anything. */
    function Execute(container: VariableContainer): (r: Execution)
      ensures isInvalid ==> r.step == this && r.report == Some(Failure(Some(AlreadyExecutedMessage)))
      ensures !isInvalid ==> r.step == this.(isInvalid := true)
      ensures r.report.Some? ==> !r.report.value.IsSuccessful()
      ensures r.step.isInvalid
    {
      if isInvalid then
        Execution(this, Some(Failure(Some(AlreadyExecutedMessage))))
      else
        var consumed := this.(isInvalid := true);
        if HasStepDependencies() then
          Execution(consumed, Some(Failure(Some(UnfinishedDependencyMessage))))
        else if !IsAllVariablesExist(container) then
          Execution(consumed, Some(Failure(Some(LackOfVariableMessage))))
        else
          Execution(consumed, None)
    }
  }

  /** What one call of `execute` leaves behind: the step with its guard set, and
      the failure it reported at once, or `None` when it went on to `executeImpl`. */
  datatype Execution = Execution(step: BootStep, report: Option<Result>)
  {
    predicate ReachedImpl() { report.None? }
  }

  /** A step as its constructor creates it, before any `addDependency`. */
  function NewStep(t: StepType): (r: BootStep)
    ensures r.stepType == t && !r.isInvalid
    ensures !r.HasStepDependencies() && r.variableDependencies == []
  {
    BootStep(t, [], [], false)
  }

  /** The sequence without the first occurrence of `t`. */
  function RemoveFirst(s: seq<StepType>, t: StepType): (r: seq<StepType>)
    ensures t !in s ==> r == s
    ensures t in s ==> |r| == |s| - 1
    ensures multiset(r) == multiset(s) - multiset{t}
    ensures forall u :: u != t ==> (u in r <==> u in s)
  {
    if s == [] then []
    else
      assert s == [s[0]] + s[1..];
      if s[0] == t then s[1..] else [s[0]] + RemoveFirst(s[1..], t)
  }

  /** Every listed type has a value in the container. */
  predicate AllExist(ts: seq<StepType>, container: VariableContainer)
  {
    forall i :: 0 <= i < |ts| ==> container.IsVariableExist(ts[i])
  }

  /** The Java loop over `variableDependencies`: stops at the first missing one. */
  function FirstMissing(ts: seq<StepType>, container: VariableContainer): (r: Option<nat>)
    ensures r.None? <==> AllExist(ts, container)
    ensures r.Some? ==> r.value < |ts| && !container.IsVariableExist(ts[r.value])
    ensures r.Some? ==> forall i :: 0 <= i < r.value ==> container.IsVariableExist(ts[i])
  {
    if ts == [] then None
    else if !container.IsVariableExist(ts[0]) then Some(0)
    else match FirstMissing(ts[1..], container)
      case None => None
      case Some(k) => Some(k + 1)
  }

  /** A step is ready to do its own work exactly when it has not run before,
      nothing it waits for is outstanding and every value it needs is present. */
  lemma ExecuteReachesImplIff(s: BootStep, c: VariableContainer)
    ensures s.Execute(c).ReachedImpl()
        <==> !s.isInvalid && s.stepDependencies == [] && forall t :: t in s.variableDependencies ==> c.IsVariableExist(t)
  {
  }

  /** A second `execute` of the same step reports "already executed", leaves the
      step as it was and does not reach `executeImpl`, whatever the container holds. */
  lemma SecondExecuteFails(s: BootStep, c1: VariableContainer, c2: VariableContainer)
    ensures var again := s.Execute(c1).step.Execute(c2);
      again.report == Some(Failure(Some(AlreadyExecutedMessage))) && again.step == s.Execute(c1).step
      && !again.ReachedImpl()
  {
  }

  /** The checks run in order: outstanding step dependencies are reported even
      when a value is missing too; a missing value is reported only when no step
      dependency is outstanding. */
  lemma ExecuteCheckOrder(s: BootStep, c: VariableContainer)
    requires !s.isInvalid
    ensures s.HasStepDependencies() ==> s.Execute(c).report == Some(Failure(Some(UnfinishedDependencyMessage)))
    ensures !s.HasStepDependencies() && !s.IsAllVariablesExist(c)
            ==> s.Execute(c).report == Some(Failure(Some(LackOfVariableMessage)))
  {
  }

  /** Declaring dependencies keeps every variable dependency among the step
      dependencies (counted with multiplicity). */
  lemma AddDependencyKeepsVariablesAmongSteps(s: BootStep, t: StepType, needVariable: bool)
    requires multiset(s.variableDependencies) <= multiset(s.stepDependencies)
    ensures var r := s.AddDependency(t, needVariable);
      multiset(r.variableDependencies) <= multiset(r.stepDependencies)
  {
  }

  /** After `stepFinished(t)` a step that waited for `t` once no longer waits for it,
      and its other dependencies are all still there. */
  lemma StepFinishedClearsSingleDependency(s: BootStep, t: StepType)
    requires multiset(s.stepDependencies)[t] == 1
    ensures !s.StepFinished(t).ContainDependency(t)
    ensures forall u :: u != t ==> (s.StepFinished(t).ContainDependency(u) <==> s.ContainDependency(u))
  {
    var r := s.StepFinished(t);
    assert multiset(r.stepDependencies)[t] == 0;
  }
}
