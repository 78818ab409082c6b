/** The handler thread draining its queue: the posted runnables run one at a
    time, oldest first, until the queue is empty, the batch finishes, or the
    given number of runs is used up. */
module HandlerLoop {
  import opened Types
  import opened Results
  import opened TaskResults
  import opened DependencyCheck
  import opened BootTasks
  import opened BatchInvariant

  /** Runs at most `fuel` posted runnables of a batch in progress. While the batch
      is in progress the invariant holds after every run; once it finishes, the
      report covers every loaded step and is successful exactly when no step
      failed, and the task is idle again. */
  method RunHandler(t: BootTask, ghost g: Graph, fuel: nat) returns (r: Outcome)
    requires Inv(t, g)
    ensures r.report.None? ==> Inv(r.task, g)
    ensures fuel == 0 || t.queue == [] ==> r == Outcome(t, None)
    ensures r.report.Some? ==>
      && r.report.value.stepResults.Keys == g.Keys
      && (r.report.value.IsSuccessful() <==> r.report.value.GetFailedSteps() == {})
      && !r.report.value.IsDependenciesError()
      && !r.task.running && r.task.taskResult.None? && r.task.awaiting == {}
  {
    var cur := t;
    var left := fuel;
    while left > 0 && |cur.queue| > 0
      invariant Inv(cur, g) && left <= fuel
      invariant fuel == 0 || t.queue == [] ==> cur == t
      decreases left
    {
      RunNextPreserves(cur, g);
      var o := RunNext(cur);
      if o.report.Some? {
        return o;
      }
      cur := o.task;
      left := left - 1;
    }
    r := Outcome(cur, None);
  }
}
