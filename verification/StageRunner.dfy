/** Running a whole stage: the verdict, the reconciliation of skipped steps, and the composition of all parts. */
module StageRunner {
  import opened StageTypes
  import opened OrderedDisplay
  import opened OrderedOutput
  import opened Scheduler
  import opened StageRuns
  import opened ScheduleIndependence
  import opened SilentOutput
  import Dag

  const WARN := "warn"
  const DEPENDENCY_REPORT := Report(Skipped, "skipped (dependency failed)")

  // ----- The scheduler's own loops -----

  /** Reads the shared map of failures for one step. */
  method HasFailedDependency(g: Nodes, failed: set<string>, n: string) returns (b: bool)
    requires n in g
    ensures b <==> FailedDependency(g, failed, n)
  {
    var i := 0;
    while i < |g[n].deps|
      invariant 0 <= i <= |g[n].deps| && forall j | 0 <= j < i :: g[n].deps[j] !in failed
    {
      if g[n].deps[i] in failed {
        return true;
      }
      i := i + 1;
    }
    return false;
  }

  method AllDependenciesCompleted(g: Nodes, completed: set<string>, n: string) returns (b: bool)
    requires n in g
    ensures b <==> forall d | d in g[n].deps :: d in completed
  {
    var i := 0;
    while i < |g[n].deps|
      invariant 0 <= i <= |g[n].deps| && forall j | 0 <= j < i :: g[n].deps[j] in completed
    {
      if g[n].deps[i] !in completed {
        return false;
      }
      i := i + 1;
    }
    return true;
  }

  /** The scan of the coordinator: what it finds is what the label Scan may carry. */
  method FindReadySteps(g: Nodes, s: State) returns (ready: seq<string>)
    requires s.pc.Scanning?
    ensures Guard(g, s, Scan(ready))
  {
    ready := [];
    var todo := g.Keys;
    while todo != {}
      invariant todo <= g.Keys && Distinct(ready)
      invariant forall n :: n in ready <==> n in g && n !in todo && IsReady(g, s, n)
      decreases todo
    {
      var n :| n in todo;
      todo := todo - {n};
      if n !in s.completed && n !in s.executing && n !in s.failed {
        var all := AllDependenciesCompleted(g, s.completed, n);
        if all {
          DistinctSnoc(ready, n);
          ready := ready + [n];
        }
      }
    }
  }

  // ----- The verdict -----

  datatype StageError = InvalidGraph(error: Dag.DagError) | StepFailed(name: string) | Terminated

  /** An error result stops the stage if some declaration of its step does not ask for a warning only. */
  ghost predicate Stops(steps: seq<Step>, r: Result) {
    r.status == Error && exists i | 0 <= i < |steps| :: steps[i].action == r.name && steps[i].onError != WARN
  }

  method StageVerdict(steps: seq<Step>, results: seq<Result>, cancelled: bool) returns (err: Option<StageError>)
    ensures err.None? <==> !cancelled && forall r | r in results :: !Stops(steps, r)
    ensures match err
      case None => true
      case Some(Terminated) => cancelled && forall r | r in results :: !Stops(steps, r)
      case Some(StepFailed(n)) => exists i | 0 <= i < |results| ::
        results[i].name == n && Stops(steps, results[i]) && forall j | 0 <= j < i :: !Stops(steps, results[j])
      case Some(InvalidGraph(_)) => false
  {
    var i := 0;
    while i < |results|
      invariant 0 <= i <= |results| && forall j | 0 <= j < i :: !Stops(steps, results[j])
    {
      if results[i].status == Error {
        var k := 0;
        while k < |steps|
          invariant 0 <= k <= |steps|
          invariant forall j | 0 <= j < k :: steps[j].action == results[i].name ==> steps[j].onError == WARN
        {
          if steps[k].action == results[i].name && steps[k].onError != WARN {
            assert Stops(steps, results[i]) && results[i] in results;
            return Some(StepFailed(results[i].name));
          }
          k := k + 1;
        }
      }
      i := i + 1;
    }
    return if cancelled then Some(Terminated) else None;
  }

  // ----- From declarations to nodes -----

  /** What evaluating a step's condition and running its action would yield. */
  datatype Behaviour = Behaviour(runIf: bool, choice: Choice, lines: seq<string>, raw: Raw)

  /** The policy of a step is that of its first declaration. */
  function PolicyOf(steps: seq<Step>, n: string): string {
    if steps == [] then "" else if steps[0].action == n then steps[0].onError else PolicyOf(steps[1..], n)
  }

  function NodesOf(steps: seq<Step>, world: string -> Behaviour): Nodes {
    var g := Dag.GraphOf(steps);
    map n | n in g ::
      Node(g[n], world(n).runIf, PolicyOf(steps, n) == WARN, world(n).choice, world(n).lines, world(n).raw)
  }

  lemma OnlyDeclaration(steps: seq<Step>, i: nat)
    requires Distinct(Names(steps)) && i < |steps|
    ensures forall j | 0 <= j < |steps| && j != i :: steps[j].action != steps[i].action
  {
    forall j | 0 <= j < |steps| && j != i
      ensures steps[j].action != steps[i].action
    {
      assert Names(steps)[j] != Names(steps)[i];
    }
  }

  lemma GraphOfDistinct(steps: seq<Step>, i: nat)
    requires Distinct(Names(steps)) && i < |steps|
    ensures steps[i].action in Dag.GraphOf(steps) && Dag.GraphOf(steps)[steps[i].action] == steps[i].require
  {
    OnlyDeclaration(steps, i);
    Dag.LastDeclarationCounts(steps, i);
  }

  /** The policy of a step is that of its first declaration. */
  lemma {:induction false} PolicyOfFirst(steps: seq<Step>, i: nat)
    requires i < |steps| && forall j | 0 <= j < i :: steps[j].action != steps[i].action
    ensures PolicyOf(steps, steps[i].action) == steps[i].onError
  {
    if i > 0 {
      assert forall j | 0 <= j < i - 1 :: steps[1..][j] == steps[j + 1];
      PolicyOfFirst(steps[1..], i - 1);
    }
  }

  lemma PolicyOfDistinct(steps: seq<Step>, i: nat)
    requires Distinct(Names(steps)) && i < |steps|
    ensures PolicyOf(steps, steps[i].action) == steps[i].onError
  {
    hide PolicyOf;
    OnlyDeclaration(steps, i);
    PolicyOfFirst(steps, i);
  }

  /** The graph's nodes are the declared names. */
  lemma NodesAreNames(steps: seq<Step>, world: string -> Behaviour, n: string)
    ensures n in NodesOf(steps, world) <==> n in Names(steps)
  {
    if n in NodesOf(steps, world) {
      var i :| 0 <= i < |steps| && steps[i].action == n;
      assert Names(steps)[i] == n;
    }
  }

  /** The declared steps with what they will do, and the run is complete and was not cancelled. */
  ghost predicate RunsThrough(steps: seq<Step>, g: Nodes, rank: map<string, nat>, labels: seq<Label>, s: State) {
    && Distinct(Names(steps)) && Ranked(g, rank)
    && Reaches(g, labels, s) && Scheduler.Done(s) && !s.cancelled
  }

  /** A declared step has its own policy in the graph, and its one result is the prescribed one. */
  lemma DeclaredResult(steps: seq<Step>, world: string -> Behaviour, g: Nodes, rank: map<string, nat>,
        labels: seq<Label>, s: State, i: nat)
    requires g == NodesOf(steps, world) && RunsThrough(steps, g, rank, labels, s) && i < |steps|
    ensures steps[i].action in g && g[steps[i].action].warn == (steps[i].onError == WARN)
    ensures g[steps[i].action].deps == steps[i].require && g[steps[i].action].choice == world(steps[i].action).choice
    ensures forall r ::
      r in s.results && r.name == steps[i].action <==> r == Result(steps[i].action, StatusOf(g, rank, steps[i].action))
  {
    var n := steps[i].action;
    GraphOfDistinct(steps, i);
    PolicyOfDistinct(steps, i);
    ProtocolAlways(g, labels, s);
    FaithfulAlways(g, labels, s);
    CompleteRunHasAll(g, labels, s);
    ResultIsDetermined(g, rank, s, n);
    forall r | r in s.results && r.name == n
      ensures r == Result(n, StatusOf(g, rank, n))
    {
      UniqueResult(g, s, r, Result(n, StatusOf(g, rank, n)));
    }
  }

  /** A step that asks for warnings only ends in error exactly when it runs and fails to select its variant. */
  lemma WarnedErrorExactly(g: Nodes, rank: map<string, nat>, n: string)
    requires Ranked(g, rank) && n in g && g[n].warn
    ensures StatusOf(g, rank, n) == Error
      <==> g[n].choice.Unselectable? && g[n].runIf && forall d | d in g[n].deps :: StatusOf(g, rank, d) != Error
  {
    assert (exists d | d in g[n].deps :: StatusOf(g, rank, d) == Error)
      <==> exists i | 0 <= i < |g[n].deps| :: StatusOf(g, rank, g[n].deps[i]) == Error;
  }

  /**
   A complete uncancelled run succeeds exactly when every step that ends in error asks for warnings only,
   and such a step can only have failed to select a variant: other errors of its action are warnings by then.
   */
  lemma VerdictOfRun(steps: seq<Step>, world: string -> Behaviour, g: Nodes, rank: map<string, nat>,
        labels: seq<Label>, s: State)
    requires g == NodesOf(steps, world) && RunsThrough(steps, g, rank, labels, s)
    ensures forall i | 0 <= i < |steps| :: steps[i].action in g
    ensures (forall r | r in s.results :: !Stops(steps, r)) <==>
      forall i | 0 <= i < |steps| :: StatusOf(g, rank, steps[i].action) == Error
        ==> steps[i].onError == WARN && world(steps[i].action).choice.Unselectable?
  {
    forall i | 0 <= i < |steps|
      ensures steps[i].action in g
      ensures StatusOf(g, rank, steps[i].action) == Error && steps[i].onError == WARN
        ==> world(steps[i].action).choice.Unselectable?
      ensures Stops(steps, Result(steps[i].action, StatusOf(g, rank, steps[i].action)))
        <==> StatusOf(g, rank, steps[i].action) == Error && steps[i].onError != WARN
      ensures Result(steps[i].action, StatusOf(g, rank, steps[i].action)) in s.results
    {
      DeclaredResult(steps, world, g, rank, labels, s, i);
      OwnPolicy(steps, i, StatusOf(g, rank, steps[i].action));
      if g[steps[i].action].warn { WarnedErrorExactly(g, rank, steps[i].action); }
    }
    forall r | r in s.results && Stops(steps, r)
      ensures exists i | 0 <= i < |steps| :: StatusOf(g, rank, steps[i].action) == Error && steps[i].onError != WARN
    {
      var i :| 0 <= i < |steps| && steps[i].action == r.name && steps[i].onError != WARN;
      DeclaredResult(steps, world, g, rank, labels, s, i);
    }
  }

  lemma OwnPolicy(steps: seq<Step>, i: nat, status: Status)
    requires Distinct(Names(steps)) && i < |steps|
    ensures Stops(steps, Result(steps[i].action, status)) <==> status == Error && steps[i].onError != WARN
  {
    assert forall j | 0 <= j < |steps| && steps[j].action == steps[i].action :: Names(steps)[j] == Names(steps)[i];
  }

  // ----- Steps that never got a callback -----

  predicate Executed(results: seq<StepResult>, n: string) {
    exists i | 0 <= i < |results| :: results[i].step == n
  }

  predicate FailedStep(results: seq<StepResult>, n: string) {
    StepResult(n, Error) in results
  }

  /** The step has no result although a step that it requires has failed. */
  predicate MissingAfterFailure(step: Step, results: seq<StepResult>) {
    !Executed(results, step.action) && exists i | 0 <= i < |step.require| :: FailedStep(results, step.require[i])
  }

  function SkippedSteps(steps: seq<Step>, results: seq<StepResult>): seq<string> {
    if steps == [] then []
    else
      var last := steps[|steps| - 1];
      SkippedSteps(steps[..|steps| - 1], results) + if MissingAfterFailure(last, results) then [last.action] else []
  }

  /** The same without the look-ups: no result of its own, and an error among the results of its requirements. */
  ghost predicate NeverReached(step: Step, results: seq<StepResult>) {
    && (forall r | r in results :: r.step != step.action)
    && exists d | d in step.require :: StepResult(d, Error) in results
  }

  ghost predicate Unreached(steps: seq<Step>, results: seq<StepResult>, n: string) {
    exists i | 0 <= i < |steps| :: steps[i].action == n && NeverReached(steps[i], results)
  }

  lemma NeverReachedExactly(step: Step, results: seq<StepResult>)
    ensures MissingAfterFailure(step, results) <==> NeverReached(step, results)
  {
    if r :| r in results && r.step == step.action {
      var j :| 0 <= j < |results| && results[j] == r;
      assert Executed(results, step.action);
    }
    if d :| d in step.require && StepResult(d, Error) in results {
      var i :| 0 <= i < |step.require| && step.require[i] == d;
      assert FailedStep(results, step.require[i]);
    }
  }

  lemma {:induction false} SkippedExactly(steps: seq<Step>, results: seq<StepResult>, n: string)
    ensures n in SkippedSteps(steps, results)
      <==> exists i | 0 <= i < |steps| :: steps[i].action == n && MissingAfterFailure(steps[i], results)
  {
    if steps != [] {
      var init := steps[..|steps| - 1];
      SkippedExactly(init, results, n);
      assert forall i | 0 <= i < |init| :: init[i] == steps[i];
    }
  }

  method GetSkippedSteps(steps: seq<Step>, executedResults: seq<StepResult>) returns (skipped: seq<string>)
    ensures skipped == SkippedSteps(steps, executedResults)
    ensures forall n :: n in skipped <==> Unreached(steps, executedResults, n)
  {
    var executedSteps, failedSteps: set<string> := {}, {};
    var i := 0;
    while i < |executedResults|
      invariant 0 <= i <= |executedResults|
      invariant forall n :: n in executedSteps <==> Executed(executedResults[..i], n)
    {
      executedSteps := executedSteps + {executedResults[i].step};
      ExecutedSnoc(executedResults, i);
      i := i + 1;
    }
    assert executedResults[..i] == executedResults;
    i := 0;
    while i < |executedResults|
      invariant 0 <= i <= |executedResults|
      invariant forall n :: n in failedSteps <==> FailedStep(executedResults[..i], n)
    {
      assert executedResults[..i + 1] == executedResults[..i] + [executedResults[i]];
      if executedResults[i].status == Error {
        failedSteps := failedSteps + {executedResults[i].step};
      }
      i := i + 1;
    }
    assert executedResults[..i] == executedResults;
    skipped := [];
    i := 0;
    while i < |steps|
      invariant 0 <= i <= |steps| && skipped == SkippedSteps(steps[..i], executedResults)
    {
      assert steps[..i + 1][..i] == steps[..i] && steps[..i + 1][i] == steps[i];
      if steps[i].action !in executedSteps {
        var shouldSkip, k := false, 0;
        while k < |steps[i].require|
          invariant 0 <= k <= |steps[i].require| && !shouldSkip
          invariant forall j | 0 <= j < k :: !FailedStep(executedResults, steps[i].require[j])
        {
          if steps[i].require[k] in failedSteps {
            shouldSkip := true;
            assert FailedStep(executedResults, steps[i].require[k]);
            break;
          }
          k := k + 1;
        }
        assert shouldSkip <==> MissingAfterFailure(steps[i], executedResults);
        if shouldSkip {
          skipped := skipped + [steps[i].action];
        }
      }
      i := i + 1;
    }
    assert steps[..i] == steps;
    SkippedAreUnreached(steps, executedResults);
  }

  lemma SkippedAreUnreached(steps: seq<Step>, results: seq<StepResult>)
    ensures forall n :: n in SkippedSteps(steps, results) <==> Unreached(steps, results, n)
  {
    hide MissingAfterFailure, NeverReached, SkippedSteps;
    forall i | 0 <= i < |steps| { NeverReachedExactly(steps[i], results); }
    forall n { SkippedExactly(steps, results, n); }
  }

  lemma ExecutedSnoc(results: seq<StepResult>, i: nat)
    requires i < |results|
    ensures forall n :: Executed(results[..i + 1], n) <==> Executed(results[..i], n) || n == results[i].step
  {
    forall n
      ensures Executed(results[..i + 1], n) <==> Executed(results[..i], n) || n == results[i].step
    {
      if Executed(results[..i], n) {
        var j :| 0 <= j < i && results[..i][j].step == n;
        assert results[..i + 1][j].step == n;
      }
      assert results[..i + 1][i] == results[i];
      if Executed(results[..i + 1], n) && n != results[i].step {
        var j :| 0 <= j <= i && results[..i + 1][j].step == n;
        assert results[..i][j].step == n;
      }
    }
  }

  // ----- Running the stage -----

  /** The callbacks that the runner makes for the steps that the scheduler skipped without one. */
  function SkipEvents(skipped: seq<string>): seq<Event> {
    if skipped == [] then []
    else
      var n := skipped[|skipped| - 1];
      SkipEvents(skipped[..|skipped| - 1]) + [Started(n), Completed(n, DEPENDENCY_REPORT)]
  }

  /** All callbacks of a stage, given those that the executor made. */
  function AllEvents(steps: seq<Step>, evs: seq<Event>): seq<Event> {
    evs + SkipEvents(SkippedSteps(steps, CallbackResults(evs)))
  }

  /** What the executor did: the callbacks in the order in which the manager admitted them, and the results. */
  datatype Execution = Execution(events: seq<Event>, results: seq<Result>, cancelled: bool)

  /** The run was not cancelled and no result stops the stage. */
  ghost predicate Succeeded(steps: seq<Step>, execution: Execution) {
    !execution.cancelled && forall r | r in execution.results :: !Stops(steps, r)
  }

  method Deliver(callback: OrderedStepCallback, e: Event)
    requires callback.Valid() && e.step != NO_STEP
    modifies callback, callback.manager, callback.manager.stepData.Values
    ensures callback.Valid() && callback.manager.stepData == old(callback.manager.stepData)
    ensures callback.heard == old(callback.heard) + [e]
  {
    match e
    case Started(s) => callback.OnStepStart(s);
    case Printed(s, line) => callback.OnStepOutput(s, line);
    case Failed(s, error) => callback.OnStepError(s, error);
    case Completed(s, report) => callback.OnStepComplete(s, report);
  }

  method DeliverAll(callback: OrderedStepCallback, evs: seq<Event>)
    requires callback.Valid() && forall e | e in evs :: e.step != NO_STEP
    modifies callback, callback.manager, callback.manager.stepData.Values
    ensures callback.Valid() && callback.manager.stepData == old(callback.manager.stepData)
    ensures callback.heard == old(callback.heard) + evs
  {
    var i := 0;
    while i < |evs|
      invariant 0 <= i <= |evs|
      invariant callback.Valid() && callback.manager.stepData == old(callback.manager.stepData)
      invariant callback.heard == old(callback.heard) + evs[..i]
    {
      Deliver(callback, evs[i]);
      i := i + 1;
    }
  }

  method ReportSkip(callback: OrderedStepCallback, n: string)
    requires callback.Valid() && n != NO_STEP
    modifies callback, callback.manager, callback.manager.stepData.Values
    ensures callback.Valid() && callback.manager.stepData == old(callback.manager.stepData)
    ensures callback.heard == old(callback.heard) + [Started(n), Completed(n, DEPENDENCY_REPORT)]
  {
    callback.OnStepStart(n);
    callback.OnStepComplete(n, DEPENDENCY_REPORT);
  }

  lemma SkipEventsNext(was: seq<Event>, skipped: seq<string>, i: nat)
    requires i < |skipped|
    ensures was + SkipEvents(skipped[..i + 1])
         == was + SkipEvents(skipped[..i]) + [Started(skipped[i]), Completed(skipped[i], DEPENDENCY_REPORT)]
  {
    assert skipped[..i + 1][..i] == skipped[..i];
  }

  /** Reports the skipped steps to the callback, each as started and at once completed. */
  method ReportSkipped(callback: OrderedStepCallback, skipped: seq<string>)
    requires callback.Valid() && NO_STEP !in skipped
    modifies callback, callback.manager, callback.manager.stepData.Values
    ensures callback.Valid() && callback.manager.stepData == old(callback.manager.stepData)
    ensures callback.heard == old(callback.heard) + SkipEvents(skipped)
  {
    ghost var was := callback.heard;
    var i := 0;
    while i < |skipped|
      invariant 0 <= i <= |skipped|
      invariant callback.Valid() && callback.manager.stepData == old(callback.manager.stepData)
      invariant callback.heard == was + SkipEvents(skipped[..i])
    {
      ReportSkip(callback, skipped[i]);
      SkipEventsNext(was, skipped, i);
      i := i + 1;
    }
    assert skipped[..i] == skipped;
  }

  ghost predicate ValidGraph(actions: seq<string>, steps: seq<Step>) {
    Dag.ActionsKnown(actions, steps) && Dag.Closed(Dag.GraphOf(steps)) && Dag.Acyclic(Dag.GraphOf(steps))
  }

  method CheckGraph(actions: seq<string>, steps: seq<Step>) returns (err: Option<StageError>)
    ensures err.None? <==> ValidGraph(actions, steps)
  {
    var built, _ := Dag.BuildDAG(actions, steps);
    err := if built.Success? then None else Some(InvalidGraph(built.error));
  }

  /** The executor's part: its callbacks and its verdict, or no callback at all if the graph is not valid. */
  method ExecuteStage(actions: seq<string>, steps: seq<Step>, callback: OrderedStepCallback, execution: Execution)
    returns (err: Option<StageError>)
    requires callback.Valid() && forall e | e in execution.events :: e.step != NO_STEP
    modifies callback, callback.manager, callback.manager.stepData.Values
    ensures callback.Valid() && callback.manager.stepData == old(callback.manager.stepData)
    ensures callback.heard == old(callback.heard) + Executing(actions, steps, execution.events)
    ensures err.None? <==> ValidGraph(actions, steps) && Succeeded(steps, execution)
  {
    err := CheckGraph(actions, steps);
    if err.None? {
      DeliverAll(callback, execution.events);
      err := StageVerdict(steps, execution.results, execution.cancelled);
    }
  }

  ghost function Executing(actions: seq<string>, steps: seq<Step>, evs: seq<Event>): seq<Event> {
    if ValidGraph(actions, steps) then evs else []
  }

  /** SimpleRunner.RunStage: the executor's callbacks, then the callbacks for the steps it skipped without one. */
  method RunStage(actions: seq<string>, steps: seq<Step>, verbose: bool, execution: Execution)
    returns (err: Option<StageError>, callback: OrderedStepCallback)
    requires NO_STEP !in Names(steps) && forall e | e in execution.events :: e.step != NO_STEP
    ensures callback.Valid() && callback.manager.steps == Names(steps) && callback.manager.verbose == verbose
    ensures callback.heard == AllEvents(steps, Executing(actions, steps, execution.events))
    ensures !verbose ==> forall e | e in callback.manager.log :: !e.OutputLine?
    ensures err.None? <==> ValidGraph(actions, steps) && Succeeded(steps, execution)
  {
    callback := new OrderedStepCallback(Names(steps), verbose);
    err := ExecuteStage(actions, steps, callback, execution);
    assert callback.heard == Executing(actions, steps, execution.events);
    var skipped := GetSkippedSteps(steps, callback.results);
    SkippedAreSteps(steps, callback.results);
    ReportSkipped(callback, skipped);
    SilenceDropsOutput(Names(steps), callback.heard);
    assert callback.manager.View().log == callback.manager.log;
  }

  lemma {:induction false} SkippedAreSteps(steps: seq<Step>, results: seq<StepResult>)
    ensures forall n | n in SkippedSteps(steps, results) :: n in Names(steps)
  {
    if steps != [] {
      SkippedAreSteps(steps[..|steps| - 1], results);
      assert Names(steps) == Names(steps[..|steps| - 1]) + [steps[|steps| - 1].action];
    }
  }
}
