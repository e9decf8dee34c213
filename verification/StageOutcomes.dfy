/** What each step of a stage ends with, case by case, in the results, the summary and the transcript. */
module StageOutcomes {
  import opened StageTypes
  import opened EventTrace
  import opened OrderedDisplay
  import opened TranscriptContent
  import opened OrderedOutput
  import opened Scheduler
  import opened StageRuns
  import opened ScheduleIndependence
  import opened StageRunner
  import opened StageTranscript

  // ----- The cases -----

  /** The status of a selected action that returned `raw`. */
  predicate RunStatus(raw: Raw, warn: bool, status: Status) {
    && (raw.status == Error && warn ==> status == Warn)
    && (raw.status == Error && !warn ==> status == Error)
    && (raw.status != Error ==> status == raw.status)
  }

  /** What the step callback is told of it: the action's own message, or an error that came with a good status. */
  predicate RunReport(raw: Raw, warn: bool, report: Report) {
    && (raw.status == Error && warn ==> report == Report(Warn, raw.message))
    && (raw.status == Error && !warn ==> report == Report(Error, raw.message))
    && (raw.status == Warn ==> report == Report(Warn, raw.message))
    && (raw.status == Skipped ==> report == Report(Skipped, raw.message))
    && (raw.status in [OK, Pending, Running] && raw.error.None? ==> report == Report(OK, "executed successfully"))
    && (raw.status in [OK, Pending, Running] && raw.error.Some? ==> report == Report(Error, raw.error.value))
  }

  /** The status that the scheduler records for a step. */
  predicate Gets(node: Node, blocked: bool, status: Status) {
    if blocked || !node.runIf then status == Skipped
    else
      match node.choice
      case Unselectable(_) => status == Error
      case NoMatch => status == Skipped
      case Selected => RunStatus(node.raw, node.warn, status)
  }

  /** The report at the end of the step's block. */
  predicate Tells(node: Node, blocked: bool, report: Report) {
    if blocked then report == Report(Skipped, "skipped (dependency failed)")
    else if !node.runIf then report == Report(Skipped, "skipped (condition not met)")
    else
      match node.choice
      case Unselectable(error) => report == Report(Error, error)
      case NoMatch => report == Report(Skipped, "no matching variant")
      case Selected => RunReport(node.raw, node.warn, report)
  }

  /** The lines that the step's action printed, if it ran. */
  function Printing(node: Node, blocked: bool): seq<string> {
    if !blocked && node.runIf && node.choice == Selected then node.lines else []
  }

  /** The action returned an error that no policy took back, with a status that does not explain it. */
  predicate Complains(raw: Raw, warn: bool) {
    raw.error.Some? && raw.status != Warn && raw.status != Skipped && !(raw.status == Error && warn)
  }

  /** The callbacks of one step, with its report at the end. */
  predicate Story(n: string, node: Node, blocked: bool, evs: seq<Event>, report: Report) {
    var lines := Printing(node, blocked);
    var k := |lines|;
    if !blocked && !node.runIf then evs == [Completed(n, report)]
    else
      && |evs| >= k + 2 && evs[0] == Started(n) && (forall i | 0 <= i < k :: evs[1 + i] == Printed(n, lines[i]))
      && evs[1 + k..] == (if !blocked && node.choice == Selected && Complains(node.raw, node.warn)
                          then [Failed(n, node.raw.error.value)] else []) + [Completed(n, report)]
  }

  lemma RunByCases(raw: Raw, warn: bool)
    ensures RunStatus(raw, warn, Policy(warn, raw).status)
    ensures RunReport(raw, warn, FinalReport(Node([], true, warn, Selected, [], raw), raw))
  {
  }

  lemma BlockedByIndex(g: Nodes, rank: map<string, nat>, n: string)
    requires Ranked(g, rank) && n in g
    ensures Blocked(g, rank, n) <==> exists i | 0 <= i < |g[n].deps| :: StatusOf(g, rank, g[n].deps[i]) == Error
  {
    if Blocked(g, rank, n) {
      var d :| d in g[n].deps && StatusOf(g, rank, d) == Error;
      var i :| 0 <= i < |g[n].deps| && g[n].deps[i] == d;
      assert StatusOf(g, rank, g[n].deps[i]) == Error;
    }
    if i :| 0 <= i < |g[n].deps| && StatusOf(g, rank, g[n].deps[i]) == Error {
      assert g[n].deps[i] in g[n].deps;
    }
  }

  /** The status that the recursion over the graph prescribes, case by case. */
  lemma StatusByCases(g: Nodes, rank: map<string, nat>, n: string)
    requires Ranked(g, rank) && n in g
    ensures Gets(g[n], Blocked(g, rank, n), StatusOf(g, rank, n))
  {
    hide Blocked;
    BlockedByIndex(g, rank, n);
    RunByCases(g[n].raw, g[n].warn);
  }

  lemma ReportByCases(g: Nodes, rank: map<string, nat>, n: string)
    requires Ranked(g, rank) && n in g
    ensures Tells(g[n], Blocked(g, rank, n), ExpectedReport(g, rank, n))
    ensures ExpectedLines(g, rank, n) == Printing(g[n], Blocked(g, rank, n))
  {
    hide Blocked;
    RunByCases(g[n].raw, g[n].warn);
  }

  /** The callbacks that a step makes over the whole stage, case by case. */
  lemma StoryByCases(g: Nodes, rank: map<string, nat>, n: string)
    requires Ranked(g, rank) && n in g
    ensures Story(n, g[n], Blocked(g, rank, n), AllOf(g, rank, n), ExpectedReport(g, rank, n))
  {
    hide Blocked, FinalReport, PrintedLines;
    if !Blocked(g, rank, n) && g[n].runIf { ScriptByCases(n, g[n]); }
  }

  lemma ScriptByCases(n: string, node: Node)
    requires node.runIf
    ensures Story(n, node, false, Script(n, node), FinalReport(node, node.raw))
  {
    hide FinalReport;
    var k := |Printing(node, false)|;
    assert |Opening(n, node)| == k + 1;
    assert Script(n, node)[1 + k..] == Closing(n, node, node.raw);
  }

  // ----- The reports in a transcript -----

  /** The reports at the ends of the blocks of step `n`. */
  function ReportsIn(log: seq<Entry>, n: string): seq<Report> {
    if log == [] then []
    else
      var e := log[|log| - 1];
      ReportsIn(log[..|log| - 1], n) + if e.ResultLine? && e.step == n then [e.report] else []
  }

  lemma ReportsSnoc(log: seq<Entry>, e: Entry, n: string)
    ensures ReportsIn(log + [e], n) == ReportsIn(log, n) + if e.ResultLine? && e.step == n then [e.report] else []
  {
    assert (log + [e])[..|log + [e]| - 1] == log;
  }

  lemma {:induction false} ReportsOutput(log: seq<Entry>, s: string, lines: seq<string>, verbose: bool, n: string)
    ensures ReportsIn(log + OutputLines(s, lines, verbose), n) == ReportsIn(log, n)
  {
    if lines == [] || !verbose {
      assert log + OutputLines(s, lines, verbose) == log;
    } else {
      var init, last := lines[..|lines| - 1], OutputLine(s, lines[|lines| - 1]);
      ReportsOutput(log, s, init, verbose, n);
      assert log + OutputLines(s, lines, verbose) == (log + OutputLines(s, init, verbose)) + [last];
      ReportsSnoc(log + OutputLines(s, init, verbose), last, n);
    }
  }

  lemma BlockShows(log: seq<Entry>, s: string, h: History, verbose: bool, n: string)
    ensures ReportsIn(log + Block(s, h, verbose), n) == ReportsIn(log, n) + if s == n then [h.report] else []
    ensures LoggedLines(log + Block(s, h, verbose), n)
         == LoggedLines(log, n) + if s == n && verbose then h.lines else []
  {
    hide LoggedLines, ReportsIn;
    var started := log + [StartLine(s)];
    var printed := started + OutputLines(s, h.lines, verbose);
    assert log + Block(s, h, verbose) == printed + [ResultLine(s, h.report)];
    ReportsSnoc(log, StartLine(s), n);
    ReportsOutput(started, s, h.lines, verbose, n);
    ReportsSnoc(printed, ResultLine(s, h.report), n);
    LoggedSnoc(log, StartLine(s), n);
    SilentLines(started, s, h.lines, verbose, n);
    LoggedSnoc(printed, ResultLine(s, h.report), n);
  }

  lemma SilentLines(log: seq<Entry>, s: string, lines: seq<string>, verbose: bool, n: string)
    ensures LoggedLines(log + OutputLines(s, lines, verbose), n)
         == LoggedLines(log, n) + if s == n && verbose then lines else []
  {
    if verbose {
      LoggedOutput(log, s, lines, n);
    } else {
      assert log + [] == log && LoggedLines(log, n) + [] == LoggedLines(log, n);
    }
  }

  /** A sequential transcript holds one report of each step, and its lines in verbose mode only. */
  lemma {:induction false} SequentialShows(g: Nodes, rank: map<string, nat>, names: seq<string>, verbose: bool,
        n: string)
    requires Ranked(g, rank) && Distinct(names) && forall m | m in names :: m in g
    ensures var log := Sequential(g, rank, names, verbose);
      if n in names
      then ReportsIn(log, n) == [ExpectedReport(g, rank, n)]
        && LoggedLines(log, n) == (if verbose then ExpectedLines(g, rank, n) else [])
      else ReportsIn(log, n) == [] && LoggedLines(log, n) == []
  {
    hide Block, ExpectedReport, ExpectedLines, Ranked;
    if names != [] {
      var init, last := names[..|names| - 1], names[|names| - 1];
      SplitLast(names);
      DistinctSnoc(init, last);
      SequentialShows(g, rank, init, verbose, n);
      BlockShows(Sequential(g, rank, init, verbose), last, Expected(g, rank, last), verbose, n);
    }
  }

  // ----- A complete run -----

  /** A declared step with what its condition, its variants and its action come to. */
  function Declared(step: Step, w: Behaviour): Node {
    Node(step.require, w.runIf, step.onError == "warn", w.choice, w.lines, w.raw)
  }

  ghost predicate FailedBefore(step: Step, results: seq<Result>) {
    exists d | d in step.require :: Result(d, Error) in results
  }

  /** Results, summary and transcript agree on one step, and are what the cases say. */
  ghost predicate Concluded(step: Step, w: Behaviour, results: seq<Result>, summary: seq<StepResult>,
                            log: seq<Entry>, verbose: bool) {
    var n, node, blocked := step.action, Declared(step, w), FailedBefore(step, results);
    && (exists status :: Result(n, status) in results)
    && (forall status | Result(n, status) in results :: Gets(node, blocked, status))
    && |ReportsIn(log, n)| == 1 && Tells(node, blocked, ReportsIn(log, n)[0])
    && ResultsFor(summary, n) == [StepResult(n, ReportsIn(log, n)[0].status)]
    && LoggedLines(log, n) == (if verbose then Printing(node, blocked) else [])
  }

  ghost predicate ResultIs(results: seq<Result>, n: string, prescribed: Status) {
    forall status :: Result(n, status) in results <==> status == prescribed
  }

  lemma DeclaredNode(steps: seq<Step>, world: string -> Behaviour, i: nat)
    requires Distinct(Names(steps)) && i < |steps|
    ensures steps[i].action in NodesOf(steps, world)
    ensures NodesOf(steps, world)[steps[i].action] == Declared(steps[i], world(steps[i].action))
  {
    GraphOfDistinct(steps, i);
    PolicyOfDistinct(steps, i);
  }

  /** A direct requirement that ends in error is one with an error among the results. */
  lemma BlockedByResults(steps: seq<Step>, world: string -> Behaviour, g: Nodes, rank: map<string, nat>,
        labels: seq<Label>, s: State, i: nat)
    requires g == NodesOf(steps, world) && RunsThrough(steps, g, rank, labels, s) && i < |steps|
    ensures steps[i].action in g
    ensures FailedBefore(steps[i], s.results) <==> Blocked(g, rank, steps[i].action)
    ensures ResultIs(s.results, steps[i].action, StatusOf(g, rank, steps[i].action))
  {
    hide NodesOf, StatusOf;
    var n := steps[i].action;
    DeclaredResult(steps, world, g, rank, labels, s, i);
    forall d | d in steps[i].require
      ensures Result(d, Error) in s.results <==> StatusOf(g, rank, d) == Error
    {
      FailureIsPrescribed(g, rank, labels, s, d);
      ProtocolAlways(g, labels, s);
    }
    assert forall status :: Result(n, status) in s.results ==> Result(n, status).name == n;
  }

  /** All callbacks about one step, in order: those of its action, or those of the reconciliation. */
  lemma StepTellsStory(steps: seq<Step>, world: string -> Behaviour, g: Nodes, rank: map<string, nat>,
        labels: seq<Label>, s: State, i: nat)
    returns (report: Report)
    requires g == NodesOf(steps, world) && RunsThrough(steps, g, rank, labels, s) && i < |steps|
    ensures var n, node := steps[i].action, Declared(steps[i], world(steps[i].action));
      && Story(n, node, FailedBefore(steps[i], s.results), Projection(AllEvents(steps, s.events), n), report)
      && Tells(node, FailedBefore(steps[i], s.results), report)
  {
    hide NodesOf, Blocked, FailedBefore, AllEvents, Story, Tells, StatusOf, AllOf, ExpectedReport;
    var n := steps[i].action;
    DeclaredNode(steps, world, i);
    BlockedByResults(steps, world, g, rank, labels, s, i);
    StepCallbacks(steps, world, g, rank, labels, s, i);
    StoryByCases(g, rank, n);
    ReportByCases(g, rank, n);
    report := ExpectedReport(g, rank, n);
  }

  lemma StepConcluded(steps: seq<Step>, world: string -> Behaviour, g: Nodes, rank: map<string, nat>,
        labels: seq<Label>, s: State, verbose: bool, i: nat)
    requires NO_STEP !in Names(steps) && i < |steps|
    requires g == NodesOf(steps, world) && RunsThrough(steps, g, rank, labels, s)
    ensures var evs := AllEvents(steps, s.events);
      Concluded(steps[i], world(steps[i].action), s.results, CallbackResults(evs),
                Run(Fresh(Names(steps), verbose), evs).log, verbose)
  {
    hide NodesOf, Blocked, FailedBefore, AllEvents, Run, ReportsIn, LoggedLines, Gets, Tells, Printing, StatusOf;
    hide ExpectedReport, ExpectedLines, CallbackResults, ResultsFor, Sequential;
    var n := steps[i].action;
    assert Names(steps)[i] == n;
    DeclaredNode(steps, world, i);
    BlockedByResults(steps, world, g, rank, labels, s, i);
    StageShowsSequentialTranscript(steps, world, g, rank, labels, s, verbose);
    StageSummaryIsComplete(steps, world, g, rank, labels, s);
    SequentialShows(g, rank, Names(steps), verbose, n);
    StatusByCases(g, rank, n);
    ReportByCases(g, rank, n);
    assert Result(n, StatusOf(g, rank, n)) in s.results;
  }

  /**
   Every step of a complete uncancelled run, case by case: its status among the results, its one entry in the
   summary, and the report and the lines of its block.
   */
  lemma StageConcludes(steps: seq<Step>, world: string -> Behaviour, rank: map<string, nat>, labels: seq<Label>,
        s: State, verbose: bool)
    requires NO_STEP !in Names(steps) && RunsThrough(steps, NodesOf(steps, world), rank, labels, s)
    ensures var evs := AllEvents(steps, s.events);
      forall i | 0 <= i < |steps| ::
        Concluded(steps[i], world(steps[i].action), s.results, CallbackResults(evs),
                  Run(Fresh(Names(steps), verbose), evs).log, verbose)
  {
    hide Concluded, NodesOf, AllEvents, Run, CallbackResults;
    forall i | 0 <= i < |steps| {
      StepConcluded(steps, world, NodesOf(steps, world), rank, labels, s, verbose, i);
    }
  }

  /** The same of the objects: what RunStage leaves in the writer and in the callback's results. */
  method RunCompleteStage(actions: seq<string>, steps: seq<Step>, verbose: bool, execution: Execution,
                          ghost world: string -> Behaviour, ghost rank: map<string, nat>,
                          ghost labels: seq<Label>, ghost s: State)
    returns (err: Option<StageError>, callback: OrderedStepCallback)
    requires NO_STEP !in Names(steps) && ValidGraph(actions, steps)
    requires RunsThrough(steps, NodesOf(steps, world), rank, labels, s)
    requires execution == Execution(s.events, s.results, false)
    ensures forall n | n in Names(steps) :: n in NodesOf(steps, world)
    ensures callback.manager.log == Sequential(NodesOf(steps, world), rank, Names(steps), verbose)
    ensures forall i | 0 <= i < |steps| ::
      Concluded(steps[i], world(steps[i].action), execution.results, callback.results, callback.manager.log, verbose)
    ensures !verbose ==> forall e | e in callback.manager.log :: !e.OutputLine?
    ensures err.None? <==> forall i | 0 <= i < |steps| && Result(steps[i].action, Error) in execution.results ::
      steps[i].onError == "warn" && world(steps[i].action).choice.Unselectable?
  {
    hide Concluded;
    ghost var g := NodesOf(steps, world);
    FaithfulAlways(g, labels, s);
    forall e | e in s.events
      ensures e.step != NO_STEP
    {
      NodesAreNames(steps, world, e.step);
    }
    err, callback := RunStage(actions, steps, verbose, execution);
    StageShowsSequentialTranscript(steps, world, g, rank, labels, s, verbose);
    StageConcludes(steps, world, rank, labels, s, verbose);
    VerdictByResults(steps, world, g, rank, labels, s);
    assert callback.manager.View().log == callback.manager.log;
  }

  lemma VerdictByResults(steps: seq<Step>, world: string -> Behaviour, g: Nodes, rank: map<string, nat>,
        labels: seq<Label>, s: State)
    requires g == NodesOf(steps, world) && RunsThrough(steps, g, rank, labels, s)
    ensures (forall r | r in s.results :: !Stops(steps, r)) <==>
      forall i | 0 <= i < |steps| && Result(steps[i].action, Error) in s.results ::
        steps[i].onError == "warn" && world(steps[i].action).choice.Unselectable?
  {
    hide NodesOf, Stops, FailedBefore, Blocked, StatusOf;
    VerdictOfRun(steps, world, g, rank, labels, s);
    forall i | 0 <= i < |steps| { BlockedByResults(steps, world, g, rank, labels, s, i); }
  }
}
