/** A stage from end to end: scheduler, reconciliation of skipped steps and output manager together. */
module StageTranscript {
  import opened StageTypes
  import opened EventTrace
  import opened OrderedDisplay
  import opened TranscriptContent
  import opened OrderedOutput
  import opened Scheduler
  import opened StageRuns
  import opened ScheduleIndependence
  import opened StageRunner

  // ----- What a sequential execution of the stage would show -----

  /** Some direct requirement ends in error. */
  ghost predicate Blocked(g: Nodes, rank: map<string, nat>, n: string)
    requires Ranked(g, rank) && n in g
  {
    exists d | d in g[n].deps :: StatusOf(g, rank, d) == Error
  }

  ghost function ExpectedReport(g: Nodes, rank: map<string, nat>, n: string): Report
    requires Ranked(g, rank) && n in g
  {
    if Blocked(g, rank, n) then DEPENDENCY_REPORT
    else if !g[n].runIf then CONDITION_REPORT
    else FinalReport(g[n], g[n].raw)
  }

  /** Output is shown only if the step's action ran. */
  ghost function ExpectedLines(g: Nodes, rank: map<string, nat>, n: string): seq<string>
    requires Ranked(g, rank) && n in g
  {
    if !Blocked(g, rank, n) && g[n].runIf && g[n].choice.Selected? then g[n].lines else []
  }

  ghost function Expected(g: Nodes, rank: map<string, nat>, n: string): History
    requires Ranked(g, rank) && n in g
  {
    History(Blocked(g, rank, n) || g[n].runIf, true, ExpectedLines(g, rank, n), ExpectedReport(g, rank, n))
  }

  /** One block for every step, in the given order. */
  ghost function Sequential(g: Nodes, rank: map<string, nat>, names: seq<string>, verbose: bool): seq<Entry>
    requires Ranked(g, rank) && forall n | n in names :: n in g
  {
    if names == [] then []
    else
      var last := names[|names| - 1];
      Sequential(g, rank, names[..|names| - 1], verbose) + Block(last, Expected(g, rank, last), verbose)
  }

  /** The results of step `n` among all. */
  function ResultsFor(results: seq<StepResult>, n: string): seq<StepResult> {
    if results == [] then []
    else
      var r := results[|results| - 1];
      ResultsFor(results[..|results| - 1], n) + if r.step == n then [r] else []
  }

  // ----- The callbacks of one step -----

  /** A complete uncancelled run has passed on exactly the planned callbacks of every step. */
  lemma ToldAsPlanned(g: Nodes, labels: seq<Label>, s: State, n: string)
    requires Reaches(g, labels, s) && Scheduler.Done(s) && !s.cancelled && n in g
    ensures Projection(s.events, n) == Plan(g, s.failed, n)
  {
    ProtocolAlways(g, labels, s);
    FaithfulAlways(g, labels, s);
    CompleteRunHasAll(g, labels, s);
    NothingInFlight(s);
    assert Reported(g, s, n);
  }

  lemma OthersAreSilent(g: Nodes, labels: seq<Label>, s: State, n: string)
    requires Reaches(g, labels, s) && !s.cancelled && n !in g
    ensures Projection(s.events, n) == []
  {
    FaithfulAlways(g, labels, s);
    HistoryByStep(s.events, n);
    NoneProjected(s.events, n);
  }

  lemma {:induction false} NoneProjected(evs: seq<Event>, n: string)
    requires forall e | e in evs :: e.step != n
    ensures Projection(evs, n) == []
  {
    if evs != [] {
      NoneProjected(evs[..|evs| - 1], n);
    }
  }

  /** What the coordinator saw as failed is what the recursion prescribes. */
  lemma FailureIsPrescribed(g: Nodes, rank: map<string, nat>, labels: seq<Label>, s: State, n: string)
    requires Ranked(g, rank) && Reaches(g, labels, s) && Scheduler.Done(s) && !s.cancelled && n in g
    ensures n in s.failed <==> StatusOf(g, rank, n) == Error
  {
    ProtocolAlways(g, labels, s);
    FaithfulAlways(g, labels, s);
    CompleteRunHasAll(g, labels, s);
    ResultIsDetermined(g, rank, s, n);
    if n in s.failed {
      UniqueResult(g, s, Result(n, Error), Result(n, StatusOf(g, rank, n)));
    }
  }

  lemma BlockedIsFailed(g: Nodes, rank: map<string, nat>, labels: seq<Label>, s: State, n: string)
    requires Ranked(g, rank) && Reaches(g, labels, s) && Scheduler.Done(s) && !s.cancelled && n in g
    ensures FailedDependency(g, s.failed, n) <==> Blocked(g, rank, n)
  {
    forall d | d in g[n].deps
      ensures d in s.failed <==> StatusOf(g, rank, d) == Error
    {
      FailureIsPrescribed(g, rank, labels, s, d);
    }
  }

  lemma {:induction false} PrintedHistory(n: string, lines: seq<string>)
    ensures HistoryOf([Started(n)] + PrintedLines(n, lines), n) == History(true, false, lines, BLANK.report)
    ensures Disciplined([Started(n)] + PrintedLines(n, lines))
    ensures CallbackResults([Started(n)] + PrintedLines(n, lines)) == []
  {
    if lines == [] {
      assert [Started(n)] + PrintedLines(n, lines) == [] + [Started(n)];
      HistorySnoc([], Started(n), n);
      DisciplinedSnoc([], Started(n));
      CallbackResultsSnoc([], Started(n));
    } else {
      var init, last := lines[..|lines| - 1], Printed(n, lines[|lines| - 1]);
      var before := [Started(n)] + PrintedLines(n, init);
      PrintedHistory(n, init);
      assert [Started(n)] + PrintedLines(n, lines) == before + [last];
      HistorySnoc(before, last, n);
      DisciplinedSnoc(before, last);
      CallbackResultsSnoc(before, last);
      SplitLast(lines);
    }
  }

  lemma EndsHistory(evs: seq<Event>, n: string, report: Report)
    requires Disciplined(evs) && !HistoryOf(evs, n).completed
    ensures HistoryOf(evs + [Completed(n, report)], n) == HistoryOf(evs, n).(completed := true, report := report)
    ensures Disciplined(evs + [Completed(n, report)])
    ensures CallbackResults(evs + [Completed(n, report)]) == CallbackResults(evs) + [StepResult(n, report.status)]
  {
    HistorySnoc(evs, Completed(n, report), n);
    DisciplinedSnoc(evs, Completed(n, report));
    CallbackResultsSnoc(evs, Completed(n, report));
  }

  lemma FailsHistory(evs: seq<Event>, n: string, error: string)
    requires Disciplined(evs)
    ensures HistoryOf(evs + [Failed(n, error)], n) == HistoryOf(evs, n)
    ensures Disciplined(evs + [Failed(n, error)])
    ensures CallbackResults(evs + [Failed(n, error)]) == CallbackResults(evs)
  {
    HistorySnoc(evs, Failed(n, error), n);
    DisciplinedSnoc(evs, Failed(n, error));
    CallbackResultsSnoc(evs, Failed(n, error));
  }

  /** An action reports its start, its lines, perhaps an error, and one completion. */
  lemma ScriptHistory(n: string, node: Node)
    ensures HistoryOf(Script(n, node), n)
         == History(true, true, if node.choice.Selected? then node.lines else [], FinalReport(node, node.raw))
    ensures Disciplined(Script(n, node))
    ensures CallbackResults(Script(n, node)) == [StepResult(n, FinalReport(node, node.raw).status)]
  {
    var lines := if node.choice.Selected? then node.lines else [];
    var opening, report := [Started(n)] + PrintedLines(n, lines), FinalReport(node, node.raw);
    assert Opening(n, node) == opening;
    PrintedHistory(n, lines);
    if |Closing(n, node, node.raw)| == 1 {
      assert Script(n, node) == opening + [Completed(n, report)];
      EndsHistory(opening, n, report);
    } else {
      var error := Policy(node.warn, node.raw).error.value;
      assert Script(n, node) == opening + [Failed(n, error)] + [Completed(n, report)];
      FailsHistory(opening, n, error);
      EndsHistory(opening + [Failed(n, error)], n, report);
    }
  }

  lemma BriefHistory(n: string, report: Report)
    ensures HistoryOf([Completed(n, report)], n) == History(false, true, [], report)
    ensures Disciplined([Completed(n, report)])
    ensures CallbackResults([Completed(n, report)]) == [StepResult(n, report.status)]
  {
    assert [] + [Completed(n, report)] == [Completed(n, report)];
    EndsHistory([], n, report);
  }

  lemma SkipHistory(n: string, report: Report)
    ensures HistoryOf([Started(n), Completed(n, report)], n) == History(true, true, [], report)
    ensures Disciplined([Started(n), Completed(n, report)])
    ensures CallbackResults([Started(n), Completed(n, report)]) == [StepResult(n, report.status)]
  {
    PrintedHistory(n, []);
    assert [Started(n)] + PrintedLines(n, []) + [Completed(n, report)] == [Started(n), Completed(n, report)];
    EndsHistory([Started(n)] + PrintedLines(n, []), n, report);
  }

  // ----- The steps without a callback -----

  lemma ResultsForSnoc(results: seq<StepResult>, r: StepResult, n: string)
    ensures ResultsFor(results + [r], n) == ResultsFor(results, n) + if r.step == n then [r] else []
  {
    assert (results + [r])[..|results + [r]| - 1] == results;
  }

  /** The results of a step come from its own callbacks. */
  lemma {:induction false} ResultsByStep(evs: seq<Event>, n: string)
    ensures ResultsFor(CallbackResults(evs), n) == CallbackResults(Projection(evs, n))
  {
    if evs != [] {
      var init, e := evs[..|evs| - 1], evs[|evs| - 1];
      SplitLast(evs);
      ResultsByStep(init, n);
      CallbackResultsSnoc(init, e);
      ProjectionSnoc(init, e, n);
      CallbackResultsSnoc(Projection(init, n), e);
      ResultsForSnoc(CallbackResults(init), StepResult(e.step, if e.Completed? then e.report.status else Pending), n);
      assert CallbackResults(init) + [] == CallbackResults(init) && Projection(init, n) + [] == Projection(init, n);
    }
  }

  lemma {:induction false} ResultsForHas(results: seq<StepResult>, n: string, r: StepResult)
    ensures r in ResultsFor(results, n) <==> r in results && r.step == n
  {
    if results != [] {
      SplitLast(results);
      ResultsForHas(results[..|results| - 1], n, r);
    }
  }

  lemma ExecutedHasResults(results: seq<StepResult>, n: string)
    ensures Executed(results, n) <==> ResultsFor(results, n) != []
  {
    if Executed(results, n) {
      var j :| 0 <= j < |results| && results[j].step == n;
      ResultsForHas(results, n, results[j]);
    }
    if ResultsFor(results, n) != [] {
      var r := ResultsFor(results, n)[0];
      ResultsForHas(results, n, r);
      var j :| 0 <= j < |results| && results[j] == r;
      assert results[j].step == n;
    }
  }

  /** What the executor's callbacks add up to for one step. */
  lemma ExecutorResult(g: Nodes, rank: map<string, nat>, labels: seq<Label>, s: State, n: string)
    requires Ranked(g, rank) && Reaches(g, labels, s) && Scheduler.Done(s) && !s.cancelled && n in g
    ensures ResultsFor(CallbackResults(s.events), n)
         == if Blocked(g, rank, n) then [] else [StepResult(n, ExpectedReport(g, rank, n).status)]
  {
    ResultsByStep(s.events, n);
    ToldAsPlanned(g, labels, s, n);
    BlockedIsFailed(g, rank, labels, s, n);
    if !g[n].runIf {
      BriefHistory(n, CONDITION_REPORT);
    } else {
      ScriptHistory(n, g[n]);
    }
  }

  /** An error result of the scheduler is an error in the callback too. */
  lemma ErrorIsReported(g: Nodes, rank: map<string, nat>, labels: seq<Label>, s: State, n: string)
    requires Ranked(g, rank) && Reaches(g, labels, s) && Scheduler.Done(s) && !s.cancelled && n in g
    requires StatusOf(g, rank, n) == Error
    ensures FailedStep(CallbackResults(s.events), n)
  {
    ExecutorResult(g, rank, labels, s, n);
    ResultsForHas(CallbackResults(s.events), n, StepResult(n, Error));
    assert forall i | 0 <= i < |g[n].deps| :: g[n].deps[i] in g[n].deps;
    assert !Blocked(g, rank, n) && g[n].runIf;
    assert ExpectedReport(g, rank, n).status == Error;
  }

  lemma BlockerIsReported(g: Nodes, rank: map<string, nat>, labels: seq<Label>, s: State, n: string)
    requires Ranked(g, rank) && Reaches(g, labels, s) && Scheduler.Done(s) && !s.cancelled && n in g
    requires Blocked(g, rank, n)
    ensures exists j | 0 <= j < |g[n].deps| :: FailedStep(CallbackResults(s.events), g[n].deps[j])
  {
    hide CallbackResults, FailedStep;
    var d :| d in g[n].deps && StatusOf(g, rank, d) == Error;
    ErrorIsReported(g, rank, labels, s, d);
    var j :| 0 <= j < |g[n].deps| && g[n].deps[j] == d;
    assert FailedStep(CallbackResults(s.events), g[n].deps[j]);
  }

  /**
   The steps that got no callback are exactly those that the scheduler skipped because a direct
   requirement failed, and the reconciliation finds each of them.
   */
  lemma SilentStepsAreBlocked(steps: seq<Step>, world: string -> Behaviour, g: Nodes, rank: map<string, nat>,
        labels: seq<Label>, s: State, i: nat)
    requires g == NodesOf(steps, world) && RunsThrough(steps, g, rank, labels, s) && i < |steps|
    ensures steps[i].action in g
    ensures !Executed(CallbackResults(s.events), steps[i].action) <==> Blocked(g, rank, steps[i].action)
    ensures MissingAfterFailure(steps[i], CallbackResults(s.events)) <==> Blocked(g, rank, steps[i].action)
  {
    hide CallbackResults, NodesOf, FailedStep;
    var n := steps[i].action;
    DeclaredResult(steps, world, g, rank, labels, s, i);
    ExecutorResult(g, rank, labels, s, n);
    ExecutedHasResults(CallbackResults(s.events), n);
    if Blocked(g, rank, n) { BlockerIsReported(g, rank, labels, s, n); }
  }

  lemma LastIsNew(steps: seq<Step>, results: seq<StepResult>)
    requires Distinct(Names(steps)) && steps != []
    ensures steps[|steps| - 1].action !in SkippedSteps(steps[..|steps| - 1], results)
  {
    var init, last := steps[..|steps| - 1], steps[|steps| - 1];
    forall i | 0 <= i < |init|
      ensures init[i].action != last.action
    {
      assert Names(steps)[i] != Names(steps)[|init|];
    }
    SkippedExactly(init, results, last.action);
  }

  lemma {:induction false} SkippedDistinct(steps: seq<Step>, results: seq<StepResult>)
    requires Distinct(Names(steps))
    ensures Distinct(SkippedSteps(steps, results))
  {
    if steps != [] {
      var init, last := steps[..|steps| - 1], steps[|steps| - 1];
      assert forall i | 0 <= i < |init| :: Names(init)[i] == Names(steps)[i];
      SkippedDistinct(init, results);
      LastIsNew(steps, results);
      if MissingAfterFailure(last, results) { DistinctSnoc(SkippedSteps(init, results), last.action); }
    }
  }

  lemma SkipProjection(evs: seq<Event>, m: string, n: string)
    ensures Projection(evs + [Started(m), Completed(m, DEPENDENCY_REPORT)], n)
         == Projection(evs, n) + if m == n then [Started(m), Completed(m, DEPENDENCY_REPORT)] else []
  {
    ProjectionSnoc(evs, Started(m), n);
    ProjectionSnoc(evs + [Started(m)], Completed(m, DEPENDENCY_REPORT), n);
    assert evs + [Started(m), Completed(m, DEPENDENCY_REPORT)]
      == evs + [Started(m)] + [Completed(m, DEPENDENCY_REPORT)];
  }

  lemma {:induction false} SkipEventsProjection(skipped: seq<string>, n: string)
    requires Distinct(skipped)
    ensures Projection(SkipEvents(skipped), n)
      == if n in skipped then [Started(n), Completed(n, DEPENDENCY_REPORT)] else []
  {
    if skipped != [] {
      var init, last := skipped[..|skipped| - 1], skipped[|skipped| - 1];
      SplitLast(skipped);
      SkipEventsProjection(init, n);
      SkipProjection(SkipEvents(init), last, n);
    }
  }

  // ----- All callbacks of the stage -----

  ghost function AllOf(g: Nodes, rank: map<string, nat>, n: string): seq<Event>
    requires Ranked(g, rank) && n in g
  {
    if Blocked(g, rank, n) then [Started(n), Completed(n, DEPENDENCY_REPORT)]
    else if !g[n].runIf then [Completed(n, CONDITION_REPORT)]
    else Script(n, g[n])
  }

  /** With the reconciliation every declared step has told its whole story. */
  lemma StepCallbacks(steps: seq<Step>, world: string -> Behaviour, g: Nodes, rank: map<string, nat>,
        labels: seq<Label>, s: State, i: nat)
    requires g == NodesOf(steps, world) && RunsThrough(steps, g, rank, labels, s) && i < |steps|
    ensures steps[i].action in g
    ensures Projection(AllEvents(steps, s.events), steps[i].action) == AllOf(g, rank, steps[i].action)
  {
    var n, results := steps[i].action, CallbackResults(s.events);
    SilentStepsAreBlocked(steps, world, g, rank, labels, s, i);
    ToldAsPlanned(g, labels, s, n);
    BlockedIsFailed(g, rank, labels, s, n);
    ProjectionConcat(s.events, SkipEvents(SkippedSteps(steps, results)), n);
    SkippedDistinct(steps, results);
    SkipEventsProjection(SkippedSteps(steps, results), n);
    SkippedExactly(steps, results, n);
    assert forall j | 0 <= j < |steps| && steps[j].action == n :: Names(steps)[j] == Names(steps)[i];
  }

  lemma UndeclaredCallbacks(steps: seq<Step>, world: string -> Behaviour, g: Nodes, rank: map<string, nat>,
        labels: seq<Label>, s: State, n: string)
    requires g == NodesOf(steps, world) && RunsThrough(steps, g, rank, labels, s) && n !in Names(steps)
    ensures Projection(AllEvents(steps, s.events), n) == []
  {
    var skipped := SkippedSteps(steps, CallbackResults(s.events));
    NodesAreNames(steps, world, n);
    OthersAreSilent(g, labels, s, n);
    ProjectionConcat(s.events, SkipEvents(skipped), n);
    SkippedDistinct(steps, CallbackResults(s.events));
    SkipEventsProjection(skipped, n);
    SkippedAreSteps(steps, CallbackResults(s.events));
  }

  lemma WholeStory(g: Nodes, rank: map<string, nat>, n: string)
    requires Ranked(g, rank) && n in g
    ensures HistoryOf(AllOf(g, rank, n), n) == Expected(g, rank, n)
    ensures Disciplined(AllOf(g, rank, n))
    ensures CallbackResults(AllOf(g, rank, n)) == [StepResult(n, ExpectedReport(g, rank, n).status)]
  {
    if Blocked(g, rank, n) {
      SkipHistory(n, DEPENDENCY_REPORT);
    } else if !g[n].runIf {
      BriefHistory(n, CONDITION_REPORT);
    } else {
      ScriptHistory(n, g[n]);
    }
  }

  /** What the whole stage told about one declared step. */
  lemma StepStory(steps: seq<Step>, world: string -> Behaviour, g: Nodes, rank: map<string, nat>, labels: seq<Label>,
        s: State, n: string)
    requires g == NodesOf(steps, world) && RunsThrough(steps, g, rank, labels, s) && n in Names(steps)
    ensures n in g
    ensures HistoryOf(AllEvents(steps, s.events), n) == Expected(g, rank, n)
    ensures Disciplined(Projection(AllEvents(steps, s.events), n))
    ensures ResultsFor(CallbackResults(AllEvents(steps, s.events)), n)
      == [StepResult(n, ExpectedReport(g, rank, n).status)]
  {
    var i :| 0 <= i < |steps| && Names(steps)[i] == n;
    StepCallbacks(steps, world, g, rank, labels, s, i);
    WholeStory(g, rank, n);
    HistoryByStep(AllEvents(steps, s.events), n);
    ResultsByStep(AllEvents(steps, s.events), n);
  }

  lemma {:induction false} ProjectionHas(evs: seq<Event>, e: Event)
    requires e in evs
    ensures e in Projection(evs, e.step)
  {
    if e != evs[|evs| - 1] {
      SplitLast(evs);
      ProjectionHas(evs[..|evs| - 1], e);
    }
  }

  /** All the stage's callbacks are of declared steps, and each step's are in order. */
  lemma StageIsDisciplined(steps: seq<Step>, world: string -> Behaviour, g: Nodes, rank: map<string, nat>,
        labels: seq<Label>, s: State)
    requires g == NodesOf(steps, world) && RunsThrough(steps, g, rank, labels, s)
    ensures Disciplined(AllEvents(steps, s.events))
    ensures forall e | e in AllEvents(steps, s.events) :: e.step in Names(steps)
  {
    var evs := AllEvents(steps, s.events);
    forall n
      ensures Disciplined(Projection(evs, n))
    {
      if n in Names(steps) {
        StepStory(steps, world, g, rank, labels, s, n);
      } else {
        UndeclaredCallbacks(steps, world, g, rank, labels, s, n);
      }
    }
    DisciplinedByStep(evs);
    forall e | e in evs
      ensures e.step in Names(steps)
    {
      ProjectionHas(evs, e);
      if e.step !in Names(steps) { UndeclaredCallbacks(steps, world, g, rank, labels, s, e.step); }
    }
  }

  lemma {:induction false} BlocksAreSequential(g: Nodes, rank: map<string, nat>, names: seq<string>, hs: Histories,
        verbose: bool, k: nat)
    requires Ranked(g, rank) && Distinct(names) && k <= |names|
    requires forall n | n in names :: n in g && n in hs && hs[n] == Expected(g, rank, n)
    ensures ClosedBlocks(names, hs, verbose, k) == Sequential(g, rank, names[..k], verbose)
  {
    if k > 0 {
      BlocksAreSequential(g, rank, names, hs, verbose, k - 1);
      assert names[..k][..k - 1] == names[..k - 1];
    }
  }

  lemma AllClosed(m: Display, hs: Histories, g: Nodes, rank: map<string, nat>)
    requires Tracks(m, hs) && Ranked(g, rank) && Distinct(m.steps)
    requires forall n | n in m.steps :: n in g && n in hs && hs[n] == Expected(g, rank, n)
    ensures m.log == Sequential(g, rank, m.steps, m.verbose)
  {
    hide Read, FirstSeen, ClosedBlocks, Sequential;
    FrontierIs(m, |m.steps|);
    assert m.log == ClosedBlocks(m.steps, hs, m.verbose, |m.steps|) + [];
    BlocksAreSequential(g, rank, m.steps, hs, m.verbose, |m.steps|);
    assert m.steps[..|m.steps|] == m.steps;
  }

  /**
   The stage from end to end. For every complete uncancelled interleaving of an acyclic stage with distinct
   names, once the skipped steps have been reported, the transcript is the sequential one: one whole block
   per declared step, in declaration order, with the step's own lines and the status it must end with.
   */
  lemma StageShowsSequentialTranscript(steps: seq<Step>, world: string -> Behaviour, g: Nodes, rank: map<string, nat>,
        labels: seq<Label>, s: State, verbose: bool)
    requires NO_STEP !in Names(steps)
    requires g == NodesOf(steps, world) && RunsThrough(steps, g, rank, labels, s)
    ensures forall n | n in Names(steps) :: n in g
    ensures Run(Fresh(Names(steps), verbose), AllEvents(steps, s.events)).log
      == Sequential(g, rank, Names(steps), verbose)
  {
    var names, evs := Names(steps), AllEvents(steps, s.events);
    StageIsDisciplined(steps, world, g, rank, labels, s);
    TranscriptIsSequential(names, verbose, evs);
    forall n | n in names
      ensures n in g && HistoryOf(evs, n) == Expected(g, rank, n)
    {
      StepStory(steps, world, g, rank, labels, s, n);
    }
    AllClosed(Run(Fresh(names, verbose), evs), HistoriesOf(names, evs), g, rank);
  }

  /** And the summary holds exactly one result for every declared step, with the status it must end with. */
  lemma StageSummaryIsComplete(steps: seq<Step>, world: string -> Behaviour, g: Nodes, rank: map<string, nat>,
        labels: seq<Label>, s: State)
    requires g == NodesOf(steps, world) && RunsThrough(steps, g, rank, labels, s)
    ensures forall n | n in Names(steps) ::
      && n in g
      && ResultsFor(CallbackResults(AllEvents(steps, s.events)), n)
        == [StepResult(n, ExpectedReport(g, rank, n).status)]
    ensures forall r | r in CallbackResults(AllEvents(steps, s.events)) :: r.step in Names(steps)
  {
    var evs := AllEvents(steps, s.events);
    forall n | n in Names(steps) { StepStory(steps, world, g, rank, labels, s, n); }
    forall r | r in CallbackResults(evs)
      ensures r.step in Names(steps)
    {
      ResultsForHas(CallbackResults(evs), r.step, r);
      ResultsByStep(evs, r.step);
      if r.step !in Names(steps) { UndeclaredCallbacks(steps, world, g, rank, labels, s, r.step); }
    }
  }
}
