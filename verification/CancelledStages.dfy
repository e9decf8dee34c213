/** What every run of a stage shows, a cancelled one included. */
module CancelledStages {
  import opened StageTypes
  import opened EventTrace
  import opened OrderedDisplay
  import opened TranscriptContent
  import opened OrderedOutput
  import opened Scheduler
  import opened StageRuns
  import opened StageRunner
  import opened StageTranscript

  // ----- What a step has told and will tell -----

  ghost predicate Own(evs: seq<Event>, n: string) {
    forall e | e in evs :: e.step == n
  }

  /** What step `n` has told, with what its worker has left to tell, is in order. */
  ghost predicate TameStep(g: Nodes, s: State, n: string)
    requires n in g
  {
    var told := Projection(s.events, n);
    if n in s.workers then
      match s.workers[n]
      case Acting(todo) => told + todo == Opening(n, g[n])
      case Reporting(todo, _) => Own(todo, n) && Disciplined(told + todo)
      case Ready(_) => Disciplined(told)
    else if Decisive(s, n) then Disciplined(told)
    else told == []
  }

  ghost predicate Tame(g: Nodes, s: State) {
    && (forall n | n in g :: TameStep(g, s, n))
    && (forall e | e in s.events :: e.step in g)
  }

  lemma NothingTold()
    ensures Disciplined([])
  {
  }

  /** Wherever a cancelled action stops, its completion ends what it has told. */
  lemma ClosesTamely(n: string, node: Node, raw: Raw, told: seq<Event>, todo: seq<Event>)
    requires told != [] && told + todo == Opening(n, node)
    ensures Own(Closing(n, node, raw), n) && Disciplined(told + Closing(n, node, raw))
  {
    hide HistoryOf, Disciplined, Opening, Closing, PrintedLines, FinalReport;
    var lines := if node.choice.Selected? then node.lines else [];
    OpeningPrefix(n, node, told, todo);
    PrintedHistory(n, lines[..|told| - 1]);
    var failed := ClosingForm(n, node, raw);
    EndsTamely(n, told, failed, FinalReport(node, raw));
    assert told + Closing(n, node, raw) == told + failed + [Completed(n, FinalReport(node, raw))];
  }

  lemma EndsTamely(n: string, told: seq<Event>, failed: seq<Event>, report: Report)
    requires Disciplined(told) && !HistoryOf(told, n).completed
    requires failed == [] || (|failed| == 1 && failed[0].Failed? && failed[0].step == n)
    ensures Disciplined(told + failed + [Completed(n, report)])
  {
    hide HistoryOf, Disciplined;
    if failed == [] {
      assert told + failed == told;
      EndsHistory(told, n, report);
    } else {
      FailsHistory(told, n, failed[0].error);
      assert told + failed == told + [Failed(n, failed[0].error)];
      EndsHistory(told + failed, n, report);
    }
  }

  /** Perhaps an error, then one completion. */
  lemma ClosingForm(n: string, node: Node, raw: Raw) returns (failed: seq<Event>)
    ensures Closing(n, node, raw) == failed + [Completed(n, FinalReport(node, raw))]
    ensures failed == [] || (|failed| == 1 && failed[0].Failed? && failed[0].step == n)
  {
    hide FinalReport;
    failed := Closing(n, node, raw)[..|Closing(n, node, raw)| - 1];
  }

  lemma OpeningPrefix(n: string, node: Node, told: seq<Event>, todo: seq<Event>)
    requires told != [] && told + todo == Opening(n, node)
    ensures var lines := if node.choice.Selected? then node.lines else [];
      |told| - 1 <= |lines| && told == [Started(n)] + PrintedLines(n, lines[..|told| - 1])
  {
    var lines := if node.choice.Selected? then node.lines else [];
    assert Opening(n, node) == [Started(n)] + PrintedLines(n, lines);
    assert told == Opening(n, node)[..|told|];
  }

  // ----- Every label keeps it -----

  lemma ControlTame(g: Nodes, s: State, l: Label)
    requires Guard(g, s, l) && Tame(g, s) && Protocol(g, s)
    requires l.Cancel? || l.CheckContext? || l.Scan? || l.CheckDone? || l.Close? || l.Mark?
    ensures Tame(g, Next(g, s, l))
  {
    hide Projection, Disciplined, Opening, Own;
    var t := Next(g, s, l);
    assert forall n | n in g :: TameStep(g, s, n) ==> TameStep(g, t, n);
  }

  lemma DecidedTame(g: Nodes, s: State)
    requires Protocol(g, s) && Guard(g, s, Decide) && TameStep(g, s, s.pc.name)
    ensures TameStep(g, Next(g, s, Decide), s.pc.name)
  {
    var n, t := s.pc.name, Next(g, s, Decide);
    assert n in InHand(s) && n in s.executing && n !in s.workers && !Decisive(s, n);
    NothingTold();
    if FailedDependency(g, s.failed, n) {
      assert Decisive(t, n) && n !in t.workers;
    } else if !g[n].runIf {
      ProjectionSnoc(s.events, Completed(n, CONDITION_REPORT), n);
      BriefHistory(n, CONDITION_REPORT);
      assert Decisive(t, n) && n !in t.workers;
    } else {
      assert t.events == s.events && t.workers[n] == Acting(Opening(n, g[n]));
    }
  }

  lemma OthersTame(g: Nodes, s: State, m: string)
    requires Guard(g, s, Decide) && m in g && m != s.pc.name && TameStep(g, s, m)
    ensures TameStep(g, Next(g, s, Decide), m)
  {
    hide Projection, Disciplined, Opening, Own, FailedDependency;
    var t := Next(g, s, Decide);
    ProjectionSnoc(s.events, Completed(s.pc.name, CONDITION_REPORT), m);
    assert Projection(s.events, m) + [] == Projection(s.events, m);
    assert Projection(t.events, m) == Projection(s.events, m);
    assert m in t.workers <==> m in s.workers;
    assert Decisive(t, m) == Decisive(s, m);
  }

  lemma DecideTame(g: Nodes, s: State)
    requires Protocol(g, s) && Guard(g, s, Decide) && Tame(g, s)
    ensures Tame(g, Next(g, s, Decide))
  {
    hide Disciplined, Opening, Own, TameStep, Projection, FailedDependency;
    DecidedTame(g, s);
    forall m | m in g && m != s.pc.name { OthersTame(g, s, m); }
    assert forall e | e in Next(g, s, Decide).events :: e in s.events || e.step == s.pc.name;
  }

  lemma SendTame(g: Nodes, s: State, l: Label)
    requires Protocol(g, s) && Guard(g, s, l) && Tame(g, s) && (l.SendSkip? || l.Send?)
    ensures Tame(g, Next(g, s, l))
  {
    hide Disciplined, Opening, Own;
    var t := Next(g, s, l);
    var r := if l.SendSkip? then s.pc.result else Result(l.name, s.workers[l.name].status);
    NamesSnoc(s.chan, r);
    forall m | m in g
      ensures TameStep(g, t, m)
    {
      assert TameStep(g, s, m);
      assert m != r.name ==> Decisive(t, m) == Decisive(s, m);
    }
  }

  lemma EmitStep(g: Nodes, s: State, n: string, m: string)
    requires Guard(g, s, Emit(n)) && m in g && TameStep(g, s, m)
    requires s.workers[n].todo[0].step == n && Own(s.workers[n].todo[1..], n)
    ensures TameStep(g, Emitting(s, n), m)
  {
    hide Projection, Disciplined, Opening, Own;
    var todo := s.workers[n].todo;
    ProjectionSnoc(s.events, todo[0], m);
    if m == n {
      assert Projection(s.events, n) + todo == Projection(s.events, n) + [todo[0]] + todo[1..];
    } else {
      assert Projection(Emitting(s, n).events, m) == Projection(s.events, m);
    }
  }

  lemma EmitTame(g: Nodes, s: State, n: string)
    requires Guard(g, s, Emit(n)) && Tame(g, s) && n in g
    ensures Tame(g, Emitting(s, n))
  {
    hide Projection, Disciplined, Opening, TameStep;
    TodoIsOwn(g, s, n);
    assert Own(s.workers[n].todo[1..], n);
    forall m | m in g { EmitStep(g, s, n, m); }
  }

  lemma TodoIsOwn(g: Nodes, s: State, n: string)
    requires n in g && n in s.workers && !s.workers[n].Ready? && TameStep(g, s, n)
    ensures Own(s.workers[n].todo, n)
  {
    var told, todo := Projection(s.events, n), s.workers[n].todo;
    if s.workers[n].Acting? {
      PrintedSteps(n, g[n]);
      forall e | e in todo
        ensures e in told + todo
      {
      }
    }
  }

  lemma ReturnTame(g: Nodes, s: State, n: string, raw: Raw)
    requires Guard(g, s, Return(n, raw)) && TameStep(g, s, n)
    ensures TameStep(g, Next(g, s, Return(n, raw)), n)
  {
    hide Projection, Disciplined, Closing;
    var told, todo := Projection(s.events, n), s.workers[n].todo;
    assert |Opening(n, g[n])| >= 1;
    ClosesTamely(n, g[n], raw, told, todo);
  }

  lemma WorkerTame(g: Nodes, s: State, l: Label)
    requires Protocol(g, s) && Guard(g, s, l) && Tame(g, s) && (l.Return? || l.Check?)
    ensures Tame(g, Next(g, s, l))
  {
    hide Projection, Disciplined, Opening, Closing, Own;
    var t, n := Next(g, s, l), l.name;
    assert n in s.executing && Supported(g, s, n);
    forall m | m in g
      ensures TameStep(g, t, m)
    {
      assert TameStep(g, s, m);
      if m != n {
        assert Decisive(t, m) == Decisive(s, m);
      } else if l.Return? {
        ReturnTame(g, s, n, l.raw);
      } else {
        assert Projection(s.events, n) + [] == Projection(s.events, n);
      }
    }
  }

  lemma ReceiveTame(g: Nodes, s: State)
    requires Protocol(g, s) && s.chan != [] && Tame(g, s)
    ensures Tame(g, Received(s))
  {
    hide Disciplined, Opening, Own;
    var t := Received(s);
    ReceiveNames(s);
    assert NamesOf(s.chan)[0] == s.chan[0].name;
    forall m | m in g
      ensures TameStep(g, t, m)
    {
      assert TameStep(g, s, m);
      assert Decisive(t, m) == Decisive(s, m);
    }
  }

  lemma NextTame(g: Nodes, s: State, l: Label)
    requires Protocol(g, s) && Guard(g, s, l) && Tame(g, s)
    ensures Tame(g, Next(g, s, l))
  {
    hide Tame;
    match l
    case Decide => DecideTame(g, s);
    case SendSkip => SendTame(g, s, l);
    case Send(_) => SendTame(g, s, l);
    case Emit(n) =>
      assert n in s.executing && Supported(g, s, n);
      EmitTame(g, s, n);
    case Return(_, _) => WorkerTame(g, s, l);
    case Check(_) => WorkerTame(g, s, l);
    case Receive => ReceiveTame(g, s);
    case _ => ControlTame(g, s, l);
  }

  lemma {:induction false} TameAlways(g: Nodes, labels: seq<Label>, s: State)
    requires Reaches(g, labels, s)
    ensures Tame(g, s)
  {
    if labels != [] {
      var init, l := labels[..|labels| - 1], labels[|labels| - 1];
      var prior := After(g, init).value;
      TameAlways(g, init, prior);
      ProtocolAlways(g, init, prior);
      NextTame(g, prior, l);
    }
  }

  // ----- The callbacks of every run are in order -----

  lemma {:induction false} DisciplinedPrefix(a: seq<Event>, b: seq<Event>)
    requires Disciplined(a + b)
    ensures Disciplined(a)
  {
    if b == [] {
      assert a + b == a;
    } else {
      SplitLast(b);
      assert a + b == (a + b[..|b| - 1]) + [b[|b| - 1]];
      DisciplinedSnoc(a + b[..|b| - 1], b[|b| - 1]);
      DisciplinedPrefix(a, b[..|b| - 1]);
    }
  }

  lemma OpeningIsTame(n: string, node: Node)
    ensures Disciplined(Opening(n, node))
  {
    var lines := if node.choice.Selected? then node.lines else [];
    assert Opening(n, node) == [Started(n)] + PrintedLines(n, lines);
    PrintedHistory(n, lines);
  }

  /** At any time of any run, cancelled or not, what each step has told is in order. */
  lemma ToldInOrder(g: Nodes, labels: seq<Label>, s: State, n: string)
    requires Reaches(g, labels, s)
    ensures Disciplined(Projection(s.events, n))
    ensures n !in g ==> Projection(s.events, n) == []
  {
    hide Disciplined, Projection, Opening;
    TameAlways(g, labels, s);
    NothingTold();
    if n in g {
      assert TameStep(g, s, n);
      OpeningIsTame(n, g[n]);
      if n in s.workers && !s.workers[n].Ready? {
        DisciplinedPrefix(Projection(s.events, n), s.workers[n].todo);
      }
    } else {
      NoneProjected(s.events, n);
    }
  }

  lemma RunsAreDisciplined(g: Nodes, labels: seq<Label>, s: State)
    requires Reaches(g, labels, s)
    ensures Disciplined(s.events) && forall e | e in s.events :: e.step in g
  {
    hide Disciplined, Projection;
    TameAlways(g, labels, s);
    forall n { ToldInOrder(g, labels, s, n); }
    DisciplinedByStep(s.events);
  }

  /** A step without a result has not completed. */
  lemma {:induction false} NotExecutedNotCompleted(evs: seq<Event>, n: string)
    requires !Executed(CallbackResults(evs), n)
    ensures !HistoryOf(evs, n).completed
  {
    if evs != [] {
      var init, e := evs[..|evs| - 1], evs[|evs| - 1];
      var before, all := CallbackResults(init), CallbackResults(evs);
      assert forall i | 0 <= i < |before| :: all[i] == before[i];
      if e.Completed? { assert all[|before|].step == e.step; }
      NotExecutedNotCompleted(init, n);
    }
  }

  /** So the reconciliation can still report it. */
  lemma SkipsAreTame(told: seq<Event>, n: string)
    requires Disciplined(told) && !HistoryOf(told, n).completed
    ensures Disciplined(told + [Started(n), Completed(n, DEPENDENCY_REPORT)])
  {
    HistorySnoc(told, Started(n), n);
    DisciplinedSnoc(told, Started(n));
    EndsHistory(told + [Started(n)], n, DEPENDENCY_REPORT);
    assert told + [Started(n), Completed(n, DEPENDENCY_REPORT)]
      == told + [Started(n)] + [Completed(n, DEPENDENCY_REPORT)];
  }

  /** The callbacks of any run with those of the reconciliation are of declared steps, and each step's in order. */
  lemma AllInOrder(steps: seq<Step>, world: string -> Behaviour, g: Nodes, labels: seq<Label>, s: State)
    requires Distinct(Names(steps)) && g == NodesOf(steps, world) && Reaches(g, labels, s)
    ensures Disciplined(AllEvents(steps, s.events))
    ensures forall e | e in AllEvents(steps, s.events) :: e.step in Names(steps)
  {
    hide Disciplined, Projection, NodesOf;
    var evs := AllEvents(steps, s.events);
    forall n
      ensures Disciplined(Projection(evs, n))
      ensures n !in Names(steps) ==> Projection(evs, n) == []
    {
      NodesAreNames(steps, world, n);
      StepInOrder(steps, g, labels, s, n);
    }
    DisciplinedByStep(evs);
    forall e | e in evs
      ensures e.step in Names(steps)
    {
      ProjectionHas(evs, e);
    }
  }

  lemma StepInOrder(steps: seq<Step>, g: Nodes, labels: seq<Label>, s: State, n: string)
    requires Distinct(Names(steps)) && Reaches(g, labels, s) && (n in g <==> n in Names(steps))
    ensures Disciplined(Projection(AllEvents(steps, s.events), n))
    ensures n !in Names(steps) ==> Projection(AllEvents(steps, s.events), n) == []
  {
    hide Disciplined, Projection, HistoryOf;
    var results := CallbackResults(s.events);
    var skipped, told := SkippedSteps(steps, results), Projection(s.events, n);
    ToldInOrder(g, labels, s, n);
    ProjectionConcat(s.events, SkipEvents(skipped), n);
    SkippedDistinct(steps, results);
    SkippedAreSteps(steps, results);
    SkipEventsProjection(skipped, n);
    if n in skipped {
      SkippedExactly(steps, results, n);
      NotExecutedNotCompleted(s.events, n);
      HistoryByStep(s.events, n);
      SkipsAreTame(told, n);
    } else {
      assert told + [] == told;
    }
  }

  // ----- What is shown of them -----

  /** When steps print before they complete only, all they print is heard. */
  lemma {:induction false} AllIsHeard(steps: seq<string>, evs: seq<Event>, s: string)
    requires NO_STEP !in steps && s in steps && Disciplined(evs)
    ensures Heard(Fresh(steps, true), evs, s) == HistoryOf(evs, s).lines
  {
    hide Run;
    if evs != [] {
      var init, e := evs[..|evs| - 1], evs[|evs| - 1];
      SplitLast(evs);
      DisciplinedSnoc(init, e);
      AllIsHeard(steps, init, s);
      RunKnows(steps, true, init);
      RunRegisters(Fresh(steps, true), init);
      assert HistoryOf(init, s).lines + [] == HistoryOf(init, s).lines;
    }
  }

  lemma NothingLost(steps: seq<string>, evs: seq<Event>, s: string)
    requires Disciplined(evs)
    ensures forall i | 0 <= i < |evs| :: !LosesAt(steps, evs, s, i)
  {
    hide TurnOf;
    forall i | 0 <= i < |evs|
      ensures !LosesAt(steps, evs, s, i)
    {
      assert evs == evs[..i] + evs[i..];
      DisciplinedPrefix(evs[..i], evs[i..]);
      if !HistoryOf(evs[..i], s).started { NoOutputBeforeStart(evs[..i], s); }
    }
  }

  lemma UnshownUnlogged(steps: seq<string>, evs: seq<Event>, s: string)
    requires NO_STEP !in steps && s in steps && !Run(Fresh(steps, true), evs).IsShown(s)
    requires forall e | e in evs :: e.step != NO_STEP
    ensures LoggedLines(Run(Fresh(steps, true), evs).log, s) == []
  {
    hide Run, Heard, Discarded, LoggedLines;
    LinesAccountedFor(steps, evs, s);
  }

  /** Of disciplined callbacks, all lines of a step whose turn has come are written, and none of any other. */
  lemma LinesShownExactly(steps: seq<string>, evs: seq<Event>, s: string)
    requires NO_STEP !in steps && s in steps && Disciplined(evs)
    requires forall e | e in evs :: e.step != NO_STEP
    ensures LoggedLines(Run(Fresh(steps, true), evs).log, s)
         == if TurnOf(steps, evs, s) then HistoryOf(evs, s).lines else []
  {
    hide Run, Heard, LoggedLines, TurnOf, LosesAt, Disciplined, HistoryOf;
    ShownExactly(steps, true, evs, s);
    if TurnOf(steps, evs, s) && (HistoryOf(evs, s).started || HistoryOf(evs, s).completed) {
      LosslessExactly(steps, evs, s);
      NothingLost(steps, evs, s);
      AllIsHeard(steps, evs, s);
    } else {
      UnshownUnlogged(steps, evs, s);
      if TurnOf(steps, evs, s) { NoOutputBeforeStart(evs, s); }
    }
  }

  /** A step that completes before an earlier one does is hidden with all its lines. */
  lemma StepBehindIsHidden(a: string, b: string, lines: seq<string>, report: Report)
    requires a != b && a != NO_STEP && b != NO_STEP
    ensures var evs := [Started(b)] + PrintedLines(b, lines) + [Completed(b, report)];
      HistoryOf(evs, b).lines == lines && LoggedLines(Run(Fresh([a, b], true), evs).log, b) == []
  {
    hide Run, LoggedLines, HistoryOf, Disciplined, TurnOf;
    var opening := [Started(b)] + PrintedLines(b, lines);
    var evs := opening + [Completed(b, report)];
    assert forall e | e in evs :: e.step == b;
    hide PrintedLines;
    PrintedHistory(b, lines);
    EndsHistory(opening, b, report);
    NeverMentioned(evs, a);
    NotItsTurn(a, b, evs);
    LinesShownExactly([a, b], evs, b);
  }

  lemma NotItsTurn(a: string, b: string, evs: seq<Event>)
    requires a != b && !HistoryOf(evs, a).completed
    ensures !TurnOf([a, b], evs, b)
  {
    hide HistoryOf;
    assert [a, b][0] == a;
  }

  lemma {:induction false} NeverMentioned(evs: seq<Event>, n: string)
    requires forall e | e in evs :: e.step != n
    ensures HistoryOf(evs, n) == BLANK
  {
    if evs != [] { NeverMentioned(evs[..|evs| - 1], n); }
  }

  /**
   Every run of a stage, a cancelled one included, shows the sequential rendering of what its steps reported:
   no order of events loses a line of a step whose turn has come. The lines of the others stay in the buffer,
   so a cancelled stage hides them.
   */
  lemma EveryRunShowsItsSteps(steps: seq<Step>, world: string -> Behaviour, g: Nodes, labels: seq<Label>, s: State,
        verbose: bool)
    requires NO_STEP !in Names(steps) && Distinct(Names(steps))
    requires g == NodesOf(steps, world) && Reaches(g, labels, s)
    ensures var names, evs := Names(steps), AllEvents(steps, s.events);
      Tracks(Run(Fresh(names, verbose), evs), HistoriesOf(names, evs))
    ensures var names, evs := Names(steps), AllEvents(steps, s.events);
      forall n | n in names :: LoggedLines(Run(Fresh(names, true), evs).log, n)
        == if TurnOf(names, evs, n) then HistoryOf(evs, n).lines else []
  {
    hide Run, LoggedLines, TurnOf, Disciplined, HistoryOf, Tracks, HistoriesOf;
    var names, evs := Names(steps), AllEvents(steps, s.events);
    AllInOrder(steps, world, g, labels, s);
    TranscriptIsSequential(names, verbose, evs);
    forall n | n in names { LinesShownExactly(names, evs, n); }
  }

  // ----- After the cancellation -----

  /** The step will end in error: its worker has not checked the context yet, or it did after the cancellation. */
  ghost predicate Doomed(s: State, n: string) {
    && s.cancelled
    && if n in s.workers then s.workers[n].Ready? ==> s.workers[n].status == Error else Result(n, Error) in Sent(s)
  }

  lemma DoomedNext(g: Nodes, s: State, l: Label, n: string)
    requires Protocol(g, s) && Guard(g, s, l) && Doomed(s, n)
    ensures Doomed(Next(g, s, l), n)
  {
    hide FailedDependency, Opening, Closing, FinalStatus, Ordered, Failures, Ending;
    NextSends(g, s, l);
    assert l.Decide? ==> s.pc.name in InHand(s);
  }

  /**
   Whatever an action returns, if it is under way at the cancellation its result is an error, unless its worker
   had already checked the context.
   */
  lemma {:induction false} CancelledActionsFail(g: Nodes, before: seq<Label>, s: State, more: seq<Label>, t: State,
        n: string)
    requires Reaches(g, before, s) && Reaches(g, before + more, t)
    requires s.cancelled && n in s.workers && !s.workers[n].Ready?
    ensures Doomed(t, n)
    ensures Scheduler.Done(t) ==> Result(n, Error) in t.results
  {
    if more == [] {
      assert before + more == before;
    } else {
      var init := more[..|more| - 1];
      assert (before + more)[..|before + more| - 1] == before + init;
      var u := After(g, before + init).value;
      CancelledActionsFail(g, before, s, init, u, n);
      ProtocolAlways(g, before + init, u);
      DoomedNext(g, u, more[|more| - 1], n);
    }
    ProtocolAlways(g, before + more, t);
    if Scheduler.Done(t) {
      NothingInFlight(t);
      assert t.results + [] == t.results;
    }
  }

  /** The one step that has passed the last check of the context before the cancellation. */
  function LastTaken(s: State): set<string> {
    if s.pc.Marking? && s.pc.ready != [] then {s.pc.ready[0]} else {}
  }

  lemma NothingNewTaken(g: Nodes, s: State, l: Label)
    requires Protocol(g, s) && Guard(g, s, l) && s.cancelled
    ensures var t := Next(g, s, l);
      t.cancelled && t.executing + t.completed + LastTaken(t) <= s.executing + s.completed + LastTaken(s)
  {
    hide FailedDependency, Opening, Closing, FinalStatus, Ordered, Failures, Ending;
    NextStarts(g, s, l);
  }

  /** After the cancellation no step is started, but for one that had passed the last check. */
  lemma {:induction false} CancellationStopsStarts(g: Nodes, before: seq<Label>, s: State, more: seq<Label>, t: State)
    requires Reaches(g, before, s) && Reaches(g, before + more, t) && s.cancelled
    ensures t.cancelled && t.executing + t.completed + LastTaken(t) <= s.executing + s.completed + LastTaken(s)
    ensures StartsOf(g, before + more) <= StartsOf(g, before) + LastTaken(s)
  {
    if more == [] {
      assert before + more == before;
    } else {
      var init := more[..|more| - 1];
      assert (before + more)[..|before + more| - 1] == before + init;
      var u := After(g, before + init).value;
      CancellationStopsStarts(g, before, s, init, u);
      ProtocolAlways(g, before + init, u);
      NothingNewTaken(g, u, more[|more| - 1]);
    }
    StartsAreTracked(g, before, s);
    StartsAreTracked(g, before + more, t);
  }
}
