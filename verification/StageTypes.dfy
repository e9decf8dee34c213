/** The records that the executor, the output manager and the stage runner exchange. */
module StageTypes {
  datatype Option<+T> = None | Some(value: T)

  /** Both `Status` and `StepStatus`: the two enumerations have the same members. */
  datatype Status = Pending | Running | OK | Warn | Error | Skipped

  /** What a step callback is told when a step ends. */
  datatype Report = Report(status: Status, message: string)

  /** One callback: OnStepStart, OnStepOutput, OnStepError or OnStepComplete. */
  datatype Event =
    | Started(step: string)
    | Printed(step: string, line: string)
    | Failed(step: string, error: string)
    | Completed(step: string, report: Report)

  /** A step of a stage; the `if` and `only` fields are not read by the modelled code. */
  datatype Step = Step(action: string, require: seq<string>, onError: string)

  /** An entry that OrderedStepCallback collects for the summary. */
  datatype StepResult = StepResult(step: string, status: Status)

  function Names(steps: seq<Step>): (names: seq<string>)
    ensures |names| == |steps|
    ensures forall i | 0 <= i < |steps| :: names[i] == steps[i].action
  {
    seq(|steps|, i requires 0 <= i < |steps| => steps[i].action)
  }

  ghost predicate Distinct<T>(s: seq<T>) {
    forall i, j | 0 <= i < j < |s| :: s[i] != s[j]
  }

  lemma DistinctSnoc<T>(s: seq<T>, x: T)
    ensures Distinct(s + [x]) <==> Distinct(s) && x !in s
  {
    var all := s + [x];
    assert all[|s|] == x;
    assert forall i | 0 <= i < |s| :: all[i] == s[i];
    if Distinct(all) {
      forall i, j | 0 <= i < j < |s|
        ensures s[i] != s[j]
      {
        assert all[i] != all[j];
      }
    }
  }

  lemma SplitLast<T>(s: seq<T>)
    requires s != []
    ensures s == s[..|s| - 1] + [s[|s| - 1]]
  {
  }
}

/** What a sequence of callbacks says about each step on its own. */
module EventTrace {
  import opened StageTypes

  /** What a step has reported so far: its lines in order of arrival, and the report of its completion. */
  datatype History = History(started: bool, completed: bool, lines: seq<string>, report: Report)

  const BLANK := History(false, false, [], Report(Pending, ""))

  function Advance(h: History, e: Event): History {
    match e
    case Started(_) => h.(started := true)
    case Printed(_, line) => h.(lines := h.lines + [line])
    case Failed(_, _) => h
    case Completed(_, report) => h.(completed := true, report := report)
  }

  function HistoryOf(evs: seq<Event>, s: string): History {
    if evs == [] then BLANK
    else
      var h, e := HistoryOf(evs[..|evs| - 1], s), evs[|evs| - 1];
      if e.step == s then Advance(h, e) else h
  }

  /** The callbacks of step `s` alone. */
  function Projection(evs: seq<Event>, s: string): seq<Event> {
    if evs == [] then []
    else
      var e := evs[|evs| - 1];
      Projection(evs[..|evs| - 1], s) + if e.step == s then [e] else []
  }

  /** What a step may report next: output only between its start and its completion, and one completion. */
  predicate Admits(h: History, e: Event) {
    && (e.Printed? ==> h.started && !h.completed)
    && (e.Completed? ==> !h.completed)
  }

  ghost predicate Disciplined(evs: seq<Event>) {
    forall i | 0 <= i < |evs| :: Admits(HistoryOf(evs[..i], evs[i].step), evs[i])
  }

  lemma HistorySnoc(evs: seq<Event>, e: Event, s: string)
    ensures HistoryOf(evs + [e], s) == if e.step == s then Advance(HistoryOf(evs, s), e) else HistoryOf(evs, s)
  {
    assert (evs + [e])[..|evs + [e]| - 1] == evs;
  }

  lemma ProjectionSnoc(evs: seq<Event>, e: Event, s: string)
    ensures Projection(evs + [e], s) == Projection(evs, s) + if e.step == s then [e] else []
  {
    assert (evs + [e])[..|evs + [e]| - 1] == evs;
  }

  /** A step's history is all in its projection. */
  lemma {:induction false} HistoryByStep(evs: seq<Event>, s: string)
    ensures HistoryOf(evs, s) == HistoryOf(Projection(evs, s), s)
    ensures forall e | e in Projection(evs, s) :: e.step == s
  {
    if evs != [] {
      var init, e := evs[..|evs| - 1], evs[|evs| - 1];
      HistoryByStep(init, s);
      if e.step == s {
        HistorySnoc(Projection(init, s), e, s);
      } else {
        assert Projection(evs, s) == Projection(init, s);
      }
    }
  }

  lemma {:induction false} ProjectionConcat(a: seq<Event>, b: seq<Event>, s: string)
    ensures Projection(a + b, s) == Projection(a, s) + Projection(b, s)
  {
    if b == [] {
      assert a + b == a;
    } else {
      var init, e := b[..|b| - 1], b[|b| - 1];
      SplitLast(b);
      assert a + b == (a + init) + [e];
      ProjectionConcat(a, init, s);
      ProjectionSnoc(a + init, e, s);
      ProjectionSnoc(init, e, s);
    }
  }

  lemma DisciplinedSnoc(evs: seq<Event>, e: Event)
    ensures Disciplined(evs + [e]) <==> Disciplined(evs) && Admits(HistoryOf(evs, e.step), e)
  {
    var all := evs + [e];
    assert all[..|evs|] == evs && all[|evs|] == e;
    assert forall i | 0 <= i < |evs| :: all[..i] == evs[..i] && all[i] == evs[i];
    if Disciplined(all) {
      forall i | 0 <= i < |evs|
        ensures Admits(HistoryOf(evs[..i], evs[i].step), evs[i])
      {
        assert Admits(HistoryOf(all[..i], all[i].step), all[i]);
      }
    }
  }

  lemma ProjectionsDisciplinedInit(evs: seq<Event>, e: Event, s: string)
    requires Disciplined(Projection(evs + [e], s))
    ensures Disciplined(Projection(evs, s))
    ensures e.step == s ==> Admits(HistoryOf(Projection(evs, s), s), e)
  {
    ProjectionSnoc(evs, e, s);
    if e.step == s {
      DisciplinedSnoc(Projection(evs, s), e);
    } else {
      assert Projection(evs + [e], s) == Projection(evs, s);
    }
  }

  /** Discipline is a matter of each step on its own, whatever the interleaving. */
  lemma {:induction false} DisciplinedByStep(evs: seq<Event>)
    requires forall s :: Disciplined(Projection(evs, s))
    ensures Disciplined(evs)
  {
    if evs != [] {
      var init, e := evs[..|evs| - 1], evs[|evs| - 1];
      SplitLast(evs);
      forall s
        ensures Disciplined(Projection(init, s))
      {
        ProjectionsDisciplinedInit(init, e, s);
      }
      DisciplinedByStep(init);
      ProjectionsDisciplinedInit(init, e, e.step);
      HistoryByStep(init, e.step);
      DisciplinedSnoc(init, e);
    }
  }
}
