/**
 The ordered output manager as a state machine over values.

 A display holds what the manager knows about every step, the step whose block is open, and the log of
 everything written so far. The functions below say what each callback writes; they look only at the
 frontier, the first declared step that has not completed. The classes in OrderedOutput, whose loops
 rescan all the steps, are proved to do the same.
 */
module OrderedDisplay {
  import opened StageTypes

  /** A line of the transcript, with the step on whose behalf it was written. */
  datatype Entry =
    | StartLine(step: string)
    | OutputLine(step: string, line: string)
    | ResultLine(step: string, report: Report)

  datatype StepData = StepData(
    started: bool, completed: bool, shown: bool, report: Report, output: seq<string>, error: Option<string>)

  const NEW_STEP := StepData(false, false, false, Report(Pending, ""), [], None)

  /** The name that `current` holds while no block is open. */
  const NO_STEP := ""

  datatype Display = Display(
    steps: seq<string>, verbose: bool, data: map<string, StepData>, current: string, log: seq<Entry>)
  {
    predicate IsStarted(s: string) { s in data && data[s].started }

    predicate IsCompleted(s: string) { s in data && data[s].completed }

    predicate IsShown(s: string) { s in data && data[s].shown }

    function FrontierFrom(i: nat): (f: nat)
      requires i <= |steps|
      ensures i <= f <= |steps|
      ensures forall j | i <= j < f :: IsCompleted(steps[j])
      ensures f < |steps| ==> !IsCompleted(steps[f])
      decreases |steps| - i
    {
      if i < |steps| && IsCompleted(steps[i]) then FrontierFrom(i + 1) else i
    }

    /** The index of the first declared step that has not completed. */
    function Frontier(): (f: nat)
      ensures f <= |steps|
    {
      FrontierFrom(0)
    }

    /** The step whose block should be open: the frontier step, once it has started. */
    function Open(): Option<string> {
      var f := Frontier();
      if f < |steps| && IsStarted(steps[f]) then Some(steps[f]) else None
    }

    ghost predicate Registered() {
      forall s | s in steps :: s != NO_STEP && s in data
    }

    /**
     NOTHING displayable is withheld and nothing else is displayed: the shown steps are the completed
     prefix and the open step, and `current` is the open step.
     */
    ghost predicate Consistent() {
      && Registered()
      && (forall s | s in data :: data[s].shown <==> (s in steps[..Frontier()] || Open() == Some(s)))
      && current == (if Open().Some? then Open().value else NO_STEP)
    }

    /** The step's own block can be opened by its start: it is the frontier and not shown yet. */
    predicate CanOpen(s: string) {
      Frontier() < |steps| && steps[Frontier()] == s && !IsShown(s)
    }
  }

  function Fresh(steps: seq<string>, verbose: bool): Display {
    Display(steps, verbose, map s | s in steps :: NEW_STEP, NO_STEP, [])
  }

  lemma FrontierIs(m: Display, f: nat)
    requires f <= |m.steps|
    requires forall j | 0 <= j < f :: m.IsCompleted(m.steps[j])
    requires f < |m.steps| ==> !m.IsCompleted(m.steps[f])
    ensures m.Frontier() == f
  {
  }

  // ----- What each callback writes -----

  /** Output lines are written in verbose mode only. */
  function OutputLines(s: string, lines: seq<string>, verbose: bool): seq<Entry> {
    if verbose then seq(|lines|, i requires 0 <= i < |lines| => OutputLine(s, lines[i])) else []
  }

  /** Writes the start of `s` and its buffered output, and leaves the block open. */
  function OpenBlock(m: Display, s: string): Display
    requires s in m.data
  {
    m.(log := m.log + [StartLine(s)] + OutputLines(s, m.data[s].output, m.verbose),
       data := m.data[s := m.data[s].(shown := true, output := [])],
       current := s)
  }

  /** Writes the start of `s` and leaves the block open; whatever is buffered stays buffered. */
  function StartOnly(m: Display, s: string): Display
    requires s in m.data
  {
    m.(log := m.log + [StartLine(s)], data := m.data[s := m.data[s].(shown := true)], current := s)
  }

  /** Writes the whole block of a step that completed before it could be shown. */
  function WholeBlock(m: Display, s: string): Display
    requires s in m.data
  {
    var o := OpenBlock(m, s);
    o.(log := o.log + [ResultLine(s, m.data[s].report)], current := NO_STEP)
  }

  /** Writes the blocks of the first `k` steps that are not shown yet. */
  function CloseUpTo(m: Display, k: nat): (r: Display)
    requires m.Registered() && k <= |m.steps|
    ensures r.steps == m.steps && r.verbose == m.verbose && r.data.Keys == m.data.Keys
    ensures forall s | s in m.data ::
      r.data[s].started == m.data[s].started && r.data[s].completed == m.data[s].completed
  {
    if k == 0 then m
    else
      var p := CloseUpTo(m, k - 1);
      if p.IsShown(m.steps[k - 1]) then p else WholeBlock(p, m.steps[k - 1])
  }

  /** Closes the completed prefix, then opens the frontier step if it has started. */
  function CatchUp(m: Display): Display
    requires m.Registered()
  {
    var p := CloseUpTo(m, m.Frontier());
    if m.Open().Some? && !p.IsShown(m.Open().value) then OpenBlock(p, m.Open().value) else p
  }

  function OnStart(m: Display, s: string): Display {
    if s !in m.data then m
    else
      var m1 := m.(data := m.data[s := m.data[s].(started := true)]);
      if m1.CanOpen(s) then StartOnly(m1, s) else m1
  }

  function OnOutput(m: Display, s: string, line: string): Display {
    m.(data := if s in m.data then m.data[s := m.data[s].(output := m.data[s].output + [line])] else m.data,
       log := m.log + if m.current == s then OutputLines(s, [line], m.verbose) else [])
  }

  function OnError(m: Display, s: string, error: string): Display {
    if s in m.data then m.(data := m.data[s := m.data[s].(error := Some(error))]) else m
  }

  /** The completion of `s` before the manager catches up. */
  function Completing(m: Display, s: string, report: Report): Display {
    var m1 := if s in m.data then m.(data := m.data[s := m.data[s].(completed := true, report := report)]) else m;
    if m.current != s then m1
    else m1.(log := m.log + if s in m.data then [ResultLine(s, report)] else [], current := NO_STEP)
  }

  function OnComplete(m: Display, s: string, report: Report): Display
    requires m.Registered()
  {
    CatchUp(Completing(m, s, report))
  }

  function Apply(m: Display, e: Event): (r: Display)
    requires m.Registered()
    ensures r.steps == m.steps && r.verbose == m.verbose && r.Registered()
  {
    match e
    case Started(s) => OnStart(m, s)
    case Printed(s, line) => OnOutput(m, s, line)
    case Failed(s, error) => OnError(m, s, error)
    case Completed(s, report) => OnComplete(m, s, report)
  }

  function Run(m: Display, evs: seq<Event>): (r: Display)
    requires m.Registered()
    ensures r.steps == m.steps && r.verbose == m.verbose && r.Registered()
  {
    if evs == [] then m else Apply(Run(m, evs[..|evs| - 1]), evs[|evs| - 1])
  }

  lemma RunSnoc(m: Display, evs: seq<Event>, e: Event)
    requires m.Registered()
    ensures Run(m, evs + [e]) == Apply(Run(m, evs), e)
  {
    assert (evs + [e])[..|evs + [e]| - 1] == evs;
  }

  lemma {:induction false} RunConcat(m: Display, a: seq<Event>, b: seq<Event>)
    requires m.Registered()
    ensures Run(m, a + b) == Run(Run(m, a), b)
  {
    if b == [] {
      assert a + b == a;
    } else {
      assert (a + b)[..|a + b| - 1] == a + b[..|b| - 1];
      RunConcat(m, a, b[..|b| - 1]);
    }
  }

  // ----- The shape of the transcript -----

  /** A reading of a log as blocks: the steps whose blocks are closed, and the one whose block is open. */
  datatype Shape = Bad | Blocks(closed: seq<string>, open: Option<string>)

  function Extend(shape: Shape, e: Entry): Shape {
    match (shape, e)
    case (Blocks(closed, None), StartLine(s)) => Blocks(closed, Some(s))
    case (Blocks(closed, Some(t)), OutputLine(s, _)) => if s == t then shape else Bad
    case (Blocks(closed, Some(t)), ResultLine(s, _)) => if s == t then Blocks(closed + [s], None) else Bad
    case _ => Bad
  }

  function Read(log: seq<Entry>): Shape {
    if log == [] then Blocks([], None) else Extend(Read(log[..|log| - 1]), log[|log| - 1])
  }

  lemma ReadSnoc(log: seq<Entry>, e: Entry)
    ensures Read(log + [e]) == Extend(Read(log), e)
  {
    assert (log + [e])[..|log + [e]| - 1] == log;
  }

  lemma {:induction false} ReadOutput(log: seq<Entry>, s: string, lines: seq<string>, verbose: bool)
    requires Read(log).Blocks? && Read(log).open == Some(s)
    ensures Read(log + OutputLines(s, lines, verbose)) == Read(log)
  {
    if lines == [] || !verbose {
      assert log + OutputLines(s, lines, verbose) == log;
    } else {
      var init := lines[..|lines| - 1];
      ReadOutput(log, s, init, verbose);
      assert log + OutputLines(s, lines, verbose)
          == (log + OutputLines(s, init, verbose)) + [OutputLine(s, lines[|lines| - 1])];
      ReadSnoc(log + OutputLines(s, init, verbose), OutputLine(s, lines[|lines| - 1]));
    }
  }

  /** The first `k` declared names, each where it is declared first. */
  function FirstSeen(steps: seq<string>, k: nat): (names: seq<string>)
    requires k <= |steps|
    ensures forall s :: s in names <==> s in steps[..k]
    ensures Distinct(names)
  {
    if k == 0 then []
    else
      var before := FirstSeen(steps, k - 1);
      assert steps[..k] == steps[..k - 1] + [steps[k - 1]];
      if steps[k - 1] in steps[..k - 1] then before else before + [steps[k - 1]]
  }

  /** The log is full blocks for the completed prefix, in declaration order, and the open block. */
  ghost predicate Orderly(m: Display) {
    m.Consistent() && Read(m.log) == Blocks(FirstSeen(m.steps, m.Frontier()), m.Open())
  }

  /** Exactly the first `k` steps are shown and their blocks are all the log holds. */
  ghost predicate ClosedTo(m: Display, k: nat)
    requires k <= |m.steps|
  {
    && m.Registered() && m.current == NO_STEP
    && (forall s | s in m.data :: m.data[s].shown <==> s in m.steps[..k])
    && Read(m.log) == Blocks(FirstSeen(m.steps, k), None)
  }

  lemma WholeBlockReads(m: Display, k: nat)
    requires k < |m.steps| && ClosedTo(m, k)
    ensures ClosedTo(if m.IsShown(m.steps[k]) then m else WholeBlock(m, m.steps[k]), k + 1)
  {
    var s := m.steps[k];
    assert m.steps[..k + 1] == m.steps[..k] + [s];
    if !m.IsShown(s) {
      ReadSnoc(m.log, StartLine(s));
      ReadOutput(m.log + [StartLine(s)], s, m.data[s].output, m.verbose);
      ReadSnoc(OpenBlock(m, s).log, ResultLine(s, m.data[s].report));
    }
  }

  lemma ClosedStays(m: Display, k: nat)
    requires k <= |m.steps| && ClosedTo(m, k)
    ensures CloseUpTo(m, k) == m
  {
    ClosedPrefixShown(m, m.steps, k);
    CloseUpToShown(m, k);
  }

  /** Writing the missing blocks one after another keeps the log closed. */
  lemma {:induction false} CloseUpToReads(m: Display, i: nat, k: nat)
    requires m.Registered() && i <= k <= |m.steps| && ClosedTo(m, i)
    ensures ClosedTo(CloseUpTo(m, k), k)
  {
    hide ClosedTo, WholeBlock;
    if k == i {
      ClosedStays(m, k);
    } else {
      CloseUpToReads(m, i, k - 1);
      WholeBlockReads(CloseUpTo(m, k - 1), k - 1);
    }
  }

  lemma {:induction false} CloseUpToShown(m: Display, k: nat)
    requires m.Registered() && k <= |m.steps|
    requires forall j | 0 <= j < k :: m.IsShown(m.steps[j])
    ensures CloseUpTo(m, k) == m
  {
    hide WholeBlock;
    if k > 0 {
      CloseUpToShown(m, k - 1);
      assert m.IsShown(m.steps[k - 1]);
    }
  }

  lemma FrontierFresh(m: Display)
    requires m.Frontier() < |m.steps|
    ensures m.steps[m.Frontier()] !in m.steps[..m.Frontier()]
  {
  }

  /** The state of a display between two callbacks depends on the flags only through frontier and open step. */
  ghost predicate OrderlyAt(m: Display, f: nat, open: Option<string>) {
    && f <= |m.steps| && m.Registered()
    && (forall s | s in m.data :: m.data[s].shown <==> (s in m.steps[..f] || open == Some(s)))
    && m.current == (if open.Some? then open.value else NO_STEP)
    && Read(m.log) == Blocks(FirstSeen(m.steps, f), open)
  }

  lemma OrderlyIs(m: Display)
    ensures Orderly(m) <==> OrderlyAt(m, m.Frontier(), m.Open())
  {
  }

  lemma OpenBlockReads(p: Display, f: nat)
    requires f < |p.steps| && ClosedTo(p, f) && p.steps[f] !in p.steps[..f]
    ensures OrderlyAt(OpenBlock(p, p.steps[f]), f, Some(p.steps[f]))
  {
    var s := p.steps[f];
    ReadSnoc(p.log, StartLine(s));
    ReadOutput(p.log + [StartLine(s)], s, p.data[s].output, p.verbose);
  }

  lemma CatchUpReads(m: Display, i: nat)
    requires i <= m.Frontier() && ClosedTo(m, i)
    ensures OrderlyAt(CatchUp(m), m.Frontier(), m.Open())
  {
    CloseUpToReads(m, i, m.Frontier());
    if m.Open().Some? {
      FrontierFresh(m);
      OpenBlockReads(CloseUpTo(m, m.Frontier()), m.Frontier());
    }
  }

  lemma CatchUpFlags(m: Display)
    requires m.Registered()
    ensures CatchUp(m).steps == m.steps && CatchUp(m).verbose == m.verbose && CatchUp(m).data.Keys == m.data.Keys
    ensures forall s :: CatchUp(m).IsCompleted(s) == m.IsCompleted(s) && CatchUp(m).IsStarted(s) == m.IsStarted(s)
    ensures CatchUp(m).Frontier() == m.Frontier() && CatchUp(m).Open() == m.Open()
  {
    FrontierIs(CatchUp(m), m.Frontier());
  }

  lemma ClosedPrefixShown(m: Display, steps: seq<string>, k: nat)
    requires m.Registered() && steps == m.steps && k <= |steps|
    requires forall s | s in m.data && s in steps[..k] :: m.data[s].shown
    ensures forall j | 0 <= j < k :: m.IsShown(m.steps[j])
  {
    forall j | 0 <= j < k
      ensures m.IsShown(steps[j])
    {
      assert steps[..k][j] == steps[j];
      assert steps[j] in steps;
    }
  }

  lemma CatchUpOrderly(m: Display, i: nat)
    requires i <= m.Frontier() && ClosedTo(m, i)
    ensures Orderly(CatchUp(m))
  {
    CatchUpReads(m, i);
    CatchUpFlags(m);
    OrderlyIs(CatchUp(m));
  }

  lemma CatchUpIdle(m: Display)
    requires m.Consistent()
    ensures CatchUp(m) == m
  {
    ClosedPrefixShown(m, m.steps, m.Frontier());
    CloseUpToShown(m, m.Frontier());
  }

  /** Completing a step never moves the frontier back, and moves it only if the frontier step completed. */
  lemma CompletingFrontier(m: Display, s: string, report: Report)
    requires s in m.data
    ensures m.Frontier() <= Completing(m, s, report).Frontier()
    ensures (if m.Frontier() < |m.steps| && m.steps[m.Frontier()] == s
             then m.Frontier() < Completing(m, s, report).Frontier()
             else Completing(m, s, report).Frontier() == m.Frontier() && Completing(m, s, report).Open() == m.Open())
  {
    var f, m1 := m.Frontier(), Completing(m, s, report);
    assert forall x :: m1.IsCompleted(x) == (m.IsCompleted(x) || x == s);
    if f == |m.steps| || m.steps[f] != s {
      FrontierIs(m1, f);
    }
  }

  lemma CompletingOpen(m: Display, s: string, report: Report)
    requires Orderly(m) && s in m.data && m.current == s && s != NO_STEP
    ensures m.Frontier() < |m.steps| && m.steps[m.Frontier()] == s
    ensures ClosedTo(Completing(m, s, report), m.Frontier() + 1)
  {
    var f := m.Frontier();
    ReadSnoc(m.log, ResultLine(s, report));
    assert m.steps[..f + 1] == m.steps[..f] + [s];
    FrontierFresh(m);
  }

  lemma CompletingUnshown(m: Display, s: string, report: Report)
    requires Orderly(m) && s in m.data && m.Open().None? && s != NO_STEP
    ensures ClosedTo(Completing(m, s, report), m.Frontier())
  {
  }

  lemma CompleteOrderly(m: Display, s: string, report: Report)
    requires Orderly(m) && s != NO_STEP
    ensures Orderly(OnComplete(m, s, report))
  {
    var m1 := Completing(m, s, report);
    if s !in m.data {
      CatchUpIdle(m);
    } else {
      CompletingFrontier(m, s, report);
      if m.current == s {
        CompletingOpen(m, s, report);
        CatchUpOrderly(m1, m.Frontier() + 1);
      } else if m.Open().Some? {
        assert Orderly(m1);
        CatchUpIdle(m1);
      } else {
        CompletingUnshown(m, s, report);
        CatchUpOrderly(m1, m.Frontier());
      }
    }
  }

  lemma StartOpens(m: Display, s: string)
    requires Orderly(m) && s in m.data
    ensures OnStart(m, s).Frontier() == m.Frontier()
    ensures OnStart(m, s).Open() == if m.CanOpen(s) then Some(s) else m.Open()
    ensures OnStart(m, s).log == m.log + if m.CanOpen(s) then [StartLine(s)] else []
    ensures m.CanOpen(s) ==> !m.data[s].started && m.Open().None?
    ensures OnStart(m, s).data == m.data[s := m.data[s].(started := true, shown := m.data[s].shown || m.CanOpen(s))]
  {
    FrontierIs(m.(data := m.data[s := m.data[s].(started := true)]), m.Frontier());
    FrontierIs(OnStart(m, s), m.Frontier());
  }

  lemma StartOrderly(m: Display, s: string)
    requires Orderly(m) && s != NO_STEP
    ensures Orderly(OnStart(m, s))
  {
    if s in m.data {
      StartOpens(m, s);
      if m.CanOpen(s) {
        FrontierFresh(m);
        ReadSnoc(m.log, StartLine(s));
        assert OrderlyAt(OnStart(m, s), m.Frontier(), Some(s));
      } else {
        assert OrderlyAt(OnStart(m, s), m.Frontier(), m.Open());
      }
    }
  }

  lemma OutputOrderly(m: Display, s: string, line: string)
    requires Orderly(m) && s != NO_STEP
    ensures Orderly(OnOutput(m, s, line))
    ensures OnOutput(m, s, line).Frontier() == m.Frontier() && OnOutput(m, s, line).Open() == m.Open()
  {
    var r := OnOutput(m, s, line);
    FrontierIs(r, m.Frontier());
    if m.current == s {
      ReadOutput(m.log, s, [line], m.verbose);
    } else {
      assert r.log == m.log;
    }
    assert OrderlyAt(r, m.Frontier(), m.Open());
  }

  lemma ErrorOrderly(m: Display, s: string, error: string)
    requires Orderly(m)
    ensures Orderly(OnError(m, s, error))
    ensures OnError(m, s, error).Frontier() == m.Frontier() && OnError(m, s, error).Open() == m.Open()
  {
    FrontierIs(OnError(m, s, error), m.Frontier());
  }

  lemma ApplyOrderly(m: Display, e: Event)
    requires Orderly(m) && e.step != NO_STEP
    ensures Orderly(Apply(m, e))
  {
    match e
    case Started(s) => StartOrderly(m, s);
    case Printed(s, line) => OutputOrderly(m, s, line);
    case Failed(s, error) => ErrorOrderly(m, s, error);
    case Completed(s, report) => CompleteOrderly(m, s, report);
  }

  /**
   For every sequence of callbacks, repeated and out of order ones included, the transcript is full
   blocks for the longest completed prefix of the declared steps, then at most the open block of the
   next step, which is open exactly when that step has started.
   */
  lemma {:induction false} TranscriptInOrder(steps: seq<string>, verbose: bool, evs: seq<Event>)
    requires NO_STEP !in steps
    requires forall e | e in evs :: e.step != NO_STEP
    ensures Orderly(Run(Fresh(steps, verbose), evs))
  {
    var m := Fresh(steps, verbose);
    if evs == [] {
      FrontierIs(m, 0);
    } else {
      TranscriptInOrder(steps, verbose, evs[..|evs| - 1]);
      ApplyOrderly(Run(m, evs[..|evs| - 1]), evs[|evs| - 1]);
    }
  }
}
