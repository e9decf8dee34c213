/** What the blocks of the transcript contain, and when buffered output is lost. */
module TranscriptContent {
  import opened StageTypes
  import opened EventTrace
  import opened OrderedDisplay

  // ----- Well-behaved steps: the transcript is that of a sequential run -----

  type Histories = map<string, History>

  function HistoriesOf(steps: seq<string>, evs: seq<Event>): Histories {
    map s | s in steps :: HistoryOf(evs, s)
  }

  function OpenPart(s: string, h: History, verbose: bool): seq<Entry> {
    [StartLine(s)] + OutputLines(s, h.lines, verbose)
  }

  /** The block that a step would print on its own. */
  function Block(s: string, h: History, verbose: bool): seq<Entry> {
    OpenPart(s, h, verbose) + [ResultLine(s, h.report)]
  }

  /** The blocks of the first `k` declared steps, one per name. */
  function ClosedBlocks(steps: seq<string>, hs: Histories, verbose: bool, k: nat): seq<Entry>
    requires k <= |steps| && forall s | s in steps :: s in hs
  {
    if k == 0 then []
    else
      ClosedBlocks(steps, hs, verbose, k - 1)
      + if steps[k - 1] in steps[..k - 1] then [] else Block(steps[k - 1], hs[steps[k - 1]], verbose)
  }

  ghost predicate KnowsFlags(m: Display, hs: Histories) {
    forall s | s in m.data && s in hs ::
      && m.data[s].started == hs[s].started
      && m.data[s].completed == hs[s].completed
      && (m.data[s].completed ==> m.data[s].report == hs[s].report)
  }

  ghost predicate Buffers(m: Display, hs: Histories) {
    forall s | s in m.data && s in hs && !m.data[s].shown :: m.data[s].output == hs[s].lines
  }

  ghost predicate Covers(m: Display, hs: Histories) {
    forall s | s in m.steps :: s in hs
  }

  /** The display agrees with what each step reported; the log is full blocks up to `f` and the open block. */
  ghost predicate TracksAt(m: Display, hs: Histories, f: nat, open: Option<string>) {
    && f <= |m.steps|
    && Covers(m, hs) && KnowsFlags(m, hs) && Buffers(m, hs)
    && (open.Some? ==> open.value in hs)
    && m.log == ClosedBlocks(m.steps, hs, m.verbose, f)
             + if open.Some? then OpenPart(open.value, hs[open.value], m.verbose) else []
  }

  /** The log is the sequential rendering of what each step reported. */
  ghost predicate Tracks(m: Display, hs: Histories) {
    Orderly(m) && TracksAt(m, hs, m.Frontier(), m.Open())
  }

  lemma {:induction false} ClosedBlocksFrame(steps: seq<string>, hs: Histories, hs': Histories, verbose: bool, k: nat)
    requires k <= |steps| && forall s | s in steps :: s in hs && s in hs'
    requires forall s | s in steps[..k] :: hs'[s].lines == hs[s].lines && hs'[s].report == hs[s].report
    ensures ClosedBlocks(steps, hs', verbose, k) == ClosedBlocks(steps, hs, verbose, k)
  {
    if k > 0 {
      assert steps[k - 1] in steps[..k];
      assert forall s | s in steps[..k - 1] :: s in steps[..k];
      ClosedBlocksFrame(steps, hs, hs', verbose, k - 1);
    }
  }

  /** What showing whole blocks does to the data of each step. */
  lemma {:induction false} CloseUpToData(m: Display, k: nat)
    requires m.Registered() && k <= |m.steps|
    ensures forall s | s in m.data :: CloseUpTo(m, k).data[s] ==
              if s in m.steps[..k] && !m.data[s].shown then m.data[s].(shown := true, output := []) else m.data[s]
  {
    hide WholeBlock;
    if k > 0 {
      CloseUpToData(m, k - 1);
      assert m.steps[..k] == m.steps[..k - 1] + [m.steps[k - 1]];
      WholeBlockData(CloseUpTo(m, k - 1), m.steps[k - 1]);
    }
  }

  lemma WholeBlockData(m: Display, s: string)
    requires s in m.data
    ensures WholeBlock(m, s).data == m.data[s := m.data[s].(shown := true, output := [])]
  {
  }

  lemma CloseUpToDataOf(m: Display, k: nat, s: string)
    requires m.Registered() && k <= |m.steps| && s in m.data
    ensures CloseUpTo(m, k).data[s] ==
              if s in m.steps[..k] && !m.data[s].shown then m.data[s].(shown := true, output := []) else m.data[s]
  {
    CloseUpToData(m, k);
  }

  lemma WholeBlockLog(p: Display, s: string, h: History)
    requires s in p.data && p.data[s].output == h.lines && p.data[s].report == h.report
    ensures WholeBlock(p, s).log == p.log + Block(s, h, p.verbose)
  {
  }

  /** `p` is the display once the first `k - 1` blocks are written, and `s` is the next step. */
  lemma NextBlockLog(m: Display, p: Display, s: string, hs: Histories, k: nat)
    requires 0 < k <= |m.steps| && m.steps[k - 1] == s && Covers(m, hs)
    requires p.steps == m.steps && p.verbose == m.verbose
    requires s in m.data && s in p.data && p.data[s].report == hs[s].report
    requires p.data[s].shown <==> s in m.steps[..k - 1]
    requires !p.data[s].shown ==> p.data[s].output == hs[s].lines
    requires p.log == ClosedBlocks(m.steps, hs, m.verbose, k - 1)
    ensures (if p.IsShown(s) then p else WholeBlock(p, s)).log == ClosedBlocks(m.steps, hs, m.verbose, k)
  {
    if s !in m.steps[..k - 1] {
      WholeBlockLog(p, s, hs[s]);
    }
  }

  /** What the next step looks like once the first `k` blocks are written. */
  lemma NextStepData(m: Display, s: string, hs: Histories, i: nat, k: nat)
    requires i <= k < |m.steps| && m.steps[k] == s && m.Registered() && s in hs && s in m.data
    requires m.data[s].shown <==> s in m.steps[..i]
    requires m.data[s].report == hs[s].report && (!m.data[s].shown ==> m.data[s].output == hs[s].lines)
    ensures CloseUpTo(m, k).data[s].report == hs[s].report
    ensures CloseUpTo(m, k).data[s].shown <==> s in m.steps[..k]
    ensures !CloseUpTo(m, k).data[s].shown ==> CloseUpTo(m, k).data[s].output == hs[s].lines
  {
    CloseUpToDataOf(m, k, s);
    assert m.steps[..i] <= m.steps[..k];
  }

  lemma {:induction false} CloseUpToLog(m: Display, hs: Histories, i: nat, k: nat)
    requires i <= k <= |m.steps| && m.Registered() && Covers(m, hs)
    requires forall s | s in m.data :: m.data[s].shown <==> s in m.steps[..i]
    requires forall j | 0 <= j < k :: m.IsCompleted(m.steps[j])
    requires KnowsFlags(m, hs) && Buffers(m, hs)
    requires m.log == ClosedBlocks(m.steps, hs, m.verbose, i)
    ensures CloseUpTo(m, k).log == ClosedBlocks(m.steps, hs, m.verbose, k)
  {
    if k == i {
      ClosedPrefixShown(m, m.steps, k);
      CloseUpToShown(m, k);
    } else {
      CloseUpToLog(m, hs, i, k - 1);
      assert m.IsCompleted(m.steps[k - 1]);
      NextStepData(m, m.steps[k - 1], hs, i, k - 1);
      NextBlockLog(m, CloseUpTo(m, k - 1), m.steps[k - 1], hs, k);
    }
  }

  lemma CatchUpLog(m: Display, hs: Histories, i: nat)
    requires i <= m.Frontier() && ClosedTo(m, i)
    requires Covers(m, hs) && KnowsFlags(m, hs) && Buffers(m, hs)
    requires m.log == ClosedBlocks(m.steps, hs, m.verbose, i)
    ensures CatchUp(m).log == ClosedBlocks(m.steps, hs, m.verbose, m.Frontier())
              + if m.Open().Some? then OpenPart(m.Open().value, hs[m.Open().value], m.verbose) else []
  {
    hide ClosedBlocks, Read, FirstSeen;
    var f := m.Frontier();
    CloseUpToLog(m, hs, i, f);
    if m.Open().Some? {
      CloseUpToData(m, f);
      FrontierFresh(m);
      assert m.steps[..i] <= m.steps[..f];
      var p, s := CloseUpTo(m, f), m.steps[f];
      assert p.data[s] == m.data[s];
      assert p.log + [StartLine(s)] + OutputLines(s, hs[s].lines, m.verbose) == p.log + OpenPart(s, hs[s], m.verbose);
    }
  }

  /** Catching up only marks steps as shown, and empties the buffers of those. */
  lemma CatchUpData(m: Display, s: string)
    requires m.Registered() && s in m.data
    ensures s in CatchUp(m).data
    ensures CatchUp(m).data[s] == m.data[s] || CatchUp(m).data[s] == m.data[s].(shown := true, output := [])
  {
    hide CloseUpTo, OutputLines;
    CloseUpToDataOf(m, m.Frontier(), s);
  }

  lemma CatchUpKnows(m: Display, hs: Histories)
    requires m.Registered() && KnowsFlags(m, hs) && Buffers(m, hs)
    ensures KnowsFlags(CatchUp(m), hs) && Buffers(CatchUp(m), hs)
  {
    CatchUpFlags(m);
    hide CatchUp;
    forall s | s in m.data { CatchUpData(m, s); }
  }

  lemma CatchUpTracks(m: Display, hs: Histories, i: nat)
    requires i <= m.Frontier() && ClosedTo(m, i)
    requires Covers(m, hs) && KnowsFlags(m, hs) && Buffers(m, hs)
    requires m.log == ClosedBlocks(m.steps, hs, m.verbose, i)
    ensures Tracks(CatchUp(m), hs)
  {
    CatchUpLog(m, hs, i);
    CatchUpOrderly(m, i);
    CatchUpFlags(m);
    CatchUpKnows(m, hs);
  }

  /** The completed prefix is untouched by an event of a step that has not completed. */
  lemma PrefixFrame(m: Display, hs: Histories, e: Event)
    requires m.Registered() && Covers(m, hs) && KnowsFlags(m, hs) && e.step in hs && !hs[e.step].completed
    ensures ClosedBlocks(m.steps, hs[e.step := Advance(hs[e.step], e)], m.verbose, m.Frontier())
         == ClosedBlocks(m.steps, hs, m.verbose, m.Frontier())
  {
    assert forall s | s in m.steps[..m.Frontier()] :: m.IsCompleted(s) && hs[s].completed;
    ClosedBlocksFrame(m.steps, hs, hs[e.step := Advance(hs[e.step], e)], m.verbose, m.Frontier());
  }

  lemma CompletingOpenTracks(m: Display, hs: Histories, s: string, report: Report, f: nat)
    requires TracksAt(m, hs, f, Some(s)) && f < |m.steps| && m.steps[f] == s && s !in m.steps[..f]
    requires m.Registered() && s in m.data && m.current == s
    requires ClosedBlocks(m.steps, hs[s := Advance(hs[s], Completed(s, report))], m.verbose, f)
          == ClosedBlocks(m.steps, hs, m.verbose, f)
    ensures TracksAt(Completing(m, s, report), hs[s := Advance(hs[s], Completed(s, report))], f + 1, None)
  {
    var hs' := hs[s := Advance(hs[s], Completed(s, report))];
    assert Completing(m, s, report).log == ClosedBlocks(m.steps, hs', m.verbose, f) + Block(s, hs'[s], m.verbose);
  }

  lemma CompletingOtherTracks(m: Display, hs: Histories, s: string, report: Report, f: nat, open: Option<string>)
    requires TracksAt(m, hs, f, open) && open != Some(s)
    requires m.Registered() && s in m.data && s in hs && m.current != s
    requires ClosedBlocks(m.steps, hs[s := Advance(hs[s], Completed(s, report))], m.verbose, f)
          == ClosedBlocks(m.steps, hs, m.verbose, f)
    ensures TracksAt(Completing(m, s, report), hs[s := Advance(hs[s], Completed(s, report))], f, open)
  {
  }

  lemma CompleteTracks(m: Display, hs: Histories, s: string, report: Report)
    requires Tracks(m, hs) && s in m.data && s in hs && s != NO_STEP && !hs[s].completed
    ensures Tracks(OnComplete(m, s, report), hs[s := Advance(hs[s], Completed(s, report))])
  {
    hide ClosedBlocks, Read, FirstSeen;
    var f, m1, hs' := m.Frontier(), Completing(m, s, report), hs[s := Advance(hs[s], Completed(s, report))];
    PrefixFrame(m, hs, Completed(s, report));
    if m.current == s {
      CompletingOpen(m, s, report);
      CompletingFrontier(m, s, report);
      FrontierFresh(m);
      CompletingOpenTracks(m, hs, s, report, f);
      CatchUpTracks(m1, hs', f + 1);
    } else {
      CompletingOtherTracks(m, hs, s, report, f, m.Open());
      CompletingCatchUp(m, hs', s, report);
    }
  }

  /** While another block is open, a completion writes nothing. */
  lemma CompletingIdle(m: Display, s: string, report: Report)
    requires Orderly(m) && s in m.data && s != NO_STEP && m.current != s && m.Open().Some?
    ensures Completing(m, s, report).Frontier() == m.Frontier() && Completing(m, s, report).Open() == m.Open()
    ensures Orderly(Completing(m, s, report)) && CatchUp(Completing(m, s, report)) == Completing(m, s, report)
  {
    hide CatchUp;
    CompletingFrontier(m, s, report);
    CatchUpIdle(Completing(m, s, report));
  }

  lemma CompletingCatchUp(m: Display, hs': Histories, s: string, report: Report)
    requires Orderly(m) && s in m.data && s in hs' && s != NO_STEP && m.current != s
    requires TracksAt(Completing(m, s, report), hs', m.Frontier(), m.Open())
    ensures Tracks(OnComplete(m, s, report), hs')
  {
    hide Completing, CatchUp, ClosedBlocks;
    if m.Open().Some? {
      CompletingIdle(m, s, report);
    } else {
      CompletingFrontier(m, s, report);
      CompletingUnshown(m, s, report);
      CatchUpTracks(Completing(m, s, report), hs', m.Frontier());
    }
  }

  lemma StartTracks(m: Display, hs: Histories, s: string)
    requires Tracks(m, hs) && s in m.data && s in hs && s != NO_STEP
    requires !hs[s].started ==> hs[s].lines == []
    ensures Tracks(OnStart(m, s), hs[s := Advance(hs[s], Started(s))])
  {
    ClosedBlocksFrame(m.steps, hs, hs[s := Advance(hs[s], Started(s))], m.verbose, m.Frontier());
    StartOrderly(m, s);
    StartOpens(m, s);
    StartTracksAt(m, hs, s, m.Frontier(), m.Open());
  }

  lemma StartTracksAt(m: Display, hs: Histories, s: string, f: nat, open: Option<string>)
    requires TracksAt(m, hs, f, open) && s in m.data && s in hs
    requires ClosedBlocks(m.steps, hs[s := Advance(hs[s], Started(s))], m.verbose, f)
          == ClosedBlocks(m.steps, hs, m.verbose, f)
    requires OnStart(m, s).log == m.log + if m.CanOpen(s) then [StartLine(s)] else []
    requires m.CanOpen(s) ==> !m.data[s].started && open.None?
    requires !hs[s].started ==> hs[s].lines == []
    ensures TracksAt(OnStart(m, s), hs[s := Advance(hs[s], Started(s))], f, if m.CanOpen(s) then Some(s) else open)
  {
    if m.CanOpen(s) {
      assert OpenPart(s, hs[s], m.verbose) == [StartLine(s)];
    }
  }

  lemma OutputTracks(m: Display, hs: Histories, s: string, line: string)
    requires Tracks(m, hs) && s in m.data && s in hs && s != NO_STEP && hs[s].started && !hs[s].completed
    ensures Tracks(OnOutput(m, s, line), hs[s := Advance(hs[s], Printed(s, line))])
  {
    PrefixFrame(m, hs, Printed(s, line));
    OutputOrderly(m, s, line);
    OutputTracksAt(m, hs, s, line, m.Frontier(), m.Open());
  }

  lemma OutputTracksAt(m: Display, hs: Histories, s: string, line: string, f: nat, open: Option<string>)
    requires TracksAt(m, hs, f, open) && s in m.data && s in hs
    requires ClosedBlocks(m.steps, hs[s := Advance(hs[s], Printed(s, line))], m.verbose, f)
          == ClosedBlocks(m.steps, hs, m.verbose, f)
    requires m.current == s <==> open == Some(s)
    ensures TracksAt(OnOutput(m, s, line), hs[s := Advance(hs[s], Printed(s, line))], f, open)
  {
    hide ClosedBlocks, Read, FirstSeen;
    if m.current == s {
      assert OpenPart(s, hs[s], m.verbose) + OutputLines(s, [line], m.verbose)
          == OpenPart(s, hs[s].(lines := hs[s].lines + [line]), m.verbose);
    }
  }

  lemma ErrorTracks(m: Display, hs: Histories, s: string, error: string)
    requires Tracks(m, hs)
    ensures Tracks(OnError(m, s, error), hs)
  {
    hide ClosedBlocks, Orderly;
    ErrorOrderly(m, s, error);
    assert TracksAt(OnError(m, s, error), hs, m.Frontier(), m.Open());
  }

  lemma {:induction false} NoOutputBeforeStart(evs: seq<Event>, s: string)
    requires Disciplined(evs) && !HistoryOf(evs, s).started
    ensures HistoryOf(evs, s).lines == []
  {
    if evs != [] {
      var init, e := evs[..|evs| - 1], evs[|evs| - 1];
      SplitLast(evs);
      DisciplinedSnoc(init, e);
      NoOutputBeforeStart(init, s);
    }
  }

  lemma ApplyTracks(m: Display, hs: Histories, e: Event)
    requires Tracks(m, hs) && e.step in m.data && e.step in hs && e.step != NO_STEP
    requires Admits(hs[e.step], e) && (!hs[e.step].started ==> hs[e.step].lines == [])
    ensures Tracks(Apply(m, e), hs[e.step := Advance(hs[e.step], e)])
  {
    match e
    case Started(s) => StartTracks(m, hs, s);
    case Printed(s, line) => OutputTracks(m, hs, s, line);
    case Failed(s, error) =>
      assert hs[s := hs[s]] == hs;
      ErrorTracks(m, hs, s, error);
    case Completed(s, report) => CompleteTracks(m, hs, s, report);
  }

  /**
   When every declared step prints only between its start and its single completion, the transcript of
   any interleaving is the sequential one: for the completed prefix the blocks, one per step in declaration
   order, each with all the lines of its step in order and its report, and for the next step, once
   started, its start and all its lines so far.
   */
  lemma {:induction false} TranscriptIsSequential(steps: seq<string>, verbose: bool, evs: seq<Event>)
    requires NO_STEP !in steps
    requires Disciplined(evs) && forall e | e in evs :: e.step in steps
    ensures Tracks(Run(Fresh(steps, verbose), evs), HistoriesOf(steps, evs))
  {
    if evs == [] {
      FreshTracks(steps, verbose);
    } else {
      var init, e := evs[..|evs| - 1], evs[|evs| - 1];
      SplitLast(evs);
      DisciplinedSnoc(init, e);
      TranscriptIsSequential(steps, verbose, init);
      assert e in evs;
      if !HistoryOf(init, e.step).started { NoOutputBeforeStart(init, e.step); }
      NextTracks(Run(Fresh(steps, verbose), init), steps, init, e);
    }
  }

  lemma FreshTracks(steps: seq<string>, verbose: bool)
    requires NO_STEP !in steps
    ensures Tracks(Fresh(steps, verbose), HistoriesOf(steps, []))
  {
    FrontierIs(Fresh(steps, verbose), 0);
  }

  lemma NextTracks(m: Display, steps: seq<string>, evs: seq<Event>, e: Event)
    requires Tracks(m, HistoriesOf(steps, evs)) && m.steps == steps && e.step in steps
    requires Admits(HistoryOf(evs, e.step), e)
    requires !HistoryOf(evs, e.step).started ==> HistoryOf(evs, e.step).lines == []
    ensures Tracks(Apply(m, e), HistoriesOf(steps, evs + [e]))
  {
    HistoriesSnoc(steps, evs, e);
    ApplyTracks(m, HistoriesOf(steps, evs), e);
  }

  lemma HistoriesSnoc(steps: seq<string>, evs: seq<Event>, e: Event)
    requires e.step in steps
    ensures HistoriesOf(steps, evs + [e])
         == HistoriesOf(steps, evs)[e.step := Advance(HistoriesOf(steps, evs)[e.step], e)]
  {
    forall s { HistorySnoc(evs, e, s); }
  }

  /** The transcript depends on what each step reported, not on how the reports were interleaved. */
  lemma TranscriptIgnoresInterleaving(steps: seq<string>, verbose: bool, evs: seq<Event>, evs': seq<Event>)
    requires NO_STEP !in steps
    requires Disciplined(evs) && forall e | e in evs :: e.step in steps
    requires Disciplined(evs') && forall e | e in evs' :: e.step in steps
    requires forall s | s in steps :: Projection(evs, s) == Projection(evs', s)
    ensures Run(Fresh(steps, verbose), evs).log == Run(Fresh(steps, verbose), evs').log
  {
    TranscriptIsSequential(steps, verbose, evs);
    TranscriptIsSequential(steps, verbose, evs');
    SameProjectionsSameHistories(steps, evs, evs');
    SameHistoriesSameLog(Run(Fresh(steps, verbose), evs), Run(Fresh(steps, verbose), evs'), HistoriesOf(steps, evs));
  }

  lemma SameProjectionsSameHistories(steps: seq<string>, evs: seq<Event>, evs': seq<Event>)
    requires forall s | s in steps :: Projection(evs, s) == Projection(evs', s)
    ensures HistoriesOf(steps, evs) == HistoriesOf(steps, evs')
  {
    forall s | s in steps
      ensures HistoryOf(evs, s) == HistoryOf(evs', s)
    {
      HistoryByStep(evs, s);
      HistoryByStep(evs', s);
    }
  }

  lemma SameHistoriesSameLog(m: Display, m': Display, hs: Histories)
    requires m.steps == m'.steps && m.verbose == m'.verbose && Tracks(m, hs) && Tracks(m', hs)
    ensures m.log == m'.log
  {
    assert forall s | s in m.steps :: m.IsCompleted(s) == m'.IsCompleted(s) && m.IsStarted(s) == m'.IsStarted(s);
    FrontierIs(m', m.Frontier());
  }

  // ----- Any callbacks at all: which lines are lost -----

  /** The lines of step `s` in a log. */
  function LoggedLines(log: seq<Entry>, s: string): seq<string> {
    if log == [] then []
    else
      var e := log[|log| - 1];
      LoggedLines(log[..|log| - 1], s) + if e.OutputLine? && e.step == s then [e.line] else []
  }

  /** The lines that step `s` reported before its result was written. */
  function Heard(m: Display, evs: seq<Event>, s: string): seq<string>
    requires m.Registered()
  {
    if evs == [] then []
    else
      var init, e := evs[..|evs| - 1], evs[|evs| - 1];
      var prior := Run(m, init);
      Heard(m, init, s)
      + if e.Printed? && e.step == s && !(prior.IsShown(s) && prior.IsCompleted(s)) then [e.line] else []
  }

  /** A start that opens the block of `s` leaves what is buffered for `s` unwritten. */
  predicate Discards(m: Display, e: Event) {
    e.Started? && e.step in m.data && m.CanOpen(e.step) && m.data[e.step].output != []
  }

  /** The number of lines of `s` that were buffered when its own start opened its block. */
  function Discarded(m: Display, evs: seq<Event>, s: string): nat
    requires m.Registered()
  {
    if evs == [] then 0
    else
      var init, e := evs[..|evs| - 1], evs[|evs| - 1];
      var prior := Run(m, init);
      Discarded(m, init, s)
      + if e.step == s && Discards(prior, e) then |prior.data[s].output| else 0
  }

  /** Every line heard is in the log or in the buffer, except the first `lost` ones. */
  ghost predicate AccountsFor(d: StepData, logged: seq<string>, heard: seq<string>, lost: nat) {
    if d.shown then lost <= |heard| && logged == heard[lost..]
    else lost == 0 && logged == [] && d.output == heard
  }

  ghost predicate Accounts(m: Display, s: string, heard: seq<string>, lost: nat) {
    m.Registered() && s in m.data && m.verbose && AccountsFor(m.data[s], LoggedLines(m.log, s), heard, lost)
  }

  lemma LoggedSnoc(log: seq<Entry>, e: Entry, s: string)
    ensures LoggedLines(log + [e], s) == LoggedLines(log, s) + if e.OutputLine? && e.step == s then [e.line] else []
  {
    assert (log + [e])[..|log + [e]| - 1] == log;
  }

  lemma {:induction false} LoggedOutput(log: seq<Entry>, t: string, lines: seq<string>, s: string)
    ensures LoggedLines(log + OutputLines(t, lines, true), s) == LoggedLines(log, s) + if t == s then lines else []
  {
    if lines == [] {
      assert log + OutputLines(t, lines, true) == log;
    } else {
      var init, last := lines[..|lines| - 1], lines[|lines| - 1];
      LoggedOutput(log, t, init, s);
      assert OutputLines(t, lines, true) == OutputLines(t, init, true) + [OutputLine(t, last)];
      assert log + OutputLines(t, lines, true) == (log + OutputLines(t, init, true)) + [OutputLine(t, last)];
      LoggedSnoc(log + OutputLines(t, init, true), OutputLine(t, last), s);
      SplitLast(lines);
    }
  }

  lemma OpenBlockLogs(m: Display, t: string, s: string)
    requires t in m.data && m.verbose
    ensures LoggedLines(OpenBlock(m, t).log, s) == LoggedLines(m.log, s) + if t == s then m.data[t].output else []
  {
    LoggedSnoc(m.log, StartLine(t), s);
    LoggedOutput(m.log + [StartLine(t)], t, m.data[t].output, s);
  }

  lemma OpenBlockAccounts(m: Display, t: string, s: string, heard: seq<string>, lost: nat)
    requires t in m.data && !m.data[t].shown && Accounts(m, s, heard, lost)
    ensures Accounts(OpenBlock(m, t), s, heard, lost)
  {
    OpenBlockLogs(m, t, s);
    assert [] + heard == heard && heard[0..] == heard;
    assert LoggedLines(m.log, s) + [] == LoggedLines(m.log, s);
  }

  lemma WholeBlockAccounts(m: Display, t: string, s: string, heard: seq<string>, lost: nat)
    requires t in m.data && !m.data[t].shown && Accounts(m, s, heard, lost)
    ensures Accounts(WholeBlock(m, t), s, heard, lost)
  {
    OpenBlockAccounts(m, t, s, heard, lost);
    LoggedSnoc(OpenBlock(m, t).log, ResultLine(t, m.data[t].report), s);
  }

  lemma {:induction false} CloseUpToAccounts(m: Display, k: nat, s: string, heard: seq<string>, lost: nat)
    requires k <= |m.steps| && Accounts(m, s, heard, lost)
    ensures Accounts(CloseUpTo(m, k), s, heard, lost)
  {
    if k > 0 {
      CloseUpToAccounts(m, k - 1, s, heard, lost);
      var p, t := CloseUpTo(m, k - 1), m.steps[k - 1];
      if !p.IsShown(t) {
        WholeBlockAccounts(p, t, s, heard, lost);
      }
    }
  }

  lemma CatchUpAccounts(m: Display, s: string, heard: seq<string>, lost: nat)
    requires Accounts(m, s, heard, lost)
    ensures Accounts(CatchUp(m), s, heard, lost)
  {
    CloseUpToAccounts(m, m.Frontier(), s, heard, lost);
    var p := CloseUpTo(m, m.Frontier());
    if m.Open().Some? && !p.IsShown(m.Open().value) {
      OpenBlockAccounts(p, m.Open().value, s, heard, lost);
    }
  }

  lemma StartLogs(m: Display, t: string, s: string)
    requires Orderly(m) && s in m.data
    ensures LoggedLines(OnStart(m, t).log, s) == LoggedLines(m.log, s)
    ensures OnStart(m, t).data[s].output == m.data[s].output
    ensures OnStart(m, t).data[s].shown == (m.data[s].shown || (t == s && m.CanOpen(s)))
  {
    if t in m.data {
      LoggedSnoc(m.log, StartLine(t), s);
      StartOpens(m, t);
    }
  }

  lemma StartAccounts(m: Display, t: string, s: string, heard: seq<string>, lost: nat)
    requires Orderly(m) && Accounts(m, s, heard, lost)
    ensures Accounts(OnStart(m, t), s, heard,
                     lost + if t == s && Discards(m, Started(t)) then |m.data[s].output| else 0)
  {
    hide Read, FirstSeen, LoggedLines, Orderly;
    StartLogs(m, t, s);
    assert Apply(m, Started(t)).Registered();
    var d := OnStart(m, t).data[s];
    if d.shown && !m.data[s].shown {
      assert heard[|heard|..] == [];
    }
  }

  lemma OutputAccounts(m: Display, t: string, line: string, s: string, heard: seq<string>, lost: nat)
    requires Orderly(m) && t != NO_STEP && Accounts(m, s, heard, lost)
    ensures Accounts(OnOutput(m, t, line), s,
                     heard + if t == s && !(m.IsShown(s) && m.IsCompleted(s)) then [line] else [], lost)
  {
    hide Read, FirstSeen, LoggedLines;
    LoggedOutput(m.log, t, [line], s);
    assert m.log + [] == m.log && heard + [] == heard;
  }

  lemma CompleteAccounts(m: Display, t: string, report: Report, s: string, heard: seq<string>, lost: nat)
    requires Orderly(m) && Accounts(m, s, heard, lost)
    ensures Accounts(OnComplete(m, t, report), s, heard, lost)
  {
    CompletingAccounts(m, t, report, s, heard, lost);
    CatchUpAccounts(Completing(m, t, report), s, heard, lost);
  }

  lemma CompletingAccounts(m: Display, t: string, report: Report, s: string, heard: seq<string>, lost: nat)
    requires Accounts(m, s, heard, lost)
    ensures Accounts(Completing(m, t, report), s, heard, lost)
  {
    LoggedSnoc(m.log, ResultLine(t, report), s);
    assert m.log + [] == m.log;
  }

  lemma ErrorAccounts(m: Display, t: string, error: string, s: string, heard: seq<string>, lost: nat)
    requires Accounts(m, s, heard, lost)
    ensures Accounts(OnError(m, t, error), s, heard, lost)
  {
  }

  lemma ApplyAccounts(m: Display, e: Event, s: string, heard: seq<string>, lost: nat)
    requires Orderly(m) && e.step != NO_STEP && Accounts(m, s, heard, lost)
    ensures
      var more := if e.Printed? && e.step == s && !(m.IsShown(s) && m.IsCompleted(s)) then [e.line] else [];
      var less := if e.step == s && Discards(m, e) then |m.data[s].output| else 0;
      Accounts(Apply(m, e), s, heard + more, lost + less)
  {
    hide Accounts, Orderly, Read, FirstSeen;
    assert heard + [] == heard;
    match e
    case Started(t) => StartAccounts(m, t, s, heard, lost);
    case Printed(t, line) => OutputAccounts(m, t, line, s, heard, lost);
    case Failed(t, error) => ErrorAccounts(m, t, error, s, heard, lost);
    case Completed(t, report) => CompleteAccounts(m, t, report, s, heard, lost);
  }

  /**
   For every sequence of callbacks: a step that is not shown has every line it reported buffered, and the
   block of a shown step holds, once each and in order, the lines it reported before its result, minus
   those that its own start discarded.
   */
  lemma {:induction false} LinesAccountedFor(steps: seq<string>, evs: seq<Event>, s: string)
    requires NO_STEP !in steps && s in steps
    requires forall e | e in evs :: e.step != NO_STEP
    ensures
      var m := Fresh(steps, true);
      Accounts(Run(m, evs), s, Heard(m, evs, s), Discarded(m, evs, s))
  {
    if evs != [] {
      var m, init, e := Fresh(steps, true), evs[..|evs| - 1], evs[|evs| - 1];
      LinesAccountedFor(steps, init, s);
      TranscriptInOrder(steps, true, init);
      assert e in evs;
      ApplyAccounts(Run(m, init), e, s, Heard(m, init, s), Discarded(m, init, s));
    }
  }

  /** The callback at `i` is a start of `s` that opens its block over buffered lines. */
  predicate DiscardsAt(m: Display, evs: seq<Event>, s: string, i: nat)
    requires m.Registered() && i < |evs|
  {
    evs[i].step == s && Discards(Run(m, evs[..i]), evs[i])
  }

  // ----- The same in terms of the callbacks -----

  lemma ApplyKnows(m: Display, hs: Histories, hs': Histories, e: Event)
    requires m.Registered() && KnowsFlags(m, hs) && Buffers(m, hs) && hs'.Keys == hs.Keys
    requires forall s | s in hs :: hs'[s] == if e.step == s then Advance(hs[s], e) else hs[s]
    ensures KnowsFlags(Apply(m, e), hs') && Buffers(Apply(m, e), hs')
  {
    hide CatchUp;
    match e
    case Started(_) =>
    case Printed(_, _) =>
    case Failed(_, _) =>
    case Completed(s, report) => CatchUpKnows(Completing(m, s, report), hs');
  }

  /** For any callbacks the manager knows what each step reported, and buffers all lines of a step not shown. */
  lemma {:induction false} RunKnows(steps: seq<string>, verbose: bool, evs: seq<Event>)
    requires NO_STEP !in steps
    ensures KnowsFlags(Run(Fresh(steps, verbose), evs), HistoriesOf(steps, evs))
    ensures Buffers(Run(Fresh(steps, verbose), evs), HistoriesOf(steps, evs))
  {
    if evs != [] {
      var init, e := evs[..|evs| - 1], evs[|evs| - 1];
      RunKnows(steps, verbose, init);
      SplitLast(evs);
      forall s { HistorySnoc(init, e, s); }
      ApplyKnows(Run(Fresh(steps, verbose), init), HistoriesOf(steps, init), HistoriesOf(steps, evs), e);
    }
  }

  ghost predicate AllCompleted(steps: seq<string>, evs: seq<Event>, k: nat)
    requires k <= |steps|
  {
    forall j | 0 <= j < k :: HistoryOf(evs, steps[j]).completed
  }

  /** It is the turn of `s`: every step declared before it has completed. */
  ghost predicate TurnOf(steps: seq<string>, evs: seq<Event>, s: string) {
    exists k | 0 <= k < |steps| :: steps[k] == s && AllCompleted(steps, evs, k)
  }

  lemma RunRegisters(m: Display, evs: seq<Event>)
    requires m.Registered()
    ensures forall s | s in m.steps :: s in Run(m, evs).data
  {
    assert Run(m, evs).Registered();
  }

  /** The frontier is that of the callbacks. */
  lemma FrontierCompletes(steps: seq<string>, verbose: bool, evs: seq<Event>)
    requires NO_STEP !in steps
    ensures var f := Run(Fresh(steps, verbose), evs).Frontier();
      AllCompleted(steps, evs, f) && (f < |steps| ==> !HistoryOf(evs, steps[f]).completed)
  {
    hide Run;
    var m := Run(Fresh(steps, verbose), evs);
    RunKnows(steps, verbose, evs);
    RunRegisters(Fresh(steps, verbose), evs);
    assert forall t | t in steps :: m.IsCompleted(t) <==> HistoryOf(evs, t).completed;
  }

  /** Up to there, and there, it is the step's turn. */
  lemma TurnUpTo(steps: seq<string>, evs: seq<Event>, s: string, f: nat)
    requires f <= |steps| && AllCompleted(steps, evs, f)
    requires f < |steps| ==> !HistoryOf(evs, steps[f]).completed
    ensures TurnOf(steps, evs, s) <==> s in steps[..f] || (f < |steps| && steps[f] == s)
    ensures s in steps[..f] ==> HistoryOf(evs, s).completed
  {
    if TurnOf(steps, evs, s) {
      var k :| 0 <= k < |steps| && steps[k] == s && AllCompleted(steps, evs, k);
      assert k <= f;
    }
    if i :| 0 <= i < f && steps[i] == s {
      assert AllCompleted(steps, evs, i);
    } else if f < |steps| && steps[f] == s {
      assert AllCompleted(steps, evs, f);
    }
  }

  lemma TurnIsFrontier(steps: seq<string>, verbose: bool, evs: seq<Event>, s: string)
    requires NO_STEP !in steps && s in steps
    ensures var m := Run(Fresh(steps, verbose), evs);
      TurnOf(steps, evs, s) <==> s in steps[..m.Frontier()] || (m.Frontier() < |steps| && steps[m.Frontier()] == s)
    ensures var m := Run(Fresh(steps, verbose), evs);
      s in m.data && (s in steps[..m.Frontier()] ==> HistoryOf(evs, s).completed)
  {
    hide Run, TurnOf, AllCompleted;
    FrontierCompletes(steps, verbose, evs);
    TurnUpTo(steps, evs, s, Run(Fresh(steps, verbose), evs).Frontier());
    RunRegisters(Fresh(steps, verbose), evs);
  }

  /** A step is shown once it is its turn and it has started or completed. */
  lemma ShownExactly(steps: seq<string>, verbose: bool, evs: seq<Event>, s: string)
    requires NO_STEP !in steps && s in steps
    requires forall e | e in evs :: e.step != NO_STEP
    ensures Run(Fresh(steps, verbose), evs).IsShown(s)
      <==> TurnOf(steps, evs, s) && (HistoryOf(evs, s).started || HistoryOf(evs, s).completed)
  {
    hide Run, TurnOf, Read, FirstSeen;
    TranscriptInOrder(steps, verbose, evs);
    RunKnows(steps, verbose, evs);
    TurnIsFrontier(steps, verbose, evs, s);
  }

  /** The callback at `i` is the first start of `s`, which has printed before and not completed, in its turn. */
  ghost predicate LosesAt(steps: seq<string>, evs: seq<Event>, s: string, i: nat)
    requires i < |evs|
  {
    var h := HistoryOf(evs[..i], s);
    evs[i] == Started(s) && !h.started && !h.completed && h.lines != [] && TurnOf(steps, evs[..i], s)
  }

  lemma DiscardsExactly(steps: seq<string>, evs: seq<Event>, s: string, i: nat)
    requires NO_STEP !in steps && s in steps && i < |evs|
    requires forall e | e in evs :: e.step != NO_STEP
    ensures DiscardsAt(Fresh(steps, true), evs, s, i) <==> LosesAt(steps, evs, s, i)
  {
    hide Run, TurnOf, Read, FirstSeen;
    var before := evs[..i];
    TranscriptInOrder(steps, true, before);
    RunKnows(steps, true, before);
    TurnIsFrontier(steps, true, before, s);
  }

  /**
   Nothing is lost if and only if no step prints before its first start and is then started in its turn, before
   it completes.
   */
  lemma LosslessExactly(steps: seq<string>, evs: seq<Event>, s: string)
    requires NO_STEP !in steps && s in steps
    requires forall e | e in evs :: e.step != NO_STEP
    requires TurnOf(steps, evs, s) && (HistoryOf(evs, s).started || HistoryOf(evs, s).completed)
    ensures LoggedLines(Run(Fresh(steps, true), evs).log, s) == Heard(Fresh(steps, true), evs, s)
            <==> forall i | 0 <= i < |evs| :: !LosesAt(steps, evs, s, i)
  {
    hide LosesAt, DiscardsAt, TurnOf, Run, Heard;
    ShownExactly(steps, true, evs, s);
    LinesAccountedFor(steps, evs, s);
    DiscardedSome(Fresh(steps, true), evs, s);
    forall i | 0 <= i < |evs| { DiscardsExactly(steps, evs, s, i); }
  }

  /** A line that comes before the start of the first step is never written. */
  lemma LinesCanBeLost(s: string, line: string)
    requires s != NO_STEP
    ensures var m, evs := Fresh([s], true), [Printed(s, line), Started(s)];
      && Run(m, evs).IsShown(s) && LoggedLines(Run(m, evs).log, s) == [] && Heard(m, evs, s) == [line]
  {
    var m, printed, started := Fresh([s], true), Printed(s, line), Started(s);
    assert [] + [printed] == [printed] && [printed] + [started] == [printed, started];
    RunSnoc(m, [], printed);
    RunSnoc(m, [printed], started);
    StartAfterLine(s, line);
    HeardSnoc(m, [], printed, s);
    HeardSnoc(m, [printed], started, s);
    assert [] + [line] + [] == [line];
  }

  lemma StartAfterLine(s: string, line: string)
    requires s != NO_STEP
    ensures !Fresh([s], true).IsShown(s)
    ensures var now := OnStart(OnOutput(Fresh([s], true), s, line), s);
      now.IsShown(s) && LoggedLines(now.log, s) == []
  {
    var m := OnOutput(Fresh([s], true), s, line);
    FrontierIs(m.(data := m.data[s := m.data[s].(started := true)]), 0);
    LoggedSnoc([], StartLine(s), s);
    assert OnStart(m, s).log == [] + [StartLine(s)];
  }

  lemma HeardSnoc(m: Display, evs: seq<Event>, e: Event, s: string)
    requires m.Registered()
    ensures Heard(m, evs + [e], s) == Heard(m, evs, s)
      + if e.Printed? && e.step == s && !(Run(m, evs).IsShown(s) && Run(m, evs).IsCompleted(s)) then [e.line] else []
  {
    assert (evs + [e])[..|evs + [e]| - 1] == evs;
  }

  lemma DiscardsAtPrefix(m: Display, evs: seq<Event>, s: string, i: nat)
    requires m.Registered() && i < |evs| - 1
    ensures DiscardsAt(m, evs[..|evs| - 1], s, i) == DiscardsAt(m, evs, s, i)
  {
    assert evs[..|evs| - 1][..i] == evs[..i];
  }

  lemma DiscardedLast(m: Display, evs: seq<Event>, s: string)
    requires m.Registered() && evs != []
    ensures Discarded(m, evs, s) == 0 <==>
      Discarded(m, evs[..|evs| - 1], s) == 0 && !DiscardsAt(m, evs, s, |evs| - 1)
  {
  }

  lemma {:induction false} DiscardedSome(m: Display, evs: seq<Event>, s: string)
    requires m.Registered()
    ensures Discarded(m, evs, s) == 0 <==> forall i | 0 <= i < |evs| :: !DiscardsAt(m, evs, s, i)
  {
    hide DiscardsAt, Run;
    if evs != [] {
      var n := |evs| - 1;
      DiscardedSome(m, evs[..n], s);
      DiscardedLast(m, evs, s);
      if Discarded(m, evs, s) == 0 {
        forall i | 0 <= i < |evs|
          ensures !DiscardsAt(m, evs, s, i)
        {
          if i < n { DiscardsAtPrefix(m, evs, s, i); }
        }
      } else if !DiscardsAt(m, evs, s, n) {
        var i :| 0 <= i < n && DiscardsAt(m, evs[..n], s, i);
        DiscardsAtPrefix(m, evs, s, i);
      }
    }
  }
}
