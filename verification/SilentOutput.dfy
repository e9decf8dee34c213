/** In silence mode the transcript is the verbose one without the output of the steps. */
module SilentOutput {
  import opened StageTypes
  import opened OrderedDisplay

  function WithoutOutput(log: seq<Entry>): (quiet: seq<Entry>)
    ensures forall e | e in quiet :: !e.OutputLine?
  {
    if log == [] then []
    else WithoutOutput(log[..|log| - 1]) + if log[|log| - 1].OutputLine? then [] else [log[|log| - 1]]
  }

  /** The same display in silence mode. */
  function Silenced(m: Display): (quiet: Display)
    ensures quiet.steps == m.steps && quiet.data == m.data
  {
    m.(verbose := false, log := WithoutOutput(m.log))
  }

  lemma WithoutSnoc(log: seq<Entry>, e: Entry)
    ensures WithoutOutput(log + [e]) == WithoutOutput(log) + if e.OutputLine? then [] else [e]
  {
    assert (log + [e])[..|log + [e]| - 1] == log;
  }

  lemma {:induction false} WithoutLines(log: seq<Entry>, s: string, lines: seq<string>)
    ensures WithoutOutput(log + OutputLines(s, lines, true)) == WithoutOutput(log)
  {
    if lines == [] {
      assert log + OutputLines(s, lines, true) == log;
    } else {
      var init, last := lines[..|lines| - 1], OutputLine(s, lines[|lines| - 1]);
      WithoutLines(log, s, init);
      assert log + OutputLines(s, lines, true) == (log + OutputLines(s, init, true)) + [last];
      WithoutSnoc(log + OutputLines(s, init, true), last);
    }
  }

  /** Nothing is written of any output in silence mode. */
  lemma SilentLines(log: seq<Entry>, s: string, lines: seq<string>)
    ensures log + OutputLines(s, lines, false) == log
  {
  }

  lemma SameFrontier(m: Display)
    ensures Silenced(m).Frontier() == m.Frontier() && Silenced(m).Open() == m.Open()
  {
    FrontierIs(Silenced(m), m.Frontier());
  }

  lemma OpenBlockSilenced(m: Display, s: string)
    requires m.verbose && s in m.data
    ensures OpenBlock(Silenced(m), s) == Silenced(OpenBlock(m, s))
  {
    hide WithoutOutput;
    WithoutSnoc(m.log, StartLine(s));
    WithoutLines(m.log + [StartLine(s)], s, m.data[s].output);
    SilentLines(WithoutOutput(m.log) + [StartLine(s)], s, m.data[s].output);
  }

  lemma WholeBlockSilenced(m: Display, s: string)
    requires m.verbose && s in m.data
    ensures WholeBlock(Silenced(m), s) == Silenced(WholeBlock(m, s))
  {
    hide WithoutOutput, OutputLines;
    OpenBlockSilenced(m, s);
    WithoutSnoc(OpenBlock(m, s).log, ResultLine(s, m.data[s].report));
  }

  /** The next step of closing up. */
  function ShowNext(p: Display, s: string): Display
    requires s in p.data
  {
    if p.data[s].shown then p else WholeBlock(p, s)
  }

  lemma NothingClosed(m: Display)
    requires m.Registered()
    ensures CloseUpTo(m, 0) == m
  {
  }

  lemma CloseUpToNext(m: Display, k: nat)
    requires m.Registered() && 0 < k <= |m.steps|
    ensures m.steps[k - 1] in CloseUpTo(m, k - 1).data
    ensures CloseUpTo(m, k) == ShowNext(CloseUpTo(m, k - 1), m.steps[k - 1])
  {
    hide WholeBlock;
    assert m.steps[k - 1] in m.steps;
  }

  lemma ShowNextSilenced(p: Display, s: string)
    requires p.verbose && s in p.data
    ensures ShowNext(Silenced(p), s) == Silenced(ShowNext(p, s))
  {
    hide WholeBlock, Silenced;
    if !p.data[s].shown { WholeBlockSilenced(p, s); }
  }

  lemma {:induction false} CloseUpToSilenced(m: Display, k: nat)
    requires m.verbose && m.Registered() && k <= |m.steps|
    ensures CloseUpTo(Silenced(m), k) == Silenced(CloseUpTo(m, k))
  {
    hide ShowNext, Silenced, CloseUpTo;
    if k == 0 {
      NothingClosed(m);
      NothingClosed(Silenced(m));
    } else {
      CloseUpToSilenced(m, k - 1);
      CloseUpToNext(m, k);
      CloseUpToNext(Silenced(m), k);
      ShowNextSilenced(CloseUpTo(m, k - 1), m.steps[k - 1]);
    }
  }

  lemma CatchUpSilenced(m: Display)
    requires m.verbose && m.Registered()
    ensures CatchUp(Silenced(m)) == Silenced(CatchUp(m))
  {
    hide OpenBlock, WithoutOutput;
    SameFrontier(m);
    var p := CloseUpTo(m, m.Frontier());
    CloseUpToSilenced(m, m.Frontier());
    if m.Open().Some? { OpenBlockSilenced(p, m.Open().value); }
  }

  lemma StartSilenced(m: Display, s: string)
    ensures OnStart(Silenced(m), s) == Silenced(OnStart(m, s))
  {
    hide WithoutOutput;
    if s in m.data {
      var m1 := m.(data := m.data[s := m.data[s].(started := true)]);
      SameFrontier(m1);
      WithoutSnoc(m.log, StartLine(s));
    }
  }

  lemma OutputSilenced(m: Display, s: string, line: string)
    requires m.verbose
    ensures OnOutput(Silenced(m), s, line) == Silenced(OnOutput(m, s, line))
  {
    hide WithoutOutput;
    WithoutLines(m.log, s, [line]);
    SilentLines(WithoutOutput(m.log), s, [line]);
    assert m.log + [] == m.log && WithoutOutput(m.log) + [] == WithoutOutput(m.log);
  }

  lemma CompletingSilenced(m: Display, s: string, report: Report)
    ensures Completing(Silenced(m), s, report) == Silenced(Completing(m, s, report))
    ensures Completing(m, s, report).steps == m.steps && Completing(m, s, report).verbose == m.verbose
    ensures Completing(m, s, report).data.Keys == m.data.Keys
  {
    hide WithoutOutput;
    WithoutSnoc(m.log, ResultLine(s, report));
    assert m.log + [] == m.log && WithoutOutput(m.log) + [] == WithoutOutput(m.log);
  }

  lemma ApplySilenced(m: Display, e: Event)
    requires m.verbose && m.Registered()
    ensures Apply(Silenced(m), e) == Silenced(Apply(m, e))
  {
    hide OnStart, OnOutput, Completing, CatchUp, WithoutOutput;
    match e
    case Started(s) => StartSilenced(m, s);
    case Printed(s, line) => OutputSilenced(m, s, line);
    case Failed(_, _) =>
    case Completed(s, report) =>
      CompletingSilenced(m, s, report);
      CatchUpSilenced(Completing(m, s, report));
  }

  /**
   For every sequence of callbacks, silence mode writes what verbose mode writes, but no line of output; all
   else that the manager knows is the same.
   */
  lemma {:induction false} SilenceDropsOutput(steps: seq<string>, evs: seq<Event>)
    requires NO_STEP !in steps
    ensures Run(Fresh(steps, false), evs) == Silenced(Run(Fresh(steps, true), evs))
    ensures forall e | e in Run(Fresh(steps, false), evs).log :: !e.OutputLine?
  {
    hide Apply, WithoutOutput;
    if evs != [] {
      SilenceDropsOutput(steps, evs[..|evs| - 1]);
      ApplySilenced(Run(Fresh(steps, true), evs[..|evs| - 1]), evs[|evs| - 1]);
    } else {
      NothingWritten();
    }
  }

  lemma NothingWritten()
    ensures WithoutOutput([]) == []
  {
  }
}
