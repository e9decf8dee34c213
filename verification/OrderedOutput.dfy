/** The classes of the ordered output, proved to do what the functions of OrderedDisplay say. */
module OrderedOutput {
  import opened StageTypes
  import opened OrderedDisplay

  /** What the manager has collected about one step. */
  class StepOutputData {
    var started: bool
    var completed: bool
    var shown: bool
    var report: Report
    var output: seq<string>
    var error: Option<string>

    constructor ()
      ensures View() == NEW_STEP
    {
      started, completed, shown := false, false, false;
      report, output, error := Report(Pending, ""), [], None;
    }

    ghost function View(): StepData
      reads this
    {
      StepData(started, completed, shown, report, output, error)
    }
  }

  /** Of the declared steps the manager reads only the names; `log` stands for the writer. */
  class OrderedOutputManager {
    const steps: seq<string>
    const verbose: bool
    var stepData: map<string, StepOutputData>
    var currentStep: string
    var log: seq<Entry>

    /** No two names share a record. */
    ghost predicate Valid()
      reads this
    {
      forall s, t | s in stepData && t in stepData && s != t :: stepData[s] != stepData[t]
    }

    ghost function View(): Display
      reads this, stepData.Values
    {
      Display(steps, verbose, map s | s in stepData :: stepData[s].View(), currentStep, log)
    }

    constructor (steps: seq<string>, verbose: bool)
      ensures Valid() && this.steps == steps && this.verbose == verbose
      ensures stepData == map[] && currentStep == NO_STEP && log == []
    {
      this.steps, this.verbose := steps, verbose;
      stepData, currentStep, log := map[], NO_STEP, [];
    }

    method RegisterStep(stepName: string)
      requires Valid()
      modifies this
      ensures Valid() && currentStep == old(currentStep) && log == old(log)
      ensures stepData.Keys == old(stepData.Keys) + {stepName} && fresh(stepData[stepName])
      ensures stepData[stepName].View() == NEW_STEP
      ensures forall s | s in old(stepData) && s != stepName :: stepData[s] == old(stepData[s])
    {
      var data := new StepOutputData();
      stepData := stepData[stepName := data];
    }

    method OnStepStart(stepName: string)
      requires Valid() && Orderly(View()) && stepName != NO_STEP
      modifies this, stepData.Values
      ensures Valid() && stepData == old(stepData)
      ensures View() == OnStart(old(View()), stepName)
    {
      ghost var before := View();
      MarkStarted(stepName);
      ghost var marked := View();
      var canShow := CanShowStepStart(stepName);
      CanShowAtFrontier(before, marked, stepName, canShow);
      assert canShow ==> (marked.data[stepName].shown <==> stepData[stepName].shown);
      if canShow && !stepData[stepName].shown {
        ShowStartOnly(stepName);
      }
    }

    /** Writes the start of a step and nothing of what is buffered for it. */
    method ShowStartOnly(stepName: string)
      requires Valid() && stepName in stepData
      modifies this, stepData[stepName]
      ensures Valid() && stepData == old(stepData)
      ensures View() == StartOnly(old(View()), stepName)
    {
      ghost var before := View();
      ShowStepStart(stepName);
      stepData[stepName].shown := true;
      currentStep := stepName;
      assert View().data == before.data[stepName := before.data[stepName].(shown := true)];
    }

    method MarkStarted(stepName: string)
      requires Valid()
      modifies stepData.Values
      ensures View() == if stepName !in stepData then old(View())
                        else old(View()).(data := old(View()).data[stepName :=
                          old(View()).data[stepName].(started := true)])
    {
      ghost var before := View();
      if stepName in stepData {
        stepData[stepName].started := true;
        assert View().data == before.data[stepName := before.data[stepName].(started := true)];
      }
    }

    method OnStepOutput(stepName: string, output: string)
      requires Valid()
      modifies this, stepData.Values
      ensures Valid() && stepData == old(stepData)
      ensures View() == OnOutput(old(View()), stepName, output)
      ensures !verbose ==> log == old(log)
    {
      ghost var before := View();
      if stepName in stepData {
        stepData[stepName].output := stepData[stepName].output + [output];
        assert View().data == before.data[stepName :=
          before.data[stepName].(output := before.data[stepName].output + [output])];
      }
      if currentStep == stepName {
        ShowStepOutput(stepName, output);
      }
      assert before.log + [] == before.log;
    }

    method OnStepError(stepName: string, error: string)
      requires Valid()
      modifies this, stepData.Values
      ensures Valid() && stepData == old(stepData)
      ensures View() == OnError(old(View()), stepName, error)
      ensures stepName in stepData ==> stepData[stepName].error == Some(error)
    {
      ghost var before := View();
      if stepName in stepData {
        stepData[stepName].error := Some(error);
        assert View().data == before.data[stepName := before.data[stepName].(error := Some(error))];
      }
    }

    method OnStepComplete(stepName: string, report: Report)
      requires Valid() && View().Registered() && stepName != NO_STEP
      modifies this, stepData.Values
      ensures Valid() && stepData == old(stepData)
      ensures View() == OnComplete(old(View()), stepName, report)
    {
      hide CloseUpTo, CatchUp, OpenNext;
      ghost var before := View();
      MarkCompleted(stepName, report);
      if currentStep == stepName {
        ShowStepCompletion(stepName);
        currentStep := NO_STEP;
      }
      ghost var completing := View();
      assert completing == Completing(before, stepName, report);
      CheckAndShowCompletedSteps();
      CloseUpToKeepsOpen(completing);
      CheckAndShowNextStep();
    }

    method MarkCompleted(stepName: string, report: Report)
      requires Valid()
      modifies stepData.Values
      ensures View() == if stepName !in stepData then old(View())
                        else old(View()).(data := old(View()).data[stepName :=
                          old(View()).data[stepName].(completed := true, report := report)])
    {
      ghost var before := View();
      if stepName in stepData {
        stepData[stepName].completed := true;
        stepData[stepName].report := report;
        assert View().data == before.data[stepName := before.data[stepName].(completed := true, report := report)];
      }
    }

    /** Whether every step declared before `stepName` has completed. */
    method CanShowStepStart(stepName: string) returns (can: bool)
      requires Valid()
      ensures can <==> AllBefore(View(), stepName)
    {
      var stepIndex, i := -1, 0;
      while i < |steps|
        invariant 0 <= i <= |steps| && stepIndex == -1
        invariant forall j | 0 <= j < i :: steps[j] != stepName
      {
        if steps[i] == stepName {
          stepIndex := i;
          break;
        }
        i := i + 1;
      }
      if stepIndex == -1 {
        return false;
      }
      if stepIndex == 0 {
        assert BeforeAt(View(), stepName, 0);
        return true;
      }
      i := 0;
      while i < stepIndex
        invariant 0 <= i <= stepIndex
        invariant forall j | 0 <= j < i :: View().IsCompleted(steps[j])
      {
        if steps[i] !in stepData || !stepData[steps[i]].completed {
          assert !View().IsCompleted(steps[i]);
          return false;
        }
        assert View().IsCompleted(steps[i]);
        i := i + 1;
      }
      assert BeforeAt(View(), stepName, stepIndex);
      return true;
    }

    /** Shows the completed steps that are next in order. */
    method CheckAndShowCompletedSteps()
      requires Valid() && View().Registered()
      modifies this, stepData.Values
      ensures Valid() && stepData == old(stepData)
      ensures View() == CloseUpTo(old(View()), old(View()).Frontier())
    {
      ghost var before := View();
      var i := 0;
      while i < |steps|
        invariant 0 <= i <= |steps| && Valid() && stepData == old(stepData)
        invariant View() == Scanned(before, i)
      {
        ScannedFlags(before, i);
        NextScanned(before, i);
        ShowIfCompletedNext(i);
        i := i + 1;
      }
    }

    /** One turn of the scan for completed steps: at step `i`, with everything before it already shown. */
    method ShowIfCompletedNext(i: nat)
      requires Valid() && View().Registered() && i < |steps|
      requires forall j | 0 <= j < i && j < View().Frontier() :: View().IsShown(steps[j])
      modifies this, stepData.Values
      ensures Valid() && stepData == old(stepData)
      ensures View() == if Unshown(old(View()), steps[i]) && i < old(View()).Frontier()
                        then WholeBlock(old(View()), steps[i]) else old(View())
    {
      var stepName := steps[i];
      assert stepName in View().data;
      assert Unshown(View(), stepName) <==> stepData[stepName].completed && !stepData[stepName].shown;
      if stepData[stepName].completed && !stepData[stepName].shown {
        var canShow := CanShowCompleted(stepName);
        CanShowInPrefix(View(), i, canShow);
        if canShow {
          ShowWholeStep(stepName);
        }
      }
    }

    /** The scan of CheckAndShowCompletedSteps over the steps declared before `stepName`. */
    method CanShowCompleted(stepName: string) returns (canShow: bool)
      requires Valid()
      ensures canShow <==> ShownBefore(View(), stepName)
    {
      var j := 0;
      while j < |steps| && steps[j] != stepName
        invariant 0 <= j <= |steps|
        invariant forall k | 0 <= k < j :: steps[k] != stepName && Done(View(), steps[k])
      {
        if steps[j] !in stepData || !stepData[steps[j]].completed || !stepData[steps[j]].shown {
          assert !Done(View(), steps[j]);
          return false;
        }
        assert Done(View(), steps[j]);
        j := j + 1;
      }
      assert ShownBeforeAt(View(), stepName, j);
      return true;
    }

    /** Opens the block of the first incomplete step if it has started. */
    method CheckAndShowNextStep()
      requires Valid() && View().Registered()
      modifies this, stepData.Values
      ensures Valid() && stepData == old(stepData)
      ensures View() == OpenNext(old(View()))
    {
      hide AllBefore, OpenBlock;
      ghost var before := View();
      var i := 0;
      while i < |steps|
        invariant 0 <= i <= |steps| && Valid() && stepData == old(stepData) && View() == before
        invariant before.Frontier() < i ==> OpenNext(before) == before
      {
        var stepName := steps[i];
        assert stepName in View().data;
        if stepData[stepName].started && !stepData[stepName].completed && !stepData[stepName].shown {
          var canShow := CanShowStepStart(stepName);
          FrontierOnly(before, stepName);
          if canShow {
            OpenStep(stepName);
            return;
          }
        } else {
          assert !before.IsStarted(stepName) || before.IsCompleted(stepName) || before.IsShown(stepName);
        }
        i := i + 1;
      }
    }

    /** Writes the start of a step and its buffered output. */
    method OpenStep(stepName: string)
      requires Valid() && stepName in stepData
      modifies this, stepData[stepName]
      ensures Valid() && stepData == old(stepData)
      ensures View() == OpenBlock(old(View()), stepName)
    {
      ghost var before := View();
      ShowStepStart(stepName);
      stepData[stepName].shown := true;
      currentStep := stepName;
      FlushBufferedOutput(stepName);
      assert View().data == before.data[stepName := before.data[stepName].(shown := true, output := [])];
    }

    /** Shows a step that completed before it could be shown. */
    method ShowWholeStep(stepName: string)
      requires Valid() && stepName in stepData
      modifies this, stepData[stepName]
      ensures Valid() && stepData == old(stepData)
      ensures View() == WholeBlock(old(View()), stepName)
    {
      OpenStep(stepName);
      assert View().data[stepName].report == stepData[stepName].report;
      ShowStepCompletion(stepName);
      currentStep := NO_STEP;
    }

    method ShowStepStart(stepName: string)
      modifies this`log
      ensures log == old(log) + [StartLine(stepName)]
    {
      log := log + [StartLine(stepName)];
    }

    method ShowStepCompletion(stepName: string)
      modifies this`log
      ensures log == old(log) + if stepName in stepData then [ResultLine(stepName, stepData[stepName].report)] else []
    {
      if stepName in stepData {
        log := log + [ResultLine(stepName, stepData[stepName].report)];
      }
    }

    method ShowStepOutput(stepName: string, output: string)
      modifies this`log
      ensures log == old(log) + OutputLines(stepName, [output], verbose)
    {
      if verbose {
        log := log + [OutputLine(stepName, output)];
      }
    }

    method FlushBufferedOutput(stepName: string)
      requires Valid()
      modifies this`log, if stepName in stepData then {stepData[stepName]} else {}
      ensures stepName !in stepData || !verbose ==> log == old(log)
      ensures stepName in stepData ==> log == old(log) + OutputLines(stepName, old(stepData[stepName].output), verbose)
      ensures stepName in stepData ==> stepData[stepName].View() == old(stepData[stepName].View()).(output := [])
    {
      if stepName !in stepData {
        return;
      }
      var output := stepData[stepName].output;
      var i := 0;
      while i < |output|
        modifies this`log
        invariant 0 <= i <= |output|
        invariant log == old(log) + OutputLines(stepName, output[..i], verbose)
      {
        assert output[..i + 1] == output[..i] + [output[i]];
        ShowStepOutput(stepName, output[i]);
        i := i + 1;
      }
      assert output[..|output|] == output;
      stepData[stepName].output := [];
    }
  }

  // ----- The tests that the loops make, in terms of the frontier -----

  /** `i` is where `s` is declared first, and everything before it has completed. */
  ghost predicate BeforeAt(m: Display, s: string, i: nat) {
    i < |m.steps| && m.steps[i] == s && forall j | 0 <= j < i :: m.steps[j] != s && m.IsCompleted(m.steps[j])
  }

  ghost predicate AllBefore(m: Display, s: string) {
    exists i: nat :: BeforeAt(m, s, i)
  }

  ghost predicate Unshown(m: Display, s: string) {
    m.IsCompleted(s) && !m.IsShown(s)
  }

  ghost predicate Done(m: Display, s: string) {
    m.IsCompleted(s) && m.IsShown(s)
  }

  /** Every step up to the first declaration of `s` is completed and shown. */
  ghost predicate ShownBefore(m: Display, s: string) {
    exists j: nat :: ShownBeforeAt(m, s, j)
  }

  ghost predicate ShownBeforeAt(m: Display, s: string, j: nat) {
    && j <= |m.steps| && (j < |m.steps| ==> m.steps[j] == s)
    && forall k | 0 <= k < j :: m.steps[k] != s && Done(m, m.steps[k])
  }

  /** The second half of catching up. */
  function OpenNext(m: Display): Display
    requires m.Registered()
  {
    if m.Open().Some? && !m.IsShown(m.Open().value) then OpenBlock(m, m.Open().value) else m
  }

  lemma CloseUpToFlags(m: Display, k: nat)
    requires m.Registered() && k <= |m.steps|
    ensures CloseUpTo(m, k).Registered()
    ensures forall s ::
      CloseUpTo(m, k).IsCompleted(s) == m.IsCompleted(s) && CloseUpTo(m, k).IsStarted(s) == m.IsStarted(s)
    ensures CloseUpTo(m, k).Frontier() == m.Frontier() && CloseUpTo(m, k).Open() == m.Open()
  {
    FrontierIs(CloseUpTo(m, k), m.Frontier());
  }

  lemma CloseUpToKeepsOpen(m: Display)
    requires m.Registered()
    ensures CloseUpTo(m, m.Frontier()).Registered()
    ensures CatchUp(m) == OpenNext(CloseUpTo(m, m.Frontier()))
  {
    CloseUpToFlags(m, m.Frontier());
  }

  /** `m1` is the consistent display `m` after the started flag of `s` is set. */
  lemma CanShowAtFrontier(m: Display, m1: Display, s: string, canShow: bool)
    requires m.Consistent()
    requires m1 == if s in m.data then m.(data := m.data[s := m.data[s].(started := true)]) else m
    requires canShow <==> AllBefore(m1, s)
    ensures canShow ==> s in m.data
    ensures s in m.data && !m.data[s].shown ==> (canShow <==> m1.CanOpen(s))
  {
    var f := m.Frontier();
    if s in m.data {
      FrontierIs(m1, f);
      if m1.CanOpen(s) {
        assert BeforeAt(m1, s, f);
      }
    }
  }

  /** The display when the scan for completed steps has looked at `i` steps. */
  function Scanned(m: Display, i: nat): Display
    requires m.Registered()
  {
    CloseUpTo(m, if i < m.Frontier() then i else m.Frontier())
  }

  lemma WholeBlockShows(m: Display, s: string)
    requires s in m.data
    ensures forall t :: WholeBlock(m, s).IsShown(t) <==> t == s || m.IsShown(t)
  {
  }

  lemma {:induction false} CloseUpToShows(m: Display, k: nat)
    requires m.Registered() && k <= |m.steps|
    ensures forall j | 0 <= j < k :: CloseUpTo(m, k).IsShown(m.steps[j])
  {
    hide WholeBlock;
    if k > 0 {
      CloseUpToShows(m, k - 1);
      WholeBlockShows(CloseUpTo(m, k - 1), m.steps[k - 1]);
    }
  }

  lemma ScannedFlags(m: Display, i: nat)
    requires m.Registered()
    ensures var now := Scanned(m, i);
      && now.steps == m.steps && now.Registered() && now.Frontier() == m.Frontier()
      && forall j | 0 <= j < i && j < m.Frontier() :: now.IsShown(m.steps[j])
  {
    CloseUpToFlags(m, if i < m.Frontier() then i else m.Frontier());
    CloseUpToShows(m, if i < m.Frontier() then i else m.Frontier());
  }

  lemma NextScanned(m: Display, i: nat)
    requires m.Registered() && i < |m.steps|
    ensures Scanned(m, i + 1) == if Unshown(Scanned(m, i), m.steps[i]) && i < m.Frontier()
                                 then WholeBlock(Scanned(m, i), m.steps[i]) else Scanned(m, i)
  {
    hide WholeBlock;
    if i < m.Frontier() {
      assert m.IsCompleted(m.steps[i]);
      assert CloseUpTo(m, i).IsCompleted(m.steps[i]);
    }
  }

  /** A completed step that is not shown may be shown exactly if it is in the completed prefix. */
  lemma CanShowInPrefix(now: Display, i: nat, canShow: bool)
    requires now.Registered() && i < |now.steps|
    requires Unshown(now, now.steps[i])
    requires forall j | 0 <= j < i && j < now.Frontier() :: now.IsShown(now.steps[j])
    requires canShow <==> ShownBefore(now, now.steps[i])
    ensures canShow <==> i < now.Frontier()
  {
    var f, s := now.Frontier(), now.steps[i];
    if i < f {
      assert ShownBeforeAt(now, s, i);
    }
  }

  lemma FrontierOnly(m: Display, s: string)
    requires m.Registered() && s in m.data && s in m.steps && !m.data[s].completed
    ensures AllBefore(m, s) <==> m.Frontier() < |m.steps| && m.steps[m.Frontier()] == s
  {
    var f := m.Frontier();
    if AllBefore(m, s) {
      var i: nat :| BeforeAt(m, s, i);
      FrontierIs(m, i);
    } else if f < |m.steps| && m.steps[f] == s {
      assert BeforeAt(m, s, f);
    }
  }

  lemma RegisteredIsFresh(m: Display, steps: seq<string>, verbose: bool)
    requires NO_STEP !in steps && m.steps == steps && m.verbose == verbose && m.current == NO_STEP && m.log == []
    requires forall s :: s in m.data <==> s in steps
    requires forall s | s in m.data :: m.data[s] == NEW_STEP
    ensures m == Fresh(steps, verbose) && Orderly(m)
  {
    assert m.data == Fresh(steps, verbose).data;
    TranscriptInOrder(steps, verbose, []);
  }

  // ----- The step callback -----

  /** The results that a sequence of callbacks adds to the summary. */
  function CallbackResults(evs: seq<Event>): seq<StepResult> {
    if evs == [] then []
    else
      var e := evs[|evs| - 1];
      CallbackResults(evs[..|evs| - 1]) + if e.Completed? then [StepResult(e.step, e.report.status)] else []
  }

  lemma CallbackResultsSnoc(evs: seq<Event>, e: Event)
    ensures CallbackResults(evs + [e])
         == CallbackResults(evs) + if e.Completed? then [StepResult(e.step, e.report.status)] else []
  {
    assert (evs + [e])[..|evs + [e]| - 1] == evs;
  }

  /** Forwards every callback to the manager and collects the results; `heard` is what it was called with. */
  class OrderedStepCallback {
    const manager: OrderedOutputManager
    var results: seq<StepResult>
    ghost var heard: seq<Event>

    ghost predicate Valid()
      reads this, manager, manager.stepData.Values
    {
      && manager.Valid() && NO_STEP !in manager.steps
      && (forall e | e in heard :: e.step != NO_STEP)
      && manager.View() == Run(Fresh(manager.steps, manager.verbose), heard)
      && results == CallbackResults(heard)
    }

    constructor (steps: seq<string>, verbose: bool)
      requires NO_STEP !in steps
      ensures Valid() && manager.steps == steps && manager.verbose == verbose && heard == []
      ensures fresh(manager) && fresh(manager.stepData.Values)
    {
      var m := new OrderedOutputManager(steps, verbose);
      var i := 0;
      while i < |steps|
        invariant 0 <= i <= |steps| && m.Valid() && fresh(m) && m.currentStep == NO_STEP && m.log == []
        invariant forall s :: s in m.stepData <==> s in steps[..i]
        invariant forall s | s in m.stepData :: fresh(m.stepData[s]) && m.stepData[s].View() == NEW_STEP
      {
        assert steps[..i + 1] == steps[..i] + [steps[i]];
        m.RegisterStep(steps[i]);
        i := i + 1;
      }
      assert steps[..|steps|] == steps;
      RegisteredIsFresh(m.View(), steps, verbose);
      manager := m;
      results, heard := [], [];
    }

    method OnStepStart(stepName: string)
      requires Valid() && stepName != NO_STEP
      modifies this, manager, manager.stepData.Values
      ensures Valid() && manager.stepData == old(manager.stepData) && heard == old(heard) + [Started(stepName)]
    {
      TranscriptInOrder(manager.steps, manager.verbose, heard);
      manager.OnStepStart(stepName);
      Hear(Started(stepName));
    }

    method OnStepComplete(stepName: string, report: Report)
      requires Valid() && stepName != NO_STEP
      modifies this, manager, manager.stepData.Values
      ensures Valid() && manager.stepData == old(manager.stepData)
      ensures heard == old(heard) + [Completed(stepName, report)]
    {
      TranscriptInOrder(manager.steps, manager.verbose, heard);
      manager.OnStepComplete(stepName, report);
      results := results + [StepResult(stepName, report.status)];
      Hear(Completed(stepName, report));
    }

    method OnStepOutput(stepName: string, output: string)
      requires Valid() && stepName != NO_STEP
      modifies this, manager, manager.stepData.Values
      ensures Valid() && manager.stepData == old(manager.stepData) && heard == old(heard) + [Printed(stepName, output)]
    {
      TranscriptInOrder(manager.steps, manager.verbose, heard);
      manager.OnStepOutput(stepName, output);
      Hear(Printed(stepName, output));
    }

    method OnStepError(stepName: string, error: string)
      requires Valid() && stepName != NO_STEP
      modifies this, manager, manager.stepData.Values
      ensures Valid() && manager.stepData == old(manager.stepData) && heard == old(heard) + [Failed(stepName, error)]
    {
      TranscriptInOrder(manager.steps, manager.verbose, heard);
      manager.OnStepError(stepName, error);
      Hear(Failed(stepName, error));
    }

    /** Records a callback that has been served. */
    ghost method Hear(e: Event)
      requires manager.Valid() && NO_STEP !in manager.steps && e.step != NO_STEP
      requires forall e | e in heard :: e.step != NO_STEP
      requires manager.View() == Apply(Run(Fresh(manager.steps, manager.verbose), heard), e)
      requires results == CallbackResults(heard) + if e.Completed? then [StepResult(e.step, e.report.status)] else []
      modifies this`heard
      ensures Valid() && heard == old(heard) + [e]
    {
      hide Apply, Run, CallbackResults;
      RunSnoc(Fresh(manager.steps, manager.verbose), heard, e);
      CallbackResultsSnoc(heard, e);
      heard := heard + [e];
    }
  }
}
