/** What holds of every run of the scheduler: channel safety, result order, and independence from the schedule. */
module StageRuns {
  import opened StageTypes
  import opened EventTrace
  import opened Scheduler

  // ----- The channel -----

  function SentBy(s: State, l: Label): seq<Result>
    requires l.SendSkip? ==> s.pc.Sending?
    requires l.Send? ==> l.name in s.workers && s.workers[l.name].Ready?
  {
    if l.SendSkip? then [s.pc.result] else if l.Send? then [Result(l.name, s.workers[l.name].status)] else []
  }

  function StartedBy(s: State, l: Label): set<string>
    requires l.Mark? ==> s.pc.Marking? && s.pc.ready != []
  {
    if l.Mark? then {s.pc.ready[0]} else {}
  }

  /** The results sent during a run, in order of sending. */
  ghost function SendsOf(g: Nodes, labels: seq<Label>): seq<Result>
    requires After(g, labels).Some?
  {
    if labels == [] then []
    else
      var init := labels[..|labels| - 1];
      SendsOf(g, init) + SentBy(After(g, init).value, labels[|labels| - 1])
  }

  /** The steps that the coordinator started during a run, dependency skips included. */
  ghost function StartsOf(g: Nodes, labels: seq<Label>): set<string>
    requires After(g, labels).Some?
  {
    if labels == [] then {}
    else
      var init := labels[..|labels| - 1];
      StartsOf(g, init) + StartedBy(After(g, init).value, labels[|labels| - 1])
  }

  lemma NextSends(g: Nodes, s: State, l: Label)
    requires Guard(g, s, l)
    ensures Sent(Next(g, s, l)) == Sent(s) + SentBy(s, l)
  {
    match l
    case SendSkip => assert Sent(Next(g, s, l)) == s.results + (s.chan + [s.pc.result]);
    case Send(n) => assert Sent(Next(g, s, l)) == s.results + (s.chan + SentBy(s, l));
    case Receive => SentReceived(s);
    case _ =>
  }

  lemma NextStarts(g: Nodes, s: State, l: Label)
    requires Tokens(s) && Guard(g, s, l)
    ensures Next(g, s, l).executing + Next(g, s, l).completed == s.executing + s.completed + StartedBy(s, l)
  {
    if l.Receive? { assert NamesOf(s.chan)[0] == s.chan[0].name; }
  }

  lemma {:induction false} SendsAreSent(g: Nodes, labels: seq<Label>, s: State)
    requires Reaches(g, labels, s)
    ensures SendsOf(g, labels) == Sent(s)
  {
    if labels != [] {
      var init := labels[..|labels| - 1];
      SendsAreSent(g, init, After(g, init).value);
      NextSends(g, After(g, init).value, labels[|labels| - 1]);
    }
  }

  lemma {:induction false} StartsAreTracked(g: Nodes, labels: seq<Label>, s: State)
    requires Reaches(g, labels, s)
    ensures StartsOf(g, labels) == s.executing + s.completed
  {
    if labels != [] {
      var init := labels[..|labels| - 1];
      StartsAreTracked(g, init, After(g, init).value);
      ProtocolAlways(g, init, After(g, init).value);
      NextStarts(g, After(g, init).value, labels[|labels| - 1]);
    }
  }

  lemma {:induction false} DistinctFits(s: seq<string>, all: set<string>)
    requires Distinct(s) && forall x | x in s :: x in all
    ensures |s| <= |all|
  {
    if s != [] {
      var last := s[|s| - 1];
      DistinctFits(s[..|s| - 1], all - {last});
    }
  }

  /** Whoever holds a result to send finds room in the channel. */
  lemma RoomToSend(g: Nodes, s: State, n: string)
    requires Protocol(g, s) && n in s.executing && n !in NamesOf(s.chan)
    ensures |s.chan| < |g|
  {
    forall x | x in NamesOf(s.chan) + [n]
      ensures x in g.Keys
    {
      assert x in s.executing;
      assert Supported(g, s, x);
    }
    NamesConcat(s.results, s.chan);
    var ns := NamesOf(s.chan);
    forall i, j | 0 <= i < j < |ns|
      ensures ns[i] != ns[j]
    {
      assert NamesOf(Sent(s))[|s.results| + i] == ns[i] && NamesOf(Sent(s))[|s.results| + j] == ns[j];
    }
    DistinctSnoc(ns, n);
    DistinctFits(ns + [n], g.Keys);
    assert |g.Keys| == |g|;
  }

  lemma NothingInFlight(s: State)
    requires Tokens(s) && s.executing == {}
    ensures s.workers == map[] && s.chan == []
  {
    assert forall n :: n !in NamesOf(s.chan);
    FirstIsMember(NamesOf(s.chan));
    assert s.workers.Keys == {};
  }

  lemma FirstIsMember(ns: seq<string>)
    ensures ns != [] ==> exists n :: n in ns
  {
    if ns != [] { assert ns[0] in ns; }
  }

  /**
   The channel protocol, cancelled runs included: every step sends at most once, a sender always finds room
   in a channel of one slot per step, and once the channel is closed nobody is left to send, nothing is left
   to receive, and every step that was started has its result.
   */
  lemma ChannelProtocol(g: Nodes, labels: seq<Label>, s: State)
    requires Reaches(g, labels, s)
    ensures Distinct(NamesOf(SendsOf(g, labels)))
    ensures s.pc.Sending? ==> |s.chan| < |g|
    ensures forall n | n in s.workers :: |s.chan| < |g|
    ensures s.pc.Closed? ==> s.workers == map[] && s.chan == []
    ensures s.pc.Closed? ==> forall n :: n in StartsOf(g, labels) <==> n in NamesOf(s.results)
  {
    ProtocolAlways(g, labels, s);
    SendsAreSent(g, labels, s);
    StartsAreTracked(g, labels, s);
    if s.pc.Sending? {
      assert s.pc.result.name in InHand(s);
      RoomToSend(g, s, s.pc.result.name);
    }
    forall n | n in s.workers
      ensures |s.chan| < |g|
    {
      RoomToSend(g, s, n);
    }
    if s.pc.Closed? {
      NothingInFlight(s);
    }
  }

  /** The results of any run, even a cancelled one, are a linear extension of the dependency graph. */
  lemma ResultsExtendDependencies(g: Nodes, labels: seq<Label>, s: State)
    requires Reaches(g, labels, s)
    ensures Distinct(NamesOf(s.results))
    ensures LinearExtension(g, s.results)
  {
    ProtocolAlways(g, labels, s);
    NamesConcat(s.results, s.chan);
    var ns := NamesOf(s.results);
    assert forall i | 0 <= i < |ns| :: ns[i] == NamesOf(Sent(s))[i];
  }

  // ----- The decision to skip -----

  lemma FailureIsStableStep(g: Nodes, s: State, l: Label, n: string)
    requires Protocol(g, s) && Guard(g, s, l) && Supported(g, s, n)
    ensures Supported(g, Next(g, s, l), n)
    ensures FailedDependency(g, Next(g, s, l).failed, n) == FailedDependency(g, s.failed, n)
  {
    if l.Receive? { FailureIsStable(g, s, n); }
  }

  /**
   Whether a step has a failed requirement is settled when its requirements have completed: whenever the
   coordinator reads it afterwards, the answer is the same.
   */
  lemma {:induction false} SkipDecisionIsStable(g: Nodes, before: seq<Label>, s: State, more: seq<Label>, t: State,
        n: string)
    requires Reaches(g, before, s) && Reaches(g, before + more, t)
    requires Supported(g, s, n)
    ensures Supported(g, t, n)
    ensures FailedDependency(g, t.failed, n) == FailedDependency(g, s.failed, n)
  {
    if more == [] {
      assert before + more == before;
    } else {
      var init := more[..|more| - 1];
      assert (before + more)[..|before + more| - 1] == before + init;
      var u := After(g, before + init).value;
      SkipDecisionIsStable(g, before, s, init, u, n);
      ProtocolAlways(g, before + init, u);
      FailureIsStableStep(g, u, more[|more| - 1], n);
    }
  }

  /** An action is under way only if every direct requirement has a result that is not an error. */
  lemma ActionsStartAfterSuccess(g: Nodes, labels: seq<Label>, s: State, n: string)
    requires Reaches(g, labels, s) && n in s.workers
    ensures n in g && g[n].runIf
    ensures forall d | d in g[n].deps :: d in NamesOf(s.results) && Result(d, Error) !in s.results
  {
    ProtocolAlways(g, labels, s);
    assert Supported(g, s, n);
  }

  // ----- Uncancelled runs: what is reported and sent -----

  /** The status of a step, given which of its requirements failed. */
  ghost function Local(g: Nodes, failed: set<string>, n: string): Status
    requires n in g
  {
    if FailedDependency(g, failed, n) || !g[n].runIf then Skipped else FinalStatus(g[n], g[n].raw)
  }

  function Script(n: string, node: Node): seq<Event> {
    Opening(n, node) + Closing(n, node, node.raw)
  }

  /** The callbacks of a step: none when a requirement failed, only a completion when the condition fails. */
  ghost function Plan(g: Nodes, failed: set<string>, n: string): seq<Event>
    requires n in g
  {
    if FailedDependency(g, failed, n) then []
    else if !g[n].runIf then [Completed(n, CONDITION_REPORT)]
    else Script(n, g[n])
  }

  /** The step's result is decided: sent, or in the coordinator's hand ready to be sent. */
  ghost predicate Decisive(s: State, n: string) {
    n in s.completed || n in NamesOf(s.chan) || (s.pc.Sending? && s.pc.result.name == n)
  }

  ghost predicate Reported(g: Nodes, s: State, n: string)
    requires n in g
  {
    var told := Projection(s.events, n);
    if n in s.workers then
      match s.workers[n]
      case Acting(todo) => told + todo == Opening(n, g[n])
      case Reporting(todo, status) => told + todo == Script(n, g[n]) && status == FinalStatus(g[n], g[n].raw)
      case Ready(status) => told == Script(n, g[n]) && status == FinalStatus(g[n], g[n].raw)
    else if Decisive(s, n) then told == Plan(g, s.failed, n)
    else told == []
  }

  ghost predicate Truthful(g: Nodes, failed: set<string>, r: Result) {
    r.name in g && r.status == Local(g, failed, r.name)
  }

  ghost predicate Faithful(g: Nodes, s: State) {
    && (forall n | n in g :: Reported(g, s, n))
    && (forall r | r in Sent(s) :: Truthful(g, s.failed, r))
    && (s.pc.Sending? ==> Truthful(g, s.failed, s.pc.result))
    && (forall e | e in s.events :: e.step in g)
  }

  lemma PrintedSteps(n: string, node: Node)
    ensures forall e | e in Opening(n, node) :: e.step == n
  {
    assert forall e | e in PrintedLines(n, node.lines) :: e.step == n;
  }

  lemma ControlFaithful(g: Nodes, s: State, l: Label)
    requires Protocol(g, s) && Guard(g, s, l) && Faithful(g, s)
    requires l.CheckContext? || l.Scan? || l.CheckDone? || l.Close? || l.Mark?
    ensures Faithful(g, Next(g, s, l))
  {
    hide Plan, Script, Projection;
    var t := Next(g, s, l);
    assert Sent(t) == Sent(s);
    assert forall n | n in g :: Reported(g, s, n) ==> Reported(g, t, n);
  }

  lemma DecideReported(g: Nodes, s: State, m: string)
    requires Protocol(g, s) && Guard(g, s, Decide) && m in g && m != s.pc.name && Reported(g, s, m)
    ensures Reported(g, Next(g, s, Decide), m)
  {
    var t := Next(g, s, Decide);
    ProjectionSnoc(s.events, Completed(s.pc.name, CONDITION_REPORT), m);
    assert Projection(t.events, m) == Projection(s.events, m);
    assert m in t.workers <==> m in s.workers;
    assert Decisive(t, m) == Decisive(s, m);
  }

  lemma DecidedReported(g: Nodes, s: State)
    requires Protocol(g, s) && Guard(g, s, Decide) && Reported(g, s, s.pc.name)
    ensures Reported(g, Next(g, s, Decide), s.pc.name)
  {
    var n, t := s.pc.name, Next(g, s, Decide);
    assert n in InHand(s) && n in s.executing && n !in s.workers && !Decisive(s, n);
    assert Projection(s.events, n) == [];
    if FailedDependency(g, s.failed, n) {
      assert t.events == s.events && Decisive(t, n) && n !in t.workers;
    } else if !g[n].runIf {
      ProjectionSnoc(s.events, Completed(n, CONDITION_REPORT), n);
      assert Decisive(t, n) && n !in t.workers;
    } else {
      assert t.events == s.events && t.workers[n] == Acting(Opening(n, g[n]));
    }
  }

  lemma DecideFaithful(g: Nodes, s: State)
    requires Protocol(g, s) && Guard(g, s, Decide) && Faithful(g, s)
    ensures Faithful(g, Next(g, s, Decide))
  {
    assert Reported(g, s, s.pc.name);
    DecidedReported(g, s);
    forall m | m in g && m != s.pc.name { DecideReported(g, s, m); }
    assert Sent(Next(g, s, Decide)) == Sent(s);
  }

  lemma SendSkipFaithful(g: Nodes, s: State)
    requires Protocol(g, s) && Guard(g, s, SendSkip) && Faithful(g, s)
    ensures Faithful(g, Next(g, s, SendSkip))
  {
    var t := Next(g, s, SendSkip);
    NextSends(g, s, SendSkip);
    NamesSnoc(s.chan, s.pc.result);
    forall m | m in g
      ensures Reported(g, t, m)
    {
      assert Reported(g, s, m);
      assert Decisive(t, m) == Decisive(s, m);
    }
  }

  lemma SendReported(g: Nodes, s: State, n: string, m: string)
    requires Protocol(g, s) && Guard(g, s, Send(n)) && m in g && Reported(g, s, m) && n in g
    ensures Reported(g, Next(g, s, Send(n)), m)
  {
    NamesSnoc(s.chan, Result(n, s.workers[n].status));
    assert m != n ==> Decisive(Next(g, s, Send(n)), m) == Decisive(s, m);
  }

  lemma SendFaithful(g: Nodes, s: State, n: string)
    requires Protocol(g, s) && Guard(g, s, Send(n)) && Faithful(g, s)
    ensures Faithful(g, Next(g, s, Send(n)))
  {
    assert n in s.executing && Supported(g, s, n);
    assert Reported(g, s, n);
    NextSends(g, s, Send(n));
    forall m | m in g { SendReported(g, s, n, m); }
  }

  lemma EmitReported(g: Nodes, s: State, n: string, m: string)
    requires Guard(g, s, Emit(n)) && m in g && Reported(g, s, m)
    requires s.workers[n].todo[0].step == n
    ensures Reported(g, Emitting(s, n), m)
  {
    hide Projection, Plan, Script, Opening;
    var todo := s.workers[n].todo;
    ProjectionSnoc(s.events, todo[0], m);
    if m == n {
      assert Projection(s.events, n) + todo == Projection(s.events, n) + [todo[0]] + todo[1..];
    }
  }

  lemma EmitFaithful(g: Nodes, s: State, n: string)
    requires Guard(g, s, Emit(n)) && Faithful(g, s)
    requires n in g && s.workers[n].todo[0].step == n
    ensures Faithful(g, Emitting(s, n))
  {
    assert Sent(Emitting(s, n)) == Sent(s);
    forall m | m in g { EmitReported(g, s, n, m); }
  }

  /** A worker has only its own step's callbacks to pass on. */
  lemma OwnEvents(g: Nodes, s: State, n: string)
    requires n in g && Reported(g, s, n) && n in s.workers && !s.workers[n].Ready? && s.workers[n].todo != []
    ensures s.workers[n].todo[0].step == n
  {
    PrintedSteps(n, g[n]);
    var told, todo := Projection(s.events, n), s.workers[n].todo;
    var all := told + todo;
    assert all[|told|] == todo[0];
    assert todo[0] in all;
    assert forall e | e in Script(n, g[n]) :: e in Opening(n, g[n]) || e in Closing(n, g[n], g[n].raw);
  }

  lemma WorkerFaithful(g: Nodes, s: State, l: Label)
    requires Protocol(g, s) && Guard(g, s, l) && Faithful(g, s) && !s.cancelled && (l.Return? || l.Check?)
    ensures Faithful(g, Next(g, s, l))
  {
    var t, n := Next(g, s, l), l.name;
    assert n in s.executing && Supported(g, s, n);
    assert Sent(t) == Sent(s);
    forall m | m in g
      ensures Reported(g, t, m)
    {
      assert Reported(g, s, m);
      assert m != n ==> Decisive(t, m) == Decisive(s, m);
    }
  }

  lemma ReceiveFaithful(g: Nodes, s: State)
    requires Protocol(g, s) && s.chan != [] && Faithful(g, s)
    ensures Faithful(g, Received(s))
  {
    var t := Received(s);
    ReceiveNames(s);
    SentReceived(s);
    assert NamesOf(s.chan)[0] == s.chan[0].name;
    forall m | m in g
      ensures Reported(g, t, m)
    {
      assert Reported(g, s, m);
      assert Decisive(t, m) == Decisive(s, m);
      if Decisive(s, m) { DecisiveStable(g, s, m); }
    }
    forall r | r in Sent(s)
      ensures Truthful(g, t.failed, r)
    {
      SentDecisive(s, r);
      DecisiveStable(g, s, r.name);
    }
    if s.pc.Sending? { DecisiveStable(g, s, s.pc.result.name); }
  }

  lemma SentDecisive(s: State, r: Result)
    requires Tokens(s) && r in Sent(s)
    ensures Decisive(s, r.name)
  {
    if r in s.results {
      var i :| 0 <= i < |s.results| && s.results[i] == r;
      assert NamesOf(s.results)[i] == r.name;
    } else {
      var i :| 0 <= i < |s.chan| && s.chan[i] == r;
      assert NamesOf(s.chan)[i] == r.name;
    }
  }

  lemma DecisiveStable(g: Nodes, s: State, n: string)
    requires Protocol(g, s) && s.chan != [] && Decisive(s, n)
    ensures n in g && FailedDependency(g, Received(s).failed, n) == FailedDependency(g, s.failed, n)
  {
    assert n in s.completed || n in s.executing;
    assert Supported(g, s, n);
    FailureIsStable(g, s, n);
  }

  lemma NextFaithful(g: Nodes, s: State, l: Label)
    requires Protocol(g, s) && Guard(g, s, l) && Faithful(g, s) && !s.cancelled && !l.Cancel?
    ensures Faithful(g, Next(g, s, l))
  {
    match l
    case Decide => DecideFaithful(g, s);
    case SendSkip => SendSkipFaithful(g, s);
    case Send(n) => SendFaithful(g, s, n);
    case Emit(n) =>
      assert n in s.executing && Supported(g, s, n);
      OwnEvents(g, s, n);
      EmitFaithful(g, s, n);
    case Return(_, _) => WorkerFaithful(g, s, l);
    case Check(_) => WorkerFaithful(g, s, l);
    case Receive => ReceiveFaithful(g, s);
    case _ => ControlFaithful(g, s, l);
  }

  lemma {:induction false} FaithfulAlways(g: Nodes, labels: seq<Label>, s: State)
    requires Reaches(g, labels, s) && !s.cancelled
    ensures Faithful(g, s)
  {
    if labels != [] {
      var init, l := labels[..|labels| - 1], labels[|labels| - 1];
      var prior := After(g, init).value;
      FaithfulAlways(g, init, prior);
      ProtocolAlways(g, init, prior);
      NextFaithful(g, prior, l);
    }
  }
}
