/**
 The parallel execution of a stage as a transition system.

 The coordinator goroutine scans for ready steps and starts them, every started action is a worker that
 reports to the step callback and sends its result, and the result handler moves results from the channel
 to the shared maps. Every label below is one atomic action of one of them; a run is any sequence of labels
 whose guards hold, so it is any interleaving.
 */
module Scheduler {
  import opened StageTypes

  // ----- What a single step does -----

  /** The answer of variant selection; an action without variants counts as selected. */
  datatype Choice = Unselectable(error: string) | NoMatch | Selected

  /** What an action returns: a result and an error. */
  datatype Raw = Raw(status: Status, message: string, error: Option<string>)

  /** A step with everything the scheduler asks of it: its condition, its policy and what its action does. */
  datatype Node = Node(deps: seq<string>, runIf: bool, warn: bool, choice: Choice, lines: seq<string>, raw: Raw)

  type Nodes = map<string, Node>

  datatype Result = Result(name: string, status: Status)

  const CONDITION_REPORT := Report(Skipped, "skipped (condition not met)")

  /** `onerror: warn` turns an error into a warning and clears the error. */
  function Policy(warn: bool, raw: Raw): Raw {
    if raw.status == Error && warn then Raw(Warn, raw.message, None) else raw
  }

  /** The status that the scheduler sees; a failed variant selection never reaches the policy. */
  function FinalStatus(node: Node, raw: Raw): Status {
    match node.choice
    case Unselectable(_) => Error
    case NoMatch => Skipped
    case Selected => Policy(node.warn, raw).status
  }

  /** The report that the step callback gets. */
  function FinalReport(node: Node, raw: Raw): Report {
    match node.choice
    case Unselectable(error) => Report(Error, error)
    case NoMatch => Report(Skipped, "no matching variant")
    case Selected =>
      var r := Policy(node.warn, raw);
      if r.status == Error || r.status == Warn || r.status == Skipped then Report(r.status, r.message)
      else if r.error.Some? then Report(Error, r.error.value)
      else Report(OK, "executed successfully")
  }

  function PrintedLines(n: string, lines: seq<string>): seq<Event> {
    seq(|lines|, i requires 0 <= i < |lines| => Printed(n, lines[i]))
  }

  /** The callbacks of an action up to its return. */
  function Opening(n: string, node: Node): seq<Event> {
    [Started(n)] + if node.choice.Selected? then PrintedLines(n, node.lines) else []
  }

  /** The callbacks of an action after its return. */
  function Closing(n: string, node: Node, raw: Raw): seq<Event> {
    var r := Policy(node.warn, raw);
    (if node.choice.Selected? && r.error.Some? && r.status != Warn && r.status != Skipped
     then [Failed(n, r.error.value)] else [])
    + [Completed(n, FinalReport(node, raw))]
  }

  // ----- The state -----

  datatype Worker =
    | Acting(todo: seq<Event>)
    | Reporting(todo: seq<Event>, status: Status)
    | Ready(status: Status)

  /** Where the coordinator is, with the ready steps that it has not taken up yet. */
  datatype Coordinator =
    | Looping
    | Scanning
    | Checking
    | Dispatching(ready: seq<string>)
    | Marking(ready: seq<string>)
    | Deciding(name: string, ready: seq<string>)
    | Sending(result: Result, ready: seq<string>)
    | Draining
    | Closed

  datatype State = State(
    pc: Coordinator, completed: set<string>, failed: set<string>, executing: set<string>,
    workers: map<string, Worker>, chan: seq<Result>, results: seq<Result>, events: seq<Event>, cancelled: bool)

  const INITIAL := State(Looping, {}, {}, {}, map[], [], [], [], false)

  datatype Label =
    | Cancel
    | CheckContext
    | Scan(found: seq<string>)
    | CheckDone
    | Mark
    | Decide
    | SendSkip
    | Emit(name: string)
    | Return(name: string, raw: Raw)
    | Check(name: string)
    | Send(name: string)
    | Receive
    | Close

  ghost predicate FailedDependency(g: Nodes, failed: set<string>, n: string)
    requires n in g
  {
    exists d | d in g[n].deps :: d in failed
  }

  ghost predicate IsReady(g: Nodes, s: State, n: string) {
    && n in g && n !in s.completed && n !in s.executing && n !in s.failed
    && forall d | d in g[n].deps :: d in s.completed
  }

  ghost predicate Guard(g: Nodes, s: State, l: Label) {
    match l
    case Cancel => true
    case CheckContext => s.pc.Looping? || s.pc.Dispatching?
    case Scan(found) => s.pc.Scanning? && Distinct(found) && forall n :: n in found <==> IsReady(g, s, n)
    case CheckDone => s.pc.Checking?
    case Mark => s.pc.Marking? && s.pc.ready != []
    case Decide => s.pc.Deciding? && s.pc.name in g
    case SendSkip => s.pc.Sending? && |s.chan| < |g|
    case Emit(n) => n in s.workers && !s.workers[n].Ready? && s.workers[n].todo != []
    case Return(n, raw) =>
      && n in g && n in s.workers && s.workers[n].Acting?
      && (if s.cancelled then |s.workers[n].todo| < |Opening(n, g[n])| else s.workers[n].todo == [] && raw == g[n].raw)
    case Check(n) => n in s.workers && s.workers[n].Reporting? && s.workers[n].todo == []
    case Send(n) => n in s.workers && s.workers[n].Ready? && |s.chan| < |g|
    case Receive => s.chan != []
    case Close => s.pc.Draining? && s.executing == {}
  }

  /** One worker passes on its next callback. */
  function Emitting(s: State, n: string): State
    requires n in s.workers && !s.workers[n].Ready? && s.workers[n].todo != []
  {
    var w := s.workers[n];
    s.(events := s.events + [w.todo[0]],
       workers := s.workers[n := if w.Acting? then Acting(w.todo[1..]) else Reporting(w.todo[1..], w.status)])
  }

  /** What the coordinator does with a step that it has marked: skip it, or start its worker. */
  ghost function Decided(g: Nodes, s: State, n: string, ready: seq<string>): State
    requires n in g
  {
    if FailedDependency(g, s.failed, n) then s.(pc := Sending(Result(n, Skipped), ready))
    else if !g[n].runIf then
      s.(pc := Sending(Result(n, Skipped), ready), events := s.events + [Completed(n, CONDITION_REPORT)])
    else s.(pc := Dispatching(ready), workers := s.workers[n := Acting(Opening(n, g[n]))])
  }

  /** The result handler takes one result. */
  function Received(s: State): State
    requires s.chan != []
  {
    var r := s.chan[0];
    s.(chan := s.chan[1..], results := s.results + [r], completed := s.completed + {r.name},
       executing := s.executing - {r.name}, failed := if r.status == Error then s.failed + {r.name} else s.failed)
  }

  ghost function Next(g: Nodes, s: State, l: Label): State
    requires Guard(g, s, l)
  {
    match l
    case Cancel => s.(cancelled := true)
    case CheckContext =>
      if s.pc.Dispatching? && s.pc.ready == [] then s.(pc := Looping)
      else if s.cancelled then s.(pc := Draining)
      else if s.pc.Looping? then s.(pc := Scanning)
      else s.(pc := Marking(s.pc.ready))
    case Scan(found) => s.(pc := if found == [] then Checking else Dispatching(found))
    case CheckDone => s.(pc := if forall n | n in g :: n in s.completed || n in s.failed then Draining else Looping)
    case Mark => s.(pc := Deciding(s.pc.ready[0], s.pc.ready[1..]), executing := s.executing + {s.pc.ready[0]})
    case Decide => Decided(g, s, s.pc.name, s.pc.ready)
    case SendSkip => s.(pc := Dispatching(s.pc.ready), chan := s.chan + [s.pc.result])
    case Emit(n) => Emitting(s, n)
    case Return(n, raw) => s.(workers := s.workers[n := Reporting(Closing(n, g[n], raw), FinalStatus(g[n], raw))])
    case Check(n) => s.(workers := s.workers[n := Ready(if s.cancelled then Error else s.workers[n].status)])
    case Send(n) => s.(workers := s.workers - {n}, chan := s.chan + [Result(n, s.workers[n].status)])
    case Receive => Received(s)
    case Close => s.(pc := Closed)
  }

  /** The state after a sequence of labels, if it is a run. */
  ghost function After(g: Nodes, labels: seq<Label>): Option<State> {
    if labels == [] then Some(INITIAL)
    else
      match After(g, labels[..|labels| - 1])
      case None => None
      case Some(s) => if Guard(g, s, labels[|labels| - 1]) then Some(Next(g, s, labels[|labels| - 1])) else None
  }

  ghost predicate Reaches(g: Nodes, labels: seq<Label>, s: State) {
    After(g, labels) == Some(s)
  }

  /** The channel is closed and the result handler has taken everything. */
  predicate Done(s: State) {
    s.pc.Closed? && s.chan == []
  }

  // ----- The protocol invariant -----

  function NamesOf(rs: seq<Result>): (ns: seq<string>)
    ensures |ns| == |rs| && forall i | 0 <= i < |rs| :: ns[i] == rs[i].name
  {
    seq(|rs|, i requires 0 <= i < |rs| => rs[i].name)
  }

  /** The results sent so far, in the order of sending. */
  function Sent(s: State): seq<Result> {
    s.results + s.chan
  }

  function InHand(s: State): set<string> {
    match s.pc
    case Deciding(n, _) => {n}
    case Sending(r, _) => {r.name}
    case _ => {}
  }

  function Queue(s: State): seq<string> {
    if s.pc.Dispatching? || s.pc.Marking? || s.pc.Deciding? || s.pc.Sending? then s.pc.ready else []
  }

  /** Every started step is in exactly one place: the coordinator's hand, a worker, the channel or the results. */
  ghost predicate Tokens(s: State) {
    && Distinct(NamesOf(Sent(s)))
    && (forall n :: n in s.completed <==> n in NamesOf(s.results))
    && (forall n :: n in s.executing <==> n in InHand(s) || n in s.workers || n in NamesOf(s.chan))
    && (forall n | n in s.executing :: n !in s.completed)
    && (forall n | n in s.workers :: n !in InHand(s) && n !in NamesOf(s.chan))
    && (forall n | n in InHand(s) :: n !in NamesOf(s.chan))
  }

  ghost predicate Supported(g: Nodes, s: State, n: string) {
    n in g && forall d | d in g[n].deps :: d in s.completed
  }

  /** A step is taken up only when all that it requires has completed, and results come in dependency order. */
  ghost predicate Ordered(g: Nodes, s: State) {
    && (forall n | n in s.executing :: Supported(g, s, n))
    && (forall n | n in s.completed :: Supported(g, s, n))
    && (forall n | n in Queue(s) :: Supported(g, s, n) && n !in s.executing && n !in s.completed)
    && Distinct(Queue(s))
    && LinearExtension(g, s.results)
  }

  ghost predicate LinearExtension(g: Nodes, rs: seq<Result>) {
    forall i, d | 0 <= i < |rs| && rs[i].name in g && d in g[rs[i].name].deps :: d in NamesOf(rs[..i])
  }

  ghost predicate Failures(g: Nodes, s: State) {
    && (forall n :: n in s.failed <==> Result(n, Error) in s.results)
    && (forall n | n in s.workers && n in g :: g[n].runIf && !FailedDependency(g, s.failed, n))
  }

  ghost predicate Ending(g: Nodes, s: State) {
    && (s.pc.Marking? ==> s.pc.ready != [])
    && (s.pc.Closed? ==> s.executing == {})
    && ((s.pc.Draining? || s.pc.Closed?) && !s.cancelled ==> forall n | n in g :: n in s.completed)
  }

  ghost predicate Protocol(g: Nodes, s: State) {
    Tokens(s) && Ordered(g, s) && Failures(g, s) && Ending(g, s)
  }

  lemma NamesConcat(a: seq<Result>, b: seq<Result>)
    ensures NamesOf(a + b) == NamesOf(a) + NamesOf(b)
  {
  }

  lemma NamesSnoc(rs: seq<Result>, r: Result)
    ensures NamesOf(rs + [r]) == NamesOf(rs) + [r.name]
  {
  }

  lemma FailedAreCompleted(s: State, n: string)
    requires Tokens(s) && Result(n, Error) in s.results
    ensures n in s.completed
  {
    var i :| 0 <= i < |s.results| && s.results[i] == Result(n, Error);
    assert NamesOf(s.results)[i] == n;
  }

  /** Whether a step's requirements failed does not change once they have all completed. */
  lemma FailureIsStable(g: Nodes, s: State, n: string)
    requires Protocol(g, s) && s.chan != [] && Supported(g, s, n)
    ensures FailedDependency(g, Received(s).failed, n) == FailedDependency(g, s.failed, n)
    ensures s.chan[0].name !in s.completed
  {
    assert NamesOf(Sent(s))[|s.results|] == s.chan[0].name;
    NamesConcat(s.results, s.chan);
  }

  // ----- Every label keeps the protocol -----

  /** Nothing moves between the places where started steps are. */
  lemma SameTokens(s: State, t: State)
    requires Tokens(s) && InHand(t) == InHand(s) && t.workers.Keys == s.workers.Keys
    requires t.completed == s.completed && t.executing == s.executing && t.chan == s.chan && t.results == s.results
    ensures Tokens(t)
  {
    assert Sent(t) == Sent(s);
    assert forall n :: n in t.workers <==> n in s.workers;
  }

  lemma SameOrder(g: Nodes, s: State, t: State)
    requires Ordered(g, s) && t.completed == s.completed && t.executing == s.executing && t.results == s.results
    requires Distinct(Queue(t))
    requires forall n | n in Queue(t) :: n in Queue(s) || IsReady(g, s, n)
    ensures Ordered(g, t)
  {
    hide Distinct, LinearExtension;
    assert forall n | Supported(g, s, n) :: Supported(g, t, n);
  }

  lemma SameFailures(g: Nodes, s: State, t: State)
    requires Failures(g, s) && t.failed == s.failed && t.results == s.results && t.workers.Keys == s.workers.Keys
    ensures Failures(g, t)
  {
    hide FailedDependency;
    assert forall n :: n in t.workers <==> n in s.workers;
  }

  lemma ControlQueue(g: Nodes, s: State, l: Label)
    requires Ordered(g, s) && Guard(g, s, l)
    requires l.Cancel? || l.CheckContext? || l.Scan? || l.CheckDone? || l.Close?
    ensures Distinct(Queue(Next(g, s, l)))
    ensures forall n | n in Queue(Next(g, s, l)) :: n in Queue(s) || IsReady(g, s, n)
  {
    hide LinearExtension, Supported;
  }

  lemma ControlEnding(g: Nodes, s: State, l: Label)
    requires Protocol(g, s) && Guard(g, s, l)
    requires l.Cancel? || l.CheckContext? || l.Scan? || l.CheckDone? || l.Close?
    ensures Ending(g, Next(g, s, l))
  {
    hide Ordered, Failures;
    if l.CheckDone? {
      RevealFailures(g, s);
      forall n | n in s.failed
        ensures n in s.completed
      {
        FailedAreCompleted(s, n);
      }
    }
  }

  lemma RevealFailures(g: Nodes, s: State)
    requires Failures(g, s)
    ensures forall n | n in s.failed :: Result(n, Error) in s.results
  {
  }

  lemma ControlKeeps(g: Nodes, s: State, l: Label)
    requires Protocol(g, s) && Guard(g, s, l)
    requires l.Cancel? || l.CheckContext? || l.Scan? || l.CheckDone? || l.Close?
    ensures Protocol(g, Next(g, s, l))
  {
    hide Tokens, Ordered, Failures, Ending;
    var t := Next(g, s, l);
    SameTokens(s, t);
    ControlQueue(g, s, l);
    SameOrder(g, s, t);
    SameFailures(g, s, t);
    ControlEnding(g, s, l);
  }

  lemma MarkKeeps(g: Nodes, s: State)
    requires Protocol(g, s) && Guard(g, s, Mark)
    ensures Protocol(g, Next(g, s, Mark))
  {
    var n, rest, t := s.pc.ready[0], s.pc.ready[1..], Next(g, s, Mark);
    assert n in Queue(s) && s.pc.ready == [n] + rest;
    assert forall m | m in rest :: m in Queue(s);
    assert Tokens(t);
    assert Ordered(g, t);
  }

  lemma DecideTokens(g: Nodes, s: State)
    requires Tokens(s) && Guard(g, s, Decide)
    ensures Tokens(Next(g, s, Decide))
  {
    hide NamesOf, Opening;
    assert s.pc.name in InHand(s);
    assert Sent(Next(g, s, Decide)) == Sent(s);
  }

  lemma DecideFailures(g: Nodes, s: State)
    requires Failures(g, s) && Guard(g, s, Decide)
    ensures Failures(g, Next(g, s, Decide))
  {
    hide FailedDependency, Opening;
  }

  lemma DecideKeeps(g: Nodes, s: State)
    requires Protocol(g, s) && Guard(g, s, Decide)
    ensures Protocol(g, Next(g, s, Decide))
  {
    hide Tokens, Ordered, Failures;
    DecideTokens(g, s);
    DecideFailures(g, s);
    QueueDistinct(g, s);
    SameOrder(g, s, Next(g, s, Decide));
  }

  lemma QueueDistinct(g: Nodes, s: State)
    requires Ordered(g, s)
    ensures Distinct(Queue(s))
  {
  }

  lemma SendSkipKeeps(g: Nodes, s: State)
    requires Protocol(g, s) && Guard(g, s, SendSkip)
    ensures Protocol(g, Next(g, s, SendSkip))
  {
    var t, r := Next(g, s, SendSkip), s.pc.result;
    assert r.name in InHand(s);
    SendingTokens(s, t, r);
    assert Ordered(g, t);
  }

  /** Appending the result of a started step that is not in the channel keeps all names distinct. */
  lemma SendingTokens(s: State, t: State, r: Result)
    requires Tokens(s) && r.name in s.executing && r.name !in NamesOf(s.chan)
    requires t.results == s.results && t.chan == s.chan + [r]
    ensures Distinct(NamesOf(Sent(t))) && NamesOf(t.chan) == NamesOf(s.chan) + [r.name]
  {
    NamesConcat(s.chan, [r]);
    NamesConcat(s.results, s.chan);
    NamesConcat(Sent(s), [r]);
    assert Sent(t) == Sent(s) + [r];
    assert r.name !in NamesOf(Sent(s));
    DistinctSnoc(NamesOf(Sent(s)), r.name);
  }

  lemma SendMoves(g: Nodes, s: State, n: string)
    requires Tokens(s) && Guard(g, s, Send(n))
    ensures Tokens(Next(g, s, Send(n)))
  {
    SendingTokens(s, Next(g, s, Send(n)), Result(n, s.workers[n].status));
  }

  lemma SendFailures(g: Nodes, s: State, n: string)
    requires Failures(g, s) && Guard(g, s, Send(n))
    ensures Failures(g, Next(g, s, Send(n)))
  {
    hide FailedDependency;
  }

  lemma SendKeeps(g: Nodes, s: State, n: string)
    requires Protocol(g, s) && Guard(g, s, Send(n))
    ensures Protocol(g, Next(g, s, Send(n)))
  {
    hide Tokens, Ordered, Failures;
    SendMoves(g, s, n);
    SendFailures(g, s, n);
    QueueDistinct(g, s);
    SameOrder(g, s, Next(g, s, Send(n)));
  }

  /** Labels that only change what a worker has left to do. */
  lemma WorkerKeeps(g: Nodes, s: State, l: Label)
    requires Protocol(g, s) && Guard(g, s, l) && (l.Emit? || l.Return? || l.Check?)
    ensures Protocol(g, Next(g, s, l))
  {
    hide Tokens, Ordered, Failures, Opening, Closing;
    var t := Next(g, s, l);
    assert t.workers.Keys == s.workers.Keys;
    SameTokens(s, t);
    QueueDistinct(g, s);
    SameOrder(g, s, t);
    SameFailures(g, s, t);
  }

  lemma NamesOfHead(chan: seq<Result>)
    requires chan != []
    ensures NamesOf(chan) == [chan[0].name] + NamesOf(chan[1..])
  {
  }

  lemma ReceiveNames(s: State)
    requires Distinct(NamesOf(Sent(s))) && s.chan != []
    ensures NamesOf(s.results + [s.chan[0]]) == NamesOf(s.results) + [s.chan[0].name]
    ensures NamesOf(s.chan) == [s.chan[0].name] + NamesOf(s.chan[1..])
    ensures s.chan[0].name !in NamesOf(s.chan[1..]) && s.chan[0].name !in NamesOf(s.results)
  {
    NamesOfHead(s.chan);
    NamesConcat(s.results, s.chan);
    DistinctAround(NamesOf(s.results), s.chan[0].name, NamesOf(s.chan[1..]));
  }

  lemma SentReceived(s: State)
    requires s.chan != []
    ensures Sent(Received(s)) == Sent(s)
  {
    assert s.chan == [s.chan[0]] + s.chan[1..];
  }

  lemma DistinctAround(a: seq<string>, x: string, b: seq<string>)
    requires Distinct(a + ([x] + b))
    ensures x !in a && x !in b
  {
    var all := a + ([x] + b);
    assert all[|a|] == x;
    forall j | 0 <= j < |b|
      ensures b[j] != x
    {
      assert all[|a| + 1 + j] == b[j];
    }
    forall j | 0 <= j < |a|
      ensures a[j] != x
    {
      assert all[j] == a[j];
    }
  }

  lemma ReceiveTokens(s: State)
    requires Tokens(s) && s.chan != []
    ensures Tokens(Received(s))
  {
    hide NamesOf;
    ReceiveNames(s);
    SentReceived(s);
    var t, n := Received(s), s.chan[0].name;
    assert NamesOf(s.chan)[0] == n;
    assert forall m :: m in NamesOf(s.chan) <==> m == n || m in NamesOf(t.chan);
  }

  lemma ReceiveOrdered(g: Nodes, s: State)
    requires Protocol(g, s) && s.chan != []
    ensures Ordered(g, Received(s))
  {
    var t, r := Received(s), s.chan[0];
    ReceiveNames(s);
    assert NamesOf(s.chan)[0] == r.name;
    assert Supported(g, s, r.name);
    forall i, d | 0 <= i < |t.results| && t.results[i].name in g && d in g[t.results[i].name].deps
      ensures d in NamesOf(t.results[..i])
    {
      assert t.results[..i] == if i < |s.results| then s.results[..i] else s.results;
      if i < |s.results| { assert t.results[i] == s.results[i]; }
    }
    assert forall n | Supported(g, s, n) :: Supported(g, t, n);
  }

  lemma ReceiveKeeps(g: Nodes, s: State)
    requires Protocol(g, s) && Guard(g, s, Receive)
    ensures Protocol(g, Next(g, s, Receive))
  {
    var t := Received(s);
    ReceiveTokens(s);
    ReceiveOrdered(g, s);
    forall n | n in t.workers && n in g
      ensures g[n].runIf && !FailedDependency(g, t.failed, n)
    {
      assert n in s.workers && n in s.executing;
      FailureIsStable(g, s, n);
    }
  }

  lemma NextKeeps(g: Nodes, s: State, l: Label)
    requires Protocol(g, s) && Guard(g, s, l)
    ensures Protocol(g, Next(g, s, l))
  {
    match l
    case Mark => MarkKeeps(g, s);
    case Decide => DecideKeeps(g, s);
    case SendSkip => SendSkipKeeps(g, s);
    case Emit(_) => WorkerKeeps(g, s, l);
    case Return(_, _) => WorkerKeeps(g, s, l);
    case Check(_) => WorkerKeeps(g, s, l);
    case Send(n) => SendKeeps(g, s, n);
    case Receive => ReceiveKeeps(g, s);
    case _ => ControlKeeps(g, s, l);
  }

  /** The protocol holds in every state of every run, cancelled or not. */
  lemma {:induction false} ProtocolAlways(g: Nodes, labels: seq<Label>, s: State)
    requires Reaches(g, labels, s)
    ensures Protocol(g, s)
  {
    if labels != [] {
      var prior := After(g, labels[..|labels| - 1]).value;
      ProtocolAlways(g, labels[..|labels| - 1], prior);
      NextKeeps(g, prior, labels[|labels| - 1]);
    }
  }
}
