/** Every run makes progress, and the work of a run is bounded. */
module Progress {
  import opened StageTypes
  import opened Scheduler
  import opened StageRuns
  import opened ScheduleIndependence

  /** Labels that advance a step; the others only move the coordinator around its polling loops, or cancel. */
  predicate IsWork(l: Label) {
    l.Mark? || l.Decide? || l.SendSkip? || l.Emit? || l.Return? || l.Check? || l.Send? || l.Receive?
  }

  function WorkIn(labels: seq<Label>): nat {
    if labels == [] then 0 else WorkIn(labels[..|labels| - 1]) + if IsWork(labels[|labels| - 1]) then 1 else 0
  }

  /** What is left to do for one step: unstarted, in flight, or buffered in the channel. */
  ghost function Weight(g: Nodes, s: State, n: string): nat
    requires n in g
  {
    if n in s.completed then 0
    else if n in NamesOf(s.chan) then 1
    else if n in s.workers then
      match s.workers[n]
      case Acting(todo) => |todo| + 8
      case Reporting(todo, _) => |todo| + 4
      case Ready(_) => 3
    else if s.pc.Sending? && s.pc.result.name == n then 3
    else if s.pc.Deciding? && s.pc.name == n then |Opening(n, g[n])| + 9
    else |Opening(n, g[n])| + 10
  }

  ghost function Remaining(g: Nodes, order: seq<string>, s: State): nat
    requires forall n | n in order :: n in g
  {
    if order == [] then 0 else Remaining(g, order[1..], s) + Weight(g, s, order[0])
  }

  /** The step that a label advances. */
  ghost function Advances(g: Nodes, s: State, l: Label): string
    requires IsWork(l) && Guard(g, s, l)
  {
    match l
    case Mark => s.pc.ready[0]
    case Decide => s.pc.name
    case SendSkip => s.pc.result.name
    case Receive => s.chan[0].name
    case _ => l.name
  }

  lemma CoordinatorWeight(g: Nodes, s: State, l: Label)
    requires Protocol(g, s) && Guard(g, s, l) && (l.Mark? || l.Decide? || l.SendSkip?)
    ensures Advances(g, s, l) in g
    ensures Weight(g, Next(g, s, l), Advances(g, s, l)) < Weight(g, s, Advances(g, s, l))
    ensures forall n | n in g && n != Advances(g, s, l) :: Weight(g, Next(g, s, l), n) == Weight(g, s, n)
  {
    hide Opening, NamesOf;
    var n := Advances(g, s, l);
    if l.Mark? {
      assert n in Queue(s) && Supported(g, s, n);
    } else {
      assert n in InHand(s) && n in s.executing && Supported(g, s, n);
      if l.SendSkip? { NamesSnoc(s.chan, s.pc.result); }
    }
  }

  lemma WorkerWeight(g: Nodes, s: State, l: Label)
    requires Protocol(g, s) && Guard(g, s, l) && (l.Emit? || l.Return? || l.Check? || l.Send?)
    ensures l.name in g
    ensures Weight(g, Next(g, s, l), l.name) < Weight(g, s, l.name)
    ensures forall n | n in g && n != l.name :: Weight(g, Next(g, s, l), n) == Weight(g, s, n)
  {
    hide Opening, NamesOf;
    assert l.name in s.workers && l.name in s.executing && Supported(g, s, l.name);
    if l.Send? { NamesSnoc(s.chan, Result(l.name, s.workers[l.name].status)); }
  }

  lemma ReceiveWeight(g: Nodes, s: State)
    requires Protocol(g, s) && s.chan != []
    ensures s.chan[0].name in g
    ensures Weight(g, Received(s), s.chan[0].name) < Weight(g, s, s.chan[0].name)
    ensures forall n | n in g && n != s.chan[0].name :: Weight(g, Received(s), n) == Weight(g, s, n)
  {
    ReceiveNames(s);
    assert NamesOf(s.chan)[0] == s.chan[0].name;
    assert Supported(g, s, s.chan[0].name);
  }

  /** Work on one step lowers its weight and leaves the others alone; every other label leaves all weights alone. */
  lemma NextWeight(g: Nodes, s: State, l: Label)
    requires Protocol(g, s) && Guard(g, s, l)
    ensures IsWork(l) ==> Advances(g, s, l) in g
    ensures IsWork(l) ==> Weight(g, Next(g, s, l), Advances(g, s, l)) < Weight(g, s, Advances(g, s, l))
    ensures forall n | n in g && (!IsWork(l) || n != Advances(g, s, l)) ::
      Weight(g, Next(g, s, l), n) == Weight(g, s, n)
  {
    if l.Mark? || l.Decide? || l.SendSkip? {
      CoordinatorWeight(g, s, l);
    } else if l.Receive? {
      ReceiveWeight(g, s);
    } else if IsWork(l) {
      WorkerWeight(g, s, l);
    }
  }

  lemma {:induction false} RemainingSame(g: Nodes, order: seq<string>, s: State, t: State)
    requires forall n | n in order :: n in g && Weight(g, t, n) == Weight(g, s, n)
    ensures Remaining(g, order, t) == Remaining(g, order, s)
  {
    if order != [] {
      RemainingSame(g, order[1..], s, t);
    }
  }

  lemma {:induction false} RemainingLess(g: Nodes, order: seq<string>, s: State, t: State, m: string)
    requires Distinct(order) && m in order && forall n | n in order :: n in g
    requires Weight(g, t, m) < Weight(g, s, m)
    requires forall n | n in order && n != m :: Weight(g, t, n) == Weight(g, s, n)
    ensures Remaining(g, order, t) < Remaining(g, order, s)
  {
    if order[0] == m {
      RemainingSame(g, order[1..], s, t);
    } else {
      RemainingLess(g, order[1..], s, t, m);
    }
  }

  ghost predicate Lists(g: Nodes, order: seq<string>) {
    Distinct(order) && forall n :: n in order <==> n in g
  }

  lemma RemainingNext(g: Nodes, order: seq<string>, s: State, l: Label)
    requires Protocol(g, s) && Guard(g, s, l) && Lists(g, order)
    ensures Remaining(g, order, Next(g, s, l)) + (if IsWork(l) then 1 else 0) <= Remaining(g, order, s)
  {
    NextWeight(g, s, l);
    if IsWork(l) {
      RemainingLess(g, order, s, Next(g, s, l), Advances(g, s, l));
    } else {
      RemainingSame(g, order, s, Next(g, s, l));
    }
  }

  /** No run, cancelled or not, does more work than the stage holds at the start. */
  lemma {:induction false} WorkIsBounded(g: Nodes, order: seq<string>, labels: seq<Label>, s: State)
    requires Reaches(g, labels, s) && Lists(g, order)
    ensures WorkIn(labels) + Remaining(g, order, s) <= Remaining(g, order, INITIAL)
  {
    if labels != [] {
      var init := labels[..|labels| - 1];
      var prior := After(g, init).value;
      WorkIsBounded(g, order, init, prior);
      ProtocolAlways(g, init, prior);
      RemainingNext(g, order, prior, labels[|labels| - 1]);
    }
  }

  // ----- No run gets stuck -----

  /** While a step is incomplete, some step is ready to start or has been started and is not received yet. */
  lemma {:induction false} SomethingToDo(g: Nodes, rank: map<string, nat>, s: State, n: string)
    requires Protocol(g, s) && Ranked(g, rank) && n in g && n !in s.completed
    ensures exists m | m in g :: IsReady(g, s, m) || m in s.executing
    decreases rank[n]
  {
    if n !in s.executing {
      if d :| d in g[n].deps && d !in s.completed {
        SomethingToDo(g, rank, s, d);
      } else {
        if n in s.failed { FailedAreCompleted(s, n); }
        assert IsReady(g, s, n);
      }
    }
  }

  ghost function Continue(g: Nodes, s: State, labels: seq<Label>): Option<State>
    decreases labels
  {
    if labels == [] then Some(s)
    else if Guard(g, s, labels[0]) then Continue(g, Next(g, s, labels[0]), labels[1..])
    else None
  }

  lemma {:induction false} ContinueAfter(g: Nodes, labels: seq<Label>, s: State, more: seq<Label>)
    requires Reaches(g, labels, s)
    ensures After(g, labels + more) == Continue(g, s, more)
    decreases more
  {
    if more == [] {
      assert labels + more == labels;
    } else {
      assert (labels + [more[0]])[..|labels|] == labels;
      assert labels + more == (labels + [more[0]]) + more[1..];
      if Guard(g, s, more[0]) {
        ContinueAfter(g, labels + [more[0]], Next(g, s, more[0]), more[1..]);
      } else {
        NoneAfter(g, labels + [more[0]], more[1..]);
      }
    }
  }

  lemma {:induction false} NoneAfter(g: Nodes, labels: seq<Label>, more: seq<Label>)
    requires After(g, labels).None?
    ensures After(g, labels + more).None?
  {
    if more == [] {
      assert labels + more == labels;
    } else {
      assert (labels + more)[..|labels + more| - 1] == labels + more[..|more| - 1];
      NoneAfter(g, labels, more[..|more| - 1]);
    }
  }

  /** `more` can be taken from `s`, without cancelling, and ends with work or with the end of the run. */
  ghost predicate GetsOn(g: Nodes, s: State, more: seq<Label>) {
    && more != [] && Cancel !in more
    && Continue(g, s, more).Some?
    && (IsWork(more[|more| - 1]) || Done(Continue(g, s, more).value))
  }

  /** Only `Cancel` cancels. */
  lemma {:induction false} StaysUncancelled(g: Nodes, s: State, more: seq<Label>)
    requires Continue(g, s, more).Some? && Cancel !in more
    ensures Continue(g, s, more).value.cancelled == s.cancelled
    decreases more
  {
    if more != [] {
      assert more[0] in more && forall l | l in more[1..] :: l in more;
      StaysUncancelled(g, Next(g, s, more[0]), more[1..]);
    }
  }

  lemma Prepend(g: Nodes, s: State, l: Label, more: seq<Label>)
    requires Guard(g, s, l) && !l.Cancel? && GetsOn(g, Next(g, s, l), more)
    ensures GetsOn(g, s, [l] + more)
  {
    assert ([l] + more)[1..] == more;
  }

  lemma Single(g: Nodes, s: State, l: Label)
    requires Guard(g, s, l) && IsWork(l)
    ensures GetsOn(g, s, [l])
  {
    assert [l][1..] == [];
  }

  /** While something is in flight, the handler, a worker or the coordinator can do work. */
  lemma InFlightGetsOn(g: Nodes, s: State) returns (l: Label)
    requires Protocol(g, s) && s.executing != {}
    ensures Guard(g, s, l) && IsWork(l)
  {
    var n :| n in s.executing;
    assert Supported(g, s, n);
    if s.chan != [] {
      l := Receive;
    } else if n in s.workers {
      match s.workers[n]
      case Acting(todo) => l := if todo == [] then Return(n, g[n].raw) else Emit(n);
      case Reporting(todo, _) => l := if todo == [] then Check(n) else Emit(n);
      case Ready(_) =>
        RoomToSend(g, s, n);
        l := Send(n);
    } else {
      assert n in InHand(s);
      if s.pc.Deciding? {
        l := Decide;
      } else {
        RoomToSend(g, s, n);
        l := SendSkip;
      }
    }
  }

  lemma {:induction false} ReadySteps(g: Nodes, s: State, among: set<string>) returns (found: seq<string>)
    ensures Distinct(found) && forall n :: n in found <==> n in among && IsReady(g, s, n)
    decreases among
  {
    found := [];
    if among != {} {
      var n :| n in among;
      found := ReadySteps(g, s, among - {n});
      if IsReady(g, s, n) {
        DistinctSnoc(found, n);
        found := found + [n];
      }
    }
  }

  lemma DrainingGetsOn(g: Nodes, s: State)
    requires Protocol(g, s) && s.executing == {} && s.pc.Draining?
    ensures GetsOn(g, s, [Close])
  {
    NothingInFlight(s);
    assert [Close][1..] == [];
  }

  lemma DispatchingGetsOn(g: Nodes, s: State) returns (more: seq<Label>)
    requires Protocol(g, s) && s.executing == {} && s.pc.Dispatching? && s.pc.ready != []
    ensures GetsOn(g, s, more) && |more| == 2
  {
    var t := Next(g, s, CheckContext);
    NextKeeps(g, s, CheckContext);
    if s.cancelled {
      DrainingGetsOn(g, t);
      more := [CheckContext] + [Close];
    } else {
      Single(g, t, Mark);
      more := [CheckContext] + [Mark];
    }
    Prepend(g, s, CheckContext, more[1..]);
  }

  lemma ScanningGetsOn(g: Nodes, rank: map<string, nat>, s: State) returns (more: seq<Label>)
    requires Protocol(g, s) && Ranked(g, rank) && s.executing == {} && s.pc.Scanning?
    ensures GetsOn(g, s, more) && |more| == 3
  {
    var found := ReadySteps(g, s, g.Keys);
    var t := Next(g, s, Scan(found));
    NextKeeps(g, s, Scan(found));
    var rest;
    if found == [] {
      forall n | n in g
        ensures n in s.completed
      {
        if n !in s.completed { SomethingToDo(g, rank, s, n); }
      }
      var u := Next(g, t, CheckDone);
      NextKeeps(g, t, CheckDone);
      DrainingGetsOn(g, u);
      Prepend(g, t, CheckDone, [Close]);
      rest := [CheckDone] + [Close];
    } else {
      rest := DispatchingGetsOn(g, t);
    }
    Prepend(g, s, Scan(found), rest);
    more := [Scan(found)] + rest;
  }

  lemma LoopingGetsOn(g: Nodes, rank: map<string, nat>, s: State) returns (more: seq<Label>)
    requires Protocol(g, s) && Ranked(g, rank) && s.executing == {} && s.pc.Looping?
    ensures GetsOn(g, s, more) && |more| <= 4
  {
    var t := Next(g, s, CheckContext);
    NextKeeps(g, s, CheckContext);
    var rest;
    if s.cancelled {
      DrainingGetsOn(g, t);
      rest := [Close];
    } else {
      rest := ScanningGetsOn(g, rank, t);
    }
    Prepend(g, s, CheckContext, rest);
    more := [CheckContext] + rest;
  }

  lemma CheckingGetsOn(g: Nodes, rank: map<string, nat>, s: State) returns (more: seq<Label>)
    requires Protocol(g, s) && Ranked(g, rank) && s.executing == {} && s.pc.Checking?
    ensures GetsOn(g, s, more) && |more| <= 5
  {
    var t := Next(g, s, CheckDone);
    NextKeeps(g, s, CheckDone);
    var rest;
    if t.pc.Draining? {
      DrainingGetsOn(g, t);
      rest := [Close];
    } else {
      rest := LoopingGetsOn(g, rank, t);
    }
    Prepend(g, s, CheckDone, rest);
    more := [CheckDone] + rest;
  }

  lemma IdleGetsOn(g: Nodes, rank: map<string, nat>, s: State) returns (more: seq<Label>)
    requires Protocol(g, s) && Ranked(g, rank) && s.executing == {} && !Done(s)
    ensures GetsOn(g, s, more) && |more| <= 5
  {
    NothingInFlight(s);
    assert InHand(s) == {};
    if s.pc.Looping? {
      more := LoopingGetsOn(g, rank, s);
    } else if s.pc.Scanning? {
      more := ScanningGetsOn(g, rank, s);
    } else if s.pc.Checking? {
      more := CheckingGetsOn(g, rank, s);
    } else if s.pc.Dispatching? && s.pc.ready == [] {
      NextKeeps(g, s, CheckContext);
      var rest := LoopingGetsOn(g, rank, Next(g, s, CheckContext));
      Prepend(g, s, CheckContext, rest);
      more := [CheckContext] + rest;
    } else if s.pc.Dispatching? {
      more := DispatchingGetsOn(g, s);
    } else if s.pc.Marking? {
      Single(g, s, Mark);
      more := [Mark];
    } else {
      DrainingGetsOn(g, s);
      more := [Close];
    }
  }

  /** From every state of every run, work or the end of the run is at most five labels away. */
  lemma NeverStuck(g: Nodes, rank: map<string, nat>, labels: seq<Label>, s: State) returns (more: seq<Label>)
    requires Reaches(g, labels, s) && Ranked(g, rank) && !Done(s)
    ensures GetsOn(g, s, more) && |more| <= 5
  {
    ProtocolAlways(g, labels, s);
    if s.executing == {} {
      more := IdleGetsOn(g, rank, s);
    } else {
      var l := InFlightGetsOn(g, s);
      Single(g, s, l);
      more := [l];
    }
  }

  lemma {:induction false} ContinueWork(g: Nodes, order: seq<string>, s: State, more: seq<Label>)
    requires Protocol(g, s) && Lists(g, order) && Continue(g, s, more).Some?
    ensures Remaining(g, order, Continue(g, s, more).value) <= Remaining(g, order, s)
    ensures more != [] && IsWork(more[|more| - 1])
      ==> Remaining(g, order, Continue(g, s, more).value) < Remaining(g, order, s)
    decreases more
  {
    if more != [] {
      NextKeeps(g, s, more[0]);
      RemainingNext(g, order, s, more[0]);
      ContinueWork(g, order, Next(g, s, more[0]), more[1..]);
    }
  }

  /** One leg: from a state of a run to one where less is left to do, or to the end. */
  lemma NextLeg(g: Nodes, order: seq<string>, rank: map<string, nat>, labels: seq<Label>, s: State)
    returns (more: seq<Label>, t: State)
    requires Reaches(g, labels, s) && Lists(g, order) && Ranked(g, rank) && !Done(s)
    ensures Reaches(g, labels + more, t) && Cancel !in more && t.cancelled == s.cancelled
    ensures Done(t) || Remaining(g, order, t) < Remaining(g, order, s)
  {
    more := NeverStuck(g, rank, labels, s);
    ContinueAfter(g, labels, s, more);
    ProtocolAlways(g, labels, s);
    ContinueWork(g, order, s, more);
    StaysUncancelled(g, s, more);
    t := Continue(g, s, more).value;
  }

  /** Every run of an acyclic stage can be continued to its end without being cancelled on the way. */
  lemma {:induction false} RunsCanFinish(g: Nodes, order: seq<string>, rank: map<string, nat>, labels: seq<Label>,
        s: State)
    returns (more: seq<Label>, t: State)
    requires Reaches(g, labels, s) && Lists(g, order) && Ranked(g, rank)
    ensures Reaches(g, labels + more, t) && Done(t) && Cancel !in more && t.cancelled == s.cancelled
    decreases Remaining(g, order, s)
  {
    if Done(s) {
      more, t := [], s;
      assert labels + more == labels;
    } else {
      var first, u := NextLeg(g, order, rank, labels, s);
      if Done(u) {
        more, t := first, u;
      } else {
        var rest;
        rest, t := RunsCanFinish(g, order, rank, labels + first, u);
        more := first + rest;
        assert labels + more == (labels + first) + rest;
      }
    }
  }
}
