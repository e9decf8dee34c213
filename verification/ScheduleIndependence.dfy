/** The parallel run computes what a sequential evaluation in dependency order computes. */
module ScheduleIndependence {
  import opened StageTypes
  import opened Scheduler
  import opened StageRuns
  import Dag

  function Requirements(g: Nodes): Dag.Graph {
    map n | n in g :: g[n].deps
  }

  /** A witness that the graph is acyclic: requirements have a smaller rank. */
  ghost predicate Ranked(g: Nodes, rank: map<string, nat>) {
    forall n | n in g :: n in rank && forall d | d in g[n].deps :: d in g && d in rank && rank[d] < rank[n]
  }

  function RankOf(order: seq<string>): map<string, nat> {
    map n | n in order :: Dag.IndexIn(order, n)
  }

  lemma OrderRanks(g: Nodes, order: seq<string>)
    requires Dag.TopologicalOrder(Requirements(g), order) && Dag.Closed(Requirements(g))
    ensures Ranked(g, RankOf(order))
  {
    forall n, d | n in g && d in g[n].deps
      ensures d in g && d in order && n in order && Dag.IndexIn(order, d) < Dag.IndexIn(order, n)
    {
      assert d in Requirements(g)[n];
      Dag.RequiredEarlier(Requirements(g), order, n, d);
    }
  }

  /**
   The status a step must end with: skipped when a direct requirement ends in error, else skipped when the
   condition fails, else the outcome of its action under its policy. A skipped requirement does not block.
   */
  ghost function StatusOf(g: Nodes, rank: map<string, nat>, n: string): Status
    requires Ranked(g, rank) && n in g
    decreases rank[n]
  {
    if (exists i | 0 <= i < |g[n].deps| :: StatusOf(g, rank, g[n].deps[i]) == Error) || !g[n].runIf then Skipped
    else FinalStatus(g[n], g[n].raw)
  }

  lemma UniqueResult(g: Nodes, s: State, r: Result, q: Result)
    requires Protocol(g, s) && r in s.results && q in s.results && r.name == q.name
    ensures r == q
  {
    var i :| 0 <= i < |s.results| && s.results[i] == r;
    var j :| 0 <= j < |s.results| && s.results[j] == q;
    assert NamesOf(Sent(s))[i] == r.name && NamesOf(Sent(s))[j] == q.name;
  }

  lemma ResultExists(s: State, n: string) returns (r: Result)
    requires Tokens(s) && n in s.completed
    ensures r in s.results && r.name == n
  {
    var i :| 0 <= i < |s.results| && NamesOf(s.results)[i] == n;
    r := s.results[i];
  }

  /** Every result of an uncancelled run so far is the one that the recursion prescribes. */
  lemma {:induction false} ResultIsDetermined(g: Nodes, rank: map<string, nat>, s: State, n: string)
    requires Protocol(g, s) && Faithful(g, s) && Ranked(g, rank) && n in s.completed
    ensures n in g && Result(n, StatusOf(g, rank, n)) in s.results
    decreases if n in rank then rank[n] else 0
  {
    assert Supported(g, s, n);
    forall i | 0 <= i < |g[n].deps|
      ensures g[n].deps[i] in s.failed <==> StatusOf(g, rank, g[n].deps[i]) == Error
    {
      var d := g[n].deps[i];
      ResultIsDetermined(g, rank, s, d);
      if d in s.failed { UniqueResult(g, s, Result(d, Error), Result(d, StatusOf(g, rank, d))); }
    }
    var r := ResultExists(s, n);
    assert Truthful(g, s.failed, r);
    assert FailedDependency(g, s.failed, n) <==> exists i | 0 <= i < |g[n].deps| :: g[n].deps[i] in s.failed;
    assert r == Result(n, StatusOf(g, rank, n));
  }

  // ----- Sequential evaluation -----

  /** The map of results that the scheduler fills, one entry at a time. */
  function ResultMap(rs: seq<Result>): map<string, Status> {
    if rs == [] then map[] else ResultMap(rs[..|rs| - 1])[rs[|rs| - 1].name := rs[|rs| - 1].status]
  }

  /** The status of `n`, given the statuses of the steps evaluated before it. */
  ghost function EvaluateStep(g: Nodes, done: map<string, Status>, n: string): Status
    requires n in g
  {
    if (exists d | d in g[n].deps :: d in done && done[d] == Error) || !g[n].runIf then Skipped
    else FinalStatus(g[n], g[n].raw)
  }

  /** The steps are evaluated one after another, in the given order. */
  ghost function Evaluate(g: Nodes, order: seq<string>): map<string, Status> {
    if order == [] then map[]
    else
      var done, n := Evaluate(g, order[..|order| - 1]), order[|order| - 1];
      if n in g then done[n := EvaluateStep(g, done, n)] else done
  }

  /** Evaluating a step after its requirements gives it the prescribed status. */
  lemma EvaluateStepIs(g: Nodes, rank: map<string, nat>, done: map<string, Status>, n: string)
    requires Ranked(g, rank) && n in g
    requires forall d | d in g[n].deps :: d in done && done[d] == StatusOf(g, rank, d)
    ensures EvaluateStep(g, done, n) == StatusOf(g, rank, n)
  {
    assert (exists d | d in g[n].deps :: d in done && done[d] == Error)
      <==> exists i | 0 <= i < |g[n].deps| :: StatusOf(g, rank, g[n].deps[i]) == Error;
  }

  lemma DependablePrefix(g: Dag.Graph, order: seq<string>, n: string)
    requires order != [] && order[|order| - 1] == n && n in g && Dag.Dependable(g, order)
    ensures Dag.Dependable(g, order[..|order| - 1])
    ensures forall d | d in g[n] :: d in order[..|order| - 1]
  {
    var init := order[..|order| - 1];
    forall i, d | 0 <= i < |init| && init[i] in g && d in g[init[i]]
      ensures d in init[..i]
    {
      assert init[..i] == order[..i] && init[i] == order[i];
    }
  }

  lemma {:induction false} EvaluateIs(g: Nodes, rank: map<string, nat>, order: seq<string>)
    requires Ranked(g, rank) && Dag.Dependable(Requirements(g), order)
    requires forall n | n in order :: n in g
    ensures forall n :: n in Evaluate(g, order) <==> n in order
    ensures forall n | n in order :: Evaluate(g, order)[n] == StatusOf(g, rank, n)
  {
    if order != [] {
      var init, n := order[..|order| - 1], order[|order| - 1];
      SplitLast(order);
      DependablePrefix(Requirements(g), order, n);
      EvaluateIs(g, rank, init);
      assert Requirements(g)[n] == g[n].deps;
      EvaluateStepIs(g, rank, Evaluate(g, init), n);
    }
  }

  lemma {:induction false} ResultMapHas(rs: seq<Result>)
    requires Distinct(NamesOf(rs))
    ensures forall n :: n in ResultMap(rs) <==> n in NamesOf(rs)
    ensures forall r | r in rs :: ResultMap(rs)[r.name] == r.status
  {
    if rs != [] {
      var init, last := rs[..|rs| - 1], rs[|rs| - 1];
      SplitLast(rs);
      NamesSnoc(init, last);
      assert forall i | 0 <= i < |init| :: NamesOf(init)[i] == NamesOf(rs)[i];
      ResultMapHas(init);
      forall r | r in init
        ensures r.name != last.name
      {
        var i :| 0 <= i < |init| && init[i] == r;
        assert NamesOf(rs)[i] == r.name && NamesOf(rs)[|init|] == last.name;
      }
    }
  }

  /** A complete uncancelled run has exactly one result for every step. */
  lemma CompleteRunHasAll(g: Nodes, labels: seq<Label>, s: State)
    requires Reaches(g, labels, s) && Done(s) && !s.cancelled
    ensures Distinct(NamesOf(s.results)) && forall n :: n in NamesOf(s.results) <==> n in g
    ensures forall n :: n in s.completed <==> n in g
  {
    ProtocolAlways(g, labels, s);
    ResultsExtendDependencies(g, labels, s);
    assert forall n | n in s.completed :: Supported(g, s, n);
  }

  /**
   Schedule independence: whatever the interleaving, a complete uncancelled run fills the result map that
   the sequential evaluation fills, in whichever topological order that takes the steps.
   */
  lemma RunRefinesSequential(g: Nodes, order: seq<string>, labels: seq<Label>, s: State)
    requires Dag.Closed(Requirements(g)) && Dag.TopologicalOrder(Requirements(g), order)
    requires Reaches(g, labels, s) && Done(s) && !s.cancelled
    ensures ResultMap(s.results) == Evaluate(g, order)
  {
    var rank := RankOf(order);
    OrderRanks(g, order);
    OrderEvaluates(g, rank, order);
    CompleteRunMap(g, rank, labels, s);
    assert ResultMap(s.results).Keys == Evaluate(g, order).Keys;
  }

  lemma OrderEvaluates(g: Nodes, rank: map<string, nat>, order: seq<string>)
    requires Ranked(g, rank) && Dag.TopologicalOrder(Requirements(g), order)
    ensures Evaluate(g, order).Keys == g.Keys
    ensures forall n | n in g :: Evaluate(g, order)[n] == StatusOf(g, rank, n)
  {
    assert forall n :: n in order <==> n in g;
    EvaluateIs(g, rank, order);
  }

  lemma CompleteRunMap(g: Nodes, rank: map<string, nat>, labels: seq<Label>, s: State)
    requires Ranked(g, rank) && Reaches(g, labels, s) && Done(s) && !s.cancelled
    ensures ResultMap(s.results).Keys == g.Keys
    ensures forall n | n in g :: ResultMap(s.results)[n] == StatusOf(g, rank, n)
  {
    CompleteRunHasAll(g, labels, s);
    ProtocolAlways(g, labels, s);
    FaithfulAlways(g, labels, s);
    ResultMapHas(s.results);
    forall n | n in g
      ensures ResultMap(s.results)[n] == StatusOf(g, rank, n)
    {
      ResultIsDetermined(g, rank, s, n);
    }
  }
}
