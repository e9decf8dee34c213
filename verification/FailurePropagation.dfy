/** How far a failed step blocks the steps behind it. */
module FailurePropagation {
  import opened StageTypes
  import opened Scheduler
  import opened ScheduleIndependence
  import Dag

  /** Every step that requires a failed one, directly or through others, is skipped. */
  ghost predicate BlocksBehind(g: Nodes, rank: map<string, nat>)
    requires Ranked(g, rank)
  {
    forall path | Dag.Path(Requirements(g), path) && |path| > 1 && StatusOf(g, rank, path[|path| - 1]) == Error ::
      StatusOf(g, rank, path[0]) == Skipped
  }

  /** Whatever a requirement requires is required directly as well. */
  ghost predicate TransitivelyRequired(deps: Dag.Graph) {
    forall n, d, e | n in deps && d in deps[n] && d in deps && e in deps[d] :: e in deps[n]
  }

  /** The stage blocks behind failures, whatever its conditions, policies and actions come to. */
  ghost predicate AlwaysBlocksBehind(deps: Dag.Graph) {
    forall g, rank | Requirements(g) == deps && Ranked(g, rank) :: BlocksBehind(g, rank)
  }

  lemma PathInit(deps: Dag.Graph, path: seq<string>)
    requires Dag.Path(deps, path) && |path| > 1
    ensures Dag.Path(deps, path[..|path| - 1]) && path[|path| - 1] in deps[path[|path| - 2]]
  {
    var init := path[..|path| - 1];
    forall i | 0 <= i < |init| - 1
      ensures init[i + 1] in deps[init[i]]
    {
      assert path[i + 1] in deps[path[i]];
    }
    assert path[(|path| - 2) + 1] in deps[path[|path| - 2]];
  }

  /** A path of requirements shrinks to a single one. */
  lemma {:induction false} PathIsEdge(deps: Dag.Graph, path: seq<string>)
    requires TransitivelyRequired(deps) && Dag.Path(deps, path) && |path| > 1
    ensures path[|path| - 1] in deps[path[0]]
  {
    PathInit(deps, path);
    if |path| > 2 {
      PathIsEdge(deps, path[..|path| - 1]);
    }
  }

  lemma DirectlyBlocked(g: Nodes, rank: map<string, nat>, n: string, d: string)
    requires Ranked(g, rank) && n in g && d in g[n].deps && StatusOf(g, rank, d) == Error
    ensures StatusOf(g, rank, n) == Skipped
  {
    var i :| 0 <= i < |g[n].deps| && g[n].deps[i] == d;
    assert StatusOf(g, rank, g[n].deps[i]) == Error;
  }

  /** All steps run and succeed, but for one that fails. */
  function OneFails(deps: Dag.Graph, e: string): Nodes {
    map n | n in deps :: Node(deps[n], true, false, Selected, [], Raw(if n == e then Error else OK, "", None))
  }

  lemma OneFailsStatus(deps: Dag.Graph, e: string, rank: map<string, nat>, n: string)
    requires Ranked(OneFails(deps, e), rank) && n in deps
    ensures StatusOf(OneFails(deps, e), rank, n)
         == if e in deps[n] then Skipped else if n == e then Error else OK
  {
    var g := OneFails(deps, e);
    assert g[n].deps == deps[n];
    forall i | 0 <= i < |deps[n]|
      ensures StatusOf(g, rank, deps[n][i]) == Error <==> deps[n][i] == e
    {
      var d := deps[n][i];
      assert d in g[n].deps && d in g;
      OnlyItFails(deps, e, rank, d);
    }
  }

  lemma OnlyItFails(deps: Dag.Graph, e: string, rank: map<string, nat>, n: string)
    requires Ranked(OneFails(deps, e), rank) && n in deps
    ensures StatusOf(OneFails(deps, e), rank, n) == Error <==> n == e
    decreases if n in rank then rank[n] else 0
  {
    var g := OneFails(deps, e);
    assert n in g && g[n].deps == deps[n];
    if n == e {
      forall i | 0 <= i < |g[n].deps|
        ensures StatusOf(g, rank, g[n].deps[i]) != Error
      {
        var d := g[n].deps[i];
        assert d in g[n].deps && rank[d] < rank[n];
        OnlyItFails(deps, e, rank, d);
      }
    }
  }

  /** If a requirement of a requirement is not required itself, its failure alone does not block. */
  lemma SkippedOverFailure(deps: Dag.Graph, rank: map<string, nat>, n: string, d: string, e: string)
    requires Ranked(OneFails(deps, e), rank)
    requires n in deps && d in deps[n] && d in deps && e in deps[d] && e !in deps[n]
    ensures Requirements(OneFails(deps, e)) == deps && !BlocksBehind(OneFails(deps, e), rank)
  {
    var g, path := OneFails(deps, e), [n, d, e];
    assert d in g[n].deps && e in g[d].deps;
    assert rank[e] < rank[d] < rank[n];
    OnlyItFails(deps, e, rank, e);
    OneFailsStatus(deps, e, rank, n);
    assert Dag.Path(Requirements(g), path);
    assert StatusOf(g, rank, path[|path| - 1]) == Error && StatusOf(g, rank, path[0]) == OK;
  }

  lemma RanksOneFails(deps: Dag.Graph, order: seq<string>, e: string)
    requires Dag.TopologicalOrder(deps, order) && Dag.Closed(deps)
    ensures Ranked(OneFails(deps, e), RankOf(order))
  {
    assert Requirements(OneFails(deps, e)) == deps;
    OrderRanks(OneFails(deps, e), order);
  }

  /**
   A failure blocks all steps behind it, in every stage with these requirements, if and only if every
   requirement of a requirement is declared as a requirement too.
   */
  lemma BlocksBehindExactly(deps: Dag.Graph)
    requires Dag.Closed(deps) && Dag.Acyclic(deps)
    ensures AlwaysBlocksBehind(deps) <==> TransitivelyRequired(deps)
  {
    if TransitivelyRequired(deps) {
      forall g, rank | Requirements(g) == deps && Ranked(g, rank)
        ensures BlocksBehind(g, rank)
      {
        TransitiveBlocks(g, rank);
      }
    } else {
      var n, d, e :| n in deps && d in deps[n] && d in deps && e in deps[d] && e !in deps[n];
      var order :| Dag.TopologicalOrder(deps, order);
      RanksOneFails(deps, order, e);
      SkippedOverFailure(deps, RankOf(order), n, d, e);
    }
  }

  lemma TransitiveBlocks(g: Nodes, rank: map<string, nat>)
    requires Ranked(g, rank) && TransitivelyRequired(Requirements(g))
    ensures BlocksBehind(g, rank)
  {
    forall path | Dag.Path(Requirements(g), path) && |path| > 1 && StatusOf(g, rank, path[|path| - 1]) == Error
      ensures StatusOf(g, rank, path[0]) == Skipped
    {
      PathIsEdge(Requirements(g), path);
      DirectlyBlocked(g, rank, path[0], path[|path| - 1]);
    }
  }

  /** In a chain of three whose first step fails, the second is skipped and the third runs. */
  lemma FailureIsNotTransitive(g: Nodes, rank: map<string, nat>)
    requires g == map["a" := Node([], true, false, Selected, [], Raw(Error, "failed", None)),
                      "b" := Node(["a"], true, false, Selected, [], Raw(OK, "", None)),
                      "c" := Node(["b"], true, false, Selected, [], Raw(OK, "", None))]
    requires Ranked(g, rank)
    ensures StatusOf(g, rank, "a") == Error
    ensures StatusOf(g, rank, "b") == Skipped
    ensures StatusOf(g, rank, "c") == OK
    ensures !AlwaysBlocksBehind(Requirements(g))
  {
    assert g["b"].deps[0] == "a";
    assert StatusOf(g, rank, g["b"].deps[0]) == Error;
    var path := ["c", "b", "a"];
    assert Dag.Path(Requirements(g), path) && StatusOf(g, rank, path[2]) == Error;
    assert !BlocksBehind(g, rank);
  }
}
