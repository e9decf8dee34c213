/** Building the execution graph of a stage and checking it for cycles. */
module Dag {
  import opened StageTypes

  /** For every step name, the names that it requires. */
  type Graph = map<string, seq<string>>

  datatype DagError = ActionNotFound(name: string) | DependencyNotFound(name: string) | CircularDependency(name: string)

  datatype Result<+T> = Success(value: T) | Failure(error: DagError)

  // ----- Graphs -----

  /** The requirements of a stage; when a name is declared again the last declaration is the one that counts. */
  function GraphOf(steps: seq<Step>): (g: Graph)
    ensures forall n :: n in g <==> exists i :: 0 <= i < |steps| && steps[i].action == n
  {
    if steps == [] then map[]
    else
      var init, last := steps[..|steps| - 1], steps[|steps| - 1];
      assert forall i | 0 <= i < |init| :: init[i] == steps[i];
      GraphOf(init)[last.action := last.require]
  }

  /** A name that is declared more than once requires what its last declaration says. */
  lemma {:induction false} LastDeclarationCounts(steps: seq<Step>, i: nat)
    requires i < |steps| && forall j | i < j < |steps| :: steps[j].action != steps[i].action
    ensures steps[i].action in GraphOf(steps) && GraphOf(steps)[steps[i].action] == steps[i].require
  {
    if i < |steps| - 1 { LastDeclarationCounts(steps[..|steps| - 1], i); }
  }

  ghost predicate Closed(g: Graph) {
    forall n, d | n in g && d in g[n] :: d in g
  }

  /** Every node of the graph once, each after all that it requires. */
  ghost predicate TopologicalOrder(g: Graph, order: seq<string>) {
    && Distinct(order)
    && (forall n :: n in order <==> n in g)
    && Dependable(g, order)
  }

  ghost predicate Dependable(g: Graph, order: seq<string>) {
    forall i, d | 0 <= i < |order| && order[i] in g && d in g[order[i]] :: d in order[..i]
  }

  ghost predicate Acyclic(g: Graph) {
    exists order :: TopologicalOrder(g, order)
  }

  ghost predicate Path(g: Graph, path: seq<string>) {
    && (forall i | 0 <= i < |path| :: path[i] in g)
    && forall i | 0 <= i < |path| - 1 :: path[i + 1] in g[path[i]]
  }

  ghost predicate Cycle(g: Graph, path: seq<string>) {
    path != [] && Path(g, path) && path[0] in g[path[|path| - 1]]
  }

  function IndexIn(s: seq<string>, x: string): (i: nat)
    requires x in s
    ensures i < |s| && s[i] == x
    ensures x !in s[..i]
  {
    if s[0] == x then 0 else
      assert s == [s[0]] + s[1..];
      var i := 1 + IndexIn(s[1..], x);
      assert s[..i] == [s[0]] + s[1..][..i - 1];
      i
  }

  /** A topological order puts what is required strictly earlier. */
  lemma RequiredEarlier(g: Graph, order: seq<string>, n: string, d: string)
    requires TopologicalOrder(g, order) && n in g && d in g[n]
    ensures d in order && n in order && IndexIn(order, d) < IndexIn(order, n)
  {
    var i := IndexIn(order, n);
    assert d in order[..i];
    var j :| 0 <= j < i && order[..i][j] == d;
    assert order[j] == d;
  }

  lemma {:induction false} PathDescends(g: Graph, order: seq<string>, path: seq<string>, k: nat)
    requires TopologicalOrder(g, order) && Path(g, path) && k < |path|
    ensures path[0] in order && path[k] in order && IndexIn(order, path[k]) + k <= IndexIn(order, path[0])
  {
    if k > 0 {
      PathDescends(g, order, path, k - 1);
      RequiredEarlier(g, order, path[k - 1], path[k]);
    }
  }

  lemma DependableSnoc(g: Graph, order: seq<string>, n: string)
    requires Dependable(g, order) && n in g && forall d | d in g[n] :: d in order
    ensures Dependable(g, order + [n])
  {
    var all := order + [n];
    forall i, d | 0 <= i < |all| && all[i] in g && d in g[all[i]]
      ensures d in all[..i]
    {
      assert all[..i] == if i < |order| then order[..i] else order;
      if i < |order| { assert order[i] == all[i]; }
    }
  }

  /** A graph that can be ordered has no cycle. */
  lemma OrderedHasNoCycle(g: Graph, order: seq<string>, path: seq<string>)
    requires TopologicalOrder(g, order)
    ensures !Cycle(g, path)
  {
    if Cycle(g, path) {
      PathDescends(g, order, path, |path| - 1);
      RequiredEarlier(g, order, path[|path| - 1], path[0]);
      assert false;
    }
  }

  // ----- Cycle detection -----

  /** The maps that the depth-first search shares; `stack` and `finished` record its progress. */
  class CycleDetector {
    const dag: Graph
    var visited: set<string>
    var recStack: set<string>
    ghost var stack: seq<string>
    ghost var finished: seq<string>

    ghost predicate Valid()
      reads this
    {
      && Closed(dag)
      && Path(dag, stack) && (forall n :: n in recStack <==> n in stack)
      && Distinct(finished) && Dependable(dag, finished)
      && (forall n :: n in visited <==> n in finished || n in recStack)
      && (forall n | n in recStack :: n !in finished)
      && visited <= dag.Keys
    }

    constructor (dag: Graph)
      requires Closed(dag)
      ensures Valid() && this.dag == dag && visited == {} && stack == [] && finished == []
    {
      this.dag := dag;
      visited, recStack, stack, finished := {}, {}, [], [];
    }

    method Dfs(nodeName: string) returns (err: Option<string>)
      requires Valid() && nodeName in dag
      requires stack == [] || nodeName in dag[stack[|stack| - 1]]
      modifies this
      ensures err.None? ==> Valid() && stack == old(stack) && old(finished) <= finished && nodeName in finished
      ensures err.Some? ==> exists path :: Cycle(dag, path) && err.value in path
      decreases dag.Keys - visited
    {
      if nodeName in recStack {
        ghost var i :| 0 <= i < |stack| && stack[i] == nodeName;
        assert Cycle(dag, stack[i..]) && stack[i..][0] == nodeName;
        return Some(nodeName);
      }
      if nodeName in visited {
        return None;
      }
      ghost var was := finished;
      visited := visited + {nodeName};
      recStack := recStack + {nodeName};
      stack := stack + [nodeName];
      var dependencies := dag[nodeName];
      var i := 0;
      while i < |dependencies|
        invariant 0 <= i <= |dependencies| && Valid() && stack == old(stack) + [nodeName] && was <= finished
        invariant forall j | 0 <= j < i :: dependencies[j] in finished
        invariant old(visited) + {nodeName} <= visited
      {
        ghost var seen := visited;
        err := Dfs(dependencies[i]);
        if err.Some? {
          recStack := recStack - {nodeName};
          return;
        }
        i := i + 1;
      }
      recStack := recStack - {nodeName};
      stack := old(stack);
      DependableSnoc(dag, finished, nodeName);
      finished := finished + [nodeName];
      return None;
    }
  }

  /** Succeeds exactly on the graphs that have a topological order, and blames a node on a real cycle. */
  method DetectCycles(dag: Graph) returns (err: Option<string>, ghost order: seq<string>)
    requires Closed(dag)
    ensures err.None? <==> Acyclic(dag)
    ensures err.None? ==> TopologicalOrder(dag, order)
    ensures err.Some? ==> exists path :: Cycle(dag, path) && err.value in path
  {
    var detector := new CycleDetector(dag);
    var todo := dag.Keys;
    err := None;
    while todo != {}
      invariant err.None? && fresh(detector)
      invariant detector.Valid() && detector.dag == dag && detector.stack == [] && todo <= dag.Keys
      invariant forall n | n in dag.Keys - todo :: n in detector.finished
      decreases todo
    {
      var nodeName :| nodeName in todo;
      todo := todo - {nodeName};
      if nodeName !in detector.visited {
        err := detector.Dfs(nodeName);
        if err.Some? {
          forall o
            ensures !TopologicalOrder(dag, o)
          {
            if TopologicalOrder(dag, o) {
              var path :| Cycle(dag, path) && err.value in path;
              OrderedHasNoCycle(dag, o, path);
              assert false;
            }
          }
          order := [];
          return;
        }
      }
    }
    order := detector.finished;
    assert TopologicalOrder(dag, order);
  }

  // ----- Building the graph -----

  class DAGNode {
    const step: Step
    const dependencies: seq<string>
    var dependents: seq<string>

    constructor (step: Step)
      ensures this.step == step && dependencies == step.require && dependents == []
    {
      this.step, dependencies, dependents := step, step.require, [];
    }
  }

  /** The number of occurrences of `x` in `s`. */
  function Count(s: seq<string>, x: string): nat {
    if s == [] then 0 else Count(s[..|s| - 1], x) + if s[|s| - 1] == x then 1 else 0
  }

  lemma {:induction false} CountIs(s: seq<string>, x: string)
    ensures Count(s, x) == multiset(s)[x]
  {
    if s != [] {
      CountIs(s[..|s| - 1], x);
      SplitLast(s);
    }
  }

  lemma CountNothing()
    ensures forall x :: Count([], x) == 0
  {
  }

  lemma CountSnoc(s: seq<string>, x: string, y: string)
    ensures Count(s + [x], y) == Count(s, y) + if x == y then 1 else 0
  {
    assert (s + [x])[..|s + [x]| - 1] == s;
  }

  /** The nodes hold the requirements of the stage, and `dependents` inverts `dependencies`, repeats included. */
  ghost predicate Represents(dag: map<string, DAGNode>, steps: seq<Step>)
    reads dag.Values
  {
    && dag.Keys == GraphOf(steps).Keys
    && (forall n | n in dag :: dag[n].step.action == n && dag[n].dependencies == GraphOf(steps)[n])
    && forall n | n in dag :: Inverse(dag, n)
  }

  ghost predicate ActionsKnown(actions: seq<string>, steps: seq<Step>) {
    forall i | 0 <= i < |steps| :: steps[i].action in actions
  }

  /** The first step whose action is not known. */
  ghost predicate FirstUnknown(actions: seq<string>, steps: seq<Step>, a: string) {
    exists i | 0 <= i < |steps| :: steps[i].action == a && a !in actions && ActionsKnown(actions, steps[..i])
  }

  ghost predicate Unresolved(g: Graph, d: string) {
    d !in g && exists n | n in g :: d in g[n]
  }

  ghost predicate OnCycle(g: Graph, n: string) {
    exists path :: Cycle(g, path) && n in path
  }

  method BuildDAG(actions: seq<string>, steps: seq<Step>)
    returns (r: Result<map<string, DAGNode>>, ghost order: seq<string>)
    ensures r.Success? <==> ActionsKnown(actions, steps) && Closed(GraphOf(steps)) && Acyclic(GraphOf(steps))
    ensures r.Success? ==> fresh(r.value.Values) && Represents(r.value, steps)
    ensures r.Success? ==> TopologicalOrder(GraphOf(steps), order)
    ensures r.Failure? ==>
      match r.error
      case ActionNotFound(a) => FirstUnknown(actions, steps, a)
      case DependencyNotFound(d) => ActionsKnown(actions, steps) && Unresolved(GraphOf(steps), d)
      case CircularDependency(n) => ActionsKnown(actions, steps) && Closed(GraphOf(steps)) && OnCycle(GraphOf(steps), n)
  {
    order := [];
    var dag: map<string, DAGNode> := map[];
    var i := 0;
    while i < |steps|
      invariant 0 <= i <= |steps| && ActionsKnown(actions, steps[..i])
      invariant dag.Keys == GraphOf(steps[..i]).Keys
      invariant forall n | n in dag :: New(dag[n], n, GraphOf(steps[..i])[n]) && fresh(dag[n])
      invariant forall m, n | m in dag && n in dag && m != n :: dag[m] != dag[n]
    {
      assert steps[..i + 1][..i] == steps[..i] && steps[..i + 1][i] == steps[i];
      if steps[i].action !in actions {
        return Failure(ActionNotFound(steps[i].action)), order;
      }
      var node := new DAGNode(steps[i]);
      dag := dag[steps[i].action := node];
      i := i + 1;
    }
    assert steps[..i] == steps;
    var missing := LinkDependents(dag);
    if missing.Some? {
      assert exists n | n in GraphOf(steps) :: missing.value in GraphOf(steps)[n];
      return Failure(DependencyNotFound(missing.value)), order;
    }
    assert forall n | n in dag :: Resolved(dag, n) && GraphOf(steps)[n] == dag[n].dependencies;
    var cycle, found := DetectCycles(GraphOf(steps));
    order := found;
    if cycle.Some? {
      return Failure(CircularDependency(cycle.value)), order;
    }
    return Success(dag), order;
  }

  ghost predicate New(node: DAGNode, n: string, deps: seq<string>)
    reads node
  {
    node.step.action == n && node.dependencies == deps && node.dependents == []
  }

  /** `n` is listed once among the dependents of `d` for every time that it requires `d`. */
  ghost predicate Inverse(dag: map<string, DAGNode>, n: string)
    requires n in dag
    reads dag.Values
  {
    forall d | d in dag :: multiset(dag[d].dependents)[n] == multiset(dag[n].dependencies)[d]
  }

  /** The same by counting. */
  ghost predicate Counted(dag: map<string, DAGNode>, n: string)
    requires n in dag
    reads dag.Values
  {
    forall d | d in dag :: Count(dag[d].dependents, n) == Count(dag[n].dependencies, d)
  }

  lemma CountedIsInverse(dag: map<string, DAGNode>, n: string)
    requires n in dag && Counted(dag, n)
    ensures Inverse(dag, n)
  {
    forall d | d in dag
      ensures multiset(dag[d].dependents)[n] == multiset(dag[n].dependencies)[d]
    {
      CountIs(dag[d].dependents, n);
      CountIs(dag[n].dependencies, d);
    }
  }

  ghost predicate Resolved(dag: map<string, DAGNode>, n: string)
    requires n in dag
  {
    forall d | d in dag[n].dependencies :: d in dag
  }

  /** `n` is not listed as a dependent yet. */
  ghost predicate Unlinked(dag: map<string, DAGNode>, n: string)
    reads dag.Values
  {
    forall d | d in dag :: Count(dag[d].dependents, n) == 0
  }

  /** Appends every node to the dependents of what it requires; stops at a requirement that is not in the graph. */
  method LinkDependents(dag: map<string, DAGNode>) returns (missing: Option<string>)
    requires forall n | n in dag :: dag[n].dependents == []
    requires forall m, n | m in dag && n in dag && m != n :: dag[m] != dag[n]
    modifies dag.Values
    ensures missing.Some? ==> missing.value !in dag && exists n | n in dag :: missing.value in dag[n].dependencies
    ensures missing.None? ==> forall n | n in dag :: Resolved(dag, n) && Inverse(dag, n)
  {
    var todo := dag.Keys;
    missing := None;
    forall n | n in dag ensures Unlinked(dag, n) {}
    while todo != {}
      invariant todo <= dag.Keys && missing.None?
      invariant forall n | n in todo :: Unlinked(dag, n)
      invariant forall n | n in dag && n !in todo :: Resolved(dag, n) && Counted(dag, n)
      decreases todo
    {
      var nodeName :| nodeName in todo;
      missing := LinkNode(dag, nodeName);
      if missing.Some? {
        return;
      }
      todo := todo - {nodeName};
    }
    forall n | n in dag { CountedIsInverse(dag, n); }
  }

  /** Appends one node to the dependents of what it requires, and touches no other node's listings. */
  method LinkNode(dag: map<string, DAGNode>, nodeName: string) returns (missing: Option<string>)
    requires nodeName in dag && Unlinked(dag, nodeName)
    requires forall m, n | m in dag && n in dag && m != n :: dag[m] != dag[n]
    modifies dag.Values
    ensures missing.Some? ==> missing.value in dag[nodeName].dependencies && missing.value !in dag
    ensures missing.None? ==> Resolved(dag, nodeName) && Counted(dag, nodeName)
    ensures forall n | n in dag && n != nodeName && old(Unlinked(dag, n)) :: Unlinked(dag, n)
    ensures forall n | n in dag && n != nodeName && old(Counted(dag, n)) :: Counted(dag, n)
  {
    hide Count;
    var dependencies := dag[nodeName].dependencies;
    CountNothing();
    var i := 0;
    while i < |dependencies|
      invariant 0 <= i <= |dependencies|
      invariant forall j | 0 <= j < i :: dependencies[j] in dag
      invariant forall d | d in dag :: Count(dag[d].dependents, nodeName) == Count(dependencies[..i], d)
      invariant forall n, d | n in dag && d in dag && n != nodeName ::
        Count(dag[d].dependents, n) == old(Count(dag[d].dependents, n))
    {
      var dep := dependencies[i];
      if dep !in dag {
        return Some(dep);
      }
      ghost var sofar := dependencies[..i];
      var linked := dag[dep].dependents;
      assert dependencies[..i + 1] == sofar + [dep];
      dag[dep].dependents := linked + [nodeName];
      forall x { CountSnoc(sofar, dep, x); }
      forall x { CountSnoc(linked, nodeName, x); }
      i := i + 1;
    }
    assert dependencies[..i] == dependencies;
    return None;
  }
}
