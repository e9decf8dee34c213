/** When following includes succeeds, what it blames when it fails, and in which order files are merged. */
module IncludeGraphs {
  import opened StageTypes
  import opened ConfigMerge
  import opened Includes

  /** The include list of a file; a file that cannot be loaded has none. */
  function IncludedBy(files: Files, path: string): seq<Target> {
    if path in files && files[path].Parsed? then Expand(files[path].includes) else []
  }

  /** A chain of includes: the first file is listed in `ts`, every other one in the file before it. */
  ghost predicate Chain(files: Files, ts: seq<Target>, chain: seq<string>) {
    && (chain != [] ==> To(chain[0]) in ts)
    && forall i | 0 <= i < |chain| - 1 :: To(chain[i + 1]) in IncludedBy(files, chain[i])
  }

  /** The list that a chain leads to. */
  function ListAt(files: Files, ts: seq<Target>, chain: seq<string>): seq<Target> {
    if chain == [] then ts else IncludedBy(files, chain[|chain| - 1])
  }

  /** The error that following the chain would meet at its end, where `stack` is being processed already. */
  ghost predicate Meets(files: Files, stack: set<string>, ts: seq<Target>, chain: seq<string>, e: IncludeError) {
    || (e.NoDirectory? && Broken(e) in ListAt(files, ts, chain))
    || (e.BadPattern? && Broken(e) in ListAt(files, ts, chain))
    || (chain != [] && EndsBadly(files, stack, chain[..|chain| - 1], chain[|chain| - 1], e))
  }

  ghost predicate EndsBadly(files: Files, stack: set<string>, before: seq<string>, path: string, e: IncludeError) {
    match e
    case Circular(p) => p == path && (path in stack || path in before)
    case Missing(p) => p == path && path !in files
    case ReadFailed(p) => p == path && path in files && files[path].Unreadable?
    case ParseFailed(p) => p == path && path in files && files[path].Unparsable?
    case _ => false
  }

  // ----- A failing walk has met a real problem -----

  lemma {:induction false} ExpandedErrors(patterns: seq<Pattern>, t: Target)
    requires t in Expand(patterns) && t.Broken?
    ensures t.error.NoDirectory? || t.error.BadPattern?
  {
    if t in Expand(patterns[..|patterns| - 1]) {
      ExpandedErrors(patterns[..|patterns| - 1], t);
    }
  }

  ghost predicate Expanded(ts: seq<Target>) {
    forall t | t in ts && t.Broken? :: t.error.NoDirectory? || t.error.BadPattern?
  }

  lemma ListsAreExpanded(files: Files, path: string)
    ensures Expanded(IncludedBy(files, path))
  {
    forall t | t in IncludedBy(files, path) && t.Broken?
      ensures t.error.NoDirectory? || t.error.BadPattern?
    {
      ExpandedErrors(files[path].includes, t);
    }
  }

  /** A chain from a file's own list, with the file put in front. */
  lemma FrontedChain(files: Files, ts: seq<Target>, path: string, chain: seq<string>)
    requires To(path) in ts && Chain(files, IncludedBy(files, path), chain)
    ensures Chain(files, ts, [path] + chain)
  {
    var longer := [path] + chain;
    forall i | 0 <= i < |longer| - 1
      ensures To(longer[i + 1]) in IncludedBy(files, longer[i])
    {
      if i > 0 { assert longer[i] == chain[i - 1] && longer[i + 1] == chain[i]; }
    }
  }

  lemma ChainBelow(files: Files, stack: set<string>, ts: seq<Target>, path: string, chain: seq<string>, e: IncludeError)
    requires To(path) in ts && Chain(files, IncludedBy(files, path), chain)
    requires Meets(files, stack + {path}, IncludedBy(files, path), chain, e)
    ensures Chain(files, ts, [path] + chain) && Meets(files, stack, ts, [path] + chain, e)
  {
    var longer := [path] + chain;
    FrontedChain(files, ts, path, chain);
    if chain != [] {
      assert longer[..|longer| - 1] == [path] + chain[..|chain| - 1];
    }
  }

  lemma WalkFailsAt(files: Files, stack: set<string>, ts: seq<Target>) returns (t: Target)
    requires WalkTargets(files, stack, ts).Err?
    ensures t in ts && WalkTarget(files, stack, t) == WalkTargets(files, stack, ts)
  {
    if WalkTargets(files, stack, ts[..|ts| - 1]).Err? {
      t := WalkFailsAt(files, stack, ts[..|ts| - 1]);
    } else {
      t := ts[|ts| - 1];
    }
  }

  lemma {:induction false} FailureIsReal(files: Files, stack: set<string>, ts: seq<Target>) returns (chain: seq<string>)
    requires Expanded(ts) && WalkTargets(files, stack, ts).Err?
    ensures Chain(files, ts, chain) && Meets(files, stack, ts, chain, WalkTargets(files, stack, ts).error)
    decreases files.Keys - stack
  {
    var e := WalkTargets(files, stack, ts).error;
    var t := WalkFailsAt(files, stack, ts);
    match t
    case Broken(_) =>
      chain := [];
    case To(path) =>
      chain := [path];
      assert chain[..|chain| - 1] == [];
      if path !in stack && path in files && files[path].Parsed? {
        ListsAreExpanded(files, path);
        var below := FailureIsReal(files, stack + {path}, IncludedBy(files, path));
        ChainBelow(files, stack, ts, path, below, e);
        chain := [path] + below;
      }
  }

  // ----- A successful walk met none -----

  lemma {:induction false} WalkTakes(files: Files, stack: set<string>, ts: seq<Target>, t: Target)
    requires WalkTargets(files, stack, ts).Ok? && t in ts
    ensures WalkTarget(files, stack, t).Ok?
    ensures forall p | p in WalkTarget(files, stack, t).value :: p in WalkTargets(files, stack, ts).value
  {
    if t != ts[|ts| - 1] {
      WalkTakes(files, stack, ts[..|ts| - 1], t);
    }
  }

  lemma ChainRest(files: Files, ts: seq<Target>, chain: seq<string>)
    requires chain != [] && Chain(files, ts, chain)
    ensures Chain(files, IncludedBy(files, chain[0]), chain[1..])
  {
    var rest := chain[1..];
    if rest != [] { assert To(chain[0 + 1]) in IncludedBy(files, chain[0]); }
    forall i | 0 <= i < |rest| - 1
      ensures To(rest[i + 1]) in IncludedBy(files, rest[i])
    {
      assert To(chain[(i + 1) + 1]) in IncludedBy(files, chain[i + 1]);
    }
  }

  /** Every chain from a list that was walked successfully is free of problems, and its files are merged. */
  lemma {:induction false} SuccessIsClean(files: Files, stack: set<string>, ts: seq<Target>, chain: seq<string>)
    requires WalkTargets(files, stack, ts).Ok? && Chain(files, ts, chain)
    ensures forall e :: !Meets(files, stack, ts, chain, e)
    ensures forall i | 0 <= i < |chain| :: chain[i] !in stack && chain[i] in WalkTargets(files, stack, ts).value
    decreases |chain|
  {
    if chain == [] {
      forall e | Broken(e) in ts
        ensures false
      {
        WalkTakes(files, stack, ts, Broken(e));
      }
    } else {
      var path, rest := chain[0], chain[1..];
      WalkTakes(files, stack, ts, To(path));
      ChainRest(files, ts, chain);
      SuccessIsClean(files, stack + {path}, IncludedBy(files, path), rest);
      forall i | 0 <= i < |chain|
        ensures chain[i] !in stack && chain[i] in WalkTargets(files, stack, ts).value
      {
        if i > 0 { assert chain[i] == rest[i - 1]; }
      }
      forall e
        ensures !Meets(files, stack, ts, chain, e)
      {
        CleanFront(files, stack, ts, chain, e);
      }
    }
  }

  lemma CleanFront(files: Files, stack: set<string>, ts: seq<Target>, chain: seq<string>, e: IncludeError)
    requires chain != [] && chain[0] !in stack && chain[0] in files && files[chain[0]].Parsed?
    requires !Meets(files, stack + {chain[0]}, IncludedBy(files, chain[0]), chain[1..], e)
    ensures !Meets(files, stack, ts, chain, e)
  {
    var path, rest := chain[0], chain[1..];
    if rest != [] {
      assert chain[..|chain| - 1] == [path] + rest[..|rest| - 1];
      assert chain[|chain| - 1] == rest[|rest| - 1];
    } else {
      assert chain[..|chain| - 1] == [];
    }
  }

  /**
   Following the includes of a configuration terminates, and fails exactly when some chain of includes ends
   in a problem: a file that the chain has been through already, a file that is missing or cannot be loaded,
   or a pattern without a directory or with a bad syntax. A file that two chains share is no problem.
   */
  lemma IncludesFailExactly(files: Files, includes: seq<Pattern>)
    ensures WalkTargets(files, {}, Expand(includes)).Err?
      <==> exists chain, e :: Chain(files, Expand(includes), chain) && Meets(files, {}, Expand(includes), chain, e)
  {
    var ts := Expand(includes);
    if WalkTargets(files, {}, ts).Err? {
      BlameIsReal(files, includes);
    } else {
      forall chain, e | Chain(files, ts, chain)
        ensures !Meets(files, {}, ts, chain, e)
      {
        SuccessIsClean(files, {}, ts, chain);
      }
    }
  }

  /** The error that is returned is one that a chain meets. */
  lemma BlameIsReal(files: Files, includes: seq<Pattern>)
    requires WalkTargets(files, {}, Expand(includes)).Err?
    ensures exists chain ::
      && Chain(files, Expand(includes), chain)
      && Meets(files, {}, Expand(includes), chain, WalkTargets(files, {}, Expand(includes)).error)
  {
    var ts := Expand(includes);
    forall t | t in ts && t.Broken?
      ensures t.error.NoDirectory? || t.error.BadPattern?
    {
      ExpandedErrors(includes, t);
    }
    var chain := FailureIsReal(files, {}, ts);
  }

  /** From the file back to itself, one include at a time. */
  ghost predicate Cycle(files: Files, cycle: seq<string>, path: string) {
    && |cycle| > 1 && cycle[0] == cycle[|cycle| - 1] == path
    && forall i | 0 <= i < |cycle| - 1 :: To(cycle[i + 1]) in IncludedBy(files, cycle[i])
  }

  lemma ChainTail(files: Files, ts: seq<Target>, chain: seq<string>, k: nat)
    requires Chain(files, ts, chain) && k < |chain| - 1 && chain[k] == chain[|chain| - 1]
    ensures Cycle(files, chain[k..], chain[k])
  {
    var cycle := chain[k..];
    forall i | 0 <= i < |cycle| - 1
      ensures To(cycle[i + 1]) in IncludedBy(files, cycle[i])
    {
      assert To(chain[(k + i) + 1]) in IncludedBy(files, chain[k + i]);
    }
  }

  /** A circular include that is reported is a real cycle of the file that is named. */
  lemma CircularIsCycle(files: Files, includes: seq<Pattern>, path: string)
    requires WalkTargets(files, {}, Expand(includes)) == Err(Circular(path))
    ensures exists cycle :: Cycle(files, cycle, path)
  {
    BlameIsReal(files, includes);
    var chain :| Chain(files, Expand(includes), chain) && Meets(files, {}, Expand(includes), chain, Circular(path));
    var before := chain[..|chain| - 1];
    var k :| 0 <= k < |before| && before[k] == path;
    ChainTail(files, Expand(includes), chain, k);
  }

  // ----- The order of merging -----

  /** A file is merged after everything that it includes. */
  ghost predicate PostOrder(files: Files, order: seq<string>) {
    forall i | 0 <= i < |order| :: MergedBefore(files, order[..i], order[i])
  }

  ghost predicate MergedBefore(files: Files, before: seq<string>, path: string) {
    forall q | To(q) in IncludedBy(files, path) :: q in before
  }

  lemma PostOrderConcat(files: Files, a: seq<string>, b: seq<string>)
    requires PostOrder(files, a) && PostOrder(files, b)
    ensures PostOrder(files, a + b)
  {
    forall i | 0 <= i < |a + b|
      ensures MergedBefore(files, (a + b)[..i], (a + b)[i])
    {
      if i < |a| {
        assert MergedBefore(files, a[..i], a[i]) && (a + b)[..i] == a[..i];
      } else {
        assert MergedBefore(files, b[..i - |a|], b[i - |a|]) && (a + b)[..i] == a + b[..i - |a|];
      }
    }
  }

  lemma PostOrderSnoc(files: Files, a: seq<string>, path: string)
    requires PostOrder(files, a) && MergedBefore(files, a, path)
    ensures PostOrder(files, a + [path])
  {
    forall i | 0 <= i < |a + [path]|
      ensures MergedBefore(files, (a + [path])[..i], (a + [path])[i])
    {
      if i < |a| {
        assert MergedBefore(files, a[..i], a[i]) && (a + [path])[..i] == a[..i];
      } else {
        assert (a + [path])[..i] == a;
      }
    }
  }

  lemma {:induction false} FileInPostOrder(files: Files, stack: set<string>, path: string)
    requires WalkFile(files, stack, path).Ok?
    ensures PostOrder(files, WalkFile(files, stack, path).value)
    ensures path in WalkFile(files, stack, path).value
    decreases files.Keys - stack, 0
  {
    var ts := IncludedBy(files, path);
    TargetsInPostOrder(files, stack + {path}, ts);
    PostOrderSnoc(files, WalkTargets(files, stack + {path}, ts).value, path);
  }

  lemma {:induction false} TargetsInPostOrder(files: Files, stack: set<string>, ts: seq<Target>)
    requires WalkTargets(files, stack, ts).Ok?
    ensures PostOrder(files, WalkTargets(files, stack, ts).value)
    ensures forall q | To(q) in ts :: q in WalkTargets(files, stack, ts).value
    decreases files.Keys - stack, |ts| + 2
  {
    if ts != [] {
      var init, t := ts[..|ts| - 1], ts[|ts| - 1];
      SplitLast(ts);
      TargetsInPostOrder(files, stack, init);
      FileInPostOrder(files, stack, t.path);
      PostOrderConcat(files, WalkTargets(files, stack, init).value, WalkTarget(files, stack, t).value);
    }
  }

  // ----- Only what is included is merged -----

  lemma ChainWider(files: Files, ts: seq<Target>, wider: seq<Target>, chain: seq<string>)
    requires Chain(files, ts, chain) && forall t | t in ts :: t in wider
    ensures Chain(files, wider, chain)
  {
  }

  lemma FileWalk(files: Files, stack: set<string>, path: string)
    requires WalkFile(files, stack, path).Ok?
    ensures WalkFile(files, stack, path)
      == Then(WalkTargets(files, stack + {path}, IncludedBy(files, path)), Ok([path]))
  {
  }

  /** Every merged file is reached by a chain of includes. */
  lemma {:induction false} MergedIsReached(files: Files, stack: set<string>, ts: seq<Target>, path: string)
    returns (chain: seq<string>)
    requires WalkTargets(files, stack, ts).Ok? && path in WalkTargets(files, stack, ts).value
    ensures Chain(files, ts, chain) && chain != [] && chain[|chain| - 1] == path
    decreases files.Keys - stack, |ts|
  {
    var init, t := ts[..|ts| - 1], ts[|ts| - 1];
    if path in WalkTargets(files, stack, init).value {
      chain := MergedIsReached(files, stack, init, path);
      ChainWider(files, init, ts, chain);
    } else if path == t.path {
      chain := [path];
    } else {
      var below := IncludedBy(files, t.path);
      FileWalk(files, stack, t.path);
      assert path in WalkTarget(files, stack, t).value;
      chain := MergedIsReached(files, stack + {t.path}, below, path);
      FrontedChain(files, ts, t.path, chain);
      chain := [t.path] + chain;
    }
  }

  /** A file is merged exactly when some chain of includes reaches it, and after all that it includes. */
  lemma MergedExactlyReachable(files: Files, includes: seq<Pattern>, path: string)
    requires WalkTargets(files, {}, Expand(includes)).Ok?
    ensures path in WalkTargets(files, {}, Expand(includes)).value
      <==> exists chain :: Chain(files, Expand(includes), chain) && chain != [] && chain[|chain| - 1] == path
    ensures PostOrder(files, WalkTargets(files, {}, Expand(includes)).value)
  {
    var ts := Expand(includes);
    TargetsInPostOrder(files, {}, ts);
    if path in WalkTargets(files, {}, ts).value {
      var chain := MergedIsReached(files, {}, ts, path);
    }
    forall chain | Chain(files, ts, chain) && chain != [] && chain[|chain| - 1] == path
      ensures path in WalkTargets(files, {}, ts).value
    {
      SuccessIsClean(files, {}, ts, chain);
    }
  }

  /**
   After a successful walk every action and stage has the definition of the last file, in the order of
   merging, that defines it, and the main file's own definition only when no included file has one.
   */
  lemma LastDefinerWins(files: Files, main: Contents, includes: seq<Pattern>, order: seq<string>, n: string)
    requires WalkTargets(files, {}, Expand(includes)) == Ok(order)
    ensures FirstNamed(Merged(files, main, order).actions, n) == LastDefinition(main, ContentsOf(files, order), n)
    ensures LastStage(main, ContentsOf(files, order), n)
         == if n in Merged(files, main, order).stages then Some(Merged(files, main, order).stages[n]) else None
    ensures ActionNames(main.actions) <= ActionNames(Merged(files, main, order).actions)
  {
    MergeAllLookup(main, ContentsOf(files, order), n);
    MergeAllKeepsNames(main, ContentsOf(files, order));
  }

  lemma {:induction false} MergeAllKeepsNames(base: Contents, all: seq<Contents>)
    ensures ActionNames(base.actions) <= ActionNames(MergeAll(base, all).actions)
  {
    if all != [] {
      MergeAllKeepsNames(base, all[..|all| - 1]);
      MergeKeepsNames(MergeAll(base, all[..|all| - 1]).actions, all[|all| - 1].actions);
    }
  }

  /** Two files may include the same third one: it is merged once for each, and nothing is circular. */
  lemma DiamondsAreAccepted(files: Files, a: string, b: string, c: string)
    requires a in files && b in files && c in files && a != c && b != c
    requires files[a].Parsed? && files[a].includes == [Exact(c)]
    requires files[b].Parsed? && files[b].includes == [Exact(c)]
    requires files[c].Parsed? && files[c].includes == []
    ensures WalkTargets(files, {}, [To(a), To(b)]) == Ok([c, a, c, b])
  {
    assert [Exact(c)][..0] == [] && Expand([Exact(c)]) == [To(c)];
    LeafWalk(files, {} + {a}, c);
    LeafWalk(files, {} + {b}, c);
    ListWalk(files, {}, a, [c]);
    ListWalk(files, {}, b, [c]);
    WalkOne(files, {}, To(a));
    WalkSnoc(files, {}, [To(a)], To(b));
    assert [To(a)] + [To(b)] == [To(a), To(b)];
    assert ([c] + [a]) + ([c] + [b]) == [c, a, c, b];
  }

  lemma LeafWalk(files: Files, stack: set<string>, path: string)
    requires path !in stack && path in files && files[path].Parsed? && files[path].includes == []
    ensures WalkTargets(files, stack, [To(path)]) == Ok([path])
  {
    WalkOne(files, stack, To(path));
    assert Expand([]) == [] && [] + [path] == [path];
    assert WalkTargets(files, stack + {path}, Expand(files[path].includes)) == Ok([]);
  }

  lemma ListWalk(files: Files, stack: set<string>, path: string, below: seq<string>)
    requires path !in stack && path in files && files[path].Parsed?
    requires WalkTargets(files, stack + {path}, Expand(files[path].includes)) == Ok(below)
    ensures WalkTarget(files, stack, To(path)) == Ok(below + [path])
  {
  }
}
