/** When the two loaders give the same configuration. */
module LoaderAgreement {
  import opened StageTypes
  import opened ConfigMerge
  import opened Includes
  import opened IncludeGraphs
  import opened IncludeResolver

  lemma {:induction false} DedupDistinct(paths: seq<string>)
    requires Distinct(paths)
    ensures Dedup(paths) == paths
  {
    if paths != [] {
      var init := paths[..|paths| - 1];
      SplitLast(paths);
      DistinctSnoc(init, paths[|paths| - 1]);
      DedupDistinct(init);
    }
  }

  /** A file that can be loaded and includes nothing itself. */
  predicate Flat(files: Files, path: string) {
    path in files && files[path].Parsed? && files[path].includes == []
  }

  lemma {:induction false} FlatPathsWalk(files: Files, paths: seq<string>)
    requires forall p | p in paths :: Flat(files, p)
    ensures WalkTargets(files, {}, AllTo(paths)) == Ok(paths)
  {
    if paths != [] {
      var init, path := paths[..|paths| - 1], paths[|paths| - 1];
      SplitLast(paths);
      FlatPathsWalk(files, init);
      assert Flat(files, path);
      LeafWalk(files, {}, path);
      WalkOne(files, {}, To(path));
      WalkSnoc(files, {}, AllTo(init), To(path));
      assert AllTo(paths) == AllTo(init) + [To(path)];
    }
  }

  lemma {:induction false} ResolvedTargets(files: Files, patterns: seq<Pattern>)
    requires ResolveAll(files, patterns).Ok?
    ensures Expand(patterns) == AllTo(ResolveAll(files, patterns).value)
  {
    if patterns != [] {
      var init, p := patterns[..|patterns| - 1], patterns[|patterns| - 1];
      ResolvedTargets(files, init);
      var before, more := ResolveAll(files, init).value, ResolvePattern(files, p).value;
      assert TargetsOf(p) == AllTo(more);
      assert AllTo(before + more) == AllTo(before) + AllTo(more);
    }
  }

  /** On flat includes, repeats and all, both loaders succeed: one merges every mention, the other each file once. */
  lemma FlatLoads(files: Files, main: Contents, patterns: seq<Pattern>, paths: seq<string>)
    requires ResolveAll(files, patterns) == Ok(paths) && forall p | p in paths :: Flat(files, p)
    ensures Loaded(files, main, patterns) == Ok(Merged(files, main, paths))
    ensures LoadResolved(files, main, patterns) == Ok(Merged(files, main, Dedup(paths)))
  {
    ResolvedTargets(files, patterns);
    FlatPathsWalk(files, paths);
    LoadAllIs(files, Dedup(paths));
    MergeFirstOrOneByOne(main, ContentsOf(files, Dedup(paths)));
  }

  /**
   The two loaders agree on flat includes without a repeated file: the one that walks recursively and merges
   every file into the main configuration, and the one that resolves all patterns, merges the files into an
   empty configuration and then merges that.
   */
  lemma LoadersAgree(files: Files, main: Contents, patterns: seq<Pattern>, paths: seq<string>)
    requires ResolveAll(files, patterns) == Ok(paths) && Distinct(paths)
    requires forall p | p in paths :: Flat(files, p)
    ensures Loaded(files, main, patterns) == LoadResolved(files, main, patterns) == Ok(Merged(files, main, paths))
  {
    FlatLoads(files, main, patterns, paths);
    DedupDistinct(paths);
  }

  // ----- What a merged list is made of -----

  /** Behind its first occurrence a name is only ever a repeat of the base, and it is left as it was. */
  ghost predicate RepeatsOf(base: seq<Action>, merged: seq<Action>) {
    && |base| <= |merged|
    && forall i | 0 <= i < |merged| && ActionNames(merged)[i] in ActionNames(merged)[..i] ::
      i < |base| && merged[i] == base[i]
  }

  lemma {:induction false} PutLeaves(actions: seq<Action>, a: Action, i: nat)
    requires i < |actions| && (actions[i].name != a.name || a.name in ActionNames(actions)[..i])
    ensures i < |Put(actions, a)| && Put(actions, a)[i] == actions[i]
  {
    if actions[0].name != a.name && i > 0 {
      NamesPrefix(actions, i);
      PutLeaves(actions[1..], a, i - 1);
    }
  }

  lemma NamesPrefix(actions: seq<Action>, i: nat)
    requires 0 < i <= |actions|
    ensures ActionNames(actions)[..i] == [actions[0].name] + ActionNames(actions[1..])[..i - 1]
  {
  }

  lemma PutRepeats(base: seq<Action>, merged: seq<Action>, a: Action)
    requires RepeatsOf(base, merged)
    ensures RepeatsOf(base, Put(merged, a))
  {
    var now := Put(merged, a);
    PutNames(merged, a);
    assert ActionNames(now)[..|merged|] == ActionNames(merged);
    forall i | 0 <= i < |now| && ActionNames(now)[i] in ActionNames(now)[..i]
      ensures i < |base| && now[i] == base[i]
    {
      if i < |merged| {
        assert ActionNames(now)[..i] == ActionNames(merged)[..i] && ActionNames(now)[i] == ActionNames(merged)[i];
        PutLeaves(merged, a, i);
      }
    }
  }

  lemma {:induction false} MergeRepeats(base: seq<Action>, merged: seq<Action>, included: seq<Action>)
    requires RepeatsOf(base, merged)
    ensures RepeatsOf(base, MergeActions(merged, included))
  {
    if included != [] {
      MergeRepeats(base, merged, included[..|included| - 1]);
      PutRepeats(base, MergeActions(merged, included[..|included| - 1]), included[|included| - 1]);
    }
  }

  lemma {:induction false} MergeAllRepeats(base: Contents, all: seq<Contents>)
    ensures RepeatsOf(base.actions, MergeAll(base, all).actions)
  {
    if all == [] {
      BaseRepeats(base.actions);
    } else {
      MergeAllRepeats(base, all[..|all| - 1]);
      MergeRepeats(base.actions, MergeAll(base, all[..|all| - 1]).actions, all[|all| - 1].actions);
    }
  }

  lemma BaseRepeats(base: seq<Action>)
    ensures RepeatsOf(base, base)
  {
  }

  lemma {:induction false} FirstNamedAt(actions: seq<Action>, i: nat)
    requires i < |actions| && actions[i].name !in ActionNames(actions)[..i]
    ensures FirstNamed(actions, actions[i].name) == Some(actions[i])
  {
    if i > 0 {
      NamesPrefix(actions, i);
      assert actions[0].name == ActionNames(actions)[..i][0];
      FirstNamedAt(actions[1..], i - 1);
    }
  }

  /** The names in their order and the first action of each name say all, repeats of the base aside. */
  lemma NamesAndLookupsDecide(base: seq<Action>, a: seq<Action>, b: seq<Action>)
    requires RepeatsOf(base, a) && RepeatsOf(base, b) && ActionNames(a) == ActionNames(b)
    requires forall n :: FirstNamed(a, n) == FirstNamed(b, n)
    ensures a == b
  {
    forall i | 0 <= i < |a|
      ensures a[i] == b[i]
    {
      var n := ActionNames(a)[i];
      if n !in ActionNames(a)[..i] {
        FirstNamedAt(a, i);
        FirstNamedAt(b, i);
      }
    }
  }

  // ----- Repeats do not change the names -----

  lemma PutSameNames(a: seq<Action>, b: seq<Action>, x: Action)
    requires ActionNames(a) == ActionNames(b)
    ensures ActionNames(Put(a, x)) == ActionNames(Put(b, x))
  {
    PutNames(a, x);
    PutNames(b, x);
  }

  lemma {:induction false} MergeSameNames(a: seq<Action>, b: seq<Action>, included: seq<Action>)
    requires ActionNames(a) == ActionNames(b)
    ensures ActionNames(MergeActions(a, included)) == ActionNames(MergeActions(b, included))
  {
    if included != [] {
      var init := included[..|included| - 1];
      MergeSameNames(a, b, init);
      PutSameNames(MergeActions(a, init), MergeActions(b, init), included[|included| - 1]);
    }
  }

  lemma {:induction false} MergeKnownNames(base: seq<Action>, included: seq<Action>)
    requires forall a | a in included :: a.name in ActionNames(base)
    ensures ActionNames(MergeActions(base, included)) == ActionNames(base)
  {
    if included != [] {
      var init := included[..|included| - 1];
      MergeKnownNames(base, init);
      PutNames(MergeActions(base, init), included[|included| - 1]);
    }
  }

  lemma {:induction false} MergedHasNames(files: Files, base: Contents, order: seq<string>, path: string, a: Action)
    requires path in order && a in ContentOf(files, path).actions
    ensures a.name in ActionNames(Merged(files, base, order).actions)
  {
    var init, last := order[..|order| - 1], order[|order| - 1];
    SplitLast(order);
    MergedSnoc(files, base, init, last);
    MergeKeepsNames(Merged(files, base, init).actions, ContentOf(files, last).actions);
    if path == last {
      var actions := ContentOf(files, last).actions;
      var i :| 0 <= i < |actions| && actions[i] == a;
      assert ActionNames(actions)[i] == a.name;
    } else {
      MergedHasNames(files, base, init, path, a);
    }
  }

  /** Merging a file once more adds no name, so dropping repeats keeps all names where they are. */
  lemma {:induction false} DedupKeepsNames(files: Files, base: Contents, paths: seq<string>)
    ensures ActionNames(Merged(files, base, paths).actions) == ActionNames(Merged(files, base, Dedup(paths)).actions)
  {
    if paths != [] {
      var init, path := paths[..|paths| - 1], paths[|paths| - 1];
      SplitLast(paths);
      DedupKeepsNames(files, base, init);
      MergedSnoc(files, base, init, path);
      var before := Merged(files, base, init).actions;
      if path in init {
        forall a | a in ContentOf(files, path).actions { MergedHasNames(files, base, init, path, a); }
        MergeKnownNames(before, ContentOf(files, path).actions);
      } else {
        MergedSnoc(files, base, Dedup(init), path);
        MergeSameNames(before, Merged(files, base, Dedup(init)).actions, ContentOf(files, path).actions);
      }
    }
  }

  // ----- The exact condition -----

  /** Every action and every stage has the same last definition in both lists of files. */
  ghost predicate SameDefinitions(main: Contents, a: seq<Contents>, b: seq<Contents>) {
    forall n :: SameAction(main, a, b, n) && SameStage(main, a, b, n)
  }

  predicate SameAction(main: Contents, a: seq<Contents>, b: seq<Contents>, n: string) {
    LastDefinition(main, a, n) == LastDefinition(main, b, n)
  }

  predicate SameStage(main: Contents, a: seq<Contents>, b: seq<Contents>, n: string) {
    LastStage(main, a, n) == LastStage(main, b, n)
  }

  function StageNamed(stages: Stages, n: string): Option<seq<Step>> {
    if n in stages then Some(stages[n]) else None
  }

  lemma StagesDecided(s: Stages, t: Stages)
    requires forall n :: StageNamed(s, n) == StageNamed(t, n)
    ensures s == t
  {
    assert forall n :: n in s <==> StageNamed(s, n).Some?;
    assert forall n :: n in t <==> StageNamed(t, n).Some?;
    assert s.Keys == t.Keys;
    forall n | n in s
      ensures s[n] == t[n]
    {
      assert StageNamed(s, n) == StageNamed(t, n);
    }
  }

  lemma SameStagesAt(main: Contents, a: seq<Contents>, b: seq<Contents>, n: string)
    ensures SameStage(main, a, b, n)
      <==> StageNamed(MergeAll(main, a).stages, n) == StageNamed(MergeAll(main, b).stages, n)
  {
    MergeAllLookup(main, a, n);
    MergeAllLookup(main, b, n);
  }

  lemma SameStages(main: Contents, a: seq<Contents>, b: seq<Contents>)
    ensures MergeAll(main, a).stages == MergeAll(main, b).stages <==> forall n :: SameStage(main, a, b, n)
  {
    hide SameStage, StageNamed;
    forall n { SameStagesAt(main, a, b, n); }
    if forall n :: SameStage(main, a, b, n) {
      StagesDecided(MergeAll(main, a).stages, MergeAll(main, b).stages);
    }
  }

  lemma SameActionsAt(main: Contents, a: seq<Contents>, b: seq<Contents>, n: string)
    ensures SameAction(main, a, b, n)
      <==> FirstNamed(MergeAll(main, a).actions, n) == FirstNamed(MergeAll(main, b).actions, n)
  {
    MergeAllLookup(main, a, n);
    MergeAllLookup(main, b, n);
  }

  lemma SameActions(main: Contents, a: seq<Contents>, b: seq<Contents>)
    requires ActionNames(MergeAll(main, a).actions) == ActionNames(MergeAll(main, b).actions)
    ensures MergeAll(main, a).actions == MergeAll(main, b).actions <==> forall n :: SameAction(main, a, b, n)
  {
    hide SameAction, FirstNamed;
    forall n { SameActionsAt(main, a, b, n); }
    if forall n :: SameAction(main, a, b, n) {
      MergeAllRepeats(main, a);
      MergeAllRepeats(main, b);
      NamesAndLookupsDecide(main.actions, MergeAll(main, a).actions, MergeAll(main, b).actions);
    }
  }

  lemma PatternWalks(files: Files, p: Pattern)
    requires WalkTargets(files, {}, TargetsOf(p)).Ok?
    ensures ResolvePattern(files, p).Ok? && TargetsOf(p) == AllTo(ResolvePattern(files, p).value)
  {
    match p
    case Exact(path) => WalkTakes(files, {}, TargetsOf(p), To(path));
    case Glob(dirExists, wellFormed, _) =>
      if !dirExists {
        WalkTakes(files, {}, TargetsOf(p), Broken(NoDirectory));
      } else if !wellFormed {
        WalkTakes(files, {}, TargetsOf(p), Broken(BadPattern));
      }
  }

  /** Patterns that the walk gets through can all be resolved. */
  lemma {:induction false} WalkedResolves(files: Files, patterns: seq<Pattern>)
    requires WalkTargets(files, {}, Expand(patterns)).Ok?
    ensures ResolveAll(files, patterns).Ok?
  {
    if patterns != [] {
      var init, p := patterns[..|patterns| - 1], patterns[|patterns| - 1];
      WalkConcat(files, {}, Expand(init), TargetsOf(p));
      WalkedResolves(files, init);
      PatternWalks(files, p);
    }
  }

  /** A listed file that the walk gets through can be loaded. */
  lemma WalkedLoads(files: Files, paths: seq<string>, path: string)
    requires WalkTargets(files, {}, AllTo(paths)).Ok? && path in paths
    ensures path in files && files[path].Parsed?
  {
    var i :| 0 <= i < |paths| && paths[i] == path;
    assert AllTo(paths)[i] == To(path);
    WalkTakes(files, {}, AllTo(paths), To(path));
  }

  /** Where the first loader succeeds, so does the second: it loads each listed file once, and nothing below. */
  lemma BothLoad(files: Files, main: Contents, patterns: seq<Pattern>, order: seq<string>)
    requires WalkTargets(files, {}, Expand(patterns)) == Ok(order)
    ensures ResolveAll(files, patterns).Ok?
    ensures Loaded(files, main, patterns) == Ok(Merged(files, main, order))
    ensures LoadResolved(files, main, patterns)
         == Ok(Merged(files, main, Dedup(ResolveAll(files, patterns).value)))
  {
    WalkedResolves(files, patterns);
    ResolvedTargets(files, patterns);
    var paths := ResolveAll(files, patterns).value;
    forall path | path in paths { WalkedLoads(files, paths, path); }
    LoadAllIs(files, Dedup(paths));
    MergeFirstOrOneByOne(main, ContentsOf(files, Dedup(paths)));
    if patterns == [] { MergedNone(files, main); }
  }

  lemma MergedNone(files: Files, main: Contents)
    ensures Merged(files, main, []) == main && Dedup([]) == []
  {
    assert ContentsOf(files, []) == [];
  }

  /** The files of both lists name the same actions in the same order, and give every name the same last definition. */
  ghost predicate Alike(files: Files, main: Contents, a: seq<string>, b: seq<string>) {
    && ActionNames(Merged(files, main, a).actions) == ActionNames(Merged(files, main, b).actions)
    && SameDefinitions(main, ContentsOf(files, a), ContentsOf(files, b))
  }

  /** Two lists of files make the same configuration exactly if they give the same names and the same definitions. */
  lemma MergedSameExactly(files: Files, main: Contents, a: seq<string>, b: seq<string>)
    ensures Merged(files, main, a) == Merged(files, main, b) <==> Alike(files, main, a, b)
  {
    hide MergeAll, SameAction, SameStage, ContentsOf;
    if ActionNames(Merged(files, main, a).actions) == ActionNames(Merged(files, main, b).actions) {
      SameActions(main, ContentsOf(files, a), ContentsOf(files, b));
      SameStages(main, ContentsOf(files, a), ContentsOf(files, b));
    }
  }

  /**
   Whenever the include walk succeeds, nested includes and repeats included, the two loaders agree if and only
   if the files of the walk and the listed files, each once, name the same actions in the same order, and no
   name has another last definition.
   */
  lemma LoadersAgreeExactly(files: Files, main: Contents, patterns: seq<Pattern>, order: seq<string>)
    requires WalkTargets(files, {}, Expand(patterns)) == Ok(order)
    ensures ResolveAll(files, patterns).Ok?
    ensures Loaded(files, main, patterns) == LoadResolved(files, main, patterns)
      <==> Alike(files, main, order, Dedup(ResolveAll(files, patterns).value))
  {
    hide Loaded, LoadResolved, Merged, Alike;
    BothLoad(files, main, patterns, order);
    MergedSameExactly(files, main, order, Dedup(ResolveAll(files, patterns).value));
  }

  /** On flat includes the names are always the same, so only the definitions matter. */
  lemma FlatLoadersAgreeExactly(files: Files, main: Contents, patterns: seq<Pattern>, paths: seq<string>)
    requires ResolveAll(files, patterns) == Ok(paths) && forall p | p in paths :: Flat(files, p)
    ensures Loaded(files, main, patterns) == LoadResolved(files, main, patterns)
      <==> SameDefinitions(main, ContentsOf(files, paths), ContentsOf(files, Dedup(paths)))
  {
    hide Loaded, LoadResolved, Merged, SameDefinitions;
    ResolvedTargets(files, patterns);
    FlatPathsWalk(files, paths);
    LoadersAgreeExactly(files, main, patterns, paths);
    DedupKeepsNames(files, main, paths);
  }

  // ----- When the walk fails -----

  lemma {:induction false} ResolveFailsAt(files: Files, patterns: seq<Pattern>) returns (p: Pattern)
    requires ResolveAll(files, patterns).Err?
    ensures p in patterns && ResolvePattern(files, p).Err?
  {
    var init := patterns[..|patterns| - 1];
    if ResolveAll(files, init).Err? {
      p := ResolveFailsAt(files, init);
    } else {
      p := patterns[|patterns| - 1];
    }
  }

  lemma {:induction false} ExpandHas(patterns: seq<Pattern>, p: Pattern, t: Target)
    requires p in patterns && t in TargetsOf(p)
    ensures t in Expand(patterns)
  {
    if p != patterns[|patterns| - 1] {
      SplitLast(patterns);
      ExpandHas(patterns[..|patterns| - 1], p, t);
    }
  }

  predicate Loadable(files: Files, path: string) {
    path in files && files[path].Parsed?
  }

  /** A problem of the main file's own list: a pattern without files, or a file that cannot be loaded. */
  predicate ListedProblem(files: Files, patterns: seq<Pattern>, t: Target) {
    t in Expand(patterns) && (t.To? ==> !Loadable(files, t.path))
  }

  lemma UnresolvedIsListed(files: Files, patterns: seq<Pattern>)
    requires ResolveAll(files, patterns).Err?
    ensures exists t :: ListedProblem(files, patterns, t)
  {
    var p := ResolveFailsAt(files, patterns);
    var t := TargetsOf(p)[0];
    ExpandHas(patterns, p, t);
    assert ListedProblem(files, patterns, t);
  }

  lemma InAllTo(paths: seq<string>, path: string)
    ensures To(path) in AllTo(paths) <==> path in paths
  {
    if path in paths {
      var i :| 0 <= i < |paths| && paths[i] == path;
      assert AllTo(paths)[i] == To(path);
    }
  }

  lemma UnloadedIsListed(files: Files, patterns: seq<Pattern>, paths: seq<string>)
    requires ResolveAll(files, patterns) == Ok(paths) && LoadAll(files, Dedup(paths)).Err?
    ensures exists t :: ListedProblem(files, patterns, t)
  {
    LoadAllIs(files, Dedup(paths));
    var path :| path in paths && !Loadable(files, path);
    ResolvedTargets(files, patterns);
    InAllTo(paths, path);
    assert ListedProblem(files, patterns, To(path));
  }

  lemma LoadableHasNoProblem(files: Files, patterns: seq<Pattern>, paths: seq<string>, t: Target)
    requires Expand(patterns) == AllTo(paths) && forall p | p in paths :: Loadable(files, p)
    ensures !ListedProblem(files, patterns, t)
  {
    if t.To? { InAllTo(paths, t.path); }
  }

  lemma ListedIsFatal(files: Files, main: Contents, patterns: seq<Pattern>, t: Target)
    requires ListedProblem(files, patterns, t)
    ensures LoadResolved(files, main, patterns).Err?
  {
    hide ListedProblem;
    if LoadResolved(files, main, patterns).Ok? {
      ResolvedTargetsOk(files, patterns);
      var paths := if patterns == [] then [] else ResolveAll(files, patterns).value;
      if patterns != [] { LoadAllIs(files, Dedup(paths)); }
      LoadableHasNoProblem(files, patterns, paths, t);
    }
  }

  lemma ResolvedTargetsOk(files: Files, patterns: seq<Pattern>)
    ensures patterns == [] ==> ResolveAll(files, patterns) == Ok([])
    ensures ResolveAll(files, patterns).Ok? ==> Expand(patterns) == AllTo(ResolveAll(files, patterns).value)
  {
    if ResolveAll(files, patterns).Ok? { ResolvedTargets(files, patterns); }
  }

  /**
   The second loader fails exactly on problems of the main file's own list. So where the walk fails, both fail
   if and only if there is one; on deeper problems, and on every circle, only the first one does.
   */
  lemma ResolvedFailsExactly(files: Files, main: Contents, patterns: seq<Pattern>)
    ensures LoadResolved(files, main, patterns).Err? <==> exists t :: ListedProblem(files, patterns, t)
    ensures LoadResolved(files, main, patterns).Err? ==> Loaded(files, main, patterns).Err?
  {
    hide ListedProblem;
    if LoadResolved(files, main, patterns).Err? {
      if ResolveAll(files, patterns).Err? {
        UnresolvedIsListed(files, patterns);
      } else {
        UnloadedIsListed(files, patterns, ResolveAll(files, patterns).value);
      }
      if Loaded(files, main, patterns).Ok? {
        BothLoad(files, main, patterns, WalkTargets(files, {}, Expand(patterns)).value);
      }
    }
    forall t | ListedProblem(files, patterns, t) { ListedIsFatal(files, main, patterns, t); }
  }

  /** Where both fail, they may blame different things: one takes the list in order, the other resolves it first. */
  lemma LoadersBlameDifferently(files: Files, main: Contents, p: string, q: string)
    requires p in files && files[p] == Unreadable && q !in files
    ensures Loaded(files, main, [Exact(p), Exact(q)]) == Err(ReadFailed(p))
    ensures LoadResolved(files, main, [Exact(p), Exact(q)]) == Err(Missing(q))
  {
    var patterns := [Exact(p), Exact(q)];
    assert patterns[..1] == [Exact(p)] && [Exact(p)][..0] == [];
    assert Expand([Exact(p)]) == [To(p)] && Expand(patterns) == [To(p)] + [To(q)];
    WalkOne(files, {}, To(p));
    WalkSnoc(files, {}, [To(p)], To(q));
    assert ResolveAll(files, [Exact(p)]) == Ok([] + [p]);
  }

  // ----- Where they differ -----

  /** A file that comes back after one with the same name: the last mention decides, or the first ones. */
  lemma LoadersDifferOnRepeats(files: Files, p: string, q: string, a: Action, b: Action)
    requires p != q && a != b && a.name == b.name && p in files && q in files
    requires files[p] == Parsed([], Contents([a], map[])) && files[q] == Parsed([], Contents([b], map[]))
    ensures Loaded(files, NOTHING, [Exact(p), Exact(q), Exact(p)]) == Ok(Contents([a], map[]))
    ensures LoadResolved(files, NOTHING, [Exact(p), Exact(q), Exact(p)]) == Ok(Contents([b], map[]))
  {
    hide Loaded, LoadResolved, Merged, Dedup, ResolveAll;
    ExactResolves(files, [p, q, p]);
    assert AllExact([p, q, p]) == [Exact(p), Exact(q), Exact(p)];
    FlatLoads(files, NOTHING, [Exact(p), Exact(q), Exact(p)], [p, q, p]);
    DedupReturning(p, q);
    MergedNothing(files);
    assert [p] + [q] == [p, q] && [p, q] + [p] == [p, q, p] && [] + [p] == [p];
    OnlyAction(files, [], p, a);
    OnlyAction(files, [p], q, b);
    OnlyAction(files, [p, q], p, a);
  }

  lemma DedupReturning(p: string, q: string)
    requires p != q
    ensures Dedup([p, q, p]) == [p, q]
  {
    hide Dedup;
    assert [p] + [q] == [p, q] && [p, q] + [p] == [p, q, p] && [] + [p] == [p];
    DedupEmpty();
    DedupSnoc([], p);
    DedupSnoc([p], q);
    DedupSnoc([p, q], p);
  }

  lemma DedupEmpty()
    ensures Dedup([]) == []
  {
  }

  lemma MergedNothing(files: Files)
    ensures Merged(files, NOTHING, []) == NOTHING
  {
    assert ContentsOf(files, []) == [];
  }

  function AllExact(paths: seq<string>): seq<Pattern> {
    seq(|paths|, i requires 0 <= i < |paths| => Exact(paths[i]))
  }

  lemma {:induction false} ExactResolves(files: Files, paths: seq<string>)
    requires forall p | p in paths :: p in files
    ensures ResolveAll(files, AllExact(paths)) == Ok(paths)
  {
    if paths != [] {
      var init, path := paths[..|paths| - 1], paths[|paths| - 1];
      SplitLast(paths);
      ExactResolves(files, init);
      assert AllExact(paths) == AllExact(init) + [Exact(path)];
      assert AllExact(paths)[..|paths| - 1] == AllExact(init);
    }
  }

  lemma OnlyAction(files: Files, before: seq<string>, path: string, a: Action)
    requires path in files && files[path].Parsed? && files[path].contents == Contents([a], map[])
    requires forall b | b in Merged(files, NOTHING, before).actions :: b.name == a.name
    requires |Merged(files, NOTHING, before).actions| <= 1 && Merged(files, NOTHING, before).stages == map[]
    ensures Merged(files, NOTHING, before + [path]) == Contents([a], map[])
  {
    MergedSnoc(files, NOTHING, before, path);
    MergeSnoc(Merged(files, NOTHING, before).actions, [], a);
    assert [] + [a] == [a];
  }

  /** The second loader does not follow includes of included files: what only they define is missing. */
  lemma LoadersDifferOnNesting(files: Files, p: string, q: string, a: Action)
    requires p != q && p in files && q in files
    requires files[p] == Parsed([Exact(q)], NOTHING) && files[q] == Parsed([], Contents([a], map[]))
    ensures Loaded(files, NOTHING, [Exact(p)]) == Ok(Contents([a], map[]))
    ensures LoadResolved(files, NOTHING, [Exact(p)]) == Ok(NOTHING)
  {
    hide WalkTargets, Merged, ResolveAll, Dedup, LoadAll, Merge;
    NestedWalk(files, p, q);
    MergedNothing(files);
    assert [] + [q] == [q] && [q] + [p] == [q, p];
    OnlyAction(files, [], q, a);
    MergedSnoc(files, NOTHING, [q], p);
    MergeNothing(Contents([a], map[]));
    assert AllExact([p]) == [Exact(p)];
    ExactResolves(files, [p]);
    LoadsOne(files, p);
    MergeNothing(NOTHING);
  }

  lemma MergeNothing(base: Contents)
    ensures Merge(base, NOTHING) == base
  {
    assert base.stages + NOTHING.stages == base.stages;
  }

  lemma LoadsOne(files: Files, p: string)
    requires p in files && files[p].Parsed? && files[p].contents == NOTHING
    ensures Dedup([p]) == [p] && LoadAll(files, [p]) == Ok(NOTHING)
  {
    hide Merge;
    assert [p][..0] == [];
    MergeNothing(NOTHING);
  }

  lemma NestedWalk(files: Files, p: string, q: string)
    requires p != q && p in files && q in files
    requires files[p].Parsed? && files[p].includes == [Exact(q)] && files[q].Parsed? && files[q].includes == []
    ensures WalkTargets(files, {}, Expand([Exact(p)])) == Ok([q, p])
  {
    assert [Exact(p)][..0] == [] && Expand([Exact(p)]) == [To(p)];
    assert [Exact(q)][..0] == [] && Expand([Exact(q)]) == [To(q)];
    LeafWalk(files, {} + {p}, q);
    ListWalk(files, {}, p, [q]);
    WalkOne(files, {}, To(p));
    assert [q] + [p] == [q, p];
  }

  // ----- Globs -----

  function Exacts(paths: seq<string>): (patterns: seq<Pattern>)
    ensures |patterns| == |paths| && forall i | 0 <= i < |paths| :: patterns[i] == Exact(paths[i])
  {
    seq(|paths|, i requires 0 <= i < |paths| => Exact(paths[i]))
  }

  lemma {:induction false} ExactsExpand(paths: seq<string>)
    ensures Expand(Exacts(paths)) == AllTo(paths)
  {
    if paths != [] {
      var init := paths[..|paths| - 1];
      ExactsExpand(init);
      assert Exacts(paths)[..|paths| - 1] == Exacts(init);
    }
  }

  lemma {:induction false} ExactsResolve(files: Files, paths: seq<string>)
    requires forall p | p in paths :: p in files
    ensures ResolveAll(files, Exacts(paths)) == Ok(paths)
  {
    if paths != [] {
      var init := paths[..|paths| - 1];
      SplitLast(paths);
      ExactsResolve(files, init);
      assert Exacts(paths)[..|paths| - 1] == Exacts(init);
    }
  }

  lemma {:induction false} ResolveConcat(files: Files, a: seq<Pattern>, b: seq<Pattern>)
    ensures ResolveAll(files, a + b) == Then(ResolveAll(files, a), ResolveAll(files, b))
  {
    hide ResolvePattern;
    if b == [] {
      assert a + b == a;
      ThenNothing(ResolveAll(files, a));
    } else {
      var init, last := b[..|b| - 1], b[|b| - 1];
      assert (a + b)[..|a + b| - 1] == a + init;
      ResolveConcat(files, a, init);
      ThenAssociates(ResolveAll(files, a), ResolveAll(files, init), ResolvePattern(files, last));
    }
  }

  lemma SingleExpands(p: Pattern)
    ensures Expand([p]) == TargetsOf(p)
  {
    assert [p][..0] == [] && Expand([]) + TargetsOf(p) == TargetsOf(p);
  }

  lemma SingleResolves(files: Files, p: Pattern)
    ensures ResolveAll(files, [p]) == ResolvePattern(files, p)
  {
    assert [p][..0] == [];
    ThenNothing(ResolvePattern(files, p));
  }

  /**
   In both loaders a good glob stands for the list of its matches with a YAML name, in their order; the second
   loader would also insist that they exist.
   */
  lemma GlobIsItsFiles(files: Files, main: Contents, before: seq<Pattern>, matches: seq<string>, after: seq<Pattern>)
    ensures Loaded(files, main, before + [Glob(true, true, matches)] + after)
         == Loaded(files, main, before + Exacts(YamlNamed(matches)) + after)
    ensures (forall p | p in matches :: p in files) ==>
      LoadResolved(files, main, before + [Glob(true, true, matches)] + after)
        == LoadResolved(files, main, before + Exacts(YamlNamed(matches)) + after)
  {
    hide TargetsOf, ResolvePattern, YamlNamed;
    var glob, named := Glob(true, true, matches), YamlNamed(matches);
    TargetsExactly(glob);
    SingleExpands(glob);
    ExactsExpand(named);
    assert Expand([glob]) == Expand(Exacts(named));
    SameExpansion(files, main, before, [glob], Exacts(named), after);
    if forall p | p in matches :: p in files {
      forall p { InYamlNamed(matches, p); }
      ResolvedExactly(files, glob);
      SingleResolves(files, glob);
      ExactsResolve(files, named);
      SameResolution(files, main, before, [glob], Exacts(named), after);
    }
  }

  lemma SameExpansion(files: Files, main: Contents, before: seq<Pattern>, a: seq<Pattern>, b: seq<Pattern>,
        after: seq<Pattern>)
    requires Expand(a) == Expand(b)
    ensures Loaded(files, main, before + a + after) == Loaded(files, main, before + b + after)
  {
    ExpandConcat(before + a, after);
    ExpandConcat(before, a);
    ExpandConcat(before + b, after);
    ExpandConcat(before, b);
  }

  lemma SameResolution(files: Files, main: Contents, before: seq<Pattern>, a: seq<Pattern>, b: seq<Pattern>,
        after: seq<Pattern>)
    requires ResolveAll(files, a) == ResolveAll(files, b)
    ensures LoadResolved(files, main, before + a + after) == LoadResolved(files, main, before + b + after)
  {
    hide Merge, ResolveAll, LoadAll;
    ResolveConcat(files, before + a, after);
    ResolveConcat(files, before, a);
    ResolveConcat(files, before + b, after);
    ResolveConcat(files, before, b);
    NothingResolved(files, main);
  }

  /** No file at all changes nothing, whether or not there was a pattern. */
  lemma NothingResolved(files: Files, main: Contents)
    ensures ResolveAll(files, []) == Ok([]) && LoadAll(files, Dedup([])) == Ok(NOTHING) && Merge(main, NOTHING) == main
  {
    assert main.stages + map[] == main.stages;
  }
}
