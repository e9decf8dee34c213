/** The second loader, which resolves all patterns first, and its agreement with the recursive one. */
module IncludeResolver {
  import opened StageTypes
  import opened ConfigMerge
  import opened Includes

  // ----- Resolving patterns -----

  function ResolvePattern(files: Files, p: Pattern): Outcome<seq<string>> {
    match p
    case Exact(path) => if path in files then Ok([path]) else Err(Missing(path))
    case Glob(dirExists, wellFormed, matches) =>
      if !dirExists then Err(NoDirectory)
      else if !wellFormed then Err(BadPattern)
      else Ok(YamlFiles(matches))
  }

  /** Every pattern's files, in order, repeats included; the first error otherwise. */
  function ResolveAll(files: Files, patterns: seq<Pattern>): Outcome<seq<string>> {
    if patterns == [] then Ok([])
    else Then(ResolveAll(files, patterns[..|patterns| - 1]), ResolvePattern(files, patterns[|patterns| - 1]))
  }

  /** A pattern stands for its own path, or for the matches of its glob that have a YAML name. */
  predicate StandsFor(p: Pattern, path: string) {
    match p
    case Exact(own) => path == own
    case Glob(_, _, matches) => path in matches && YamlName(path)
  }

  lemma {:induction false} InYamlNamed(matches: seq<string>, path: string)
    ensures path in YamlNamed(matches) <==> path in matches && YamlName(path)
  {
    hide YamlName;
    if matches != [] { InYamlNamed(matches[1..], path); }
  }

  /** What the second loader resolves a pattern to. */
  lemma ResolvedExactly(files: Files, p: Pattern)
    ensures match p
      case Exact(path) => ResolvePattern(files, p) == if path in files then Ok([path]) else Err(Missing(path))
      case Glob(false, _, _) => ResolvePattern(files, p) == Err(NoDirectory)
      case Glob(true, false, _) => ResolvePattern(files, p) == Err(BadPattern)
      case Glob(true, true, matches) => ResolvePattern(files, p) == Ok(YamlNamed(matches))
  {
    if p.Glob? { YamlFilesAre(p.matches); }
  }

  lemma ResolvedStands(files: Files, p: Pattern, path: string)
    requires ResolvePattern(files, p).Ok?
    ensures path in ResolvePattern(files, p).value <==> StandsFor(p, path)
  {
    hide YamlName;
    ResolvedExactly(files, p);
    if p.Glob? { InYamlNamed(p.matches, path); }
  }

  /** All resolved files, and only those, are what some pattern stands for. */
  lemma {:induction false} ResolvedAreListed(files: Files, patterns: seq<Pattern>, path: string)
    requires ResolveAll(files, patterns).Ok?
    ensures path in ResolveAll(files, patterns).value <==> exists p | p in patterns :: StandsFor(p, path)
  {
    hide StandsFor, ResolvePattern;
    if patterns != [] {
      var init, p := patterns[..|patterns| - 1], patterns[|patterns| - 1];
      SplitLast(patterns);
      ResolvedAreListed(files, init, path);
      ResolvedStands(files, p, path);
      assert forall q :: q in patterns <==> q in init || q == p;
    }
  }

  /** Each element where it occurs first. */
  function Dedup(paths: seq<string>): (unique: seq<string>)
    ensures Distinct(unique)
    ensures forall p :: p in unique <==> p in paths
  {
    if paths == [] then []
    else
      var before, last := Dedup(paths[..|paths| - 1]), paths[|paths| - 1];
      if last in before then before else before + [last]
  }

  function Unique(paths: Outcome<seq<string>>): Outcome<seq<string>> {
    if paths.Ok? then Ok(Dedup(paths.value)) else paths
  }

  /** What loading the files one after another yields; a file may not come twice. */
  function LoadAll(files: Files, paths: seq<string>): Outcome<Contents> {
    if paths == [] then Ok(NOTHING)
    else
      var init, path := paths[..|paths| - 1], paths[|paths| - 1];
      match LoadAll(files, init)
      case Err(e) => Err(e)
      case Ok(merged) =>
        if path in init then Err(Circular(path))
        else if path !in files || files[path].Unreadable? then Err(ReadFailed(path))
        else if files[path].Unparsable? then Err(ParseFailed(path))
        else Ok(Merge(merged, files[path].contents))
  }

  class Resolver {
    const files: Files
    var visited: set<string>

    constructor (files: Files)
      ensures this.files == files && visited == {}
    {
      this.files, visited := files, {};
    }

    method ResolveIncludes(patterns: seq<Pattern>) returns (resolved: Outcome<seq<string>>)
      ensures resolved == Unique(ResolveAll(files, patterns))
      ensures resolved.Ok? ==> Distinct(resolved.value)
      ensures resolved.Ok? ==> forall path ::
        path in resolved.value <==> exists p | p in patterns :: StandsFor(p, path)
    {
      var resolvedFiles: seq<string>, seen: set<string> := [], {};
      ghost var all: seq<string> := [];
      var i := 0;
      while i < |patterns|
        invariant 0 <= i <= |patterns| && ResolveAll(files, patterns[..i]) == Ok(all)
        invariant resolvedFiles == Dedup(all) && forall p :: p in seen <==> p in all
      {
        ResolveNext(files, patterns, i);
        var found := ResolvePattern(files, patterns[i]);
        if found.Err? {
          return found;
        }
        resolvedFiles, seen := AddUnseen(found.value, resolvedFiles, seen, all);
        all := all + found.value;
        i := i + 1;
      }
      assert patterns[..i] == patterns;
      forall path { ResolvedAreListed(files, patterns, path); }
      resolved := Ok(resolvedFiles);
    }

    /** Adds the files that were not seen before. */
    static method AddUnseen(found: seq<string>, resolvedFiles: seq<string>, seen: set<string>, ghost all: seq<string>)
      returns (more: seq<string>, nowSeen: set<string>)
      requires resolvedFiles == Dedup(all) && forall p :: p in seen <==> p in all
      ensures more == Dedup(all + found) && forall p :: p in nowSeen <==> p in all + found
    {
      more, nowSeen := resolvedFiles, seen;
      var k := 0;
      assert all + found[..0] == all;
      while k < |found|
        invariant 0 <= k <= |found|
        invariant more == Dedup(all + found[..k])
        invariant forall p :: p in nowSeen <==> p in more
      {
        DedupNext(all, found, k);
        if found[k] !in nowSeen {
          more := more + [found[k]];
          nowSeen := nowSeen + {found[k]};
        }
        k := k + 1;
      }
      assert found[..k] == found;
    }

    method LoadIncludedConfigs(filePaths: seq<string>) returns (loaded: Outcome<Contents>)
      requires visited == {}
      modifies this
      ensures loaded == LoadAll(files, filePaths)
    {
      var merged := new Config(NOTHING);
      var i := 0;
      while i < |filePaths|
        invariant 0 <= i <= |filePaths| && fresh(merged) && forall p :: p in visited <==> p in filePaths[..i]
        invariant LoadAll(files, filePaths[..i]) == Ok(merged.View())
      {
        var path := filePaths[i];
        LoadNext(files, filePaths, i);
        if path in visited {
          return Err(Circular(path));
        }
        visited := visited + {path};
        if path !in files || files[path].Unreadable? {
          return Err(ReadFailed(path));
        }
        if files[path].Unparsable? {
          return Err(ParseFailed(path));
        }
        merged.MergeConfig(files[path].contents);
        assert filePaths[..i + 1] == filePaths[..i] + [path];
        i := i + 1;
      }
      assert filePaths[..i] == filePaths;
      loaded := Ok(Contents(merged.actions, merged.stages));
    }
  }

  /** The second loader's result for a main file and its include list. */
  function LoadResolved(files: Files, main: Contents, includes: seq<Pattern>): Outcome<Contents> {
    if includes == [] then Ok(main)
    else
      match ResolveAll(files, includes)
      case Err(e) => Err(e)
      case Ok(paths) =>
        match LoadAll(files, Dedup(paths))
        case Err(e) => Err(e)
        case Ok(included) => Ok(Merge(main, included))
  }

  /** Loader.Load, from the parsed main file up to its validation. */
  method Load(files: Files, main: Contents, includes: seq<Pattern>) returns (loaded: Outcome<Contents>)
    ensures loaded == LoadResolved(files, main, includes)
  {
    var config := new Config(main);
    if includes != [] {
      var resolver := new Resolver(files);
      var resolved := resolver.ResolveIncludes(includes);
      if resolved.Err? {
        return Err(resolved.error);
      }
      var included := resolver.LoadIncludedConfigs(resolved.value);
      if included.Err? {
        return Err(included.error);
      }
      config.MergeConfig(included.value);
    }
    loaded := Ok(Contents(config.actions, config.stages));
  }

  /** First occurrences stay in order. */
  lemma {:induction false} DedupKeepsOrder(paths: seq<string>, i: nat, j: nat)
    requires i < j < |Dedup(paths)|
    ensures exists k, m | 0 <= k < m < |paths| ::
      paths[k] == Dedup(paths)[i] && paths[m] == Dedup(paths)[j] && Dedup(paths)[j] !in paths[..m]
  {
    var init, last := paths[..|paths| - 1], paths[|paths| - 1];
    SplitLast(paths);
    if j < |Dedup(init)| {
      DedupKeepsOrder(init, i, j);
      var k, m :| 0 <= k < m < |init| && init[k] == Dedup(init)[i] && init[m] == Dedup(init)[j]
        && Dedup(init)[j] !in init[..m];
      assert paths[..m] == init[..m] && paths[k] == init[k] && paths[m] == init[m];
    } else {
      assert Dedup(init)[i] in init;
      var k :| 0 <= k < |init| && init[k] == Dedup(init)[i];
      assert paths[k] == Dedup(paths)[i] && paths[|init|] == Dedup(paths)[j] && paths[..|init|] == init;
    }
  }

  lemma DedupSnoc(paths: seq<string>, p: string)
    ensures Dedup(paths + [p]) == if p in paths then Dedup(paths) else Dedup(paths) + [p]
  {
    assert (paths + [p])[..|paths + [p]| - 1] == paths;
  }

  lemma DedupNext(all: seq<string>, found: seq<string>, k: nat)
    requires k < |found|
    ensures Dedup(all + found[..k + 1])
         == if found[k] in Dedup(all + found[..k])
           then Dedup(all + found[..k]) else Dedup(all + found[..k]) + [found[k]]
  {
    DedupSnoc(all + found[..k], found[k]);
    assert all + found[..k + 1] == (all + found[..k]) + [found[k]];
  }

  lemma {:induction false} ResolveFail(files: Files, patterns: seq<Pattern>, k: nat)
    requires k <= |patterns| && ResolveAll(files, patterns[..k]).Err?
    ensures ResolveAll(files, patterns) == ResolveAll(files, patterns[..k])
  {
    if k == |patterns| {
      assert patterns[..k] == patterns;
    } else {
      assert patterns[..|patterns| - 1][..k] == patterns[..k];
      ResolveFail(files, patterns[..|patterns| - 1], k);
    }
  }

  lemma ResolveNext(files: Files, patterns: seq<Pattern>, i: nat)
    requires i < |patterns|
    ensures ResolveAll(files, patterns[..i + 1])
      == Then(ResolveAll(files, patterns[..i]), ResolvePattern(files, patterns[i]))
    ensures ResolveAll(files, patterns[..i + 1]).Err?
      ==> ResolveAll(files, patterns) == ResolveAll(files, patterns[..i + 1])
  {
    assert patterns[..i + 1][..i] == patterns[..i];
    if ResolveAll(files, patterns[..i + 1]).Err? { ResolveFail(files, patterns, i + 1); }
  }

  lemma {:induction false} LoadFail(files: Files, paths: seq<string>, k: nat)
    requires k <= |paths| && LoadAll(files, paths[..k]).Err?
    ensures LoadAll(files, paths) == LoadAll(files, paths[..k])
  {
    if k == |paths| {
      assert paths[..k] == paths;
    } else {
      assert paths[..|paths| - 1][..k] == paths[..k];
      LoadFail(files, paths[..|paths| - 1], k);
    }
  }

  lemma LoadNext(files: Files, paths: seq<string>, i: nat)
    requires i < |paths|
    ensures paths[..i + 1][..i] == paths[..i] && paths[..i + 1][i] == paths[i]
    ensures LoadAll(files, paths[..i + 1]).Err? ==> LoadAll(files, paths) == LoadAll(files, paths[..i + 1])
  {
    assert paths[..i + 1][..i] == paths[..i];
    if LoadAll(files, paths[..i + 1]).Err? { LoadFail(files, paths, i + 1); }
  }

  // ----- The two loaders -----

  /** Loading succeeds exactly on distinct files that can all be read and parsed, and merges them in order. */
  lemma {:induction false} LoadAllIs(files: Files, paths: seq<string>)
    ensures LoadAll(files, paths).Ok? <==> Distinct(paths) && forall p | p in paths :: p in files && files[p].Parsed?
    ensures LoadAll(files, paths).Ok? ==> LoadAll(files, paths).value == Merged(files, NOTHING, paths)
  {
    if paths != [] {
      var init, path := paths[..|paths| - 1], paths[|paths| - 1];
      SplitLast(paths);
      LoadAllIs(files, init);
      MergedSnoc(files, NOTHING, init, path);
      DistinctSnoc(init, path);
    }
  }

  /** The reason why a file cannot be loaded behind those in `before`. */
  predicate Unloadable(files: Files, before: seq<string>, path: string, e: IncludeError) {
    if path in before then e == Circular(path)
    else if path !in files || files[path].Unreadable? then e == ReadFailed(path)
    else files[path].Unparsable? && e == ParseFailed(path)
  }

  predicate LoadStopsAt(files: Files, paths: seq<string>, i: nat, e: IncludeError)
    requires i < |paths|
  {
    LoadAll(files, paths[..i]).Ok? && Unloadable(files, paths[..i], paths[i], e)
  }

  /** The first file that cannot be loaded is the one that is blamed. */
  lemma {:induction false} LoadBlamesFirst(files: Files, paths: seq<string>)
    requires LoadAll(files, paths).Err?
    ensures exists i | 0 <= i < |paths| :: LoadStopsAt(files, paths, i, LoadAll(files, paths).error)
  {
    var init := paths[..|paths| - 1];
    var e := LoadAll(files, paths).error;
    if LoadAll(files, init).Err? {
      LoadBlamesFirst(files, init);
      var i :| 0 <= i < |init| && LoadStopsAt(files, init, i, e);
      assert paths[..i] == init[..i] && paths[i] == init[i];
      assert LoadStopsAt(files, paths, i, e);
    } else {
      assert LoadStopsAt(files, paths, |init|, e);
    }
  }

  predicate ResolvingStopsAt(files: Files, patterns: seq<Pattern>, i: nat, e: IncludeError)
    requires i < |patterns|
  {
    ResolveAll(files, patterns[..i]).Ok? && ResolvePattern(files, patterns[i]) == Err(e)
  }

  /** The first pattern that stands for nothing is the one that is blamed. */
  lemma {:induction false} ResolvingBlamesFirst(files: Files, patterns: seq<Pattern>)
    requires ResolveAll(files, patterns).Err?
    ensures exists i | 0 <= i < |patterns| ::
      ResolvingStopsAt(files, patterns, i, ResolveAll(files, patterns).error)
  {
    var init := patterns[..|patterns| - 1];
    var e := ResolveAll(files, patterns).error;
    if ResolveAll(files, init).Err? {
      ResolvingBlamesFirst(files, init);
      var i :| 0 <= i < |init| && ResolvingStopsAt(files, init, i, e);
      assert patterns[..i] == init[..i] && patterns[i] == init[i];
      assert ResolvingStopsAt(files, patterns, i, e);
    } else {
      assert ResolvingStopsAt(files, patterns, |init|, e);
    }
  }

  /** The list that resolving returns never makes the loader report a circular include. */
  lemma {:induction false} ResolvedIsNeverCircular(files: Files, paths: seq<string>, k: nat)
    requires k <= |Dedup(paths)|
    ensures LoadAll(files, Dedup(paths)[..k]).Err? ==> !LoadAll(files, Dedup(paths)[..k]).error.Circular?
  {
    if k > 0 {
      ResolvedIsNeverCircular(files, paths, k - 1);
      assert Dedup(paths)[..k][..k - 1] == Dedup(paths)[..k - 1];
    }
  }
}
