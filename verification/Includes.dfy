/** Following the includes of a configuration file, and merging what they contribute. */
module Includes {
  import opened StageTypes
  import opened ConfigMerge

  /** An include pattern with what the file system answers for it: a path, or the matches of a glob. */
  datatype Pattern = Exact(path: string) | Glob(dirExists: bool, wellFormed: bool, matches: seq<string>)

  datatype File = Unreadable | Unparsable | Parsed(includes: seq<Pattern>, contents: Contents)

  /** The files that exist, by cleaned absolute path. */
  type Files = map<string, File>

  datatype IncludeError =
    | Circular(path: string)
    | Missing(path: string)
    | NoDirectory
    | BadPattern
    | ReadFailed(path: string)
    | ParseFailed(path: string)

  datatype Outcome<+T> = Ok(value: T) | Err(error: IncludeError)

  // ----- What an include list stands for -----

  /** A file to include, or the reason why a pattern stands for none. */
  datatype Target = To(path: string) | Broken(error: IncludeError)

  function Lower(s: string): string {
    seq(|s|, i requires 0 <= i < |s| => if 'A' <= s[i] <= 'Z' then s[i] - 'A' + 'a' else s[i])
  }

  predicate EndsWith(s: string, suffix: string) {
    |suffix| <= |s| && s[|s| - |suffix|..] == suffix
  }

  predicate IsYaml(path: string) {
    EndsWith(Lower(path), ".yml") || EndsWith(Lower(path), ".yaml")
  }

  function YamlFiles(matches: seq<string>): seq<string> {
    if matches == [] then []
    else
      var last := matches[|matches| - 1];
      YamlFiles(matches[..|matches| - 1]) + if IsYaml(last) then [last] else []
  }

  function AllTo(paths: seq<string>): (targets: seq<Target>)
    ensures |targets| == |paths| && forall i | 0 <= i < |paths| :: targets[i] == To(paths[i])
  {
    seq(|paths|, i requires 0 <= i < |paths| => To(paths[i]))
  }

  /** The file name ends in `.yml` or `.yaml`, in whatever case. */
  predicate YamlName(path: string) {
    var n := |path|;
    || (n >= 4 && path[n - 4] == '.' && path[n - 3] in "yY" && path[n - 2] in "mM" && path[n - 1] in "lL")
    || (n >= 5 && path[n - 5] == '.' && path[n - 4] in "yY" && path[n - 3] in "aA" && path[n - 2] in "mM"
        && path[n - 1] in "lL")
  }

  /** The matches with such a name, in order. */
  function YamlNamed(matches: seq<string>): seq<string> {
    if matches == [] then []
    else if YamlName(matches[0]) then [matches[0]] + YamlNamed(matches[1..])
    else YamlNamed(matches[1..])
  }

  lemma EndsInFour(s: string, suffix: string)
    requires |suffix| == 4
    ensures var n := |s|;
      EndsWith(s, suffix) <==> n >= 4 && [s[n - 4], s[n - 3], s[n - 2], s[n - 1]] == suffix
  {
    var n := |s|;
    if n >= 4 { assert s[n - 4..] == [s[n - 4], s[n - 3], s[n - 2], s[n - 1]]; }
  }

  lemma EndsInFive(s: string, suffix: string)
    requires |suffix| == 5
    ensures var n := |s|;
      EndsWith(s, suffix) <==> n >= 5 && [s[n - 5], s[n - 4], s[n - 3], s[n - 2], s[n - 1]] == suffix
  {
    var n := |s|;
    if n >= 5 { assert s[n - 5..] == [s[n - 5], s[n - 4], s[n - 3], s[n - 2], s[n - 1]]; }
  }

  lemma LowerIs(s: string, i: nat)
    requires i < |s|
    ensures |Lower(s)| == |s|
    ensures Lower(s)[i] == 'y' <==> s[i] in "yY"
    ensures Lower(s)[i] == 'm' <==> s[i] in "mM"
    ensures Lower(s)[i] == 'l' <==> s[i] in "lL"
    ensures Lower(s)[i] == 'a' <==> s[i] in "aA"
    ensures Lower(s)[i] == '.' <==> s[i] == '.'
  {
  }

  lemma IsYamlExactly(path: string)
    ensures IsYaml(path) <==> YamlName(path)
  {
    hide EndsWith;
    EndsInFour(Lower(path), ".yml");
    EndsInFive(Lower(path), ".yaml");
    forall i: nat | i < |path| { LowerIs(path, i); }
    hide Lower;
  }

  lemma {:induction false} YamlFilesAre(matches: seq<string>)
    ensures YamlFiles(matches) == YamlNamed(matches)
  {
    hide IsYaml, YamlName;
    if matches != [] {
      YamlFilesAre(matches[1..]);
      assert matches == [matches[0]] + matches[1..];
      YamlFilesConcat([matches[0]], matches[1..]);
      IsYamlExactly(matches[0]);
      assert YamlFiles([matches[0]]) == if IsYaml(matches[0]) then [matches[0]] else [];
    }
  }

  /** What a pattern stands for: a path for itself, a glob for its matches with a YAML name or for an error. */
  lemma TargetsExactly(p: Pattern)
    ensures match p
      case Exact(path) => TargetsOf(p) == [To(path)]
      case Glob(false, _, _) => TargetsOf(p) == [Broken(NoDirectory)]
      case Glob(true, false, _) => TargetsOf(p) == [Broken(BadPattern)]
      case Glob(true, true, matches) => TargetsOf(p) == AllTo(YamlNamed(matches))
  {
    if p.Glob? { YamlFilesAre(p.matches); }
  }

  function TargetsOf(p: Pattern): seq<Target> {
    match p
    case Exact(path) => [To(path)]
    case Glob(dirExists, wellFormed, matches) =>
      if !dirExists then [Broken(NoDirectory)]
      else if !wellFormed then [Broken(BadPattern)]
      else AllTo(YamlFiles(matches))
  }

  function Expand(patterns: seq<Pattern>): seq<Target> {
    if patterns == [] then [] else Expand(patterns[..|patterns| - 1]) + TargetsOf(patterns[|patterns| - 1])
  }

  // ----- The walk -----

  /** The files below one file in the order in which they are merged, the file itself last. */
  function WalkFile(files: Files, stack: set<string>, path: string): Outcome<seq<string>>
    decreases files.Keys - stack, 0
  {
    if path in stack then Err(Circular(path))
    else if path !in files then Err(Missing(path))
    else
      match files[path]
      case Unreadable => Err(ReadFailed(path))
      case Unparsable => Err(ParseFailed(path))
      case Parsed(includes, _) =>
        match WalkTargets(files, stack + {path}, Expand(includes))
        case Err(e) => Err(e)
        case Ok(below) => Ok(below + [path])
  }

  function WalkTarget(files: Files, stack: set<string>, t: Target): Outcome<seq<string>>
    decreases files.Keys - stack, 1
  {
    match t
    case To(path) => WalkFile(files, stack, path)
    case Broken(e) => Err(e)
  }

  function WalkTargets(files: Files, stack: set<string>, ts: seq<Target>): Outcome<seq<string>>
    decreases files.Keys - stack, |ts| + 2
  {
    if ts == [] then Ok([])
    else
      match WalkTargets(files, stack, ts[..|ts| - 1])
      case Err(e) => Err(e)
      case Ok(before) =>
        match WalkTarget(files, stack, ts[|ts| - 1])
        case Err(e) => Err(e)
        case Ok(more) => Ok(before + more)
  }

  function Then(a: Outcome<seq<string>>, b: Outcome<seq<string>>): Outcome<seq<string>> {
    if a.Err? then a else if b.Err? then b else Ok(a.value + b.value)
  }

  lemma ThenNothing(a: Outcome<seq<string>>)
    ensures Then(a, Ok([])) == a && Then(Ok([]), a) == a
  {
    if a.Ok? { assert a.value + [] == a.value && [] + a.value == a.value; }
  }

  lemma ThenAssociates(a: Outcome<seq<string>>, b: Outcome<seq<string>>, c: Outcome<seq<string>>)
    ensures Then(Then(a, b), c) == Then(a, Then(b, c))
  {
    if a.Ok? && b.Ok? && c.Ok? { assert (a.value + b.value) + c.value == a.value + (b.value + c.value); }
  }

  lemma WalkOne(files: Files, stack: set<string>, t: Target)
    ensures WalkTargets(files, stack, [t]) == WalkTarget(files, stack, t)
  {
    assert [] + [t] == [t];
    WalkSnoc(files, stack, [], t);
    ThenNothing(WalkTarget(files, stack, t));
  }

  lemma WalkSnoc(files: Files, stack: set<string>, ts: seq<Target>, t: Target)
    ensures WalkTargets(files, stack, ts + [t]) == Then(WalkTargets(files, stack, ts), WalkTarget(files, stack, t))
  {
    assert (ts + [t])[..|ts + [t]| - 1] == ts;
  }

  lemma {:induction false} WalkConcat(files: Files, stack: set<string>, a: seq<Target>, b: seq<Target>)
    ensures WalkTargets(files, stack, a + b) == Then(WalkTargets(files, stack, a), WalkTargets(files, stack, b))
  {
    if b == [] {
      assert a + b == a;
      ThenNothing(WalkTargets(files, stack, a));
    } else {
      var init, t := b[..|b| - 1], b[|b| - 1];
      SplitLast(b);
      assert a + b == (a + init) + [t];
      WalkConcat(files, stack, a, init);
      WalkSnoc(files, stack, a + init, t);
      WalkSnoc(files, stack, init, t);
      ThenAssociates(WalkTargets(files, stack, a), WalkTargets(files, stack, init), WalkTarget(files, stack, t));
    }
  }

  function ContentOf(files: Files, path: string): Contents {
    if path in files && files[path].Parsed? then files[path].contents else NOTHING
  }

  function ContentsOf(files: Files, paths: seq<string>): (all: seq<Contents>)
    ensures |all| == |paths|
  {
    seq(|paths|, i requires 0 <= i < |paths| => ContentOf(files, paths[i]))
  }

  /** The configuration with the given files merged into it. */
  function Merged(files: Files, base: Contents, order: seq<string>): Contents {
    MergeAll(base, ContentsOf(files, order))
  }

  lemma MergedSnoc(files: Files, base: Contents, order: seq<string>, path: string)
    ensures Merged(files, base, order + [path]) == Merge(Merged(files, base, order), ContentOf(files, path))
  {
    var all := ContentsOf(files, order + [path]);
    assert all[..|all| - 1] == ContentsOf(files, order);
  }

  lemma {:induction false} MergedConcat(files: Files, base: Contents, a: seq<string>, b: seq<string>)
    ensures Merged(files, base, a + b) == Merged(files, Merged(files, base, a), b)
  {
    if b == [] {
      assert a + b == a;
    } else {
      var init, path := b[..|b| - 1], b[|b| - 1];
      SplitLast(b);
      assert a + b == (a + init) + [path];
      MergedConcat(files, base, a, init);
      MergedSnoc(files, base, a + init, path);
      MergedSnoc(files, Merged(files, base, a), init, path);
    }
  }

  // ----- The recursive walk in place -----

  /**
   From `stack` and `base` the walk was done: its files are merged and the stack is as before, or its error is
   returned.
   */
  ghost predicate Does(files: Files, walk: Outcome<seq<string>>, stack: set<string>, base: Contents,
                       err: Option<IncludeError>, now: set<string>, result: Contents) {
    match walk
    case Err(e) => err == Some(e)
    case Ok(order) => err.None? && now == stack && result == Merged(files, base, order)
  }

  /** The recursion over a shared configuration and the set of files that are being processed. */
  class IncludeProcessor {
    const files: Files
    const config: Config
    var visited: set<string>

    constructor (files: Files, config: Config)
      ensures this.files == files && this.config == config && visited == {}
    {
      this.files, this.config, visited := files, config, {};
    }

    method ProcessIncludes(patterns: seq<Pattern>) returns (err: Option<IncludeError>)
      modifies this, config
      ensures Does(files, WalkTargets(files, old(visited), Expand(patterns)), old(visited), old(config.View()), err,
        visited, config.View())
      decreases files.Keys - visited, 5
    {
      var i := 0;
      err := None;
      while i < |patterns|
        invariant 0 <= i <= |patterns| && err.None?
        invariant Does(files, WalkTargets(files, old(visited), Expand(patterns[..i])), old(visited),
          old(config.View()), err, visited, config.View())
        invariant WalkTargets(files, old(visited), Expand(patterns[..i])).Ok?
      {
        err := ProcessIncludePattern(patterns[i]);
        ExpandNext(files, old(visited), patterns, i);
        if err.Some? {
          return;
        }
        MergedConcat(files, old(config.View()), WalkTargets(files, visited, Expand(patterns[..i])).value,
                     WalkTargets(files, visited, TargetsOf(patterns[i])).value);
        i := i + 1;
      }
      assert patterns[..i] == patterns;
    }

    method ProcessIncludePattern(pattern: Pattern) returns (err: Option<IncludeError>)
      modifies this, config
      ensures Does(files, WalkTargets(files, old(visited), TargetsOf(pattern)), old(visited), old(config.View()), err,
        visited, config.View())
      decreases files.Keys - visited, 4
    {
      match pattern
      case Glob(_, _, _) => err := ProcessGlobPattern(pattern);
      case Exact(path) =>
        err := ProcessExactFile(path);
        WalkOne(files, old(visited), To(path));
    }

    method ProcessGlobPattern(pattern: Pattern) returns (err: Option<IncludeError>)
      requires pattern.Glob?
      modifies this, config
      ensures !pattern.dirExists ==> err == Some(NoDirectory)
      ensures pattern.dirExists && !pattern.wellFormed ==> err == Some(BadPattern)
      ensures pattern.dirExists && pattern.wellFormed ==>
        Does(files, WalkTargets(files, old(visited), AllTo(YamlNamed(pattern.matches))), old(visited),
          old(config.View()), err, visited, config.View())
      ensures Does(files, WalkTargets(files, old(visited), TargetsOf(pattern)), old(visited), old(config.View()), err,
        visited, config.View())
      decreases files.Keys - visited, 3
    {
      if !pattern.dirExists {
        WalkOne(files, visited, Broken(NoDirectory));
        return Some(NoDirectory);
      }
      if !pattern.wellFormed {
        WalkOne(files, visited, Broken(BadPattern));
        return Some(BadPattern);
      }
      err := ProcessMatches(pattern.matches);
      YamlFilesAre(pattern.matches);
    }

    /** The loop over the matches of a glob. */
    method ProcessMatches(matches: seq<string>) returns (err: Option<IncludeError>)
      modifies this, config
      ensures Does(files, WalkMatches(files, old(visited), matches), old(visited), old(config.View()), err, visited,
        config.View())
      decreases files.Keys - visited, 2
    {
      hide WalkMatches, WalkFile, IsYaml, Merged;
      ghost var stack, base := visited, config.View();
      var i := 0;
      err := None;
      WalkNoMatch(files, stack, base);
      while i < |matches|
        invariant 0 <= i <= |matches| && err.None? && visited == stack
        invariant WalkMatches(files, stack, matches[..i]).Ok?
        invariant config.View() == Merged(files, base, WalkMatches(files, stack, matches[..i]).value)
      {
        MatchesNext(files, stack, matches, i);
        if IsYaml(matches[i]) {
          err := ProcessExactFile(matches[i]);
          if err.Some? {
            return;
          }
          MergedConcat(files, base, WalkMatches(files, stack, matches[..i]).value,
                       WalkFile(files, stack, matches[i]).value);
        } else {
          ThenNothing(WalkMatches(files, stack, matches[..i]));
        }
        i := i + 1;
      }
      assert matches[..i] == matches;
    }

    method ProcessExactFile(path: string) returns (err: Option<IncludeError>)
      modifies this, config
      ensures Does(files, WalkFile(files, old(visited), path), old(visited), old(config.View()), err, visited,
        config.View())
      decreases files.Keys - visited, 1
    {
      if path in visited {
        return Some(Circular(path));
      }
      visited := visited + {path};
      if path !in files {
        return Some(Missing(path));
      }
      err := LoadAndMergeFile(path);
      visited := visited - {path};
    }

    /** What the file includes is merged first, so its own definitions win. */
    method LoadAndMergeFile(path: string) returns (err: Option<IncludeError>)
      requires path in files && path in visited
      modifies this, config
      ensures Does(files, WalkLoaded(files, old(visited), path), old(visited), old(config.View()), err, visited,
        config.View())
      decreases files.Keys - visited, 6
    {
      match files[path]
      case Unreadable => return Some(ReadFailed(path));
      case Unparsable => return Some(ParseFailed(path));
      case Parsed(includes, contents) =>
        err := ProcessIncludes(includes);
        if err.Some? {
          return;
        }
        config.MergeConfig(contents);
        MergedSnoc(files, old(config.View()), WalkTargets(files, old(visited), Expand(includes)).value, path);
    }
  }

  /** The main file with the files of the walk merged into it. */
  function Loaded(files: Files, main: Contents, includes: seq<Pattern>): Outcome<Contents> {
    match WalkTargets(files, {}, Expand(includes))
    case Err(e) => Err(e)
    case Ok(order) => Ok(Merged(files, main, order))
  }

  /** LoadConfig, from the parsed main file up to its validation. */
  method LoadConfig(files: Files, main: Contents, includes: seq<Pattern>) returns (loaded: Outcome<Contents>)
    ensures loaded == Loaded(files, main, includes)
  {
    var config := new Config(main);
    if includes != [] {
      var processor := new IncludeProcessor(files, config);
      var err := processor.ProcessIncludes(includes);
      if err.Some? {
        return Err(err.value);
      }
    }
    loaded := Ok(Contents(config.actions, config.stages));
  }

  /** The walk below a file that is already on the stack. */
  function WalkLoaded(files: Files, stack: set<string>, path: string): Outcome<seq<string>>
    requires path in files
  {
    match files[path]
    case Unreadable => Err(ReadFailed(path))
    case Unparsable => Err(ParseFailed(path))
    case Parsed(includes, _) => Then(WalkTargets(files, stack, Expand(includes)), Ok([path]))
  }

  lemma WalkNoMatch(files: Files, stack: set<string>, base: Contents)
    ensures WalkMatches(files, stack, []) == Ok([]) && Merged(files, base, []) == base
  {
    assert AllTo(YamlFiles([])) == [];
  }

  lemma {:induction false} ExpandConcat(a: seq<Pattern>, b: seq<Pattern>)
    ensures Expand(a + b) == Expand(a) + Expand(b)
  {
    hide TargetsOf;
    if b == [] {
      assert a + b == a;
    } else {
      var init, last := b[..|b| - 1], b[|b| - 1];
      assert (a + b)[..|a + b| - 1] == a + init;
      ExpandConcat(a, init);
      assert Expand(a + b) == Expand(a) + Expand(init) + TargetsOf(last);
    }
  }

  lemma ExpandNext(files: Files, stack: set<string>, patterns: seq<Pattern>, i: nat)
    requires i < |patterns|
    ensures WalkTargets(files, stack, Expand(patterns[..i + 1]))
         == Then(WalkTargets(files, stack, Expand(patterns[..i])), WalkTargets(files, stack, TargetsOf(patterns[i])))
    ensures WalkTargets(files, stack, Expand(patterns))
         == Then(WalkTargets(files, stack, Expand(patterns[..i + 1])),
                 WalkTargets(files, stack, Expand(patterns[i + 1..])))
  {
    hide WalkTargets, TargetsOf;
    assert patterns[..i + 1][..i] == patterns[..i];
    WalkConcat(files, stack, Expand(patterns[..i]), TargetsOf(patterns[i]));
    assert patterns == patterns[..i + 1] + patterns[i + 1..];
    ExpandConcat(patterns[..i + 1], patterns[i + 1..]);
    WalkConcat(files, stack, Expand(patterns[..i + 1]), Expand(patterns[i + 1..]));
  }

  lemma {:induction false} YamlFilesConcat(a: seq<string>, b: seq<string>)
    ensures YamlFiles(a + b) == YamlFiles(a) + YamlFiles(b)
  {
    hide IsYaml;
    if b == [] {
      assert a + b == a;
    } else {
      var init, last := b[..|b| - 1], b[|b| - 1];
      assert (a + b)[..|a + b| - 1] == a + init;
      YamlFilesConcat(a, init);
      assert YamlFiles(a + b) == YamlFiles(a) + YamlFiles(init) + if IsYaml(last) then [last] else [];
    }
  }

  lemma AllToConcat(a: seq<string>, b: seq<string>)
    ensures AllTo(a + b) == AllTo(a) + AllTo(b)
  {
  }

  /** Walking the YAML files among the first matches. */
  function WalkMatches(files: Files, stack: set<string>, matches: seq<string>): Outcome<seq<string>> {
    WalkTargets(files, stack, AllTo(YamlFiles(matches)))
  }

  lemma WalkMatchesConcat(files: Files, stack: set<string>, a: seq<string>, b: seq<string>)
    ensures WalkMatches(files, stack, a + b) == Then(WalkMatches(files, stack, a), WalkMatches(files, stack, b))
  {
    hide WalkTargets, YamlFiles, AllTo;
    YamlFilesConcat(a, b);
    AllToConcat(YamlFiles(a), YamlFiles(b));
    WalkConcat(files, stack, AllTo(YamlFiles(a)), AllTo(YamlFiles(b)));
  }

  lemma WalkMatch(files: Files, stack: set<string>, path: string)
    ensures WalkMatches(files, stack, [path]) == if IsYaml(path) then WalkFile(files, stack, path) else Ok([])
  {
    hide IsYaml, WalkFile;
    assert YamlFiles([path]) == if IsYaml(path) then [path] else [];
    if IsYaml(path) {
      assert AllTo([path]) == [To(path)];
      WalkOne(files, stack, To(path));
    }
  }

  lemma MatchesNext(files: Files, stack: set<string>, matches: seq<string>, i: nat)
    requires i < |matches|
    ensures WalkMatches(files, stack, matches[..i + 1])
         == Then(WalkMatches(files, stack, matches[..i]),
                 if IsYaml(matches[i]) then WalkFile(files, stack, matches[i]) else Ok([]))
    ensures WalkMatches(files, stack, matches)
         == Then(WalkMatches(files, stack, matches[..i + 1]), WalkMatches(files, stack, matches[i + 1..]))
  {
    hide WalkMatches, WalkFile, IsYaml;
    assert matches[..i + 1] == matches[..i] + [matches[i]] && matches == matches[..i + 1] + matches[i + 1..];
    WalkMatchesConcat(files, stack, matches[..i], [matches[i]]);
    WalkMatch(files, stack, matches[i]);
    WalkMatchesConcat(files, stack, matches[..i + 1], matches[i + 1..]);
  }
}
