/** The ordered merge of actions and stages, where later definitions win. */
module ConfigMerge {
  import opened StageTypes

  /** `body` stands for everything else that an action declares. */
  datatype Action = Action(name: string, body: string)

  type Stages = map<string, seq<Step>>

  /** What one configuration file contributes. */
  datatype Contents = Contents(actions: seq<Action>, stages: Stages)

  function ActionNames(actions: seq<Action>): (names: seq<string>)
    ensures |names| == |actions|
    ensures forall i | 0 <= i < |actions| :: names[i] == actions[i].name
  {
    seq(|actions|, i requires 0 <= i < |actions| => actions[i].name)
  }

  /** Replaces the first action of the same name, or appends. */
  function Put(actions: seq<Action>, a: Action): seq<Action> {
    if actions == [] then [a]
    else if actions[0].name == a.name then [a] + actions[1..]
    else [actions[0]] + Put(actions[1..], a)
  }

  function MergeActions(base: seq<Action>, included: seq<Action>): seq<Action> {
    if included == [] then base
    else Put(MergeActions(base, included[..|included| - 1]), included[|included| - 1])
  }

  function Merge(base: Contents, included: Contents): Contents {
    Contents(MergeActions(base.actions, included.actions), base.stages + included.stages)
  }

  const NOTHING := Contents([], map[])

  /** Files merged one after another into a base. */
  function MergeAll(base: Contents, files: seq<Contents>): Contents {
    if files == [] then base else Merge(MergeAll(base, files[..|files| - 1]), files[|files| - 1])
  }

  /** GetAction: the first action of that name. */
  function FirstNamed(actions: seq<Action>, n: string): Option<Action> {
    if actions == [] then None
    else if actions[0].name == n then Some(actions[0])
    else FirstNamed(actions[1..], n)
  }

  function LastNamed(actions: seq<Action>, n: string): Option<Action> {
    if actions == [] then None
    else if actions[|actions| - 1].name == n then Some(actions[|actions| - 1])
    else LastNamed(actions[..|actions| - 1], n)
  }

  /** What a look-up finds stands first of its name. */
  lemma {:induction false} FirstNamedExactly(actions: seq<Action>, n: string, i: nat)
    requires i < |actions|
    ensures FirstNamed(actions, n).None? ==> actions[i].name != n
    ensures actions[i].name == n && (forall j | 0 <= j < i :: actions[j].name != n)
      ==> FirstNamed(actions, n) == Some(actions[i])
  {
    if i > 0 {
      if forall j | 0 <= j < i :: actions[j].name != n {
        assert forall j | 0 <= j < i - 1 :: actions[1..][j] == actions[j + 1];
      }
      FirstNamedExactly(actions[1..], n, i - 1);
    }
  }

  /** And the definition that wins among those of one file stands last of its name. */
  lemma {:induction false} LastNamedExactly(actions: seq<Action>, n: string, i: nat)
    requires i < |actions|
    ensures LastNamed(actions, n).None? ==> actions[i].name != n
    ensures actions[i].name == n && (forall j | i < j < |actions| :: actions[j].name != n)
      ==> LastNamed(actions, n) == Some(actions[i])
  {
    if i < |actions| - 1 { LastNamedExactly(actions[..|actions| - 1], n, i); }
  }

  // ----- The merge in place -----

  class Config {
    var actions: seq<Action>
    var stages: Stages

    constructor (contents: Contents)
      ensures View() == contents
    {
      actions, stages := contents.actions, contents.stages;
    }

    ghost function View(): Contents
      reads this
    {
      Contents(actions, stages)
    }

    method PutAction(action: Action)
      modifies this`actions
      ensures actions == Put(old(actions), action)
    {
      var i := 0;
      while i < |actions|
        invariant 0 <= i <= |actions| && actions == old(actions)
        invariant Put(actions, action) == actions[..i] + Put(actions[i..], action)
      {
        if actions[i].name == action.name {
          actions := actions[i := action];
          return;
        }
        i := i + 1;
      }
      actions := actions + [action];
    }

    method MergeConfig(included: Contents)
      modifies this
      ensures View() == Merge(old(View()), included)
    {
      var k := 0;
      while k < |included.actions|
        invariant 0 <= k <= |included.actions| && stages == old(stages)
        invariant actions == MergeActions(old(actions), included.actions[..k])
      {
        PutAction(included.actions[k]);
        assert included.actions[..k + 1][..k] == included.actions[..k];
        k := k + 1;
      }
      assert included.actions[..k] == included.actions;
      var todo := included.stages.Keys;
      while todo != {}
        invariant todo <= included.stages.Keys && actions == MergeActions(old(actions), included.actions)
        invariant stages == old(stages) + (map n | n in included.stages && n !in todo :: included.stages[n])
        decreases todo
      {
        var name :| name in todo;
        stages := stages[name := included.stages[name]];
        todo := todo - {name};
      }
      assert (map n | n in included.stages && n !in todo :: included.stages[n]) == included.stages;
    }
  }

  // ----- Names and lookup -----

  lemma NoNames()
    ensures ActionNames([]) == []
  {
  }

  lemma NamesHead(actions: seq<Action>)
    requires actions != []
    ensures ActionNames(actions) == [actions[0].name] + ActionNames(actions[1..])
  {
  }

  lemma NamesSnoc(actions: seq<Action>, a: Action)
    ensures ActionNames(actions + [a]) == ActionNames(actions) + [a.name]
  {
  }

  /** Positions are kept: a name that is there stays where it is, a new one goes to the end. */
  lemma {:induction false} PutNames(actions: seq<Action>, a: Action)
    ensures ActionNames(Put(actions, a))
         == ActionNames(actions) + if a.name in ActionNames(actions) then [] else [a.name]
  {
    if actions != [] {
      NamesHead(actions);
      NamesHead(Put(actions, a));
      if actions[0].name == a.name {
        assert Put(actions, a)[1..] == actions[1..];
      } else {
        PutNames(actions[1..], a);
        assert Put(actions, a)[1..] == Put(actions[1..], a);
      }
    }
  }

  /** One more name at most, at the end, and it is a new one. */
  lemma PutKeepsNames(names: seq<string>, k: nat, more: seq<string>, n: string)
    requires k <= |names| && Distinct(names[k..]) && more == names + if n in names then [] else [n]
    ensures forall x :: x in more <==> x in names || x == n
    ensures Distinct(more) <==> Distinct(names)
    ensures Distinct(more[k..])
  {
    if n !in names {
      assert more[|names|] == n;
      assert more[k..] == names[k..] + [n];
      DistinctSnoc(names, n);
      DistinctSnoc(names[k..], n);
    } else {
      assert more == names;
    }
  }

  /** The merge keeps the names of the base in place and adds no duplicate. */
  lemma {:induction false} MergeKeepsNames(base: seq<Action>, included: seq<Action>)
    ensures ActionNames(base) <= ActionNames(MergeActions(base, included))
    ensures forall n ::
      n in ActionNames(MergeActions(base, included)) <==> n in ActionNames(base) || n in ActionNames(included)
    ensures Distinct(ActionNames(MergeActions(base, included))) <==> Distinct(ActionNames(base))
    ensures Distinct(ActionNames(MergeActions(base, included))[|base|..])
  {
    if included != [] {
      var init, last := included[..|included| - 1], included[|included| - 1];
      var before := MergeActions(base, init);
      MergeKeepsNames(base, init);
      PutNames(before, last);
      PutKeepsNames(ActionNames(before), |base|, ActionNames(Put(before, last)), last.name);
      SplitLast(included);
      NamesSnoc(init, last);
    }
  }

  lemma {:induction false} PutLookup(actions: seq<Action>, a: Action, n: string)
    ensures FirstNamed(Put(actions, a), n) == if n == a.name then Some(a) else FirstNamed(actions, n)
  {
    if actions != [] && actions[0].name != a.name {
      PutLookup(actions[1..], a, n);
      assert Put(actions, a)[1..] == Put(actions[1..], a);
    }
  }

  /** The last definition among the included ones wins; otherwise the base's stays. */
  lemma {:induction false} MergeLookup(base: seq<Action>, included: seq<Action>, n: string)
    ensures FirstNamed(MergeActions(base, included), n)
         == if LastNamed(included, n).Some? then LastNamed(included, n) else FirstNamed(base, n)
  {
    if included != [] {
      MergeLookup(base, included[..|included| - 1], n);
      PutLookup(MergeActions(base, included[..|included| - 1]), included[|included| - 1], n);
    }
  }

  lemma {:induction false} LastNamedIn(actions: seq<Action>, n: string)
    ensures LastNamed(actions, n).Some? <==> n in ActionNames(actions)
  {
    if actions != [] {
      LastNamedIn(actions[..|actions| - 1], n);
      assert ActionNames(actions) == ActionNames(actions[..|actions| - 1]) + [actions[|actions| - 1].name];
    }
  }

  // ----- Associativity -----

  lemma {:induction false} PutAgain(actions: seq<Action>, a: Action, b: Action)
    requires a.name == b.name
    ensures Put(Put(actions, a), b) == Put(actions, b)
  {
    if actions != [] && actions[0].name != a.name {
      PutAgain(actions[1..], a, b);
      assert Put(actions, a)[1..] == Put(actions[1..], a);
    }
  }

  /** Replacing one action and putting another may be done in either order. */
  lemma {:induction false} PutSwaps(actions: seq<Action>, a: Action, b: Action)
    requires a.name != b.name && a.name in ActionNames(actions)
    ensures Put(Put(actions, a), b) == Put(Put(actions, b), a)
  {
    assert ActionNames(actions) == [actions[0].name] + ActionNames(actions[1..]);
    if actions[0].name == a.name {
      assert Put(actions, b)[1..] == Put(actions[1..], b);
    } else if actions[0].name != b.name {
      PutSwaps(actions[1..], a, b);
      assert Put(actions, a)[1..] == Put(actions[1..], a) && Put(actions, b)[1..] == Put(actions[1..], b);
    } else {
      assert Put(actions, a)[1..] == Put(actions[1..], a);
    }
  }

  lemma {:induction false} PutInit(actions: seq<Action>, a: Action)
    requires actions != [] && (a.name in ActionNames(actions[..|actions| - 1]) || actions[|actions| - 1].name != a.name)
    requires a.name in ActionNames(actions)
    ensures Put(actions, a) == Put(actions[..|actions| - 1], a) + [actions[|actions| - 1]]
  {
    hide ActionNames;
    var init := actions[..|actions| - 1];
    SplitLast(actions);
    NamesSnoc(init, actions[|actions| - 1]);
    NoNames();
    NamesHead(init);
    NamesHead(actions);
    if actions[0].name != a.name {
      assert actions[1..][..|actions| - 2] == init[1..];
      PutInit(actions[1..], a);
    }
  }

  lemma {:induction false} PutAtEnd(actions: seq<Action>, a: Action)
    requires a.name !in ActionNames(actions)
    ensures Put(actions, a) == actions + [a]
  {
    if actions != [] {
      hide ActionNames;
      var rest := actions[1..];
      NamesHead(actions);
      assert a.name !in ActionNames(rest) && actions[0].name != a.name;
      PutAtEnd(rest, a);
      assert actions == [actions[0]] + rest;
    }
  }

  lemma {:induction false} PutLast(actions: seq<Action>, a: Action)
    requires actions != [] && a.name !in ActionNames(actions[..|actions| - 1]) && actions[|actions| - 1].name == a.name
    ensures Put(actions, a) == actions[..|actions| - 1] + [a]
  {
    if |actions| > 1 {
      var init := actions[..|actions| - 1];
      assert ActionNames(init) == [init[0].name] + ActionNames(init[1..]);
      assert actions[1..][..|actions| - 2] == init[1..];
      PutLast(actions[1..], a);
    }
  }

  lemma MergeSnoc(base: seq<Action>, included: seq<Action>, a: Action)
    ensures MergeActions(base, included + [a]) == Put(MergeActions(base, included), a)
  {
    assert (included + [a])[..|included + [a]| - 1] == included;
  }

  lemma {:induction false} MergePut(base: seq<Action>, included: seq<Action>, a: Action)
    requires Distinct(ActionNames(included))
    ensures MergeActions(base, Put(included, a)) == Put(MergeActions(base, included), a)
  {
    if a.name !in ActionNames(included) {
      PutAtEnd(included, a);
      MergeSnoc(base, included, a);
    } else {
      var init, last := included[..|included| - 1], included[|included| - 1];
      assert ActionNames(included) == ActionNames(init) + [last.name];
      assert Distinct(ActionNames(init));
      if last.name == a.name {
        PutLast(included, a);
        MergeSnoc(base, init, a);
        PutAgain(MergeActions(base, init), last, a);
      } else {
        PutInit(included, a);
        MergePut(base, init, a);
        MergeSnoc(base, Put(init, a), last);
        MergeKeepsNames(base, init);
        PutSwaps(MergeActions(base, init), a, last);
      }
    }
  }

  lemma {:induction false} MergeAssociates(a: seq<Action>, b: seq<Action>, c: seq<Action>)
    requires Distinct(ActionNames(b))
    ensures MergeActions(MergeActions(a, b), c) == MergeActions(a, MergeActions(b, c))
  {
    if c != [] {
      MergeAssociates(a, b, c[..|c| - 1]);
      MergeKeepsNames(b, c[..|c| - 1]);
      MergePut(a, MergeActions(b, c[..|c| - 1]), c[|c| - 1]);
    }
  }

  ghost predicate Associates(b: seq<Action>) {
    forall a, c :: MergeActions(MergeActions(a, b), c) == MergeActions(a, MergeActions(b, c))
  }

  lemma {:induction false} LastOccurrence(b: seq<Action>, n: string, i: nat, j: nat)
    requires i < j < |b| && b[i].name == b[j].name == n
    ensures LastNamed(b, n).Some?
    ensures forall a: Action | a.name == n :: LastNamed(Put(b, a), n) == LastNamed(b, n)
  {
    var init, last := b[..|b| - 1], b[|b| - 1];
    assert ActionNames(init)[i] == n;
    LastNamedIn(b, n);
    assert ActionNames(b)[j] == n;
    forall a: Action | a.name == n
      ensures LastNamed(Put(b, a), n) == LastNamed(b, n)
    {
      PutInit(b, a);
      if j < |b| - 1 { LastOccurrence(init, n, i, j); }
    }
  }

  /** The merge is associative around `b` exactly when `b` defines no name twice. */
  lemma MergeAssociatesExactly(b: seq<Action>)
    ensures Associates(b) <==> Distinct(ActionNames(b))
  {
    if Distinct(ActionNames(b)) {
      forall a, c { MergeAssociates(a, b, c); }
    } else {
      var names := ActionNames(b);
      var i, j :| 0 <= i < j < |names| && names[i] == names[j];
      var n := names[i];
      LastOccurrence(b, n, i, j);
      var c := Action(n, LastNamed(b, n).value.body + "'");
      assert MergeActions(b, [c]) == Put(b, c) by { MergeSnoc(b, [], c); assert [] + [c] == [c]; }
      assert MergeActions(MergeActions([], b), [c]) == Put(MergeActions([], b), c) by {
        MergeSnoc(MergeActions([], b), [], c); assert [] + [c] == [c];
      }
      PutLookup(MergeActions([], b), c, n);
      MergeLookup([], Put(b, c), n);
      assert MergeActions(MergeActions([], b), [c]) != MergeActions([], MergeActions(b, [c]));
    }
  }

  // ----- Folding files -----

  lemma {:induction false} MergeAllKeepsDistinct(base: Contents, files: seq<Contents>)
    requires Distinct(ActionNames(base.actions))
    ensures Distinct(ActionNames(MergeAll(base, files).actions))
  {
    if files != [] {
      MergeAllKeepsDistinct(base, files[..|files| - 1]);
      MergeKeepsNames(MergeAll(base, files[..|files| - 1]).actions, files[|files| - 1].actions);
    }
  }

  lemma MergeOfMerges(a: Contents, b: Contents, c: Contents)
    requires Distinct(ActionNames(b.actions))
    ensures Merge(Merge(a, b), c) == Merge(a, Merge(b, c))
  {
    MergeAssociates(a.actions, b.actions, c.actions);
    assert (a.stages + b.stages) + c.stages == a.stages + (b.stages + c.stages);
  }

  /**
   Merging files one by one into the main configuration is the same as merging them into an empty one
   first, and then that into the main configuration: for actions as sequences, for stages as maps.
   */
  lemma {:induction false} MergeFirstOrOneByOne(main: Contents, files: seq<Contents>)
    ensures MergeAll(main, files) == Merge(main, MergeAll(NOTHING, files))
  {
    if files == [] {
      assert main.stages + NOTHING.stages == main.stages;
      assert MergeAll(NOTHING, []) == NOTHING;
    } else {
      var init, last := files[..|files| - 1], files[|files| - 1];
      var before := MergeAll(NOTHING, init);
      MergeFirstOrOneByOne(main, init);
      MergeAllKeepsDistinct(NOTHING, init);
      MergeOfMerges(main, before, last);
    }
  }

  /** The last file that defines a name decides; the base decides only when no file does. */
  function LastDefinition(base: Contents, files: seq<Contents>, n: string): Option<Action> {
    if files == [] then FirstNamed(base.actions, n)
    else
      var here := LastNamed(files[|files| - 1].actions, n);
      if here.Some? then here else LastDefinition(base, files[..|files| - 1], n)
  }

  function LastStage(base: Contents, files: seq<Contents>, n: string): Option<seq<Step>> {
    if files == [] then if n in base.stages then Some(base.stages[n]) else None
    else if n in files[|files| - 1].stages then Some(files[|files| - 1].stages[n])
    else LastStage(base, files[..|files| - 1], n)
  }

  lemma {:induction false} MergeAllLookup(base: Contents, files: seq<Contents>, n: string)
    ensures FirstNamed(MergeAll(base, files).actions, n) == LastDefinition(base, files, n)
    ensures LastStage(base, files, n)
         == if n in MergeAll(base, files).stages then Some(MergeAll(base, files).stages[n]) else None
  {
    if files != [] {
      MergeAllLookup(base, files[..|files| - 1], n);
      MergeLookup(MergeAll(base, files[..|files| - 1]).actions, files[|files| - 1].actions, n);
    }
  }
}
