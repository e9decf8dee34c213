/** Values that refer to other variables: when the rescanning loop ends. */
module NestedReferences {
  import opened StageTypes
  import opened Text
  import opened Interpolation
  import Dag

  // ----- Values made of text and references -----

  datatype Piece = Lit(text: string) | Ref(body: string)

  predicate MarkerFree(s: string) {
    '$' !in s && '{' !in s && '}' !in s
  }

  /** No marker begins in the text, and the references are whole. */
  ghost predicate Clean(pieces: seq<Piece>) {
    forall p | p in pieces :: if p.Lit? then Settled(p.text) else MarkerFree(p.body)
  }

  function Written(p: Piece): string {
    if p.Lit? then p.text else OPEN + p.body + CLOSE
  }

  function Render(pieces: seq<Piece>): string {
    if pieces == [] then [] else Written(pieces[0]) + Render(pieces[1..])
  }

  type Templates = map<string, seq<Piece>>

  /** Every value is a concatenation of whole references and of texts in which no marker begins. */
  ghost predicate Renders(variables: Variables, templates: Templates) {
    && variables.Keys == templates.Keys
    && forall n | n in templates :: MarkerFree(n) && Clean(templates[n]) && variables[n] == Render(templates[n])
  }

  predicate Names(p: Piece, n: string) {
    p.Ref? && TrimSpace(p.body) == n
  }

  /** The defined variables that the pieces refer to. */
  function Named(pieces: seq<Piece>, defined: set<string>): (names: seq<string>)
    ensures forall n :: n in names <==> n in defined && exists p | p in pieces :: Names(p, n)
  {
    if pieces == [] then []
    else
      var rest := Named(pieces[1..], defined);
      assert forall p :: p in pieces <==> p == pieces[0] || p in pieces[1..];
      if pieces[0].Ref? && TrimSpace(pieces[0].body) in defined then
        assert Names(pieces[0], TrimSpace(pieces[0].body));
        [TrimSpace(pieces[0].body)] + rest
      else rest
  }

  /** Which variables the value of a variable refers to. */
  function Uses(templates: Templates): Dag.Graph {
    map n | n in templates :: Named(templates[n], templates.Keys)
  }

  ghost predicate Defined(pieces: seq<Piece>, templates: Templates) {
    forall p | p in pieces && p.Ref? :: TrimSpace(p.body) in templates
  }

  /** Every variable that a value refers to is defined. */
  ghost predicate AllDefined(templates: Templates) {
    forall n | n in templates :: Defined(templates[n], templates)
  }

  lemma {:induction false} RenderConcat(a: seq<Piece>, b: seq<Piece>)
    ensures Render(a + b) == Render(a) + Render(b)
  {
    if a == [] {
      assert a + b == b;
    } else {
      assert (a + b)[1..] == a[1..] + b;
      RenderConcat(a[1..], b);
    }
  }

  // ----- What it costs to replace a reference and all that comes of it -----

  ghost predicate Below(t: Templates, order: seq<string>, pieces: seq<Piece>, bound: nat) {
    forall p | p in pieces && p.Ref? && TrimSpace(p.body) in t ::
      TrimSpace(p.body) in order && Dag.IndexIn(order, TrimSpace(p.body)) < bound
  }

  lemma UsesBelow(t: Templates, order: seq<string>, n: string)
    requires Dag.TopologicalOrder(Uses(t), order) && n in t
    ensures n in order && Below(t, order, t[n], Dag.IndexIn(order, n))
  {
    assert n in Uses(t);
    forall p | p in t[n] && p.Ref? && TrimSpace(p.body) in t
      ensures TrimSpace(p.body) in order && Dag.IndexIn(order, TrimSpace(p.body)) < Dag.IndexIn(order, n)
    {
      assert Names(p, TrimSpace(p.body));
      Dag.RequiredEarlier(Uses(t), order, n, TrimSpace(p.body));
    }
  }

  ghost function Cost(t: Templates, order: seq<string>, n: string): nat
    requires Dag.TopologicalOrder(Uses(t), order) && n in t && n in order
    decreases Dag.IndexIn(order, n) + 1, 0
  {
    UsesBelow(t, order, n);
    1 + CostOf(t, order, t[n], Dag.IndexIn(order, n))
  }

  ghost function CostOf(t: Templates, order: seq<string>, pieces: seq<Piece>, bound: nat): nat
    requires Dag.TopologicalOrder(Uses(t), order) && Below(t, order, pieces, bound)
    decreases bound, |pieces|
  {
    if pieces == [] then 0
    else
      assert forall p | p in pieces[1..] :: p in pieces;
      var p := pieces[0];
      (if p.Ref? && TrimSpace(p.body) in t then Cost(t, order, TrimSpace(p.body)) else 0)
      + CostOf(t, order, pieces[1..], bound)
  }

  /** What a reference costs; one to an undefined variable ends the loop. */
  ghost function NameCost(t: Templates, order: seq<string>, n: string): nat
    requires Dag.TopologicalOrder(Uses(t), order)
  {
    if n in t then Cost(t, order, n) else 0
  }

  ghost predicate Bounds(t: Templates, order: seq<string>, top: nat)
    requires Dag.TopologicalOrder(Uses(t), order)
  {
    forall n | n in t :: NameCost(t, order, n) <= top
  }

  lemma {:induction false} BoundOver(t: Templates, order: seq<string>, names: set<string>) returns (top: nat)
    requires Dag.TopologicalOrder(Uses(t), order)
    ensures forall n | n in names :: NameCost(t, order, n) <= top
    decreases names
  {
    top := 0;
    if names != {} {
      var n :| n in names;
      var below := BoundOver(t, order, names - {n});
      top := below + NameCost(t, order, n);
    }
  }

  // ----- The weight of a text -----

  /** The name of a whole reference at the start of the text. */
  function NameAt(text: string): Option<string>
    requires Opens(text)
  {
    var k := Upto(text[3..], '}');
    if Closes(text[3 + k..]) && MarkerFree(text[3..3 + k]) then Some(TrimSpace(text[3..3 + k])) else None
  }

  /** A `$` with something behind it that keeps it from ever starting a marker. */
  predicate Stuck(text: string) {
    && |text| > 1 && text[0] == '$'
    && if text[1] == '$' then Stuck(text[1..])
       else text[1] == '{' ==> |text| > 2 && (if text[2] == '$' then Stuck(text[2..]) else text[2] != '{')
  }

  lemma {:induction false} SettledIsStuck(a: string, b: string)
    requires Settled(a) && a != [] && a[0] == '$'
    ensures Stuck(a + b)
  {
    assert a[0..] == a && (a + b)[0] == '$' && !MayOpen(a[0..]);
    if a[1] == '$' {
      SettledTail(a, 1);
      SettledIsStuck(a[1..], b);
      assert (a + b)[1..] == a[1..] + b;
    } else if a[1] == '{' && a[2] == '$' {
      SettledTail(a, 2);
      SettledIsStuck(a[2..], b);
      assert (a + b)[2..] == a[2..] + b;
    }
  }

  lemma SettledTail(a: string, k: nat)
    requires Settled(a) && k <= |a|
    ensures Settled(a[k..])
  {
    var tail := a[k..];
    forall i | 0 <= i < |tail|
      ensures !MayOpen(tail[i..])
    {
      assert tail[i..] == a[k + i..];
    }
  }

  lemma StuckBehindBrace(pre: string, was: string, now: string)
    requires |pre| > 1 && pre[1] == '{' && Opens(was)
    ensures Stuck(pre + was) ==> Stuck(pre + now)
    decreases |pre|, 0
  {
    var text, next := pre + was, pre + now;
    assert !Stuck(was);
    if |pre| == 2 {
      assert text[2] == was[0] && text[2..] == was;
    } else {
      assert text[2] == pre[2] && text[2..] == pre[2..] + was && next[2..] == pre[2..] + now;
      if pre[2] == '$' { StuckStays(pre[2..], was, now); }
    }
  }

  /** It stays so when a reference behind it is replaced. */
  lemma {:induction false} StuckStays(pre: string, was: string, now: string)
    requires pre != [] && Opens(was)
    ensures Stuck(pre + was) ==> Stuck(pre + now)
    decreases |pre|, 1
  {
    var text, next := pre + was, pre + now;
    assert !Stuck(was);
    if |pre| == 1 {
      assert text[1] == was[0] && text[1..] == was;
    } else if pre[1] == '$' {
      assert text[1..] == pre[1..] + was && next[1..] == pre[1..] + now;
      StuckStays(pre[1..], was, now);
    } else if pre[1] == '{' {
      StuckBehindBrace(pre, was, now);
    }
  }

  /** What the `$` at the start of the text can still cost; one that may become part of a marker may cost any. */
  ghost function DollarCost(t: Templates, order: seq<string>, top: nat, text: string): nat
    requires Dag.TopologicalOrder(Uses(t), order)
  {
    if Opens(text) && NameAt(text).Some? then NameCost(t, order, NameAt(text).value)
    else if Stuck(text) then 0
    else top
  }

  ghost function Weight(t: Templates, order: seq<string>, top: nat, text: string): nat
    requires Dag.TopologicalOrder(Uses(t), order)
  {
    if text == [] then 0
    else (if text[0] == '$' then DollarCost(t, order, top, text) else 0) + Weight(t, order, top, text[1..])
  }

  lemma {:induction false} WeightSkips(t: Templates, order: seq<string>, top: nat, a: string, b: string)
    requires Dag.TopologicalOrder(Uses(t), order) && Settled(a)
    ensures Weight(t, order, top, a + b) == Weight(t, order, top, b)
  {
    hide Settled;
    if a == [] {
      assert a + b == b;
    } else {
      assert (a + b)[1..] == a[1..] + b;
      if a[0] == '$' { SettledIsStuck(a, b); }
      SettledTail(a, 1);
      WeightSkips(t, order, top, a[1..], b);
    }
  }

  lemma WithoutDollar(a: string)
    requires '$' !in a
    ensures Settled(a)
  {
  }

  lemma NameOfReference(body: string, rest: string)
    requires MarkerFree(body)
    ensures Opens(Reference([], body, rest)) && NameAt(Reference([], body, rest)) == Some(TrimSpace(body))
  {
    var text := Reference([], body, rest);
    ReferenceParts([], body, rest);
    assert text[0..] == text;
    assert text[3..][|body|] == text[3 + |body|..][0] == '}';
    assert text[3..][..|body|] == body;
    UptoIs(text[3..], '}', |body|);
  }

  lemma WeightOfReference(t: Templates, order: seq<string>, top: nat, body: string, rest: string)
    requires Dag.TopologicalOrder(Uses(t), order) && MarkerFree(body)
    ensures Weight(t, order, top, Reference([], body, rest))
         == NameCost(t, order, TrimSpace(body)) + Weight(t, order, top, rest)
  {
    hide NameCost;
    var text, tail := Reference([], body, rest), "{{" + body + CLOSE;
    NameOfReference(body, rest);
    assert text == ['$'] + (tail + rest);
    assert text[1..] == tail + rest;
    WithoutDollar(tail);
    WeightSkips(t, order, top, tail, rest);
  }

  /** What a piece costs: nothing, or what its reference costs. */
  ghost function PieceCost(t: Templates, order: seq<string>, p: Piece): nat
    requires Dag.TopologicalOrder(Uses(t), order)
  {
    if p.Ref? then NameCost(t, order, TrimSpace(p.body)) else 0
  }

  lemma WeightOfPiece(t: Templates, order: seq<string>, top: nat, p: Piece, rest: string)
    requires Dag.TopologicalOrder(Uses(t), order) && Clean([p])
    ensures Weight(t, order, top, Written(p) + rest) == PieceCost(t, order, p) + Weight(t, order, top, rest)
  {
    hide Weight, NameCost;
    assert p in [p];
    if p.Lit? {
      WeightSkips(t, order, top, p.text, rest);
    } else {
      assert Reference([], p.body, rest) == Written(p) + rest;
      WeightOfReference(t, order, top, p.body, rest);
    }
  }

  lemma CostOfMore(t: Templates, order: seq<string>, pieces: seq<Piece>, bound: nat)
    requires Dag.TopologicalOrder(Uses(t), order) && Below(t, order, pieces, bound) && pieces != []
    ensures Below(t, order, pieces[1..], bound)
    ensures CostOf(t, order, pieces, bound) == PieceCost(t, order, pieces[0]) + CostOf(t, order, pieces[1..], bound)
  {
    assert forall p | p in pieces[1..] :: p in pieces;
    assert pieces[0] in pieces;
  }

  lemma CleanSplit(pieces: seq<Piece>)
    requires Clean(pieces) && pieces != []
    ensures Clean([pieces[0]]) && Clean(pieces[1..])
  {
    assert pieces[0] in pieces;
    assert forall p | p in pieces[1..] :: p in pieces;
  }

  lemma {:induction false} WeightOfPieces(t: Templates, order: seq<string>, top: nat, pieces: seq<Piece>, bound: nat,
        rest: string)
    requires Dag.TopologicalOrder(Uses(t), order) && Below(t, order, pieces, bound) && Clean(pieces)
    ensures Weight(t, order, top, Render(pieces) + rest)
      == CostOf(t, order, pieces, bound) + Weight(t, order, top, rest)
  {
    hide Weight, PieceCost, Clean, Below;
    if pieces == [] {
      assert Render(pieces) + rest == rest;
    } else {
      var p, more := pieces[0], pieces[1..];
      CleanSplit(pieces);
      CostOfMore(t, order, pieces, bound);
      WeightOfPieces(t, order, top, more, bound, rest);
      assert Render(pieces) + rest == Written(p) + (Render(more) + rest);
      WeightOfPiece(t, order, top, p, Render(more) + rest);
    }
  }

  /** Replacing the first reference changes the weight no more than that of what follows. */
  lemma {:induction false} WeightBefore(t: Templates, order: seq<string>, top: nat, pre: string, was: string,
        now: string)
    requires Dag.TopologicalOrder(Uses(t), order) && Bounds(t, order, top)
    requires ClearUpTo(pre + was, |pre|) && Opens(was)
    ensures Weight(t, order, top, pre + now) + Weight(t, order, top, was)
         <= Weight(t, order, top, pre + was) + Weight(t, order, top, now)
  {
    hide NameCost;
    if pre == [] {
      assert pre + was == was && pre + now == now;
    } else {
      var rest := pre[1..];
      assert (pre + was)[1..] == rest + was && (pre + now)[1..] == rest + now;
      ClearRest(pre, was);
      WeightBefore(t, order, top, rest, was, now);
      DollarAtMost(t, order, top, pre + now);
      StuckStays(pre, was, now);
    }
  }

  lemma ClearRest(pre: string, was: string)
    requires pre != [] && ClearUpTo(pre + was, |pre|)
    ensures !Opens(pre + was) && ClearUpTo(pre[1..] + was, |pre| - 1)
  {
    var text, rest := pre + was, pre[1..] + was;
    assert text[0..] == text;
    forall i | 0 <= i < |pre| - 1
      ensures !Opens(rest[i..])
    {
      assert rest[i..] == text[i + 1..];
    }
  }

  lemma DollarAtMost(t: Templates, order: seq<string>, top: nat, text: string)
    requires Dag.TopologicalOrder(Uses(t), order) && Bounds(t, order, top)
    ensures DollarCost(t, order, top, text) <= top
  {
    if Opens(text) && NameAt(text).Some? && NameAt(text).value !in t {
      assert NameCost(t, order, NameAt(text).value) == 0;
    }
  }

  // ----- Without a cycle the loop ends -----

  lemma MarkersSurviveTrim(body: string)
    ensures MarkerFree(TrimSpace(body)) <==> MarkerFree(body)
  {
    TrimKeeps(body, '$');
    TrimKeeps(body, '{');
    TrimKeeps(body, '}');
  }

  lemma NameCostIs(t: Templates, order: seq<string>, n: string)
    requires Dag.TopologicalOrder(Uses(t), order) && n in t
    ensures n in order && Below(t, order, t[n], Dag.IndexIn(order, n))
    ensures NameCost(t, order, n) == 1 + CostOf(t, order, t[n], Dag.IndexIn(order, n))
  {
    UsesBelow(t, order, n);
  }

  /** Replacing a reference takes away what it costs, and puts back what its value costs: one less. */
  lemma ValueWeighs(t: Templates, order: seq<string>, top: nat, body: string, rest: string)
    requires Dag.TopologicalOrder(Uses(t), order) && MarkerFree(body) && TrimSpace(body) in t
      && Clean(t[TrimSpace(body)])
    ensures Weight(t, order, top, Render(t[TrimSpace(body)]) + rest) + 1
         == Weight(t, order, top, Reference([], body, rest))
  {
    hide Weight, NameCost, Clean, MarkerFree, Render, Reference;
    var n := TrimSpace(body);
    NameCostIs(t, order, n);
    WeightOfReference(t, order, top, body, rest);
    WeightOfPieces(t, order, top, t[n], Dag.IndexIn(order, n), rest);
  }

  lemma RoundWeighs(t: Templates, order: seq<string>, top: nat, text: string, variables: Variables)
    requires Dag.TopologicalOrder(Uses(t), order) && Bounds(t, order, top) && Renders(variables, t)
    requires Replace(text, variables).Again?
    ensures Weight(t, order, top, Replace(text, variables).text) < Weight(t, order, top, text)
  {
    hide Replace, Weight, Bounds, Render, Clean;
    var pre, body, rest := RoundCut(text, variables);
    MarkersSurviveTrim(body);
    var was, now := Reference([], body, rest), variables[TrimSpace(body)] + rest;
    assert text == pre + was;
    assert Replace(text, variables).text == pre + now;
    ValueWeighs(t, order, top, body, rest);
    WeightBefore(t, order, top, pre, was, now);
  }

  lemma {:induction false} RoundsWeigh(t: Templates, order: seq<string>, top: nat, text: string, variables: Variables,
        k: nat)
    requires Dag.TopologicalOrder(Uses(t), order) && Bounds(t, order, top) && Renders(variables, t)
    requires After(text, variables, k).Again?
    ensures Weight(t, order, top, After(text, variables, k).text) + k <= Weight(t, order, top, text)
  {
    hide Replace, Weight, Bounds, Renders;
    if k > 0 {
      RoundsWeigh(t, order, top, text, variables, k - 1);
      RoundWeighs(t, order, top, After(text, variables, k - 1).text, variables);
    }
  }

  ghost predicate Ends(text: string, variables: Variables) {
    exists limit: nat :: !Resolve(text, variables, limit).Unfinished?
  }

  /** If no variable refers to itself, directly or through others, the loop ends on every text. */
  lemma AcyclicEnds(t: Templates, order: seq<string>, text: string, variables: Variables)
    requires Dag.TopologicalOrder(Uses(t), order) && Renders(variables, t)
    ensures Ends(text, variables)
  {
    hide Replace, Weight, Renders;
    var top := BoundOver(t, order, t.Keys);
    var limit := Weight(t, order, top, text) + 1;
    if After(text, variables, limit).Again? {
      RoundsWeigh(t, order, top, text, variables, limit);
    } else {
      EndsFinished(text, variables, limit);
    }
    assert !Resolve(text, variables, limit).Unfinished?;
  }

  // ----- With a cycle it does not -----

  ghost predicate Enters(pieces: seq<Piece>, trap: set<string>) {
    exists p :: p in pieces && p.Ref? && TrimSpace(p.body) in trap
  }

  /** Every variable of the trap refers to one of the trap. */
  ghost predicate Trap(t: Templates, trap: set<string>) {
    trap <= t.Keys && forall n | n in trap :: Enters(t[n], trap)
  }

  ghost predicate Caught(t: Templates, trap: set<string>, pieces: seq<Piece>) {
    Clean(pieces) && Defined(pieces, t) && Enters(pieces, trap)
  }

  lemma {:induction false} FirstReference(pieces: seq<Piece>) returns (i: nat)
    requires Clean(pieces) && exists p :: p in pieces && p.Ref?
    ensures i < |pieces| && pieces[i].Ref? && Settled(Render(pieces[..i]))
    ensures forall p | p in pieces && p.Ref? :: p in pieces[i..]
  {
    hide Settled, MarkerFree, OPEN, CLOSE;
    assert pieces[0] in pieces;
    if pieces[0].Ref? {
      i := 0;
      WithoutDollar([]);
      assert pieces[0..] == pieces;
    } else {
      var rest := pieces[1..];
      assert pieces == [pieces[0]] + rest;
      var k := FirstReference(rest);
      i := k + 1;
      assert pieces[..i] == [pieces[0]] + rest[..k] && pieces[i..] == rest[k..];
      assert pieces[..i][1..] == rest[..k];
      SettledConcat(pieces[0].text, Render(rest[..k]));
    }
  }

  lemma RenderAround(pieces: seq<Piece>, i: nat)
    requires i < |pieces| && pieces[i].Ref?
    ensures Render(pieces) == Reference(Render(pieces[..i]), pieces[i].body, Render(pieces[i + 1..]))
  {
    hide Render;
    var rest := pieces[i..];
    assert pieces == pieces[..i] + rest;
    RenderConcat(pieces[..i], rest);
    RenderMore(rest);
    assert rest[1..] == pieces[i + 1..];
  }

  lemma RenderMore(pieces: seq<Piece>)
    requires pieces != []
    ensures Render(pieces) == Written(pieces[0]) + Render(pieces[1..])
  {
  }

  lemma SettledConcat(a: string, b: string)
    requires Settled(a) && Settled(b)
    ensures Settled(a + b)
  {
    forall i | 0 <= i < |a + b|
      ensures !MayOpen((a + b)[i..])
    {
      if i < |a| {
        assert (a + b)[i..] == a[i..] + b;
        assert !MayOpen(a[i..]);
      } else {
        assert (a + b)[i..] == b[i - |a|..];
      }
    }
  }

  lemma ClearBefore(pre: string, body: string, rest: string)
    requires Settled(pre)
    ensures ClearUpTo(Reference(pre, body, rest), |pre|)
  {
    var text := Reference(pre, body, rest);
    forall i | 0 <= i < |pre|
      ensures !Opens(text[i..])
    {
      assert text[i..] == pre[i..] + (OPEN + body + CLOSE + rest);
      assert !MayOpen(pre[i..]);
    }
  }

  /** The pieces after the first reference is replaced by the pieces of its value. */
  function Expanded(t: Templates, pieces: seq<Piece>, i: nat): seq<Piece>
    requires i < |pieces| && pieces[i].Ref? && TrimSpace(pieces[i].body) in t
  {
    pieces[..i] + t[TrimSpace(pieces[i].body)] + pieces[i + 1..]
  }

  lemma ExpandedRenders(t: Templates, pieces: seq<Piece>, i: nat, variables: Variables)
    requires i < |pieces| && pieces[i].Ref? && TrimSpace(pieces[i].body) in t && Renders(variables, t)
    requires MarkerFree(pieces[i].body) && Settled(Render(pieces[..i]))
    ensures Replace(Render(pieces), variables) == Again(Render(Expanded(t, pieces, i)))
  {
    hide Replace;
    var pre, body, rest := Render(pieces[..i]), pieces[i].body, Render(pieces[i + 1..]);
    var n := TrimSpace(body);
    RenderAround(pieces, i);
    ClearBefore(pre, body, rest);
    ReplaceReference(pre, body, rest, variables);
    RenderConcat(pieces[..i], t[n]);
    RenderConcat(pieces[..i] + t[n], pieces[i + 1..]);
  }

  lemma InExpanded(t: Templates, pieces: seq<Piece>, i: nat, p: Piece)
    requires i < |pieces| && pieces[i].Ref? && TrimSpace(pieces[i].body) in t
    ensures p in Expanded(t, pieces, i)
      <==> p in pieces[..i] || p in t[TrimSpace(pieces[i].body)] || p in pieces[i + 1..]
    ensures p in pieces <==> p in pieces[..i] || p == pieces[i] || p in pieces[i + 1..]
  {
    assert pieces == pieces[..i] + ([pieces[i]] + pieces[i + 1..]);
  }

  lemma ExpandedWhole(t: Templates, pieces: seq<Piece>, i: nat)
    requires Clean(pieces) && Defined(pieces, t) && AllDefined(t) && forall n | n in t :: Clean(t[n])
    requires i < |pieces| && pieces[i].Ref? && TrimSpace(pieces[i].body) in t
    ensures Clean(Expanded(t, pieces, i)) && Defined(Expanded(t, pieces, i), t)
  {
    hide Expanded, MarkerFree;
    forall p { InExpanded(t, pieces, i, p); }
  }

  lemma InSuffix(pieces: seq<Piece>, i: nat, p: Piece)
    requires i < |pieces|
    ensures p in pieces[i..] <==> p == pieces[i] || p in pieces[i + 1..]
  {
    assert pieces[i..] == [pieces[i]] + pieces[i + 1..];
  }

  lemma ExpandedEnters(t: Templates, trap: set<string>, pieces: seq<Piece>, i: nat)
    requires Enters(pieces, trap) && i < |pieces| && pieces[i].Ref? && TrimSpace(pieces[i].body) in t
    requires TrimSpace(pieces[i].body) in trap ==> Enters(t[TrimSpace(pieces[i].body)], trap)
    requires forall p | p in pieces && p.Ref? :: p in pieces[i..]
    ensures Enters(Expanded(t, pieces, i), trap)
  {
    hide Expanded;
    var p :| p in pieces && p.Ref? && TrimSpace(p.body) in trap;
    InSuffix(pieces, i, p);
    InExpanded(t, pieces, i, p);
    if p !in pieces[i + 1..] {
      var q :| q in t[TrimSpace(p.body)] && q.Ref? && TrimSpace(q.body) in trap;
      InExpanded(t, pieces, i, q);
    }
  }

  lemma ExpandedCaught(t: Templates, trap: set<string>, pieces: seq<Piece>, i: nat)
    requires Trap(t, trap) && Caught(t, trap, pieces) && AllDefined(t) && forall n | n in t :: Clean(t[n])
    requires i < |pieces| && pieces[i].Ref? && forall p | p in pieces && p.Ref? :: p in pieces[i..]
    ensures TrimSpace(pieces[i].body) in t && Caught(t, trap, Expanded(t, pieces, i))
  {
    hide Enters, Clean;
    assert pieces[i] in pieces;
    ExpandedWhole(t, pieces, i);
    ExpandedEnters(t, trap, pieces, i);
  }

  lemma RoundStaysCaught(t: Templates, trap: set<string>, pieces: seq<Piece>, variables: Variables)
    returns (next: seq<Piece>)
    requires Renders(variables, t) && AllDefined(t) && Trap(t, trap) && Caught(t, trap, pieces)
    ensures Replace(Render(pieces), variables) == Again(Render(next)) && Caught(t, trap, next)
  {
    hide Replace;
    var i := FirstReference(pieces);
    ExpandedCaught(t, trap, pieces, i);
    assert pieces[i] in pieces;
    ExpandedRenders(t, pieces, i, variables);
    next := Expanded(t, pieces, i);
  }

  lemma {:induction false} StaysCaught(t: Templates, trap: set<string>, pieces: seq<Piece>, variables: Variables,
        k: nat)
    returns (now: seq<Piece>)
    requires Renders(variables, t) && AllDefined(t) && Trap(t, trap) && Caught(t, trap, pieces)
    ensures After(Render(pieces), variables, k) == Again(Render(now)) && Caught(t, trap, now)
  {
    hide Replace, Render, Caught;
    now := pieces;
    if k > 0 {
      var before := StaysCaught(t, trap, pieces, variables, k - 1);
      now := RoundStaysCaught(t, trap, before, variables);
    }
  }

  /** A text that refers into a trap keeps the loop running for ever. */
  lemma TrapNeverEnds(t: Templates, trap: set<string>, pieces: seq<Piece>, variables: Variables)
    requires Renders(variables, t) && AllDefined(t) && Trap(t, trap) && Caught(t, trap, pieces)
    ensures !Ends(Render(pieces), variables)
  {
    hide Replace, Render, Caught;
    forall limit: nat
      ensures Resolve(Render(pieces), variables, limit).Unfinished?
    {
      var now := StaysCaught(t, trap, pieces, variables, limit);
    }
  }

  /** The variables of a cycle are a trap. */
  lemma CycleIsTrap(t: Templates, path: seq<string>)
    requires Dag.Cycle(Uses(t), path)
    ensures Trap(t, set n | n in path)
  {
    var trap := set n | n in path;
    forall n | n in trap
      ensures n in t && Enters(t[n], trap)
    {
      var i :| 0 <= i < |path| && path[i] == n;
      var d := if i < |path| - 1 then path[i + 1] else path[0];
      assert d in Uses(t)[n];
      var p :| p in t[n] && Names(p, d);
      assert p in t[n] && p.Ref? && TrimSpace(p.body) in trap;
    }
  }

  lemma OneCaught(t: Templates, trap: set<string>, body: string)
    requires MarkerFree(body) && TrimSpace(body) in trap && trap <= t.Keys
    ensures Caught(t, trap, [Ref(body)]) && Render([Ref(body)]) == OPEN + body + CLOSE
  {
    var pieces := [Ref(body)];
    assert pieces[0] in pieces && pieces[1..] == [];
    assert OPEN + body + CLOSE + [] == OPEN + body + CLOSE;
  }

  /** A variable that leads back to itself through others keeps the loop running, wherever it is mentioned. */
  lemma CycleNeverEnds(t: Templates, path: seq<string>, body: string, variables: Variables)
    requires Renders(variables, t) && AllDefined(t) && Dag.Cycle(Uses(t), path)
    requires MarkerFree(body) && TrimSpace(body) in path
    ensures !Ends(OPEN + body + CLOSE, variables)
  {
    hide Ends, Render, Caught, Renders, AllDefined;
    var trap := set n | n in path;
    CycleIsTrap(t, path);
    OneCaught(t, trap, body);
    TrapNeverEnds(t, trap, [Ref(body)], variables);
  }

  // ----- Exactly -----

  /** Ordering as many variables as possible leaves a trap. */
  lemma {:induction false} OrderOrTrap(t: Templates, order: seq<string>, left: set<string>)
    returns (full: seq<string>, trap: set<string>)
    requires Distinct(order) && (forall n | n in order :: n in t) && Dag.Dependable(Uses(t), order)
    requires left == set n | n in t && n !in order
    ensures trap == {} ==> Dag.TopologicalOrder(Uses(t), full)
    ensures Trap(t, trap)
    decreases left
  {
    if n :| n in left && forall d | d in Uses(t)[n] :: d in order {
      DistinctSnoc(order, n);
      Dag.DependableSnoc(Uses(t), order, n);
      full, trap := OrderOrTrap(t, order + [n], left - {n});
    } else {
      full, trap := order, left;
      forall n | n in left
        ensures Enters(t[n], left)
      {
        var d :| d in Uses(t)[n] && d !in order;
        var p :| p in t[n] && Names(p, d);
        assert p in t[n] && p.Ref? && TrimSpace(p.body) in left;
      }
    }
  }

  lemma CyclicNeverEnds(t: Templates, trap: set<string>, variables: Variables)
    requires Renders(variables, t) && AllDefined(t) && Trap(t, trap) && trap != {}
    ensures exists text :: !Ends(text, variables)
  {
    hide Ends, Render, Caught, Enters, AllDefined;
    var n :| n in trap;
    var body := Entrance(t[n], trap);
    OneCaught(t, trap, body);
    TrapNeverEnds(t, trap, [Ref(body)], variables);
  }

  lemma Entrance(pieces: seq<Piece>, trap: set<string>) returns (body: string)
    requires Clean(pieces) && Enters(pieces, trap)
    ensures MarkerFree(body) && TrimSpace(body) in trap
  {
    var p :| p in pieces && p.Ref? && TrimSpace(p.body) in trap;
    body := p.body;
  }

  /**
   When every variable that a value refers to is defined, the loop ends on every text if and only if no
   variable refers to itself, directly or through others.
   */
  lemma EndsExactly(t: Templates, variables: Variables)
    requires Renders(variables, t) && AllDefined(t)
    ensures (forall text :: Ends(text, variables)) <==> Dag.Acyclic(Uses(t))
  {
    hide Ends, Renders, AllDefined;
    if Dag.Acyclic(Uses(t)) {
      var order :| Dag.TopologicalOrder(Uses(t), order);
      forall text { AcyclicEnds(t, order, text, variables); }
    } else {
      var order, trap := OrderOrTrap(t, [], t.Keys);
      CyclicNeverEnds(t, trap, variables);
    }
  }
}
