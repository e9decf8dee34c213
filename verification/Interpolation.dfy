/** The two ways to replace `${{ name }}` in a text: a loop that rescans its result, and a single pass. */
module Interpolation {
  import opened StageTypes
  import opened Text

  type Variables = map<string, string>

  const OPEN := "${{"
  const CLOSE := "}}"

  // ----- References in a text -----

  /** The text starts with an opening marker. */
  predicate Opens(text: string) {
    |text| >= 3 && text[0] == '$' && text[1] == '{' && text[2] == '{'
  }

  predicate Closes(text: string) {
    |text| >= 2 && text[0] == '}' && text[1] == '}'
  }

  lemma OpensAt(text: string, i: nat)
    requires i <= |text|
    ensures At(text, i, OPEN) <==> Opens(text[i..])
  {
    if i + 3 <= |text| { assert text[i..i + 3] == [text[i], text[i + 1], text[i + 2]]; }
  }

  lemma ClosesAt(text: string, i: nat)
    requires i <= |text|
    ensures At(text, i, CLOSE) <==> Closes(text[i..])
  {
    if i + 2 <= |text| { assert text[i..i + 2] == [text[i], text[i + 1]]; }
  }

  /** The closing braces are searched from the `$`, but cannot be found before the name. */
  lemma CloseAfterOpen(text: string, start: nat, end: nat)
    requires At(text, start, OPEN) && start <= end && At(text, end, CLOSE)
    ensures start + 3 <= end
  {
    OpensAt(text, start);
    ClosesAt(text, end);
  }

  /** No reference begins before `k`. */
  ghost predicate ClearUpTo(text: string, k: nat)
    requires k <= |text|
  {
    forall i | 0 <= i < k :: !Opens(text[i..])
  }

  // ----- The rescanning loop -----

  datatype Resolution =
    | Resolved(text: string)
    | Unclosed(rest: string)
    | Undefined(name: string)
    | Unfinished

  /** One round of the loop: the text with its first reference replaced, or how the loop ends. */
  datatype Round = Again(text: string) | Ends(resolution: Resolution)

  function Replace(text: string, variables: Variables): (round: Round)
    ensures round.Ends? ==> !round.resolution.Unfinished?
  {
    match Index(text, OPEN, 0)
    case None => Ends(Resolved(text))
    case Some(start) =>
      match Index(text, CLOSE, start)
      case None => Ends(Unclosed(text[start..]))
      case Some(end) =>
        CloseAfterOpen(text, start, end);
        var name := TrimSpace(text[start + 3..end]);
        if name in variables then Again(text[..start] + variables[name] + text[end + 2..]) else Ends(Undefined(name))
  }

  /** Where the loop is after `k` rounds. */
  function After(text: string, variables: Variables, k: nat): Round {
    if k == 0 then Again(text)
    else
      match After(text, variables, k - 1)
      case Again(now) => Replace(now, variables)
      case Ends(resolution) => Ends(resolution)
  }

  /** What the loop comes to within `limit` rounds. */
  function Resolve(text: string, variables: Variables, limit: nat): Resolution {
    match After(text, variables, limit)
    case Again(_) => Unfinished
    case Ends(resolution) => resolution
  }

  lemma {:induction false} AfterEnds(text: string, variables: Variables, k: nat, limit: nat)
    requires k <= limit && After(text, variables, k).Ends?
    ensures After(text, variables, limit) == After(text, variables, k)
  {
    if k < limit { AfterEnds(text, variables, k, limit - 1); }
  }

  /** The body of the loop: replaces the first reference, or ends the loop. */
  method ReplaceFirst(result: string, variables: Variables) returns (round: Round)
    ensures round == Replace(result, variables)
  {
    var start := Index(result, OPEN, 0);
    if start.None? {
      return Ends(Resolved(result));
    }
    var end := Index(result, CLOSE, start.value);
    if end.None? {
      return Ends(Unclosed(result[start.value..]));
    }
    CloseAfterOpen(result, start.value, end.value);
    var variableName := TrimSpace(result[start.value + 3..end.value]);
    if variableName !in variables {
      return Ends(Undefined(variableName));
    }
    round := Again(result[..start.value] + variables[variableName] + result[end.value + 2..]);
  }

  /** resolveString, stopped after `limit` rounds. */
  method ResolveString(s: string, variables: Variables, limit: nat) returns (r: Resolution)
    ensures r == Resolve(s, variables, limit)
  {
    hide Replace;
    var result, k := s, 0;
    while k < limit
      invariant 0 <= k <= limit && After(s, variables, k) == Again(result)
    {
      var round := ReplaceFirst(result, variables);
      if round.Ends? {
        AfterEnds(s, variables, k + 1, limit);
        return round.resolution;
      }
      result := round.text;
      k := k + 1;
    }
    r := Unfinished;
  }

  function Count(s: string, c: char): nat {
    if s == [] then 0 else (if s[0] == c then 1 else 0) + Count(s[1..], c)
  }

  lemma {:induction false} CountConcat(a: string, b: string, c: char)
    ensures Count(a + b, c) == Count(a, c) + Count(b, c)
  {
    if a == [] {
      assert a + b == b;
    } else {
      assert (a + b)[1..] == a[1..] + b;
      CountConcat(a[1..], b, c);
    }
  }

  lemma {:induction false} CountNone(s: string, c: char)
    requires c !in s
    ensures Count(s, c) == 0
  {
    if s != [] { CountNone(s[1..], c); }
  }

  predicate Marks(c: char) {
    c == '$' || c == '{' || c == '}'
  }

  /** No value contains the character. */
  ghost predicate Free(variables: Variables, c: char) {
    forall n | n in variables :: c !in variables[n]
  }

  lemma {:induction false} CountSome(s: string, i: nat)
    requires i < |s|
    ensures Count(s, s[i]) > 0
  {
    if i > 0 { CountSome(s[1..], i - 1); }
  }

  lemma CountParts(a: string, b: string, d: string, c: char)
    ensures Count(a + b + d, c) == Count(a, c) + Count(b, c) + Count(d, c)
  {
    CountConcat(a + b, d, c);
    CountConcat(a, b, c);
  }

  lemma ReferenceCounts(text: string, start: nat, end: nat, c: char)
    requires start + 3 <= end <= |text| && At(text, start, OPEN) && At(text, end, CLOSE) && Marks(c)
    ensures Count(text[start..end + 2], c) > 0
  {
    var gone := text[start..end + 2];
    OpensAt(text, start);
    ClosesAt(text, end);
    CountSome(gone, if c == '$' then 0 else if c == '{' then 1 else |gone| - 1);
  }

  lemma RoundCounts(text: string, variables: Variables, c: char)
    requires Free(variables, c) && Marks(c) && Replace(text, variables).Again?
    ensures Count(Replace(text, variables).text, c) < Count(text, c)
  {
    var start := Index(text, OPEN, 0).value;
    var end := Index(text, CLOSE, start).value;
    CloseAfterOpen(text, start, end);
    var value := variables[TrimSpace(text[start + 3..end])];
    assert text == text[..start] + text[start..end + 2] + text[end + 2..];
    CountParts(text[..start], text[start..end + 2], text[end + 2..], c);
    CountParts(text[..start], value, text[end + 2..], c);
    CountNone(value, c);
    ReferenceCounts(text, start, end, c);
  }

  lemma {:induction false} RoundsCount(text: string, variables: Variables, c: char, k: nat)
    requires Free(variables, c) && Marks(c) && After(text, variables, k).Again?
    ensures Count(After(text, variables, k).text, c) + k <= Count(text, c)
  {
    hide Replace;
    if k > 0 {
      RoundsCount(text, variables, c, k - 1);
      RoundCounts(After(text, variables, k - 1).text, variables, c);
    }
  }

  /** If one of the three marker characters occurs in no value, the loop ends: it can run out of that character. */
  lemma ResolveEnds(text: string, variables: Variables, c: char, limit: nat)
    requires Free(variables, c) && Marks(c) && Count(text, c) < limit
    ensures !Resolve(text, variables, limit).Unfinished?
  {
    if After(text, variables, limit).Again? {
      RoundsCount(text, variables, c, limit);
    } else {
      EndsFinished(text, variables, limit);
    }
  }

  lemma {:induction false} EndsFinished(text: string, variables: Variables, k: nat)
    requires After(text, variables, k).Ends?
    ensures !After(text, variables, k).resolution.Unfinished?
  {
    if After(text, variables, k - 1).Ends? { EndsFinished(text, variables, k - 1); }
  }

  /** A variable whose value refers to itself keeps the loop running for ever. */
  lemma {:induction false} ResolveMayNotEnd(n: string, variables: Variables, limit: nat)
    requires n in variables && variables[n] == OPEN + n + CLOSE && Trimmed(n) && '}' !in n
    ensures Resolve(OPEN + n + CLOSE, variables, limit).Unfinished?
    ensures After(OPEN + n + CLOSE, variables, limit) == Again(OPEN + n + CLOSE)
  {
    hide Replace;
    if limit > 0 {
      TrimIdle(n);
      assert Reference([], n, []) == OPEN + n + CLOSE == [] + variables[n] + [];
      ReplaceReference([], n, [], variables);
      ResolveMayNotEnd(n, variables, limit - 1);
    }
  }

  /** A text with a reference between `pre` and `rest`. */
  function Reference(pre: string, body: string, rest: string): string {
    pre + (OPEN + body + CLOSE) + rest
  }

  lemma ReferenceParts(pre: string, body: string, rest: string)
    ensures var text, k := Reference(pre, body, rest), |pre| + 3 + |body|;
      && |text| == k + 2 + |rest|
      && text[..|pre|] == pre && Opens(text[|pre|..]) && text[|pre| + 3..k] == body
      && Closes(text[k..]) && text[k + 2..] == rest
  {
  }

  /** The first reference of a text is replaced. */
  lemma ReplaceReference(pre: string, body: string, rest: string, variables: Variables)
    requires '}' !in body && TrimSpace(body) in variables
    requires ClearUpTo(Reference(pre, body, rest), |pre|)
    ensures Replace(Reference(pre, body, rest), variables) == Again(pre + variables[TrimSpace(body)] + rest)
  {
    var text, end := Reference(pre, body, rest), |pre| + 3 + |body|;
    ReferenceParts(pre, body, rest);
    FirstOpen(text, |pre|);
    FirstClose(text, |pre|, end);
  }

  /** The loop ends at a first reference without a value, */
  lemma UndefinedEnds(pre: string, body: string, rest: string, variables: Variables)
    requires '}' !in body && TrimSpace(body) !in variables && ClearUpTo(pre + (OPEN + body + CLOSE) + rest, |pre|)
    ensures Replace(pre + (OPEN + body + CLOSE) + rest, variables) == Ends(Undefined(TrimSpace(body)))
  {
    hide TrimSpace;
    var text, end := Reference(pre, body, rest), |pre| + 3 + |body|;
    ReferenceParts(pre, body, rest);
    FirstOpen(text, |pre|);
    FirstClose(text, |pre|, end);
  }

  /** at an opening marker that nothing closes, */
  lemma UnclosedEnds(pre: string, rest: string, variables: Variables)
    requires ClearUpTo(pre + rest, |pre|) && Opens(rest) && !Contains(rest, CLOSE)
    ensures Replace(pre + rest, variables) == Ends(Unclosed(rest))
  {
    hide Opens;
    var text, start := pre + rest, |pre|;
    assert text[start..] == rest;
    FirstOpen(text, start);
    forall i: nat | start <= i
      ensures !At(text, i, CLOSE)
    {
      AtSuffix(text, start, i, CLOSE);
    }
    IndexIsFirst(text, CLOSE, start);
  }

  lemma AtSuffix(text: string, k: nat, i: nat, sub: string)
    requires k <= i && k <= |text|
    ensures At(text, i, sub) <==> At(text[k..], i - k, sub)
  {
    if i + |sub| <= |text| { assert text[k..][i - k..i - k + |sub|] == text[i..i + |sub|]; }
  }

  /** and when no opening marker is left. */
  lemma ResolvedEnds(text: string, variables: Variables)
    requires ClearUpTo(text, |text|)
    ensures Replace(text, variables) == Ends(Resolved(text))
  {
    NowhereOpen(text);
  }

  lemma NowhereOpen(text: string)
    requires ClearUpTo(text, |text|)
    ensures Index(text, OPEN, 0).None?
  {
    IndexIsFirst(text, OPEN, 0);
    if Index(text, OPEN, 0).Some? {
      OpensAt(text, Index(text, OPEN, 0).value);
    }
  }

  lemma FirstOpen(text: string, start: nat)
    requires start <= |text| && Opens(text[start..]) && ClearUpTo(text, start)
    ensures Index(text, OPEN, 0) == Some(start)
  {
    forall i: nat | i <= start { OpensAt(text, i); }
    IndexIs(text, OPEN, 0, start);
  }

  lemma FirstClose(text: string, start: nat, end: nat)
    requires start + 3 <= end <= |text| && Opens(text[start..]) && Closes(text[end..]) && '}' !in text[start + 3..end]
    ensures Index(text, CLOSE, start) == Some(end)
  {
    forall i: nat | start <= i <= end
      ensures At(text, i, CLOSE) <==> i == end
    {
      ClosesAt(text, i);
      if i < end {
        assert i >= start + 3 ==> text[start + 3..end][i - start - 3] == text[i];
      }
    }
    IndexIs(text, CLOSE, start, end);
  }

  // ----- The single pass -----

  /** The length of `s` up to the first `c`. */
  function Upto(s: string, c: char): (k: nat)
    ensures k <= |s| && c !in s[..k] && (k < |s| ==> s[k] == c)
  {
    if s == [] || s[0] == c then 0
    else
      var k := 1 + Upto(s[1..], c);
      assert s[..k] == [s[0]] + s[1..][..k - 1];
      k
  }

  lemma {:induction false} UptoIs(s: string, c: char, k: nat)
    requires k < |s| && s[k] == c && c !in s[..k]
    ensures Upto(s, c) == k
  {
    if k > 0 {
      assert s[..k] == [s[0]] + s[1..][..k - 1];
      UptoIs(s[1..], c, k - 1);
    }
  }

  lemma {:induction false} UptoAtMost(s: string, c: char, k: nat)
    requires k < |s| && s[k] == c
    ensures Upto(s, c) <= k
  {
    if k > 0 { UptoAtMost(s[1..], c, k - 1); }
  }

  /** The name part of a match of the pattern at the start of the text: at least one character, and no `}`. */
  function Body(text: string): (body: Option<string>)
    ensures body.Some? ==> |body.value| + 5 <= |text|
  {
    if !Opens(text) then None
    else
      var k := Upto(text[3..], '}');
      if k > 0 && Closes(text[3 + k..]) then Some(text[3..3 + k]) else None
  }

  /** InterpolateVariables: every match, from left to right, is replaced by its value, or kept if it has none. */
  function Interpolate(text: string, variables: Variables): string {
    if text == [] then []
    else
      match Body(text)
      case None => [text[0]] + Interpolate(text[1..], variables)
      case Some(body) =>
        var end := |body| + 5;
        (if TrimSpace(body) in variables then variables[TrimSpace(body)] else text[..end])
        + Interpolate(text[end..], variables)
  }

  lemma InterpolateCopies(text: string, variables: Variables)
    requires text != [] && !Opens(text)
    ensures Interpolate(text, variables) == [text[0]] + Interpolate(text[1..], variables)
  {
  }

  lemma {:induction false} InterpolateClear(text: string, variables: Variables, k: nat)
    requires k <= |text| && ClearUpTo(text, k)
    ensures Interpolate(text, variables) == text[..k] + Interpolate(text[k..], variables)
  {
    hide Interpolate;
    assert text[0..] == text;
    if k > 0 {
      var rest := text[1..];
      assert !Opens(text[0..]);
      assert forall i | 0 <= i < k - 1 :: rest[i..] == text[i + 1..];
      InterpolateCopies(text, variables);
      InterpolateClear(rest, variables, k - 1);
      assert rest[k - 1..] == text[k..];
      assert text[..k] == [text[0]] + rest[..k - 1];
    }
  }

  lemma ClearFrom(text: string, start: Option<nat>)
    requires start == Index(text, OPEN, 0)
    ensures ClearUpTo(text, if start.Some? then start.value else |text|)
    ensures start.Some? ==> Opens(text[start.value..])
  {
    IndexIsFirst(text, OPEN, 0);
    forall i | 0 <= i <= |text| { OpensAt(text, i); }
  }

  lemma BodyOf(body: string, rest: string)
    requires '}' !in body
    ensures Body(Reference([], body, rest)) == if body == [] then None else Some(body)
  {
    var text := Reference([], body, rest);
    ReferenceParts([], body, rest);
    assert text[0..] == text;
    assert text[3..][|body|] == text[3 + |body|..][0] == '}';
    assert text[3..][..|body|] == body;
    UptoIs(text[3..], '}', |body|);
  }

  /** What a reference is replaced by: its value, or itself if it has none. */
  function Replacement(body: string, variables: Variables): string {
    if TrimSpace(body) in variables then variables[TrimSpace(body)] else OPEN + body + CLOSE
  }

  /** The first reference of a text is replaced, or kept if it has no value, and the pass goes on behind it. */
  lemma InterpolateReference(pre: string, body: string, rest: string, variables: Variables)
    requires '}' !in body && body != [] && ClearUpTo(Reference(pre, body, rest), |pre|)
    ensures TrimSpace(body) in variables ==>
      Interpolate(pre + (OPEN + body + CLOSE) + rest, variables)
        == pre + variables[TrimSpace(body)] + Interpolate(rest, variables)
    ensures TrimSpace(body) !in variables ==>
      Interpolate(pre + (OPEN + body + CLOSE) + rest, variables)
        == pre + (OPEN + body + CLOSE) + Interpolate(rest, variables)
  {
    hide Interpolate, Body, Opens, TrimSpace;
    var text, tail := Reference(pre, body, rest), Reference([], body, rest);
    ReferenceParts(pre, body, rest);
    InterpolateClear(text, variables, |pre|);
    TailOfReference(pre, body, rest);
    BodyOf(body, rest);
    ReferenceParts([], body, rest);
    InterpolateHead(body, rest, variables);
    assert pre + (Replacement(body, variables) + Interpolate(rest, variables))
      == pre + Replacement(body, variables) + Interpolate(rest, variables);
  }

  lemma TailOfReference(pre: string, body: string, rest: string)
    ensures var text := Reference(pre, body, rest); |pre| <= |text| && text[|pre|..] == Reference([], body, rest)
  {
  }

  lemma InterpolateHead(body: string, rest: string, variables: Variables)
    requires Body(Reference([], body, rest)) == Some(body)
    ensures Interpolate(Reference([], body, rest), variables)
         == Replacement(body, variables) + Interpolate(rest, variables)
  {
    hide Body, TrimSpace;
    var text := Reference([], body, rest);
    ReferenceParts([], body, rest);
    assert text[..|body| + 5] == OPEN + body + CLOSE && text[|body| + 5..] == rest;
  }

  // ----- The two agree -----

  /** The text starts with an opening marker, or may do so when something is put behind it. */
  predicate MayOpen(text: string) {
    text != [] && text[0] == '$' && (|text| > 1 ==> text[1] == '{') && (|text| > 2 ==> text[2] == '{')
  }

  /** Nothing put behind the text makes an opening marker begin in it: a `$HOME` or a `${HOME}` is no harm. */
  predicate Settled(text: string) {
    forall i | 0 <= i < |text| :: !MayOpen(text[i..])
  }

  /** Names are not empty and have no `}`. */
  ghost predicate Plain(variables: Variables) {
    forall n | n in variables :: n != [] && '}' !in n && PlainValue(variables[n])
  }

  /** A value is neither empty nor starts with `{`, and no marker begins in it. */
  predicate PlainValue(value: string) {
    value != [] && Settled(value) && value[0] != '{'
  }

  /** Replacing a reference by a plain value opens no new one before its end. */
  lemma StaysClear(pre: string, value: string, rest: string, was: string)
    requires PlainValue(value) && |pre| <= |was| && was[..|pre|] == pre && ClearUpTo(was, |pre|)
    ensures ClearUpTo(pre + value + rest, |pre| + |value|)
  {
    var text := pre + value + rest;
    forall i | 0 <= i < |pre| + |value|
      ensures !Opens(text[i..])
    {
      if i >= |pre| {
        assert text[i..] == value[i - |pre|..] + rest;
        assert !MayOpen(value[i - |pre|..]);
      } else {
        assert !Opens(was[i..]);
        assert text[|pre|] == value[0];
        assert forall j | 0 <= j < |pre| :: text[j] == pre[j] == was[j];
      }
    }
  }

  /** The reference that a round replaces. */
  lemma RoundCut(text: string, variables: Variables) returns (pre: string, body: string, rest: string)
    requires Replace(text, variables).Again?
    ensures text == Reference(pre, body, rest) && ClearUpTo(text, |pre|)
    ensures TrimSpace(body) in variables && Replace(text, variables).text == pre + variables[TrimSpace(body)] + rest
  {
    var start := Index(text, OPEN, 0).value;
    var end := Index(text, CLOSE, start).value;
    CloseAfterOpen(text, start, end);
    pre, body, rest := text[..start], text[start + 3..end], text[end + 2..];
    CutReference(text, start, end);
    ClearFrom(text, Some(start));
  }

  lemma RoundParts(text: string, variables: Variables) returns (pre: string, body: string, rest: string)
    requires Plain(variables) && Replace(text, variables).Again?
    ensures text == Reference(pre, body, rest) && ClearUpTo(text, |pre|) && '}' !in body && body != []
    ensures TrimSpace(body) in variables && Replace(text, variables).text == pre + variables[TrimSpace(body)] + rest
  {
    hide Replace;
    pre, body, rest := RoundCut(text, variables);
    TrimKeeps(body, '}');
  }

  lemma CutReference(text: string, start: nat, end: nat)
    requires start + 3 <= end && At(text, start, OPEN) && At(text, end, CLOSE)
    ensures text == Reference(text[..start], text[start + 3..end], text[end + 2..])
  {
    assert text[start..end + 2] == text[start..start + 3] + text[start + 3..end] + text[end..end + 2];
    assert text == text[..start] + text[start..end + 2] + text[end + 2..];
  }

  lemma RoundKeepsInterpolation(text: string, variables: Variables)
    requires Plain(variables) && Replace(text, variables).Again?
    ensures Interpolate(Replace(text, variables).text, variables) == Interpolate(text, variables)
  {
    hide Replace, Interpolate;
    var pre, body, rest := RoundParts(text, variables);
    InterpolateReference(pre, body, rest, variables);
    ReferenceParts(pre, body, rest);
    RoundInterpolates(pre, variables[TrimSpace(body)], rest, text, variables);
  }

  lemma RoundInterpolates(pre: string, value: string, rest: string, was: string, variables: Variables)
    requires PlainValue(value) && |pre| <= |was| && was[..|pre|] == pre && ClearUpTo(was, |pre|)
    ensures Interpolate(pre + value + rest, variables) == pre + value + Interpolate(rest, variables)
  {
    var text := pre + value + rest;
    StaysClear(pre, value, rest, was);
    InterpolateClear(text, variables, |pre| + |value|);
    assert text[..|pre| + |value|] == pre + value && text[|pre| + |value|..] == rest;
  }

  lemma {:induction false} RoundsKeepInterpolation(text: string, variables: Variables, k: nat)
    requires Plain(variables) && After(text, variables, k).Again?
    ensures Interpolate(After(text, variables, k).text, variables) == Interpolate(text, variables)
  {
    hide Replace;
    if k > 0 {
      RoundsKeepInterpolation(text, variables, k - 1);
      RoundKeepsInterpolation(After(text, variables, k - 1).text, variables);
    }
  }

  /** The last round that the loop entered: the text it looked at has the interpolation of the original one. */
  lemma {:induction false} LastRound(text: string, variables: Variables, k: nat) returns (now: string)
    requires Plain(variables) && After(text, variables, k).Ends?
    ensures Replace(now, variables) == After(text, variables, k)
    ensures Interpolate(now, variables) == Interpolate(text, variables)
  {
    hide Replace;
    if After(text, variables, k - 1).Ends? {
      now := LastRound(text, variables, k - 1);
    } else {
      now := After(text, variables, k - 1).text;
      RoundsKeepInterpolation(text, variables, k - 1);
    }
  }

  lemma NothingToInterpolate(text: string, variables: Variables)
    requires Replace(text, variables) == Ends(Resolved(text)) && Index(text, OPEN, 0).None?
    ensures Interpolate(text, variables) == text
  {
    ClearFrom(text, None);
    InterpolateClear(text, variables, |text|);
    assert text[..|text|] == text && text[|text|..] == [];
  }

  /** What is copied, or kept for want of a value, keeps its opening marker. */
  lemma KeepsMarker(text: string, variables: Variables)
    requires Opens(text)
    requires Body(text).Some? ==> TrimSpace(Body(text).value) !in variables
    ensures Opens(Interpolate(text, variables))
  {
    if Body(text).None? {
      assert !Opens(text[1..]) && !Opens(text[2..]) && text[1..][1..] == text[2..];
      assert text[1..][0] == '{' && text[2..][0] == '{';
      assert Interpolate(text[1..], variables) == ['{'] + Interpolate(text[2..], variables);
      assert Interpolate(text[2..], variables) == ['{'] + Interpolate(text[2..][1..], variables);
    }
  }

  /** The loop fails at the first reference, if that is a match of the pattern, only for want of a value. */
  lemma FailsWithoutValue(text: string, variables: Variables, start: nat)
    requires Replace(text, variables).Ends? && start <= |text|
    requires Opens(text[start..]) && ClearUpTo(text, start) && Body(text[start..]).Some?
    ensures TrimSpace(Body(text[start..]).value) !in variables
  {
    var tail := text[start..];
    var body := Body(tail).value;
    var end := start + 3 + |body|;
    assert body == tail[3..][..|body|] && text[start + 3..end] == body && tail[3 + |body|..] == text[end..];
    FirstOpen(text, start);
    FirstClose(text, start, end);
  }

  /** A reference that the loop cannot replace is still there after the single pass. */
  lemma FailureLeavesMarker(text: string, variables: Variables, start: nat)
    requires Replace(text, variables).Ends? && Index(text, OPEN, 0) == Some(start)
    ensures Contains(Interpolate(text, variables), OPEN)
  {
    hide Replace, Interpolate, Body;
    var tail := text[start..];
    ClearFrom(text, Some(start));
    if Body(tail).Some? { FailsWithoutValue(text, variables, start); }
    KeepsMarker(tail, variables);
    InterpolateClear(text, variables, start);
    var all := Interpolate(text, variables);
    assert all[start..] == Interpolate(tail, variables);
    OpensAt(all, start);
  }

  // ----- How often the loop goes round -----

  /** At how many places an opening marker begins. */
  function Openings(text: string): nat {
    if text == [] then 0 else (if Opens(text) then 1 else 0) + Openings(text[1..])
  }

  lemma {:induction false} OpeningsOfSuffix(text: string, k: nat)
    requires k <= |text|
    ensures Openings(text[k..]) <= Openings(text)
    ensures ClearUpTo(text, k) ==> Openings(text[k..]) == Openings(text)
  {
    assert text[0..] == text;
    if k > 0 {
      var rest := text[1..];
      assert rest[k - 1..] == text[k..];
      OpeningsOfSuffix(rest, k - 1);
      if ClearUpTo(text, k) {
        assert forall i | 0 <= i < k - 1 :: rest[i..] == text[i + 1..];
      }
    }
  }

  /** A round takes an opening marker away, and a plain value adds none. */
  lemma RoundCloses(text: string, variables: Variables)
    requires Plain(variables) && Replace(text, variables).Again?
    ensures Openings(Replace(text, variables).text) < Openings(text)
  {
    hide Replace;
    var pre, body, rest := RoundParts(text, variables);
    var value := variables[TrimSpace(body)];
    ReferenceParts(pre, body, rest);
    ReplacedOpenings(pre, value, rest, text);
    OpeningsOfSuffix(text, |pre|);
    OpeningsOfSuffix(text[|pre|..][1..], |body| + 4);
    assert text[|pre|..][1..][|body| + 4..] == text[|pre| + 5 + |body|..] == rest;
  }

  lemma ReplacedOpenings(pre: string, value: string, rest: string, was: string)
    requires PlainValue(value) && |pre| <= |was| && was[..|pre|] == pre && ClearUpTo(was, |pre|)
    ensures Openings(pre + value + rest) == Openings(rest)
  {
    var text := pre + value + rest;
    StaysClear(pre, value, rest, was);
    OpeningsOfSuffix(text, |pre| + |value|);
    assert text[|pre| + |value|..] == rest;
  }

  lemma {:induction false} RoundsClose(text: string, variables: Variables, k: nat)
    requires Plain(variables) && After(text, variables, k).Again?
    ensures Openings(After(text, variables, k).text) + k <= Openings(text)
  {
    hide Replace, Openings;
    if k > 0 {
      RoundsClose(text, variables, k - 1);
      RoundCloses(After(text, variables, k - 1).text, variables);
    }
  }

  /** When the loop gives a text, it is the one that the single pass gives. */
  lemma ResolvesToInterpolation(text: string, variables: Variables, limit: nat)
    requires Plain(variables) && Resolve(text, variables, limit).Resolved?
    ensures Resolve(text, variables, limit).text == Interpolate(text, variables)
    ensures !Contains(Interpolate(text, variables), OPEN)
  {
    var now := LastRound(text, variables, limit);
    IndexNone(now, OPEN);
    NothingToInterpolate(now, variables);
  }

  /**
   For plain variables the loop ends after at most as many rounds as there are opening markers, and it succeeds
   exactly when the single pass leaves none; then both give the same text.
   */
  lemma InterpolatorsAgree(text: string, variables: Variables, limit: nat)
    requires Plain(variables) && Openings(text) < limit
    ensures Resolve(text, variables, limit).Resolved? <==> !Contains(Interpolate(text, variables), OPEN)
    ensures Resolve(text, variables, limit).Resolved?
      ==> Resolve(text, variables, limit).text == Interpolate(text, variables)
    ensures !Resolve(text, variables, limit).Unfinished?
  {
    if After(text, variables, limit).Again? {
      RoundsClose(text, variables, limit);
    } else {
      EndsFinished(text, variables, limit);
    }
    if Resolve(text, variables, limit).Resolved? {
      ResolvesToInterpolation(text, variables, limit);
    } else {
      var now := LastRound(text, variables, limit);
      FailureLeavesMarker(now, variables, Index(now, OPEN, 0).value);
    }
  }

  // ----- No condition on the variables is superfluous -----

  lemma TwoRounds(text: string, next: string, last: string, variables: Variables)
    requires Replace(text, variables) == Again(next) && Replace(next, variables) == Again(last)
    requires Replace(last, variables) == Ends(Resolved(last))
    ensures Resolve(text, variables, 3) == Resolved(last)
  {
    hide Replace;
    assert After(text, variables, 0) == Again(text);
    assert After(text, variables, 1) == Again(next);
    assert After(text, variables, 2) == Again(last);
  }

  lemma NoRound(text: string, variables: Variables)
    requires '$' !in text
    ensures Replace(text, variables) == Ends(Resolved(text))
  {
    IndexIsFirst(text, OPEN, 0);
    if Index(text, OPEN, 0).Some? { OpensAt(text, Index(text, OPEN, 0).value); }
  }

  /** Replacing the reference to `n` after `pre` yields a reference to `n` once more, which leaves `last`. */
  lemma ReopenedReference(pre: string, n: string, rest: string, variables: Variables, last: string)
    requires n != [] && Trimmed(n) && '}' !in n && n in variables && variables[n] == last
    requires Replace(last, variables) == Ends(Resolved(last))
    requires pre + last + rest == OPEN + n + CLOSE
    requires ClearUpTo(Reference(pre, n, rest), |pre|)
    ensures Resolve(Reference(pre, n, rest), variables, 3) == Resolved(last)
    ensures Interpolate(Reference(pre, n, rest), variables) == pre + last + Interpolate(rest, variables)
  {
    hide Replace, Interpolate;
    TrimIdle(n);
    ReplaceReference(pre, n, rest, variables);
    assert Reference([], n, []) == OPEN + n + CLOSE && [] + last + [] == last;
    ReplaceReference([], n, [], variables);
    TwoRounds(Reference(pre, n, rest), OPEN + n + CLOSE, last, variables);
    InterpolateReference(pre, n, rest, variables);
  }

  /** The loop gives a text within three rounds, and the single pass gives another one. */
  predicate ResolvesDifferently(text: string, variables: Variables) {
    var resolution := Resolve(text, variables, 3);
    resolution.Resolved? && resolution.text != Interpolate(text, variables)
  }

  /** An empty value closes the gap between a `$` and the braces behind the reference. */
  lemma EmptyValueMatters(n: string, variables: Variables)
    requires n != [] && Trimmed(n) && '}' !in n && n in variables && variables[n] == []
    ensures exists text :: ResolvesDifferently(text, variables)
  {
    var rest := "{{" + n + CLOSE;
    var text := Reference("$", n, rest);
    assert ClearUpTo(text, 1) by { assert text[0..][1] == '$'; }
    assert "$" + [] + rest == OPEN + n + CLOSE;
    NoRound([], variables);
    ReopenedReference("$", n, rest, variables, []);
    assert ResolvesDifferently(text, variables);
  }

  /** So does a brace at the start of a value. */
  lemma BraceValueMatters(n: string, variables: Variables)
    requires n != [] && Trimmed(n) && '}' !in n && n in variables && variables[n] == "{"
    ensures exists text :: ResolvesDifferently(text, variables)
  {
    var rest := n + CLOSE;
    var text := Reference("${", n, rest);
    assert ClearUpTo(text, 2) by { assert text[0..][2] == '$' && text[1..][0] == '{'; }
    assert "${" + "{" + rest == OPEN + n + CLOSE;
    NoRound("{", variables);
    ReopenedReference("${", n, rest, variables, "{");
    assert ResolvesDifferently(text, variables);
  }

  /** So does a `$` in front of braces. */
  lemma DollarValueMatters(n: string, variables: Variables)
    requires n != [] && Trimmed(n) && '}' !in n && n in variables && variables[n] == "$"
    ensures exists text :: ResolvesDifferently(text, variables)
  {
    var rest := "{{" + n + CLOSE;
    var text := Reference([], n, rest);
    assert [] + "$" + rest == OPEN + n + CLOSE;
    LoneDollar(variables);
    ReopenedReference([], n, rest, variables, "$");
    assert ResolvesDifferently(text, variables);
  }

  lemma LoneDollar(variables: Variables)
    ensures Replace("$", variables) == Ends(Resolved("$"))
  {
    IndexIsFirst("$", OPEN, 0);
  }

  /** So does half a marker in front of a brace. */
  lemma HalfMarkerMatters(n: string, variables: Variables)
    requires n != [] && Trimmed(n) && '}' !in n && n in variables && variables[n] == "${"
    ensures exists text :: ResolvesDifferently(text, variables)
  {
    var rest := "{" + n + CLOSE;
    var text := Reference([], n, rest);
    assert [] + "${" + rest == OPEN + n + CLOSE;
    IndexIsFirst("${", OPEN, 0);
    ReopenedReference([], n, rest, variables, "${");
    assert ResolvesDifferently(text, variables);
  }

  /** And a whole reference in a value is replaced by the loop only. */
  lemma NestedValueMatters(n: string, m: string, variables: Variables)
    requires n != [] && Trimmed(n) && '}' !in n && n in variables && variables[n] == OPEN + m + CLOSE
    requires Trimmed(m) && '}' !in m && m in variables && '$' !in variables[m]
    ensures exists text :: ResolvesDifferently(text, variables)
  {
    hide Replace, Interpolate;
    var text, next := Reference([], n, []), Reference([], m, []);
    assert next == OPEN + m + CLOSE;
    TrimIdle(n);
    TrimIdle(m);
    ReplaceReference([], n, [], variables);
    ReplaceReference([], m, [], variables);
    NoRound(variables[m], variables);
    assert [] + next + [] == next && [] + variables[m] + [] == variables[m];
    TwoRounds(text, next, variables[m], variables);
    InterpolateReference([], n, [], variables);
    NestedDiffers(text, next, variables, variables[m]);
  }

  lemma NestedDiffers(text: string, next: string, variables: Variables, last: string)
    requires Resolve(text, variables, 3) == Resolved(last) && '$' !in last
    requires Interpolate(text, variables) == [] + next + Interpolate([], variables) && next != [] && next[0] == '$'
    ensures ResolvesDifferently(text, variables)
  {
    assert Interpolate(text, variables)[0] == '$';
  }

  /** A name that is empty, or has a brace in it, which no other brace follows, not even behind the name. */
  predicate Odd(n: string) {
    Trimmed(n) && (n == [] || ('}' in n && !Contains(n + "}", CLOSE)))
  }

  /** The loop finds such a name; the pattern does not match it. */
  lemma OddNamesMatter(n: string, variables: Variables)
    requires Odd(n) && n in variables && '$' !in variables[n]
    ensures Resolve(OPEN + n + CLOSE, variables, 2) == Resolved(variables[n])
    ensures Opens(Interpolate(OPEN + n + CLOSE, variables))
  {
    hide Replace, Interpolate;
    var text := OPEN + n + CLOSE;
    OddNameCloses(n, text);
    OddNameReplaced(n, text, variables);
    NoRound(variables[n], variables);
    assert After(text, variables, 0) == Again(text);
    assert After(text, variables, 1) == Again(variables[n]);
    KeepsMarker(text, variables);
  }

  lemma OddNameReplaced(n: string, text: string, variables: Variables)
    requires Trimmed(n) && n in variables && text == OPEN + n + CLOSE
    requires Index(text, OPEN, 0) == Some(0) && Index(text, CLOSE, 0) == Some(|n| + 3)
    ensures Replace(text, variables) == Again(variables[n])
  {
    assert text[3..|n| + 3] == n;
    TrimIdle(n);
    assert text[..0] + variables[n] + text[|n| + 5..] == variables[n];
  }

  /** A brace of an odd name, followed by another one, would have to be the first of the closing ones. */
  lemma OddNamePairs(n: string, j: nat)
    requires Odd(n) && j < |n| && n[j] == '}'
    ensures (n + CLOSE)[j + 1] != '}'
  {
    var near := n + "}";
    assert !At(near, j, CLOSE);
    ClosesAt(near, j);
    assert (n + CLOSE)[j + 1] == near[j + 1];
  }

  lemma OddNameCloses(n: string, text: string)
    requires Odd(n) && text == OPEN + n + CLOSE
    ensures Index(text, OPEN, 0) == Some(0) && Index(text, CLOSE, 0) == Some(|n| + 3)
    ensures Opens(text) && Body(text).None?
  {
    assert text[0..] == text;
    OpensAt(text, 0);
    assert text[3..] == n + CLOSE;
    forall j: nat | j <= |n| + 3
      ensures At(text, j, CLOSE) <==> j == |n| + 3
    {
      ClosesAt(text, j);
      if 3 <= j < |n| + 3 && n[j - 3] == '}' { OddNamePairs(n, j - 3); }
    }
    IndexIs(text, CLOSE, 0, |n| + 3);
    OddNameHasNoBody(n, text);
  }

  lemma OddNameHasNoBody(n: string, text: string)
    requires Odd(n) && text == OPEN + n + CLOSE
    ensures Body(text).None?
  {
    var tail := text[3..];
    assert tail == n + CLOSE;
    var k := Upto(tail, '}');
    if n == [] {
      UptoIs(tail, '}', 0);
    } else {
      var j :| 0 <= j < |n| && n[j] == '}';
      UptoAtMost(tail, '}', j);
      OddNamePairs(n, k);
      assert text[3 + k..] == tail[k..];
    }
  }
}
