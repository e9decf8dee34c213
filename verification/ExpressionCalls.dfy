/** What the built-in functions of conditions evaluate to. */
module ExpressionCalls {
  import opened StageTypes
  import opened Text
  import opened Expression
  import opened ExpressionLaws
  import opened ExpressionValues

  // ----- Recognising a call -----

  predicate Word(s: string) {
    s != [] && forall i | 0 <= i < |s| :: IsWord(s[i])
  }

  /** The text between the parentheses, without the characters at which other parsers split. */
  predicate Inner(s: string) {
    forall i | 0 <= i < |s| :: s[i] !in "&|=<>\n"
  }

  /** One argument. */
  predicate Argument(s: string) {
    Inner(s) && ',' !in s
  }

  lemma {:induction false} WordLengthIs(name: string, rest: string)
    requires (forall i | 0 <= i < |name| :: IsWord(name[i])) && rest != [] && !IsWord(rest[0])
    ensures WordLength(name + rest) == |name|
  {
    if name == [] {
      assert name + rest == rest;
    } else {
      assert (name + rest)[1..] == name[1..] + rest;
      WordLengthIs(name[1..], rest);
    }
  }

  function Written(name: string, inner: string): string {
    name + "(" + inner + ")"
  }

  lemma CallPartsIs(name: string, inner: string)
    requires Word(name) && '\n' !in inner
    ensures CallParts(Written(name, inner)) == Some((name, inner))
  {
    var e, rest := Written(name, inner), "(" + inner + ")";
    assert e == name + rest;
    WordLengthIs(name, rest);
    assert e[..|name|] == name && e[|name|] == '(' && e[|name| + 1..|e| - 1] == inner;
  }

  lemma WordIsVisible(c: char)
    requires IsWord(c)
    ensures !IsSpace(c) && c != '(' && c != '!' && c !in "&|=<>"
  {
  }

  lemma CallLacks(name: string, inner: string)
    requires Word(name) && Inner(inner)
    ensures var e := Written(name, inner);
      Starts(e) && '&' !in e && '|' !in e && '=' !in e && '<' !in e && '>' !in e
  {
    hide IsSpace, IsWord;
    var e := Written(name, inner);
    forall i | 0 <= i < |name| { WordIsVisible(name[i]); }
    WordIsVisible(name[0]);
    VisibleClose();
    assert e[0] == name[0] && e[|e| - 1] == ')';
    forall i | 0 <= i < |e|
      ensures e[i] !in "&|=<>"
    {
      assert i < |name| ==> e[i] == name[i];
      assert |name| < i < |e| - 1 ==> e[i] == inner[i - |name| - 1];
    }
    NoneOf(e);
  }

  lemma VisibleClose()
    ensures !IsSpace(')')
  {
  }

  lemma NoneOf(e: string)
    requires forall i | 0 <= i < |e| :: e[i] !in "&|=<>"
    ensures '&' !in e && '|' !in e && '=' !in e && '<' !in e && '>' !in e
  {
    assert '&' in "&|=<>" && '|' in "&|=<>" && '=' in "&|=<>" && '<' in "&|=<>" && '>' in "&|=<>";
  }

  /** Such a text is a call, and if the call fails, it is looked up as a variable. */
  lemma CallParses(name: string, inner: string, ctx: Context)
    requires Word(name) && Inner(inner)
    ensures Parse(Written(name, inner), ctx) == Unrelated(Written(name, inner), ctx)
  {
    hide Parse, ParseLogical, ParseComparison, Unrelated, Written, Word, Inner;
    var e := Written(name, inner);
    CallLacks(name, inner);
    OperatorNone(e, '&');
    OperatorNone(e, '|');
    NotLogical(e, ctx);
    WithoutComparison(e, ctx);
    UncomparedParses(e, ctx);
  }

  /** Letters, digits and the underscore make a name. */
  predicate NameChar(c: char) {
    var n := c as int;
    48 <= n <= 57 || 65 <= n <= 90 || n == 95 || 97 <= n <= 122
  }

  /** Another character in the name, or a line break in the list of arguments, and the text is no call. */
  lemma NoCallExactly(name: string, inner: string)
    requires name != [] && '(' !in name
    ensures CallParts(Written(name, inner)).Some?
      <==> '\n' !in inner && forall i | 0 <= i < |name| :: NameChar(name[i])
  {
    var e := Written(name, inner);
    if i :| 0 <= i < |name| && !NameChar(name[i]) {
      assert e[i] == name[i];
      WordLengthStops(e, i);
      var k := WordLength(e);
      assert e[k] == name[k] && name[k] in name;
    } else {
      WordLengthIs(name, "(" + inner + ")");
      assert e == name + ("(" + inner + ")");
      assert e[|name| + 1..|e| - 1] == inner;
    }
  }

  lemma {:induction false} WordLengthStops(s: string, i: nat)
    requires i < |s| && !IsWord(s[i])
    ensures WordLength(s) <= i
  {
    if i > 0 { WordLengthStops(s[1..], i - 1); }
  }

  // ----- Arguments -----

  lemma OnePart(a: string)
    requires ',' !in a
    ensures Commas(a) == [a]
  {
    IndexNeeds(a, ",", 0);
  }

  lemma TwoParts(a: string, b: string)
    requires ',' !in a && ',' !in b
    ensures Commas(a + "," + b) == [a, b]
  {
    var s := a + "," + b;
    forall j: nat
      ensures At(s, j, ",") <==> j == |a|
    {
      if At(s, j, ",") { AtHas(s, j, ",", 0); }
      if j == |a| { assert s[j..j + 1] == ","; }
      assert j < |a| ==> s[j] == a[j];
      assert |a| < j < |s| ==> s[j] == b[j - |a| - 1];
    }
    IndexIs(s, ",", 0, |a|);
    assert s[..|a|] == a && s[|a| + 1..] == b;
    OnePart(b);
  }

  lemma ArgumentsCons(parts: seq<string>, whole: string, ctx: Context, v: Value, vs: seq<Value>)
    requires parts != [] && forall p | p in parts :: |p| < |whole|
    requires Parse(parts[0], ctx) == Ok(v) && ParseArguments(parts[1..], whole, ctx) == Ok(vs)
    ensures ParseArguments(parts, whole, ctx) == Ok([v] + vs)
  {
    hide Parse;
    assert parts[0] in parts;
    ParseTrims(parts[0], ctx);
  }

  lemma NoArguments(whole: string, ctx: Context)
    ensures ParseArguments([], whole, ctx) == Ok([])
  {
  }

  lemma OneParses(a: string, whole: string, ctx: Context, v: Value)
    requires |a| < |whole| && Parse(a, ctx) == Ok(v)
    ensures ParseArguments([a], whole, ctx) == Ok([v])
  {
    hide Parse, ParseArguments;
    NoArguments(whole, ctx);
    assert [a][1..] == [] && [v] + [] == [v];
    ArgumentsCons([a], whole, ctx, v, []);
  }

  lemma TwoParse(a: string, b: string, whole: string, ctx: Context, v: Value, w: Value)
    requires |a| < |whole| && |b| < |whole| && Parse(a, ctx) == Ok(v) && Parse(b, ctx) == Ok(w)
    ensures ParseArguments([a, b], whole, ctx) == Ok([v, w])
  {
    hide Parse, ParseArguments;
    OneParses(b, whole, ctx, w);
    assert [a, b][1..] == [b] && [v] + [w] == [v, w];
    ArgumentsCons([a, b], whole, ctx, v, [w]);
  }

  /** Arguments with commas between them. */
  function Joined(parts: seq<string>): string
    requires parts != []
  {
    if |parts| == 1 then parts[0] else parts[0] + "," + Joined(parts[1..])
  }

  lemma {:induction false} JoinedSplits(parts: seq<string>)
    requires parts != [] && forall p | p in parts :: ',' !in p
    ensures Commas(Joined(parts)) == parts
    ensures forall p | p in parts :: |p| <= |Joined(parts)|
  {
    hide Index, At;
    assert parts[0] in parts && forall p | p in parts[1..] :: p in parts;
    assert parts == [parts[0]] + parts[1..];
    if |parts| == 1 {
      OnePart(parts[0]);
    } else {
      JoinedSplits(parts[1..]);
      FirstComma(parts[0], Joined(parts[1..]));
    }
  }

  lemma FirstComma(a: string, rest: string)
    requires ',' !in a
    ensures Commas(a + "," + rest) == [a] + Commas(rest)
  {
    var s := a + "," + rest;
    forall j: nat | j <= |a|
      ensures At(s, j, ",") <==> j == |a|
    {
      assert j < |a| ==> s[j] == a[j];
      assert s[j..j + 1] == [s[j]];
    }
    IndexIs(s, ",", 0, |a|);
    assert s[..|a|] == a && s[|a| + 1..] == rest;
  }

  predicate ParsedAs(parts: seq<string>, ctx: Context, result: Outcome<seq<Value>>) {
    && result.Ok? && |result.value| == |parts|
    && forall j | 0 <= j < |parts| :: Parse(parts[j], ctx) == Ok(result.value[j])
  }

  /** The first argument that does not evaluate decides; if all do, all their values are passed on. */
  lemma {:induction false} ArgumentsEvaluate(parts: seq<string>, whole: string, ctx: Context, i: nat)
    requires i <= |parts| && forall p | p in parts :: |p| < |whole|
    requires forall j | 0 <= j < i :: Parse(parts[j], ctx).Ok?
    ensures i < |parts| && Parse(parts[i], ctx).Fail? ==> ParseArguments(parts, whole, ctx) == Fail
    ensures i < |parts| && Parse(parts[i], ctx).Panic? ==> ParseArguments(parts, whole, ctx) == Panic
    ensures i == |parts| ==> ParsedAs(parts, ctx, ParseArguments(parts, whole, ctx))
  {
    hide Parse;
    if parts == [] {
      NoArguments(whole, ctx);
    } else {
      ParseTrims(parts[0], ctx);
      assert parts[0] in parts && forall p | p in parts[1..] :: p in parts;
      if i > 0 {
        assert forall j | 0 <= j < i - 1 :: parts[1..][j] == parts[j + 1];
        ArgumentsEvaluate(parts[1..], whole, ctx, i - 1);
      }
    }
  }

  lemma JoinedIsInner(parts: seq<string>)
    requires parts != [] && forall p | p in parts :: Argument(p)
    ensures Inner(Joined(parts))
  {
    assert parts[0] in parts && forall p | p in parts[1..] :: p in parts;
    if |parts| > 1 { JoinedIsInner(parts[1..]); }
  }

  /**
   A call with any number of arguments: if one does not evaluate, or if the function does not take so many, the
   whole text is looked up as a variable; a text that breaks off breaks the call off.
   */
  lemma CallsFail(name: string, parts: seq<string>, i: nat, ctx: Context)
    requires Word(name) && parts != [] && Joined(parts) != "" && forall p | p in parts :: Argument(p)
    requires i <= |parts| && forall j | 0 <= j < i :: Parse(parts[j], ctx).Ok?
    requires i == |parts| ==> |parts| != (if name == "fileExists" then 1 else 2)
    requires i < |parts| ==> !Parse(parts[i], ctx).Ok?
    ensures var e := name + "(" + Joined(parts) + ")";
      Parse(e, ctx) == if i < |parts| && Parse(parts[i], ctx).Panic? then Panic else ParseVariable(e, ctx)
  {
    hide Parse, Call, CallParts, Commas, ParseArguments, Word, ParseVariable, Joined, Argument;
    var inner := Joined(parts);
    var e := Written(name, inner);
    JoinedIsInner(parts);
    forall p | p in parts { ArgumentHasNoComma(p); }
    InnerHasNoBreak(inner);
    JoinedSplits(parts);
    CallPartsIs(name, inner);
    ArgumentsEvaluate(parts, e, ctx, i);
    forall args: seq<Value> | |args| == |parts| && i == |parts| { NoSuchFunction(name, args, ctx); }
    CallParses(name, inner, ctx);
  }

  lemma ArgumentHasNoComma(p: string)
    requires Argument(p)
    ensures ',' !in p
  {
  }

  lemma InnerHasNoBreak(s: string)
    requires Inner(s)
    ensures '\n' !in s
  {
  }

  lemma OneArgument(name: string, a: string, v: Value, ctx: Context)
    requires Word(name) && Argument(a) && a != "" && Parse(a, ctx) == Ok(v)
    ensures ParseCall(Written(name, a), ctx) == Call(name, [v], ctx)
  {
    hide Parse, Call, CallParts, Commas, ParseArguments;
    CallPartsIs(name, a);
    OnePart(a);
    OneParses(a, Written(name, a), ctx, v);
  }

  lemma TwoArguments(name: string, a: string, b: string, v: Value, w: Value, ctx: Context)
    requires Word(name) && Argument(a) && Argument(b) && Parse(a, ctx) == Ok(v) && Parse(b, ctx) == Ok(w)
    ensures ParseCall(Written(name, a + "," + b), ctx) == Call(name, [v, w], ctx)
  {
    hide Parse, Call, CallParts, Commas, ParseArguments;
    var inner := a + "," + b;
    CallPartsIs(name, inner);
    TwoParts(a, b);
    TwoParse(a, b, Written(name, inner), ctx, v, w);
  }

  lemma InnerOfTwo(a: string, b: string)
    requires Argument(a) && Argument(b)
    ensures Inner(a + "," + b)
  {
  }

  // ----- The functions -----

  /** How a value is read as a text. */
  predicate Reads(ctx: Context, v: Value, text: string) {
    match v
    case Str(t) => text == t
    case Bool(flag) => text == if flag then "true" else "false"
    case Number(num) => text == ctx.formatFloat(num)
  }

  /** `y` stands somewhere in `x`. */
  ghost predicate Within(x: string, y: string) {
    exists pre, post :: x == pre + y + post
  }

  lemma ContainsExactly(x: string, y: string)
    ensures Contains(x, y) <==> Within(x, y)
  {
    if i: nat :| i <= |x| && At(x, i, y) {
      assert x == x[..i] + y + x[i + |y|..];
    }
    if pre, post :| x == pre + y + post {
      assert x[|pre|..|pre| + |y|] == y;
      assert At(x, |pre|, y);
    }
  }

  ghost predicate Begins(x: string, y: string) {
    exists post :: x == y + post
  }

  ghost predicate Ends(x: string, y: string) {
    exists pre :: x == pre + y
  }

  lemma EndsExactly(x: string, y: string)
    ensures |y| <= |x| && x[|x| - |y|..] == y <==> Ends(x, y)
  {
    if |y| <= |x| && x[|x| - |y|..] == y { assert x == x[..|x| - |y|] + y; }
  }

  lemma StartsExactly(x: string, y: string)
    ensures y <= x <==> Begins(x, y)
  {
    if y <= x { assert x == y + x[|y|..]; }
  }

  lemma ReadsText(ctx: Context, v: Value, x: string)
    requires Reads(ctx, v, x)
    ensures ToString(ctx, v) == x
  {
  }

  lemma CallUnfolds(name: string, v: Value, w: Value, x: string, y: string, ctx: Context)
    requires Reads(ctx, v, x) && Reads(ctx, w, y)
    ensures name == "contains" ==> Call(name, [v, w], ctx) == Ok(Bool(Within(x, y)))
    ensures name == "startsWith" ==> Call(name, [v, w], ctx) == Ok(Bool(Begins(x, y)))
    ensures name == "endsWith" ==> Call(name, [v, w], ctx) == Ok(Bool(Ends(x, y)))
    ensures name == "matches" ==> Call(name, [v, w], ctx) == Matched(ctx.matchRegexp(y, x))
    ensures name == "semverCompare" ==> Call(name, [v, w], ctx) == Ordered(ctx.compareVersions(x, y))
  {
    hide Contains, Within, Begins, Ends, Reads, ToString;
    ReadsText(ctx, v, x);
    ReadsText(ctx, w, y);
    ContainsExactly(x, y);
    StartsExactly(x, y);
    EndsExactly(x, y);
  }

  function Matched(answer: Option<bool>): Outcome<Value> {
    if answer.Some? then Ok(Bool(answer.value)) else Fail
  }

  function Ordered(answer: Option<int>): Outcome<Value> {
    if answer.Some? then Ok(Number(Finite(answer.value as real))) else Fail
  }

  /** What a call of two arguments comes to, or the whole text as a variable if that is an error. */
  lemma CallOfTwo(name: string, a: string, b: string, v: Value, w: Value, result: Outcome<Value>, ctx: Context)
    requires Word(name) && Argument(a) && Argument(b) && Parse(a, ctx) == Ok(v) && Parse(b, ctx) == Ok(w)
    requires Call(name, [v, w], ctx) == result
    ensures var e := Written(name, a + "," + b);
      Parse(e, ctx) == if result.Fail? then ParseVariable(e, ctx) else result
  {
    hide Parse, ParseCall, Call, Written, Word, Argument, ParseVariable;
    InnerOfTwo(a, b);
    CallParses(name, a + "," + b, ctx);
    TwoArguments(name, a, b, v, w, ctx);
  }

  predicate TwoReads(a: string, b: string, x: string, y: string, ctx: Context) {
    && Argument(a) && Argument(b) && Parse(a, ctx).Ok? && Parse(b, ctx).Ok?
    && Reads(ctx, Parse(a, ctx).value, x) && Reads(ctx, Parse(b, ctx).value, y)
  }

  lemma Words()
    ensures Word("contains") && Word("startsWith") && Word("endsWith") && Word("matches") && Word("semverCompare")
    ensures Word("fileExists")
  {
  }

  /** The functions on two texts: the second one is sought in, at the start or at the end of the first one. */
  lemma TextFunctionsEvaluate(a: string, b: string, x: string, y: string, ctx: Context)
    requires TwoReads(a, b, x, y, ctx)
    ensures Parse("contains" + "(" + (a + "," + b) + ")", ctx) == Ok(Bool(Within(x, y)))
    ensures Parse("startsWith" + "(" + (a + "," + b) + ")", ctx) == Ok(Bool(Begins(x, y)))
    ensures Parse("endsWith" + "(" + (a + "," + b) + ")", ctx) == Ok(Bool(Ends(x, y)))
  {
    hide Parse, Call, Within, Begins, Ends, Word, Argument, Reads;
    var v, w := Parse(a, ctx).value, Parse(b, ctx).value;
    Words();
    CallUnfolds("contains", v, w, x, y, ctx);
    CallUnfolds("startsWith", v, w, x, y, ctx);
    CallUnfolds("endsWith", v, w, x, y, ctx);
    CallOfTwo("contains", a, b, v, w, Ok(Bool(Within(x, y))), ctx);
    CallOfTwo("startsWith", a, b, v, w, Ok(Bool(Begins(x, y))), ctx);
    CallOfTwo("endsWith", a, b, v, w, Ok(Bool(Ends(x, y))), ctx);
  }

  /** The first text is matched against the second one as a pattern. */
  lemma MatchesEvaluates(a: string, b: string, x: string, y: string, ctx: Context)
    requires TwoReads(a, b, x, y, ctx)
    ensures var e := "matches" + "(" + (a + "," + b) + ")";
      Parse(e, ctx) ==
        match ctx.matchRegexp(y, x) { case Some(found) => Ok(Bool(found)) case None => ParseVariable(e, ctx) }
  {
    hide Parse, Call, Word, Argument, Reads, ParseVariable;
    var v, w := Parse(a, ctx).value, Parse(b, ctx).value;
    Words();
    CallUnfolds("matches", v, w, x, y, ctx);
    CallOfTwo("matches", a, b, v, w, Matched(ctx.matchRegexp(y, x)), ctx);
  }

  lemma VersionsEvaluate(a: string, b: string, x: string, y: string, ctx: Context)
    requires TwoReads(a, b, x, y, ctx)
    ensures var e := "semverCompare" + "(" + (a + "," + b) + ")";
      Parse(e, ctx) ==
        match ctx.compareVersions(x, y) {
          case Some(c) => Ok(Number(Finite(c as real)))
          case None => ParseVariable(e, ctx)
        }
  {
    hide Parse, Call, Word, Argument, Reads, ParseVariable;
    var v, w := Parse(a, ctx).value, Parse(b, ctx).value;
    Words();
    CallUnfolds("semverCompare", v, w, x, y, ctx);
    CallOfTwo("semverCompare", a, b, v, w, Ordered(ctx.compareVersions(x, y)), ctx);
  }

  lemma FileExistsEvaluates(a: string, x: string, ctx: Context)
    requires Argument(a) && a != "" && Parse(a, ctx).Ok? && Reads(ctx, Parse(a, ctx).value, x)
    ensures Parse("fileExists" + "(" + a + ")", ctx) == Ok(Bool(ctx.fileExists(x)))
  {
    hide Parse, ParseCall, Call, Word;
    Words();
    OneArgument("fileExists", a, Parse(a, ctx).value, ctx);
    CallParses("fileExists", a, ctx);
    FileCall(Parse(a, ctx).value, x, ctx);
  }

  lemma FileCall(v: Value, x: string, ctx: Context)
    requires Reads(ctx, v, x)
    ensures Call("fileExists", [v], ctx) == Ok(Bool(ctx.fileExists(x)))
  {
  }

  const FUNCTIONS := ["contains", "startsWith", "endsWith", "matches", "semverCompare"]

  /** Any other name or number of arguments is no call, so the whole text is looked up as a variable. */
  lemma OtherCallsFail(name: string, a: string, b: string, v: Value, w: Value, ctx: Context)
    requires Word(name) && Argument(a) && a != "" && Argument(b) && Parse(a, ctx) == Ok(v) && Parse(b, ctx) == Ok(w)
    ensures name !in FUNCTIONS
      ==> Parse(name + "(" + (a + "," + b) + ")", ctx) == ParseVariable(name + "(" + (a + "," + b) + ")", ctx)
    ensures name != "fileExists"
      ==> Parse(name + "(" + a + ")", ctx) == ParseVariable(name + "(" + a + ")", ctx)
  {
    hide Parse, ParseCall, Call, Word, Argument, ParseVariable;
    if name !in FUNCTIONS {
      NoSuchFunction(name, [v, w], ctx);
      CallOfTwo(name, a, b, v, w, Fail, ctx);
    }
    if name != "fileExists" {
      NoSuchFunction(name, [v], ctx);
      OneArgument(name, a, v, ctx);
      ArgumentIsInner(a);
      CallParses(name, a, ctx);
    }
  }

  lemma ArgumentIsInner(a: string)
    requires Argument(a)
    ensures Inner(a)
  {
  }

  lemma NoSuchFunction(name: string, args: seq<Value>, ctx: Context)
    requires if name == "fileExists" then |args| != 1 else |args| != 2 || name !in FUNCTIONS
    ensures Call(name, args, ctx) == Fail
  {
    assert "contains" in FUNCTIONS && "startsWith" in FUNCTIONS && "endsWith" in FUNCTIONS;
    assert "matches" in FUNCTIONS && "semverCompare" in FUNCTIONS;
  }
}
