/** Texts that the evaluator takes for something else than they look like. */
module ExpressionTraps {
  import opened StageTypes
  import opened Text
  import opened Expression
  import opened ExpressionLaws

  // ----- Two groups -----

  /** The text in a group: nothing to trim, no parentheses and no logical operators. Quotes are welcome. */
  predicate Bare(s: string) {
    s != [] && Trimmed(s) && forall i | 0 <= i < |s| :: s[i] !in "()&|"
  }

  /** Two groups and the character of the operator between them. */
  predicate Groups(x: string, c: char, y: string) {
    Bare(x) && Bare(y) && x[0] != '!' && (c == '&' || c == '|')
  }

  /** What is left of two groups around an operator when the outer parentheses are taken off. */
  function Torn(x: string, c: char, y: string): string {
    x + ")" + [' ', c, c, ' '] + "(" + y
  }

  function Grouped(x: string, c: char, y: string): string {
    "(" + x + ")" + [' ', c, c, ' '] + "(" + y + ")"
  }

  /** No comparison operator divides the text in two: each is absent or repeated. */
  predicate Unsplit(e: string) {
    forall j | 0 <= j < |OPERATORS| :: SplitTwo(e, OPERATORS[j].0) == None
  }

  /** The text begins and ends with the same quote. */
  predicate Quoted(e: string) {
    Enclosed(e, '\'', '\'') || Enclosed(e, '"', '"')
  }

  /** A text taken as one operand: a quoted string, a number or the name of a variable. */
  function Taken(e: string, ctx: Context): Outcome<Value> {
    if |e| > 1 && Quoted(e) then Ok(Str(e[1..|e| - 1]))
    else if ctx.parseFloat(e).Some? then Ok(Number(ctx.parseFloat(e).value))
    else match ResolveVariable(e, ctx) { case Some(value) => Ok(Str(value)) case None => Fail }
  }

  lemma {:induction false} BareDepth(s: string)
    requires '(' !in s && ')' !in s
    ensures Depth(s) == 0
  {
    if s != [] { BareDepth(s[..|s| - 1]); }
  }

  lemma TornParts(x: string, c: char, y: string)
    requires Groups(x, c, y)
    ensures var e := Torn(x, c, y);
      && Starts(e) && e[0] == x[0] && e[|e| - 1] == y[|y| - 1] != ')'
      && |e| == |x| + 6 + |y| && e[|x|] == ')' && ')' in e
  {
    var e := Torn(x, c, y);
    assert e[0] == x[0] && e[|e| - 1] == y[|y| - 1] && e[|x|] == ')';
  }

  lemma TornLacks(x: string, c: char, y: string, d: char)
    requires Groups(x, c, y) && (d == '&' || d == '|') && d != c
    ensures d !in Torn(x, c, y)
  {
    assert d !in ")" + [' ', c, c, ' '] + "(";
    assert d !in x && d !in y;
  }

  /** The one operator stands behind a parenthesis that was never opened. */
  lemma TornOperator(x: string, c: char, y: string)
    requires Groups(x, c, y)
    ensures Operator(Torn(x, c, y), c, 0) == None
  {
    var e, at := Torn(x, c, y), |x| + 2;
    forall j: nat
      ensures !TopLevelAt(e, j, c)
    {
      if OperatorAt(e, j, c) {
        TornAt(x, c, y, j);
        TornDepth(x);
        assert e[..at] == x + ") ";
      }
    }
    OperatorIsFirst(e, c, 0);
  }

  lemma TornAt(x: string, c: char, y: string, j: nat)
    requires Groups(x, c, y) && OperatorAt(Torn(x, c, y), j, c)
    ensures j == |x| + 2
  {
    var e := Torn(x, c, y);
    assert forall i | 0 <= i < |x| :: e[i] == x[i];
    assert forall i | |x| + 6 <= i < |e| :: e[i] == y[i - |x| - 6];
    assert e[|x|] == ')' && e[|x| + 1] == ' ' && e[|x| + 4] == ' ' && e[|x| + 5] == '(';
  }

  lemma TornDepth(x: string)
    requires Bare(x)
    ensures Depth(x + ") ") == -1
  {
    BareDepth(x);
    DepthConcat(x, ") ");
    assert ") "[..1] == ")" && ")"[..0] == "";
    assert Depth(")") == -1;
  }

  /**
   Outer parentheses are taken off by their looks, even when they do not belong together. So an operator between
   two groups is never seen: the text in between is taken for a comparison, a call or a variable.
   */
  lemma OperatorIsLost(x: string, c: char, y: string, ctx: Context)
    requires Groups(x, c, y)
    ensures Parse(Grouped(x, c, y), ctx) == Otherwise(Torn(x, c, y), ctx)
  {
    hide Parse, ParseLogical, Otherwise;
    var e := Torn(x, c, y);
    assert Grouped(x, c, y) == "(" + e + ")";
    ParseEnclosed(e, ctx);
    TornParts(x, c, y);
    TornOperator(x, c, y);
    var d := if c == '&' then '|' else '&';
    TornLacks(x, c, y, d);
    OperatorNone(e, d);
    NotLogical(e, ctx);
    TrimIdle(e);
    ParseUnfolds(e, ctx);
  }

  /** Unless a comparison operator divides it, that text is one operand. */
  lemma TwoGroupsAreOneName(x: string, c: char, y: string, ctx: Context)
    requires Groups(x, c, y) && Unsplit(Torn(x, c, y))
    ensures Parse(Grouped(x, c, y), ctx) == ParseVariable(Torn(x, c, y), ctx)
  {
    hide Parse, ParseComparison, ParseCall, ParseVariable, SplitTwo;
    var e := Torn(x, c, y);
    OperatorIsLost(x, c, y, ctx);
    TornParts(x, c, y);
    NoComparison(e, ctx, 0);
    NotCall(e, ctx);
  }

  /**
   Exactly what two groups around an operator evaluate to: a quoted string when the first begins and the second
   ends with the same quote, else a number or a variable with that text, else an error. None of it depends on
   what the groups evaluate to.
   */
  lemma TwoGroupsExactly(x: string, c: char, y: string, ctx: Context)
    requires Groups(x, c, y) && Unsplit(Torn(x, c, y))
    ensures Quoted(Torn(x, c, y)) <==> x[0] == y[|y| - 1] && x[0] in "'\""
    ensures Parse(Grouped(x, c, y), ctx) == Taken(Torn(x, c, y), ctx)
  {
    hide Parse, ResolveVariable, Unsplit;
    TwoGroupsAreOneName(x, c, y, ctx);
    TornParts(x, c, y);
  }

  /** In the first case the condition holds, whatever is in the groups and in the context. */
  lemma QuotedGroupsAlwaysHold(x: string, c: char, y: string, ctx: Context)
    requires Groups(x, c, y) && Unsplit(Torn(x, c, y)) && x[0] == y[|y| - 1] && x[0] in "'\""
    ensures Truth(Parse(Grouped(x, c, y), ctx)) == Ok(true)
  {
    hide Parse, Unsplit, ResolveVariable;
    var e := Torn(x, c, y);
    TwoGroupsExactly(x, c, y, ctx);
    TornParts(x, c, y);
    assert e[1..|e| - 1][|x| - 1] == ')';
  }

  // ----- When no comparison operator divides the text -----

  lemma WithoutComparisons(x: string, c: char, y: string)
    requires Groups(x, c, y) && '=' !in x + y && '<' !in x + y && '>' !in x + y
    ensures Unsplit(Torn(x, c, y))
  {
    var e := Torn(x, c, y);
    forall d | d in e
      ensures d in x + y || d in [')', ' ', c, '(']
    {
      assert d in x || d in ")" + [' ', c, c, ' '] + "(" || d in y;
    }
    LacksOperators(e);
  }

  lemma LacksOperators(e: string)
    requires '=' !in e && '<' !in e && '>' !in e
    ensures Unsplit(e)
  {
    IndexNeeds(e, "!=", 1);
    IndexNeeds(e, " = ", 1);
    IndexNeeds(e, "<=", 0);
    IndexNeeds(e, ">=", 0);
    IndexNeeds(e, "<", 0);
    IndexNeeds(e, ">", 0);
    IndexNeeds(e, "==", 0);
  }

  predicate Unmarked(s: string) {
    forall i | 0 <= i < |s| :: !Marker(s[i])
  }

  /** The same operator twice. */
  function Twice(a: string, k: nat, b: string, d: string): string
    requires k < |OPERATORS|
  {
    a + Token(k) + b + Token(k) + d
  }

  lemma OccursTwice(e: string, op: string, i: nat, j: nat)
    requires op != [] && At(e, i, op) && At(e, j, op) && i + |op| <= j
    ensures SplitTwo(e, op) == None
  {
    hide At;
    IndexIsFirst(e, op, 0);
    IndexIsFirst(e, op, Index(e, op, 0).value + |op|);
  }

  lemma AtShifts(s: string, t: string, u: string, i: nat, sub: string)
    requires i + |sub| <= |t|
    ensures At(s + t + u, |s| + i, sub) <==> At(t, i, sub)
  {
    assert (s + t + u)[|s| + i..|s| + i + |sub|] == t[i..i + |sub|];
  }

  /** A marker stands inside one of the two tokens. */
  lemma MarkersInTokens(a: string, k: nat, b: string, d: string, x: nat)
    requires Unmarked(a) && Unmarked(b) && Unmarked(d) && k < |OPERATORS|
    requires x < |Twice(a, k, b, d)| && Marker(Twice(a, k, b, d)[x])
    ensures var t := |Token(k)|;
      |a| < x < |a| + t - 1 || |a| + t + |b| < x < |a| + t + |b| + t - 1
  {
    var e, token := Twice(a, k, b, d), Token(k);
    var second := |a| + |token| + |b|;
    assert forall y | 0 <= y < |a| :: e[y] == a[y];
    assert forall y | |a| + |token| <= y < second :: e[y] == b[y - |a| - |token|];
    assert forall y | second + |token| <= y < |e| :: e[y] == d[y - second - |token|];
    assert e[|a|] == token[0] == ' ' && e[second] == token[0];
    assert e[|a| + |token| - 1] == token[|token| - 1] == ' ' && e[second + |token| - 1] == token[|token| - 1];
  }

  /** An operator that is found is found in the token. */
  lemma FoundInTokens(a: string, k: nat, b: string, d: string, j: nat, i: nat)
    requires Unmarked(a) && Unmarked(b) && Unmarked(d) && k < |OPERATORS| && j < |OPERATORS|
    requires At(Twice(a, k, b, d), i, OPERATORS[j].0)
    ensures exists o: nat :: At(Token(k), o, OPERATORS[j].0)
  {
    hide Token, Unmarked;
    var token, op := Token(k), OPERATORS[j].0;
    var m := if j == 1 then 1 else 0;
    AtHas(Twice(a, k, b, d), i, op, m);
    MarkersInTokens(a, k, b, d, i + m);
    if i + m < |a| + |token| {
      assert Twice(a, k, b, d) == a + token + (b + token + d);
      AtShifts(a, token, b + token + d, i - |a|, op);
    } else {
      AtShifts(a + token + b, token, d, i - |a + token + b|, op);
    }
  }

  /** So every operator occurs at least twice or not at all. */
  lemma TwiceIsUnsplit(a: string, k: nat, b: string, d: string)
    requires Unmarked(a) && Unmarked(b) && Unmarked(d) && k < |OPERATORS|
    ensures Unsplit(Twice(a, k, b, d))
  {
    hide Token, Unmarked, SplitTwo, At;
    var e, token := Twice(a, k, b, d), Token(k);
    forall j | 0 <= j < |OPERATORS|
      ensures SplitTwo(e, OPERATORS[j].0) == None
    {
      var op := OPERATORS[j].0;
      if o: nat :| At(token, o, op) {
        AtFits(token, o, op);
        assert e == a + token + (b + token + d);
        AtShifts(a, token, b + token + d, o, op);
        AtShifts(a + token + b, token, d, o, op);
        OccursTwice(e, op, |a| + o, |a + token + b| + o);
      } else {
        forall i: nat | At(e, i, op) { FoundInTokens(a, k, b, d, j, i); }
        SplitsNowhere(e, op);
      }
    }
  }

  lemma AtFits(s: string, i: nat, sub: string)
    requires At(s, i, sub)
    ensures i + |sub| <= |s|
  {
  }

  /** One side of a comparison. */
  predicate Term(s: string) {
    s != [] && Trimmed(s) && Unmarked(s) && forall i | 0 <= i < |s| :: s[i] !in "()&|"
  }

  /** Two comparisons with the same operator in two groups are not seen as comparisons either. */
  lemma SameComparisons(l: string, r: string, k: nat, c: char, m: string, n: string)
    requires Term(l) && Term(r) && Term(m) && Term(n) && k < |OPERATORS| && (c == '&' || c == '|')
    ensures Groups(l + Token(k) + r, c, m + Token(k) + n)
    ensures Unsplit(Torn(l + Token(k) + r, c, m + Token(k) + n))
  {
    hide Unsplit, Token, Bare, Unmarked, Torn, Twice;
    TermsAreBare(l, k, r);
    TermsAreBare(m, k, n);
    UnmarkedBetween(r, c, m);
    TwiceIsUnsplit(l, k, Between(r, c, m), n);
    TornIsTwice(l, r, k, c, m, n);
  }

  function Between(r: string, c: char, m: string): string {
    r + ")" + [' ', c, c, ' '] + "(" + m
  }

  lemma TornIsTwice(l: string, r: string, k: nat, c: char, m: string, n: string)
    requires k < |OPERATORS|
    ensures Torn(l + Token(k) + r, c, m + Token(k) + n) == Twice(l, k, Between(r, c, m), n)
  {
    hide Token;
  }

  lemma TermsAreBare(l: string, k: nat, r: string)
    requires Term(l) && Term(r) && k < |OPERATORS|
    ensures Bare(l + Token(k) + r) && (l + Token(k) + r)[0] != '!'
  {
    var e := l + Token(k) + r;
    assert e[0] == l[0] && e[|e| - 1] == r[|r| - 1];
    assert forall i | 0 <= i < |Token(k)| :: Token(k)[i] !in "()&|";
  }

  lemma UnmarkedBetween(r: string, c: char, m: string)
    requires Unmarked(r) && Unmarked(m) && !Marker(c)
    ensures Unmarked(Between(r, c, m))
  {
  }

  // ----- Instances -----

  /** The plainest case: the condition holds in every context, although neither of its sides does. */
  lemma EmptyGroupsHold(ctx: Context)
    ensures Truth(Parse("('') && ('')", ctx)) == Ok(true)
    ensures Truth(Parse("'' && ''", ctx)) == Ok(false)
  {
    hide Parse, Unsplit;
    WithoutComparisons("''", '&', "''");
    QuotedGroupsAlwaysHold("''", '&', "''", ctx);
    assert Grouped("''", '&', "''") == "('') && ('')";
    EmptyString(ctx);
    BareDepth("''");
    InfixParses("''", '&', "''", ctx);
    assert Infix("''", '&', "''") == "'' && ''";
  }

  lemma EmptyString(ctx: Context)
    ensures Parse("''", ctx) == Ok(Str(""))
  {
    hide Parse, ParseLogical, ParseComparison, ParseCall;
    var e := "''";
    OperatorNone(e, '&');
    OperatorNone(e, '|');
    NotLogical(e, ctx);
    NoComparisonAtAll(e, ctx);
    NotCall(e, ctx);
    ParsesAsVariable(e, ctx);
    assert e[1..|e| - 1] == "";
  }

  /** Two comparisons in parentheses are an error, unless the text between the parentheses is a variable. */
  lemma ComparisonGroupsFail(ctx: Context)
    requires ctx.parseFloat("a == 'x') && (b == 'y'") == None && "a == 'x') && (b == 'y'" !in ctx.variables
    ensures Parse("(a == 'x') && (b == 'y')", ctx) == Fail
  {
    hide Parse, Unsplit, ResolveVariable, Groups, Term, Torn, Grouped, Token;
    var x, y, e := "a == 'x'", "b == 'y'", "a == 'x') && (b == 'y'";
    Equalities();
    SameComparisons("a", "'x'", 6, '&', "b", "'y'");
    PlainTexts();
    TwoGroupsExactly(x, '&', y, ctx);
    Unresolved(e, ctx);
  }

  /** They are always true when the quotes stand at the outer ends. */
  lemma ComparisonGroupsHold(ctx: Context)
    ensures Truth(Parse("('x' == a) && (b == 'y')", ctx)) == Ok(true)
  {
    hide Parse, Unsplit, Groups, Term, Token;
    var x, y := "'x' == a", "b == 'y'";
    Equalities();
    SameComparisons("'x'", "a", 6, '&', "b", "'y'");
    assert Grouped(x, '&', y) == "('x' == a) && (b == 'y')";
    QuotedGroupsAlwaysHold(x, '&', y, ctx);
  }

  lemma PlainTexts()
    ensures Torn("a == 'x'", '&', "b == 'y'") == "a == 'x') && (b == 'y'"
    ensures Grouped("a == 'x'", '&', "b == 'y'") == "(a == 'x') && (b == 'y')"
    ensures !Quoted("a == 'x') && (b == 'y'")
  {
  }

  lemma Equalities()
    ensures "a" + Token(6) + "'x'" == "a == 'x'" && "'x'" + Token(6) + "a" == "'x' == a"
    ensures "b" + Token(6) + "'y'" == "b == 'y'"
    ensures Term("a") && Term("'x'") && Term("b") && Term("'y'")
  {
    hide Term;
    assert Token(6) == " == ";
    IsTerm("a");
    IsTerm("b");
    IsTerm("'x'");
    IsTerm("'y'");
  }

  lemma IsTerm(s: string)
    requires s in ["a", "b", "'x'", "'y'"]
    ensures Term(s)
  {
  }

  lemma Unresolved(e: string, ctx: Context)
    requires |e| > 6 && e !in ctx.variables
    requires (e[0] == 'o' || e[0] == 'a')
    ensures ResolveVariable(e, ctx) == None
  {
    assert "env."[0] == 'e' && "inputs."[0] == 'i' && "matrix."[0] == 'm';
  }

  /** After an environment variable the text always is a variable, so the condition is a silent look-up. */
  lemma EnvironmentGroups(x: string, c: char, y: string, ctx: Context)
    requires Groups("env." + x, c, y) && Unsplit(Torn("env." + x, c, y))
    requires ctx.parseFloat(Torn("env." + x, c, y)) == None
    ensures Parse(Grouped("env." + x, c, y), ctx) == Ok(Str(ctx.env(Torn(x, c, y))))
  {
    hide Parse, Unsplit;
    var e := Torn("env." + x, c, y);
    TwoGroupsExactly("env." + x, c, y, ctx);
    assert e == "env." + Torn(x, c, y);
    assert e[4..] == Torn(x, c, y) && Prefixed(e, "env.");
    NotSpecial(e);
  }

  lemma NotSpecial(e: string)
    requires Prefixed(e, "env.")
    ensures e != "os" && e != "arch" && e != "ci" && e != "branch"
  {
    assert e[0] == 'e';
  }

  /** Two variables in parentheses with `&&` between them are an error, although each of them evaluates. */
  lemma ParenthesizedConjunctionFails(ctx: Context)
    requires ctx.parseFloat("a) && (b") == None && ctx.variables == map["a" := "x", "b" := "y"]
    ensures Parse("(a) && (b)", ctx) == Fail
  {
    hide Parse, ResolveVariable, ParseVariable, Unsplit;
    assert Torn("a", '&', "b") == "a) && (b" && Grouped("a", '&', "b") == "(a) && (b)";
    WithoutComparisons("a", '&', "b");
    TwoGroupsExactly("a", '&', "b", ctx);
    assert "a) && (b" !in ctx.variables by { assert |"a) && (b"| == 8; }
    Unresolved("a) && (b", ctx);
  }

  // ----- A negation of an error -----

  /** When what follows a `!` is an error, a comparison of the whole text is taken instead. */
  lemma NegatedFailureCompares(x: string, ctx: Context)
    requires Parse(x, ctx) == Fail && Trimmed("!" + x) && ParseComparison("!" + x, ctx, 0).Ok?
    ensures Parse("!" + x, ctx) == ParseComparison("!" + x, ctx, 0)
  {
    hide Parse, ParseComparison;
    NegationTakesAll(x, ctx);
    TrimIdle("!" + x);
  }

  /**
   Then the `!` belongs to the left operand: here a number cannot be compared with a truth value, but its
   negation can.
   */
  lemma NegatedOperand(ctx: Context)
    requires ctx.parseFloat("1") == Some(Finite(1.0))
    requires ctx.parseFloat("true") == None && ctx.parseFloat("1 == true") == None
    requires "1 == true" !in ctx.variables
    ensures Parse("1 == true", ctx) == Fail
    ensures Parse("!1 == true", ctx) == Ok(Bool(false))
  {
    hide Parse, ParseComparison, ToBool;
    ParsesLiteral("1", ctx);
    ParsesLiteral("true", ctx);
    NumberAgainstTruth(ctx);
    NegatedOne(ctx);
    NegatedComparison(ctx);
    assert "!" + "1 == true" == "!1 == true";
    NegatedFailureCompares("1 == true", ctx);
  }

  lemma NegatedOne(ctx: Context)
    requires Parse("1", ctx) == Ok(Number(Finite(1.0)))
    ensures Parse("!1", ctx) == Ok(Bool(false))
  {
    hide Parse, Otherwise;
    NegationTakesAll("1", ctx);
    assert "!" + "1" == "!1";
  }

  lemma NumberAgainstTruth(ctx: Context)
    requires Parse("1", ctx) == Ok(Number(Finite(1.0))) && Parse("true", ctx) == Ok(Bool(true))
    requires ctx.parseFloat("1 == true") == None && "1 == true" !in ctx.variables
    ensures Parse("1 == true", ctx) == Fail
  {
    hide Parse, ParseComparison;
    assert "1" + Token(6) + "true" == "1 == true";
    ComparisonParses("1", 6, "true", ctx);
    FailsAsComparison("1 == true", ctx);
  }

  lemma ParsesLiteral(e: string, ctx: Context)
    requires e == "1" || e == "true"
    requires ctx.parseFloat("1") == Some(Finite(1.0)) && ctx.parseFloat("true") == None
    ensures Parse(e, ctx) == if e == "1" then Ok(Number(Finite(1.0))) else Ok(Bool(true))
  {
    hide Parse, ParseLogical, ParseComparison, ParseCall;
    OperatorNone(e, '&');
    OperatorNone(e, '|');
    NotLogical(e, ctx);
    NoComparisonAtAll(e, ctx);
    NotCall(e, ctx);
    ParsesAsVariable(e, ctx);
  }

  lemma FailsAsComparison(e: string, ctx: Context)
    requires e == "1 == true" && ParseComparison(e, ctx, 0) == Fail && ctx.parseFloat(e) == None && e !in ctx.variables
    ensures Parse(e, ctx) == Fail
  {
    hide Parse, ParseLogical, ParseComparison, ParseCall;
    OperatorNone(e, '&');
    OperatorNone(e, '|');
    NotLogical(e, ctx);
    NotCall(e, ctx);
    ParsesAsVariable(e, ctx);
  }

  lemma NegatedComparison(ctx: Context)
    requires Parse("!1", ctx) == Ok(Bool(false)) && Parse("true", ctx) == Ok(Bool(true))
    ensures ParseComparison("!1 == true", ctx, 0) == Ok(Bool(false))
  {
    hide Parse, SplitTwo;
    var e := "!1 == true";
    forall j | 0 <= j < 6
      ensures SplitTwo(e, OPERATORS[j].0) == None
    {
      NoEarlierOperator(j);
    }
    EqualitySplits();
    OnlyOperator(e, ctx, 0);
    EqualityCompares(e, ctx);
  }

  lemma EqualityCompares(e: string, ctx: Context)
    requires e == "!1 == true" && SplitTwo(e, "==") == Some(("!1 ", " true"))
    requires Parse("!1", ctx) == Ok(Bool(false)) && Parse("true", ctx) == Ok(Bool(true))
    ensures ParseComparison(e, ctx, 6) == Ok(Bool(false))
  {
    hide Parse, SplitTwo, TrimSpace;
    assert [] + "!1" + " " == "!1 " && " " + "true" + [] == " true";
    TrimPadded([], "!1", " ");
    TrimPadded(" ", "true", []);
    assert OPERATORS[6] == ("==", Eq);
  }

  lemma NoEarlierOperator(j: nat)
    requires j < 6
    ensures SplitTwo("!1 == true", OPERATORS[j].0) == None
  {
    var e, op := "!1 == true", OPERATORS[j].0;
    if Index(e, op, 0).Some? {
      var i := Index(e, op, 0).value;
      AtHas(e, i, op, 0);
      AtHas(e, i, op, |op| - 1);
      AtHas(e, i, op, |op| / 2);
    }
  }

  lemma EqualitySplits()
    ensures SplitTwo("!1 == true", "==") == Some(("!1 ", " true"))
  {
    var e := "!1 == true";
    assert e[3..5] == [e[3], e[4]] == "==";
    forall i: nat
      ensures At(e, i, "==") <==> i == 3
    {
      if At(e, i, "==") {
        AtHas(e, i, "==", 0);
        AtHas(e, i, "==", 1);
      }
    }
    SplitsOnce(e, "==", 3);
    assert e[..3] == "!1 " && e[5..] == " true";
  }

  lemma {:induction false} OnlyOperator(e: string, ctx: Context, k: nat)
    requires k <= 6 && forall j | 0 <= j < 6 :: SplitTwo(e, OPERATORS[j].0) == None
    ensures ParseComparison(e, ctx, k) == ParseComparison(e, ctx, 6)
    decreases 6 - k
  {
    hide SplitTwo;
    if k < 6 { OnlyOperator(e, ctx, k + 1); }
  }
}
