/** What the evaluator makes of parentheses, negation and the logical operators. */
module ExpressionLaws {
  import opened StageTypes
  import opened Text
  import opened Expression

  // ----- Parentheses -----

  function Wrap(n: nat, x: string): string {
    if n == 0 then x else "(" + Wrap(n - 1, x) + ")"
  }

  lemma ParseTrims(x: string, ctx: Context)
    ensures Parse(TrimSpace(x), ctx) == Parse(x, ctx)
  {
    TrimIsTrimmed(x);
    TrimIdle(TrimSpace(x));
  }

  lemma ParseEnclosed(x: string, ctx: Context)
    ensures Parse("(" + x + ")", ctx) == Parse(x, ctx)
  {
    var e := "(" + x + ")";
    TrimIdle(e);
    assert e[1..|e| - 1] == x;
    ParseTrims(x, ctx);
  }

  /** Any number of parentheses around a whole expression changes nothing. */
  lemma {:induction false} WrappingChangesNothing(n: nat, x: string, ctx: Context)
    ensures Parse(Wrap(n, x), ctx) == Parse(x, ctx)
  {
    hide Parse;
    if n > 0 {
      ParseEnclosed(Wrap(n - 1, x), ctx);
      WrappingChangesNothing(n - 1, x, ctx);
    }
  }

  /** The marker of an interpolation around an expression is taken off first. */
  lemma EvaluateMarked(x: string, ctx: Context)
    ensures Evaluate("${{" + x + "}}", ctx) == Truth(Parse(x, ctx))
  {
    var e := "${{" + x + "}}";
    TrimIdle(e);
    assert e[3..|e| - 2] == x && e[|e| - 2..] == "}}" && "${{" <= e;
    ParseTrims(x, ctx);
  }

  // ----- Negation -----

  lemma OperandParses(e: string, x: string, ctx: Context)
    requires Prefixed(e, "!") && TrimSpace(e[1..]) == TrimSpace(x)
    ensures Parse(Operand(e), ctx) == Parse(x, ctx)
  {
    hide Parse;
    var rest := TrimSpace(x);
    ParseTrims(x, ctx);
    if Enclosed(rest, '(', ')') {
      assert rest == "(" + rest[1..|rest| - 1] + ")";
      ParseEnclosed(rest[1..|rest| - 1], ctx);
      ParseTrims(rest[1..|rest| - 1], ctx);
    }
  }

  /** What is left of evaluating a text when it is no logical expression: a comparison, a call or a variable. */
  function Otherwise(e: string, ctx: Context): Outcome<Value> {
    var comparison := ParseComparison(e, ctx, 0);
    if !comparison.Fail? then comparison
    else
      var call := ParseCall(e, ctx);
      if !call.Fail? then call else ParseVariable(e, ctx)
  }

  /**
   A leading `!` negates the value of all that follows, whatever operators are in it. Only if that is an error
   is the whole text taken for something else.
   */
  lemma NegationTakesAll(x: string, ctx: Context)
    ensures Parse("!" + x, ctx) ==
      match Parse(x, ctx) {
        case Ok(v) => Ok(Bool(!ToBool(v)))
        case Panic => Panic
        case Fail => Otherwise(TrimSpace("!" + x), ctx)
      }
  {
    var e := TrimSpace("!" + x);
    BangTrims(x);
    OperandParses(e, x, ctx);
    NegationLogical(e, ctx);
    ParseUnfolds("!" + x, ctx);
  }

  lemma NegationLogical(e: string, ctx: Context)
    requires Prefixed(e, "!")
    ensures ParseLogical(e, ctx) ==
      match Parse(Operand(e), ctx) { case Ok(v) => Ok(Bool(!ToBool(v))) case Panic => Panic case Fail => Fail }
    ensures !Enclosed(e, '(', ')')
  {
  }

  lemma ParseUnfolds(x: string, ctx: Context)
    requires !Enclosed(TrimSpace(x), '(', ')')
    ensures Parse(x, ctx)
         == if !ParseLogical(TrimSpace(x), ctx).Fail?
           then ParseLogical(TrimSpace(x), ctx) else Otherwise(TrimSpace(x), ctx)
  {
  }

  lemma BangTrims(x: string)
    ensures Prefixed(TrimSpace("!" + x), "!") && TrimSpace(TrimSpace("!" + x)[1..]) == TrimSpace(x)
  {
    var k := TrimRightCuts(x);
    var core, pad := "!" + x[..k], x[k..];
    assert "!" + x == [] + core + pad && x == x[..k] + pad;
    TrimPadded([], core, pad);
    assert core[1..] == x[..k];
    TrimRightPadding(x[..k], pad);
  }

  lemma TrimRightPadding(s: string, pad: string)
    requires AllSpace(pad)
    ensures TrimSpace(s + pad) == TrimSpace(s)
  {
    var i := TrimLeftCuts(s);
    assert s + pad == s[..i] + (s[i..] + pad) && s == s[..i] + s[i..];
    TrimLeftSpace(s[..i], s[i..] + pad);
    TrimLeftSpace(s[..i], s[i..]);
    if i == |s| {
      assert s[i..] + pad == pad + [] && s[i..] == [];
      TrimLeftSpace(pad, []);
    } else {
      TrimRightSpace(s[i..], pad);
    }
  }

  // ----- Conjunctions of disjunctions -----

  /** Not empty, nothing to trim, and it does not start with a parenthesis or a negation. */
  predicate Starts(s: string) {
    s != [] && Trimmed(s) && s[0] != '(' && s[0] != '!'
  }

  predicate Atom(s: string) {
    Starts(s) && Depth(s) == 0 && '&' !in s && '|' !in s
  }

  function PrintOr(atoms: seq<string>): string
    requires atoms != []
  {
    if |atoms| == 1 then atoms[0] else atoms[0] + " || " + PrintOr(atoms[1..])
  }

  function PrintAnd(clauses: seq<seq<string>>): string
    requires clauses != [] && forall i | 0 <= i < |clauses| :: clauses[i] != []
  {
    if |clauses| == 1 then PrintOr(clauses[0]) else PrintOr(clauses[0]) + " && " + PrintAnd(clauses[1..])
  }

  predicate Holds(s: string, ctx: Context) {
    Truth(Parse(s, ctx)) == Ok(true)
  }

  predicate AnyHolds(atoms: seq<string>, ctx: Context) {
    exists i | 0 <= i < |atoms| :: Holds(atoms[i], ctx)
  }

  predicate AllHold(clauses: seq<seq<string>>, ctx: Context) {
    forall i | 0 <= i < |clauses| :: AnyHolds(clauses[i], ctx)
  }

  /** Atoms that all evaluate. */
  predicate Sound(atoms: seq<string>, ctx: Context) {
    atoms != [] && forall i | 0 <= i < |atoms| :: Atom(atoms[i]) && Parse(atoms[i], ctx).Ok?
  }

  lemma AnySplits(atoms: seq<string>, ctx: Context)
    requires atoms != []
    ensures AnyHolds(atoms, ctx) <==> Holds(atoms[0], ctx) || AnyHolds(atoms[1..], ctx)
  {
    hide Holds;
    if AnyHolds(atoms[1..], ctx) {
      var i :| 0 <= i < |atoms| - 1 && Holds(atoms[1..][i], ctx);
      assert Holds(atoms[i + 1], ctx);
    }
    if AnyHolds(atoms, ctx) && !Holds(atoms[0], ctx) {
      var i :| 0 <= i < |atoms| && Holds(atoms[i], ctx);
      assert Holds(atoms[1..][i - 1], ctx);
    }
  }

  lemma AllSplit(clauses: seq<seq<string>>, ctx: Context)
    requires clauses != []
    ensures AllHold(clauses, ctx) <==> AnyHolds(clauses[0], ctx) && AllHold(clauses[1..], ctx)
  {
    hide AnyHolds;
    if AllHold(clauses, ctx) {
      assert forall i | 0 <= i < |clauses| - 1 :: clauses[1..][i] == clauses[i + 1];
    }
    if AllHold(clauses[1..], ctx) && AnyHolds(clauses[0], ctx) {
      forall i | 0 <= i < |clauses|
        ensures AnyHolds(clauses[i], ctx)
      {
        if i > 0 { assert AnyHolds(clauses[1..][i - 1], ctx); }
      }
    }
  }

  lemma {:induction false} DepthConcat(a: string, b: string)
    ensures Depth(a + b) == Depth(a) + Depth(b)
  {
    if b == [] {
      assert a + b == a;
    } else {
      assert (a + b)[..|a + b| - 1] == a + b[..|b| - 1];
      DepthConcat(a, b[..|b| - 1]);
    }
  }

  function Infix(left: string, c: char, right: string): string {
    left + [' ', c, c, ' '] + right
  }

  lemma InfixParts(left: string, c: char, right: string)
    ensures var e := Infix(left, c, right);
      && |e| == |left| + 4 + |right|
      && e[..|left|] == left && e[|left|] == ' ' && e[|left| + 1] == c && e[|left| + 2] == c && e[|left| + 3] == ' '
      && e[..|left| + 1] == left + " " && e[|left| + 3..] == " " + right
      && (right != [] ==> e[|e| - 1] == right[|right| - 1])
  {
  }

  /** The scan stops at the operator behind the left side, if the left side is balanced and has none. */
  lemma InfixOperator(left: string, c: char, right: string)
    requires left != [] && right != [] && Depth(left) == 0 && c !in left && c != ' '
    ensures Operator(Infix(left, c, right), c, 0) == Some(|left| + 1)
  {
    var e, i := Infix(left, c, right), |left| + 1;
    InfixParts(left, c, right);
    DepthConcat(left, " ");
    assert Depth(" ") == Depth("") == 0;
    forall j: nat | j < i
      ensures !TopLevelAt(e, j, c)
    {
      if j < |left| { assert e[j] == left[j]; }
    }
    OperatorIs(e, c, i);
  }

  lemma ParseSides(left: string, c: char, right: string, ctx: Context)
    requires Trimmed(left) && Trimmed(right)
    ensures var e := Infix(left, c, right);
      && Side(e[..|left| + 1], e, ctx) == Parse(left, ctx)
      && Side(e[|left| + 3..], e, ctx) == Parse(right, ctx)
  {
    InfixParts(left, c, right);
    TrimPadded([], left, " ");
    TrimPadded(" ", right, []);
    assert [] + left + " " == left + " " && " " + right + [] == " " + right;
  }

  lemma InfixLogical(left: string, c: char, right: string, ctx: Context)
    requires Starts(left) && Depth(left) == 0 && right != [] && Trimmed(right) && c !in left
    requires c == '&' || (c == '|' && '&' !in left && '&' !in right)
    ensures ParseLogical(Infix(left, c, right), ctx) == Both(Parse(left, ctx), Parse(right, ctx), c == '&')
  {
    hide Parse, ParseLogical, Operator, Side, Depth;
    var e := Infix(left, c, right);
    InfixParts(left, c, right);
    InfixOperator(left, c, right);
    ParseSides(left, c, right, ctx);
    assert e[0] == left[0];
    if c == '|' {
      OperatorNone(e, '&');
    }
    LogicalAt(e, c, |left| + 1, ctx);
  }

  /** An operator behind a balanced left side without operators divides the expression there. */
  lemma InfixParses(left: string, c: char, right: string, ctx: Context)
    requires Starts(left) && Depth(left) == 0 && right != [] && Trimmed(right) && c !in left
    requires c == '&' || (c == '|' && '&' !in left && '&' !in right)
    requires Parse(left, ctx).Ok? && Parse(right, ctx).Ok?
    ensures Starts(Infix(left, c, right))
    ensures Parse(Infix(left, c, right), ctx) == Both(Parse(left, ctx), Parse(right, ctx), c == '&')
  {
    hide Parse, ParseLogical;
    var e := Infix(left, c, right);
    InfixParts(left, c, right);
    assert e[0] == left[0];
    InfixLogical(left, c, right, ctx);
    ParsesAsLogical(e, ctx);
  }

  lemma ParsesAsLogical(e: string, ctx: Context)
    requires Starts(e) && !ParseLogical(e, ctx).Fail?
    ensures Parse(e, ctx) == ParseLogical(e, ctx)
  {
    TrimIdle(e);
  }

  lemma {:induction false} OrEvaluates(atoms: seq<string>, ctx: Context)
    requires Sound(atoms, ctx)
    ensures Starts(PrintOr(atoms)) && Depth(PrintOr(atoms)) == 0 && '&' !in PrintOr(atoms)
    ensures Truth(Parse(PrintOr(atoms), ctx)) == Ok(AnyHolds(atoms, ctx))
  {
    hide Parse, AnyHolds;
    var first := atoms[0];
    AnySplits(atoms, ctx);
    if |atoms| == 1 {
      NoneHolds(atoms[1..], ctx);
    } else {
      var rest := atoms[1..];
      OrEvaluates(rest, ctx);
      InfixParses(first, '|', PrintOr(rest), ctx);
      InfixDepth(first, '|', PrintOr(rest));
      assert PrintOr(atoms) == Infix(first, '|', PrintOr(rest));
    }
  }

  lemma NoneHolds(atoms: seq<string>, ctx: Context)
    requires atoms == []
    ensures !AnyHolds(atoms, ctx)
  {
  }

  lemma InfixDepth(left: string, c: char, right: string)
    requires c != '(' && c != ')'
    ensures Depth(Infix(left, c, right)) == Depth(left) + Depth(right)
  {
    DepthConcat(left + [' ', c, c, ' '], right);
    DepthConcat(left, [' ', c, c, ' ']);
    BlankDepth(c);
  }

  lemma BlankDepth(c: char)
    requires c != '(' && c != ')'
    ensures Depth([' ', c, c, ' ']) == 0
  {
    assert [' ', c, c, ' '][..3] == [' ', c, c] && [' ', c, c][..2] == [' ', c];
    assert [' ', c][..1] == [' '] && [' '][..0] == [];
    assert Depth([' ', c]) == Depth([' ']) == Depth([]) == 0;
    assert Depth([' ', c, c]) == 0;
  }

  /**
   Printing and evaluating: an expression printed as a conjunction of disjunctions of atoms evaluates to the
   conjunction of the disjunctions of their truth values. So `||` binds tighter than `&&`.
   */
  lemma {:induction false} PrintThenEvaluate(clauses: seq<seq<string>>, ctx: Context)
    requires clauses != [] && forall i | 0 <= i < |clauses| :: clauses[i] != [] && Sound(clauses[i], ctx)
    ensures Starts(PrintAnd(clauses))
    ensures Truth(Parse(PrintAnd(clauses), ctx)) == Ok(AllHold(clauses, ctx))
  {
    hide Parse, AllHold, AnyHolds;
    var first := PrintOr(clauses[0]);
    OrEvaluates(clauses[0], ctx);
    AllSplit(clauses, ctx);
    if |clauses| == 1 {
      EmptyHolds(clauses[1..], ctx);
    } else {
      var rest := clauses[1..];
      PrintThenEvaluate(rest, ctx);
      InfixParses(first, '&', PrintAnd(rest), ctx);
      assert PrintAnd(clauses) == Infix(first, '&', PrintAnd(rest));
    }
  }

  lemma EmptyHolds(clauses: seq<seq<string>>, ctx: Context)
    requires clauses == []
    ensures AllHold(clauses, ctx)
  {
  }

  /** The usual precedence is reversed: both mixed forms group around `||`. */
  lemma OrBindsTighter(a: string, b: string, c: string, ctx: Context)
    requires Sound([a, b, c], ctx)
    ensures Holds(a + " && " + b + " || " + c, ctx) <==> Holds(a, ctx) && (Holds(b, ctx) || Holds(c, ctx))
    ensures Holds(a + " || " + b + " && " + c, ctx) <==> (Holds(a, ctx) || Holds(b, ctx)) && Holds(c, ctx)
  {
    hide Parse, AllHold, AnyHolds;
    assert [a, b, c][0] == a && [a, b, c][1] == b && [a, b, c][2] == c;
    TwoClauses([a], [b, c], ctx);
    TwoClauses([a, b], [c], ctx);
    assert [b, c][1..] == [c] && [a, b][1..] == [b];
    assert a + " && " + b + " || " + c == a + " && " + (b + " || " + c);
    ClauseHolds([a], ctx);
    ClauseHolds([c], ctx);
    ClauseHolds([b, c], ctx);
    ClauseHolds([a, b], ctx);
  }

  lemma ClauseHolds(atoms: seq<string>, ctx: Context)
    requires |atoms| == 1 || |atoms| == 2
    ensures AnyHolds(atoms, ctx) <==> Holds(atoms[0], ctx) || (|atoms| == 2 && Holds(atoms[1], ctx))
  {
    hide Holds;
  }

  lemma TwoClauses(c: seq<string>, d: seq<string>, ctx: Context)
    requires Sound(c, ctx) && Sound(d, ctx)
    ensures Holds(PrintOr(c) + " && " + PrintOr(d), ctx) <==> AnyHolds(c, ctx) && AnyHolds(d, ctx)
  {
    hide Parse, AllHold, AnyHolds;
    var clauses := [c, d];
    PrintThenEvaluate(clauses, ctx);
    AllSplit(clauses, ctx);
    assert clauses[1..] == [d];
    AllSplit([d], ctx);
    EmptyHolds([d][1..], ctx);
  }

  // ----- A group on the left -----

  /** Balanced, and never more parentheses closed than opened. */
  predicate WellNested(s: string) {
    Depth(s) == 0 && forall i | 0 <= i <= |s| :: Depth(s[..i]) >= 0
  }

  /** Inside the parentheses nothing is at the top level. */
  lemma GroupIsDeep(x: string, c: char, rest: string, j: nat)
    requires WellNested(x) && j <= |x| + 2 && (c == '&' || c == '|')
    ensures !TopLevelAt("(" + x + ")" + " " + rest, j, c)
  {
    var e := "(" + x + ")" + " " + rest;
    if 0 < j <= |x| {
      assert e[..j] == "(" + x[..j - 1];
      DepthConcat("(", x[..j - 1]);
      assert "("[..0] == "" && Depth("(") == 1;
    } else if j == |x| + 1 {
      assert e[j] == ')';
    } else if j == |x| + 2 {
      assert e[j] == ' ';
    }
  }

  lemma GroupOperator(x: string, c: char, right: string)
    requires WellNested(x) && right != [] && (c == '&' || c == '|')
    ensures Operator(Infix("(" + x + ")", c, right), c, 0) == Some(|x| + 3)
    ensures c == '|' && '&' !in right ==> Operator(Infix("(" + x + ")", c, right), '&', 0) == None
  {
    hide Depth;
    var left := "(" + x + ")";
    var e, rest := Infix(left, c, right), [c, c, ' '] + right;
    InfixParts(left, c, right);
    assert [' ', c, c, ' '] == " " + [c, c, ' '];
    assert [' ', c, c, ' '] + right == " " + rest;
    assert e == left + ([' ', c, c, ' '] + right) == left + " " + rest;
    forall j: nat | j <= |x| + 2 { GroupIsDeep(x, c, rest, j); }
    forall j: nat | j <= |x| + 2 { GroupIsDeep(x, '&', rest, j); }
    GroupDepth(x);
    OperatorIs(e, c, |x| + 3);
    if c == '|' && '&' !in right {
      OperatorIsFirst(e, '&', 0);
      assert forall j | |x| + 2 < j < |e| :: e[j] == rest[j - |x| - 3];
    }
  }

  lemma GroupDepth(x: string)
    requires Depth(x) == 0
    ensures Depth("(" + x + ")" + " ") == 0
  {
    DepthConcat("(" + x + ")", " ");
    DepthConcat("(" + x, ")");
    DepthConcat("(", x);
    assert "("[..0] == "" && ")"[..0] == "" && " "[..0] == "";
    assert Depth("(") == 1 && Depth(")") == -1 && Depth(" ") == 0;
  }

  /**
   A group in parentheses on the left is evaluated on its own, whatever is in it, unless the text also ends in
   one.
   */
  lemma GroupedLeft(x: string, c: char, right: string, ctx: Context)
    requires WellNested(x) && right != [] && Trimmed(right) && right[|right| - 1] != ')'
    requires c == '&' || (c == '|' && '&' !in right)
    requires Parse(x, ctx).Ok? && Parse(right, ctx).Ok?
    ensures Parse(Infix("(" + x + ")", c, right), ctx) == Both(Parse(x, ctx), Parse(right, ctx), c == '&')
  {
    hide Parse, ParseLogical;
    var left := "(" + x + ")";
    var e := Infix(left, c, right);
    InfixParts(left, c, right);
    ParseEnclosed(x, ctx);
    GroupOperator(x, c, right);
    ParseSides(left, c, right, ctx);
    assert e[0] == left[0] == '(';
    LogicalAt(e, c, |x| + 3, ctx);
    ParsesUnenclosed(e, ctx);
  }

  lemma LogicalAt(e: string, c: char, i: nat, ctx: Context)
    requires e != [] && e[0] != '!' && i + 2 <= |e| && (c == '&' || c == '|')
    requires Operator(e, c, 0) == Some(i) && (c == '|' ==> Operator(e, '&', 0) == None)
    ensures ParseLogical(e, ctx) == Both(Side(e[..i], e, ctx), Side(e[i + 2..], e, ctx), c == '&')
  {
    assert !Prefixed(e, "!");
  }

  lemma ParsesUnenclosed(e: string, ctx: Context)
    requires e != [] && Trimmed(e) && !Enclosed(e, '(', ')') && !ParseLogical(e, ctx).Fail?
    ensures Parse(e, ctx) == ParseLogical(e, ctx)
  {
    TrimIdle(e);
  }

  // ----- Comparisons -----

  predicate Marker(c: char) {
    c == '!' || c == '=' || c == '<' || c == '>'
  }

  /** An operand without any character of a comparison or logical operator. */
  predicate Operandlike(s: string) {
    s != [] && Trimmed(s) && forall i | 0 <= i < |s| :: !Marker(s[i]) && s[i] != '&' && s[i] != '|'
  }

  /** The `k`-th operator as it is written between two operands. */
  function Token(k: nat): string
    requires k < |OPERATORS|
  {
    if k == 1 then " = " else " " + OPERATORS[k].0 + " "
  }

  /** Where the `k`-th operator begins in its token. */
  function Offset(k: nat): nat {
    if k == 1 then 0 else 1
  }

  /** No operator that is tried before occurs in a token, and the operator itself occurs once. */
  lemma TokenIsUnambiguous(k: nat, j: nat, i: nat)
    requires j <= k < |OPERATORS|
    ensures At(Token(k), i, OPERATORS[j].0) <==> j == k && i == Offset(k)
  {
    var token, op := Token(k), OPERATORS[j].0;
    if At(token, i, op) {
      AtHas(token, i, op, 0);
      AtHas(token, i, op, |op| - 1);
      AtHas(token, i, op, |op| / 2);
    }
    if j == k && i == Offset(k) {
      assert token[i..i + |op|] == op;
    }
  }

  lemma MarkersInToken(left: string, token: string, right: string, x: nat)
    requires Operandlike(left) && Operandlike(right) && token != [] && token[0] == ' ' == token[|token| - 1]
    requires x < |left + token + right| && Marker((left + token + right)[x])
    ensures |left| < x < |left| + |token| - 1
  {
    var e := left + token + right;
    assert forall y | 0 <= y < |left| :: e[y] == left[y];
    assert forall y | |left| + |token| <= y < |e| :: e[y] == right[y - |left| - |token|];
    assert e[|left|] == token[0] && e[|left| + |token| - 1] == token[|token| - 1];
  }

  /** An operator found in the whole text is found in the token. */
  lemma FoundInToken(left: string, k: nat, right: string, j: nat, i: nat)
    requires Operandlike(left) && Operandlike(right) && j < |OPERATORS| && k < |OPERATORS|
    ensures At(left + Token(k) + right, i, OPERATORS[j].0)
      <==> i >= |left| && At(Token(k), i - |left|, OPERATORS[j].0)
  {
    var e, token, op := left + Token(k) + right, Token(k), OPERATORS[j].0;
    var m := if j == 1 then 1 else 0;
    if At(e, i, op) {
      AtHas(e, i, op, m);
      MarkersInToken(left, token, right, i + m);
    }
    if i >= |left| && i + |op| <= |left| + |token| {
      assert e[i..i + |op|] == token[i - |left|..i - |left| + |op|];
    }
  }

  lemma ComparisonOccurs(left: string, k: nat, right: string, j: nat, i: nat)
    requires Operandlike(left) && Operandlike(right) && j <= k < |OPERATORS|
    ensures At(left + Token(k) + right, i, OPERATORS[j].0) <==> j == k && i == |left| + Offset(k)
  {
    hide Token, At, Operandlike;
    FoundInToken(left, k, right, j, i);
    if i >= |left| { TokenIsUnambiguous(k, j, i - |left|); }
  }

  lemma SplitsNowhere(e: string, op: string)
    requires op != [] && forall i: nat :: !At(e, i, op)
    ensures SplitTwo(e, op) == None
  {
    hide At;
    IndexIsFirst(e, op, 0);
  }

  lemma SplitsOnce(e: string, op: string, at: nat)
    requires op != [] && forall i: nat :: At(e, i, op) <==> i == at
    ensures at + |op| <= |e| && SplitTwo(e, op) == Some((e[..at], e[at + |op|..]))
  {
    assert At(e, at, op);
    IndexIs(e, op, 0, at);
    IndexIsFirst(e, op, at + |op|);
  }

  lemma ComparisonSplits(left: string, k: nat, right: string, j: nat)
    requires Operandlike(left) && Operandlike(right) && j <= k < |OPERATORS|
    ensures SplitTwo(left + Token(k) + right, OPERATORS[j].0)
         == if j < k then None
            else if k == 1 then Some((left, right))
            else Some((left + " ", " " + right))
  {
    hide Token, At, Operandlike, SplitTwo;
    var e, op := left + Token(k) + right, OPERATORS[j].0;
    forall i: nat { ComparisonOccurs(left, k, right, j, i); }
    if j < k {
      SplitsNowhere(e, op);
    } else {
      SplitsOnce(e, op, |left| + Offset(k));
      TokenCut(left, k, right);
    }
  }

  lemma TokenCut(left: string, k: nat, right: string)
    requires k < |OPERATORS|
    ensures var e, op, at := left + Token(k) + right, OPERATORS[k].0, |left| + Offset(k);
      && at + |op| <= |e|
      && e[..at] == (if k == 1 then left else left + " ")
      && e[at + |op|..] == (if k == 1 then right else " " + right)
  {
  }

  lemma ComparisonSides(left: string, k: nat, right: string, ctx: Context)
    requires Operandlike(left) && Operandlike(right) && k < |OPERATORS|
    ensures var e := left + Token(k) + right;
      && SplitTwo(e, OPERATORS[k].0).Some?
      && Side(SplitTwo(e, OPERATORS[k].0).value.0, e, ctx) == Parse(left, ctx)
      && Side(SplitTwo(e, OPERATORS[k].0).value.1, e, ctx) == Parse(right, ctx)
  {
    hide Parse;
    ComparisonSplits(left, k, right, k);
    TrimIdle(left);
    TrimIdle(right);
    TrimPadded([], left, " ");
    TrimPadded(" ", right, []);
    assert [] + left + " " == left + " " && " " + right + [] == " " + right;
  }

  lemma {:induction false} ComparisonFrom(left: string, k: nat, right: string, ctx: Context, j: nat)
    requires Operandlike(left) && Operandlike(right) && j <= k < |OPERATORS|
    ensures ParseComparison(left + Token(k) + right, ctx, j) == ParseComparison(left + Token(k) + right, ctx, k)
    decreases k - j
  {
    hide SplitTwo;
    if j < k {
      ComparisonSplits(left, k, right, j);
      ComparisonFrom(left, k, right, ctx, j + 1);
    }
  }

  /** What comparing two outcomes gives. */
  function Compared(left: Outcome<Value>, right: Outcome<Value>, op: Comparator, ctx: Context): Outcome<Value>
    requires left.Ok? && right.Ok?
  {
    match CompareValues(ctx, left.value, right.value, op)
    case Ok(flag) => Ok(Bool(flag))
    case Fail => Fail
    case Panic => Panic
  }

  lemma ComparisonParses(left: string, k: nat, right: string, ctx: Context)
    requires Operandlike(left) && Operandlike(right) && k < |OPERATORS| && Parse(left, ctx).Ok? && Parse(right, ctx).Ok?
    ensures ParseComparison(left + Token(k) + right, ctx, 0)
      == Compared(Parse(left, ctx), Parse(right, ctx), OPERATORS[k].1, ctx)
  {
    hide Parse, SplitTwo, CompareValues;
    ComparisonFrom(left, k, right, ctx, 0);
    ComparisonSides(left, k, right, ctx);
  }

  /**
   An operator between two operands that both evaluate compares their values, for each of the seven ways to
   write it: no operator is taken for a shorter one that it contains.
   */
  lemma ComparisonEvaluates(left: string, k: nat, right: string, ctx: Context)
    requires Operandlike(left) && left[0] != '(' && Operandlike(right) && k < |OPERATORS|
    requires Parse(left, ctx).Ok? && Parse(right, ctx).Ok?
    requires CompareValues(ctx, Parse(left, ctx).value, Parse(right, ctx).value, OPERATORS[k].1).Ok?
    ensures Parse(left + Token(k) + right, ctx) == Compared(Parse(left, ctx), Parse(right, ctx), OPERATORS[k].1, ctx)
  {
    hide Parse, ParseLogical, ParseComparison, CompareValues;
    var e := left + Token(k) + right;
    assert e[0] == left[0] && e[|e| - 1] == right[|right| - 1];
    assert '&' !in Token(k) && '|' !in Token(k);
    OperatorNone(e, '&');
    OperatorNone(e, '|');
    NotLogical(e, ctx);
    ComparisonParses(left, k, right, ctx);
    ParsesAsComparison(e, ctx);
  }

  lemma ParsesAsComparison(e: string, ctx: Context)
    requires Starts(e) && ParseLogical(e, ctx).Fail? && !ParseComparison(e, ctx, 0).Fail?
    ensures Parse(e, ctx) == ParseComparison(e, ctx, 0)
  {
    hide ParseLogical, ParseComparison, ParseCall, ParseVariable;
    TrimIdle(e);
  }

  // ----- Texts without operators -----

  lemma AtHas(s: string, i: nat, sub: string, k: nat)
    requires At(s, i, sub) && k < |sub|
    ensures s[i + k] == sub[k]
  {
    assert s[i..i + |sub|][k] == s[i + k];
  }

  lemma IndexNeeds(s: string, sub: string, k: nat)
    requires k < |sub| && sub[k] !in s
    ensures Index(s, sub, 0).None?
  {
    if Index(s, sub, 0).Some? { AtHas(s, Index(s, sub, 0).value, sub, k); }
  }

  lemma {:induction false} NoComparison(e: string, ctx: Context, k: nat)
    requires k <= |OPERATORS| && forall i | 0 <= i < |OPERATORS| :: SplitTwo(e, OPERATORS[i].0) == None
    ensures ParseComparison(e, ctx, k) == Fail
    decreases |OPERATORS| - k
  {
    hide SplitTwo;
    if k < |OPERATORS| { NoComparison(e, ctx, k + 1); }
  }

  lemma NoComparisonAtAll(e: string, ctx: Context)
    requires '!' !in e && '=' !in e && '<' !in e && '>' !in e
    ensures ParseComparison(e, ctx, 0) == Fail
  {
    IndexNeeds(e, "!=", 0);
    IndexNeeds(e, " = ", 1);
    IndexNeeds(e, "<=", 0);
    IndexNeeds(e, ">=", 0);
    IndexNeeds(e, "<", 0);
    IndexNeeds(e, ">", 0);
    IndexNeeds(e, "==", 0);
    NoComparison(e, ctx, 0);
  }

  lemma NotLogical(e: string, ctx: Context)
    requires e != [] && e[0] != '!' && Operator(e, '&', 0).None? && Operator(e, '|', 0).None?
    ensures ParseLogical(e, ctx) == Fail
  {
    assert !Prefixed(e, "!");
  }

  lemma NotCall(e: string, ctx: Context)
    requires e != [] && e[|e| - 1] != ')'
    ensures ParseCall(e, ctx) == Fail
  {
  }

  lemma ParsesAsVariable(e: string, ctx: Context)
    requires Starts(e) && ParseLogical(e, ctx).Fail? && ParseComparison(e, ctx, 0).Fail? && ParseCall(e, ctx).Fail?
    ensures Parse(e, ctx) == ParseVariable(e, ctx)
  {
    hide ParseLogical, ParseComparison, ParseCall, ParseVariable;
    TrimIdle(e);
  }
}
