/** What literals, variables, comparisons and calls evaluate to. */
module ExpressionValues {
  import opened StageTypes
  import opened Text
  import opened Expression
  import opened ExpressionLaws

  // ----- Literals and variables -----

  /** A text that is read as one operand. */
  predicate Single(e: string) {
    && Starts(e) && e[|e| - 1] != ')'
    && forall i | 0 <= i < |e| :: e[i] !in "&|=<>"
  }

  lemma SingleParses(e: string, ctx: Context)
    requires Single(e)
    ensures Parse(e, ctx) == ParseVariable(e, ctx)
  {
    hide Parse, ParseLogical, ParseComparison, ParseCall, ParseVariable;
    OperatorNone(e, '&');
    OperatorNone(e, '|');
    NotLogical(e, ctx);
    WithoutComparison(e, ctx);
    NotCall(e, ctx);
    ParsesAsVariable(e, ctx);
  }

  lemma WithoutComparison(e: string, ctx: Context)
    requires '=' !in e && '<' !in e && '>' !in e
    ensures ParseComparison(e, ctx, 0) == Fail
  {
    IndexNeeds(e, "!=", 1);
    IndexNeeds(e, " = ", 1);
    IndexNeeds(e, "<=", 0);
    IndexNeeds(e, ">=", 0);
    IndexNeeds(e, "<", 0);
    IndexNeeds(e, ">", 0);
    IndexNeeds(e, "==", 0);
    NoComparison(e, ctx, 0);
  }

  /** A text between two like quotes is a string; it counts as true unless it is empty or `false`. */
  lemma QuotedEvaluates(w: string, q: char, ctx: Context)
    requires (q == '\'' || q == '"') && forall i | 0 <= i < |w| :: w[i] !in "&|=<>"
    ensures Parse([q] + w + [q], ctx) == Ok(Str(w))
    ensures Truth(Parse([q] + w + [q], ctx)) == Ok(w != "" && w != "false")
  {
    hide Parse;
    var e := [q] + w + [q];
    assert Single(e) by { assert forall i | 0 < i < |e| - 1 :: e[i] == w[i - 1]; }
    SingleParses(e, ctx);
    assert e[1..|e| - 1] == w;
  }

  predicate Unquoted(e: string) {
    e != [] ==> e[0] != '\'' && e[0] != '"'
  }

  /** A number; it counts as true unless it is zero. */
  lemma NumberEvaluates(e: string, num: Num, ctx: Context)
    requires Single(e) && Unquoted(e) && ctx.parseFloat(e) == Some(num)
    ensures Parse(e, ctx) == Ok(Number(num))
    ensures Truth(Parse(e, ctx)) == Ok(num != Finite(0.0))
  {
    hide Parse;
    SingleParses(e, ctx);
  }

  lemma TruthLiteralsEvaluate(ctx: Context)
    requires ctx.parseFloat("true") == None && ctx.parseFloat("false") == None
    ensures Parse("true", ctx) == Ok(Bool(true)) && Parse("false", ctx) == Ok(Bool(false))
    ensures Truth(Parse("true", ctx)) == Ok(true) && Truth(Parse("false", ctx)) == Ok(false)
  {
    hide Parse;
    SingleParses("true", ctx);
    SingleParses("false", ctx);
  }

  /** The special names: variables may replace the platform, but neither the continuous integration nor the branch. */
  lemma SpecialNamesEvaluate(ctx: Context)
    requires forall e | e in ["os", "arch", "ci", "branch"] :: ctx.parseFloat(e) == None
    ensures Parse("os", ctx) == Ok(Str(if "os" in ctx.variables then ctx.variables["os"] else ctx.os))
    ensures Parse("arch", ctx) == Ok(Str(if "arch" in ctx.variables then ctx.variables["arch"] else ctx.arch))
    ensures Parse("ci", ctx) == Ok(Str(if ctx.ci then "true" else "false"))
    ensures Parse("branch", ctx) == Ok(Str(ctx.branch))
  {
    hide Parse, ParseVariable;
    forall e | e in ["os", "arch", "ci", "branch"] { SpecialParses(e, ctx); }
    assert "os" in ["os", "arch", "ci", "branch"] && "arch" in ["os", "arch", "ci", "branch"];
    assert "ci" in ["os", "arch", "ci", "branch"] && "branch" in ["os", "arch", "ci", "branch"];
  }

  lemma SpecialParses(e: string, ctx: Context)
    requires e in ["os", "arch", "ci", "branch"] && ctx.parseFloat(e) == None
    ensures Parse(e, ctx) == Found(ResolveVariable(e, ctx))
  {
    hide Parse, ResolveVariable, Single;
    SpecialIsSingle(e);
    SingleParses(e, ctx);
    assert Unquoted(e) && e != "true" && e != "false";
  }

  lemma SpecialIsSingle(e: string)
    requires e in ["os", "arch", "ci", "branch"]
    ensures Single(e)
  {
  }

  function Found(value: Option<string>): Outcome<Value> {
    if value.Some? then Ok(Str(value.value)) else Fail
  }

  /** A name with a prefix is looked up where the prefix says. */
  lemma PrefixedNamesEvaluate(x: string, ctx: Context)
    requires forall p | p in ["env.", "inputs.", "matrix."] :: Single(p + x) && ctx.parseFloat(p + x) == None
    ensures Parse("env." + x, ctx) == Ok(Str(ctx.env(x)))
    ensures Parse("inputs." + x, ctx) == if x in ctx.inputs then Ok(Str(ctx.inputs[x])) else Fail
    ensures Parse("matrix." + x, ctx) == if x in ctx.matrix then Ok(Str(ctx.matrix[x])) else Fail
  {
    hide Parse, Single;
    assert "env." in ["env.", "inputs.", "matrix."] && "inputs." in ["env.", "inputs.", "matrix."];
    assert "matrix." in ["env.", "inputs.", "matrix."];
    SingleParses("env." + x, ctx);
    SingleParses("inputs." + x, ctx);
    SingleParses("matrix." + x, ctx);
    PrefixResolves("env.", x, ctx);
    PrefixResolves("inputs.", x, ctx);
    PrefixResolves("matrix.", x, ctx);
  }

  lemma PrefixResolves(p: string, x: string, ctx: Context)
    requires p in ["env.", "inputs.", "matrix."] && ctx.parseFloat(p + x) == None
    ensures p == "env." ==> ParseVariable(p + x, ctx) == Ok(Str(ctx.env(x)))
    ensures p == "inputs." ==> ParseVariable(p + x, ctx) == if x in ctx.inputs then Ok(Str(ctx.inputs[x])) else Fail
    ensures p == "matrix." ==> ParseVariable(p + x, ctx) == if x in ctx.matrix then Ok(Str(ctx.matrix[x])) else Fail
  {
    var e := p + x;
    assert p <= e && e[|p|..] == x && e[0] == p[0] && e[|p| - 1] == '.';
    assert e != "os" && e != "ci" && e != "true" && e != "false" && e != "arch" && e != "branch" by {
      assert '.' in e && '.' !in "os" && '.' !in "ci" && '.' !in "true" && '.' !in "false";
      assert '.' !in "arch" && '.' !in "branch";
    }
  }

  /** No special name and no prefix: an ordinary variable, or an error. */
  predicate Ordinary(e: string) {
    && e !in ["os", "arch", "ci", "branch", "true", "false"]
    && !("env." <= e) && !("inputs." <= e) && !("matrix." <= e)
  }

  lemma OrdinaryNameEvaluates(e: string, ctx: Context)
    requires Single(e) && Unquoted(e) && ctx.parseFloat(e) == None && Ordinary(e)
    ensures Parse(e, ctx) == if e in ctx.variables then Ok(Str(ctx.variables[e])) else Fail
  {
    hide Parse, Single;
    SingleParses(e, ctx);
    NotLiteral(e);
  }

  lemma NotLiteral(e: string)
    requires Ordinary(e)
    ensures e != "os" && e != "arch" && e != "ci" && e != "branch" && e != "true" && e != "false"
  {
    assert "os" in ["os", "arch", "ci", "branch", "true", "false"];
    assert "arch" in ["os", "arch", "ci", "branch", "true", "false"];
    assert "ci" in ["os", "arch", "ci", "branch", "true", "false"];
    assert "branch" in ["os", "arch", "ci", "branch", "true", "false"];
    assert "true" in ["os", "arch", "ci", "branch", "true", "false"];
    assert "false" in ["os", "arch", "ci", "branch", "true", "false"];
  }

  /** Without a blank there is no logical operator: `a&&b` is one name. */
  lemma UnspacedIsOneName(e: string, ctx: Context)
    requires Starts(e) && e[|e| - 1] != ')' && ' ' !in e && '=' !in e && '<' !in e && '>' !in e
    ensures Parse(e, ctx) == ParseVariable(e, ctx)
  {
    hide Parse, ParseLogical, ParseComparison, ParseCall, ParseVariable;
    OperatorIsFirst(e, '&', 0);
    OperatorIsFirst(e, '|', 0);
    NotLogical(e, ctx);
    WithoutComparison(e, ctx);
    NotCall(e, ctx);
    ParsesAsVariable(e, ctx);
  }

  // ----- Both sides count -----

  /** Neither operator stops at its left side: what goes wrong on the right goes wrong for the whole. */
  lemma BothSidesCount(left: string, c: char, right: string, ctx: Context)
    requires Starts(left) && Depth(left) == 0 && right != [] && Trimmed(right) && c !in left
    requires c == '&' || (c == '|' && '&' !in left && '&' !in right)
    ensures var e, l, r := Infix(left, c, right), Parse(left, ctx), Parse(right, ctx);
      Truth(Parse(e, ctx)) ==
        match (Truth(l), Truth(r)) {
          case (Ok(p), Ok(q)) => Ok(if c == '&' then p && q else p || q)
          case (Panic, _) => Panic
          case (Ok(_), Panic) => Panic
          case _ => Truth(Otherwise(e, ctx))
        }
  {
    hide Parse, ParseLogical, Otherwise, Depth;
    var e := Infix(left, c, right);
    InfixParts(left, c, right);
    assert e[0] == left[0];
    InfixLogical(left, c, right, ctx);
    TrimIdle(e);
    ParseUnfolds(e, ctx);
  }

  // ----- Comparing -----

  /** `a` comes before `b`: a proper prefix, or smaller where they first differ. */
  ghost predicate Precedes(a: string, b: string) {
    exists k: nat :: SplitAt(a, b, k)
  }

  ghost predicate SplitAt(a: string, b: string, k: nat) {
    && k <= |a| && k < |b| && a[..k] == b[..k]
    && (k < |a| ==> a[k] < b[k])
  }

  lemma {:induction false} StringLessIs(a: string, b: string)
    ensures StringLess(a, b) <==> Precedes(a, b)
  {
    if a == [] || b == [] {
      if b != [] { assert SplitAt(a, b, 0); }
    } else {
      StringLessIs(a[1..], b[1..]);
      if a[0] < b[0] {
        assert SplitAt(a, b, 0);
      } else if k: nat :| SplitAt(a[1..], b[1..], k) && a[0] == b[0] {
        assert a[..k + 1] == [a[0]] + a[1..][..k] && b[..k + 1] == [b[0]] + b[1..][..k];
        assert SplitAt(a, b, k + 1);
      }
      if k: nat :| SplitAt(a, b, k) && k > 0 {
        assert a[..k][0] == b[..k][0];
        assert a[1..][..k - 1] == a[..k][1..] && b[1..][..k - 1] == b[..k][1..];
        assert SplitAt(a[1..], b[1..], k - 1);
      }
    }
  }

  /** The order of numbers; not-a-number is in no relation to anything. */
  predicate Under(p: Num, q: Num) {
    || (p.Finite? && q.Finite? && p.value < q.value)
    || (p == NegInf && (q.Finite? || q == PosInf))
    || (p.Finite? && q == PosInf)
  }

  /** What evaluating a text says, inside the marker of an interpolation or on its own. */
  predicate Says(e: string, ctx: Context, flag: bool) {
    && Parse(e, ctx) == Ok(Bool(flag))
    && Evaluate("${{" + e + "}}", ctx) == Ok(flag)
    && (e != [] && e[0] != '$' && Trimmed(e) ==> Evaluate(e, ctx) == Ok(flag))
  }

  /** All seven ways to write a comparison of two operands. */
  predicate Compares(left: string, right: string, ctx: Context, less: bool, equal: bool, greater: bool) {
    && Says(left + " == " + right, ctx, equal)
    && Says(left + " = " + right, ctx, equal)
    && Says(left + " != " + right, ctx, !equal)
    && Says(left + " < " + right, ctx, less)
    && Says(left + " <= " + right, ctx, less || equal)
    && Says(left + " > " + right, ctx, greater)
    && Says(left + " >= " + right, ctx, greater || equal)
  }

  lemma ParsedSays(e: string, ctx: Context, flag: bool)
    requires Parse(e, ctx) == Ok(Bool(flag))
    ensures Says(e, ctx, flag)
  {
    hide Parse;
    EvaluateMarked(e, ctx);
    if e != [] && e[0] != '$' && Trimmed(e) {
      TrimIdle(e);
      assert !Prefixed(e, "${{");
    }
  }

  predicate Comparable(left: string, right: string) {
    Operandlike(left) && left[0] != '(' && Operandlike(right)
  }

  lemma WrittenSays(left: string, k: nat, right: string, ctx: Context, flag: bool)
    requires Comparable(left, right) && k < |OPERATORS| && Parse(left, ctx).Ok? && Parse(right, ctx).Ok?
    requires CompareValues(ctx, Parse(left, ctx).value, Parse(right, ctx).value, OPERATORS[k].1) == Ok(flag)
    ensures Says(left + Token(k) + right, ctx, flag)
  {
    hide Parse, CompareValues, Token;
    ComparisonEvaluates(left, k, right, ctx);
    ParsedSays(left + Token(k) + right, ctx, flag);
  }

  lemma Tokens()
    ensures Token(0) == " != " && Token(1) == " = " && Token(2) == " <= " && Token(3) == " >= "
    ensures Token(4) == " < " && Token(5) == " > " && Token(6) == " == "
  {
  }

  lemma AllWritten(left: string, right: string, ctx: Context, l: Value, r: Value, less: bool, equal: bool,
        greater: bool)
    requires Comparable(left, right) && Parse(left, ctx) == Ok(l) && Parse(right, ctx) == Ok(r)
    requires CompareValues(ctx, l, r, Eq) == Ok(equal) && CompareValues(ctx, l, r, Ne) == Ok(!equal)
    requires CompareValues(ctx, l, r, Lt) == Ok(less) && CompareValues(ctx, l, r, Le) == Ok(less || equal)
    requires CompareValues(ctx, l, r, Gt) == Ok(greater) && CompareValues(ctx, l, r, Ge) == Ok(greater || equal)
    ensures Compares(left, right, ctx, less, equal, greater)
  {
    hide Parse, CompareValues, Token, Comparable, Says;
    Tokens();
    WrittenSays(left, 0, right, ctx, !equal);
    WrittenSays(left, 1, right, ctx, equal);
    WrittenSays(left, 2, right, ctx, less || equal);
    WrittenSays(left, 3, right, ctx, greater || equal);
    WrittenSays(left, 4, right, ctx, less);
    WrittenSays(left, 5, right, ctx, greater);
    WrittenSays(left, 6, right, ctx, equal);
  }

  /** Two strings are compared character by character. */
  lemma StringsCompare(left: string, right: string, a: string, b: string, ctx: Context)
    requires Comparable(left, right) && Parse(left, ctx) == Ok(Str(a)) && Parse(right, ctx) == Ok(Str(b))
    ensures Compares(left, right, ctx, Precedes(a, b), a == b, Precedes(b, a))
  {
    hide Parse, Comparable, StringLess, Precedes;
    StringLessIs(a, b);
    StringLessIs(b, a);
    AllWritten(left, right, ctx, Str(a), Str(b), Precedes(a, b), a == b, Precedes(b, a));
  }

  /** How an operand counts as a number when the other one is a number: a string that is none counts as zero. */
  predicate Counts(ctx: Context, v: Value, num: Num) {
    match v
    case Number(n) => num == n
    case Str(text) => match ctx.parseFloat(text) { case Some(n) => num == n case None => num == Finite(0.0) }
    case Bool(_) => false
  }

  /** A number is compared as a number, with another one and with a string. */
  lemma NumbersCompare(left: string, right: string, l: Value, r: Value, p: Num, q: Num, ctx: Context)
    requires Comparable(left, right) && Parse(left, ctx) == Ok(l) && Parse(right, ctx) == Ok(r)
    requires Counts(ctx, l, p) && Counts(ctx, r, q) && (l.Number? || r.Number?)
    ensures Compares(left, right, ctx, Under(p, q), p == q && p != NaN, Under(q, p))
  {
    hide Parse, Comparable;
    AllWritten(left, right, ctx, l, r, Under(p, q), p == q && p != NaN, Under(q, p));
  }

  /** A truth value is compared with a string as the text of it. */
  lemma TruthAgainstString(left: string, right: string, flag: bool, b: string, ctx: Context)
    requires Comparable(left, right) && Parse(left, ctx) == Ok(Bool(flag)) && Parse(right, ctx) == Ok(Str(b))
    ensures var a := if flag then "true" else "false";
      Compares(left, right, ctx, Precedes(a, b), a == b, Precedes(b, a))
  {
    hide Parse, Comparable, StringLess, Precedes;
    var a := if flag then "true" else "false";
    StringLessIs(a, b);
    StringLessIs(b, a);
    AllWritten(left, right, ctx, Bool(flag), Str(b), Precedes(a, b), a == b, Precedes(b, a));
  }

  lemma StringAgainstTruth(left: string, right: string, a: string, flag: bool, ctx: Context)
    requires Comparable(left, right) && Parse(left, ctx) == Ok(Str(a)) && Parse(right, ctx) == Ok(Bool(flag))
    ensures var b := if flag then "true" else "false";
      Compares(left, right, ctx, Precedes(a, b), a == b, Precedes(b, a))
  {
    hide Parse, Comparable, StringLess, Precedes;
    var b := if flag then "true" else "false";
    StringLessIs(a, b);
    StringLessIs(b, a);
    AllWritten(left, right, ctx, Str(a), Bool(flag), Precedes(a, b), a == b, Precedes(b, a));
  }

  /** Not a comparison: what is left of a text is a call or an operand. */
  function Unrelated(e: string, ctx: Context): Outcome<Value> {
    var call := ParseCall(e, ctx);
    if !call.Fail? then call else ParseVariable(e, ctx)
  }

  /** Two truth values can only be equal or not; ordering them is no comparison. */
  lemma TruthsCompare(left: string, right: string, p: bool, q: bool, ctx: Context)
    requires Comparable(left, right) && Parse(left, ctx) == Ok(Bool(p)) && Parse(right, ctx) == Ok(Bool(q))
    ensures Says(left + " == " + right, ctx, p == q) && Says(left + " = " + right, ctx, p == q)
    ensures Says(left + " != " + right, ctx, p != q)
    ensures forall op | op in [" < ", " <= ", " > ", " >= "] ::
      Parse(left + op + right, ctx) == Unrelated(left + op + right, ctx)
  {
    hide Parse, Comparable, Token, Says, Unrelated;
    Tokens();
    WrittenSays(left, 6, right, ctx, p == q);
    WrittenSays(left, 1, right, ctx, p == q);
    WrittenSays(left, 0, right, ctx, p != q);
    forall k | 2 <= k < 6 { WrittenFails(left, k, right, ctx); }
    assert Token(2) == " <= " && Token(3) == " >= " && Token(4) == " < " && Token(5) == " > ";
  }

  /** A truth value and a number cannot be compared at all. */
  lemma TruthAgainstNumber(left: string, right: string, l: Value, r: Value, k: nat, ctx: Context)
    requires Comparable(left, right) && k < |OPERATORS| && Parse(left, ctx) == Ok(l) && Parse(right, ctx) == Ok(r)
    requires (l.Bool? && r.Number?) || (l.Number? && r.Bool?)
    ensures Parse(left + Token(k) + right, ctx) == Unrelated(left + Token(k) + right, ctx)
  {
    hide Parse, Comparable, Token, Unrelated;
    WrittenFails(left, k, right, ctx);
  }

  lemma WrittenFails(left: string, k: nat, right: string, ctx: Context)
    requires Comparable(left, right) && k < |OPERATORS| && Parse(left, ctx).Ok? && Parse(right, ctx).Ok?
    requires CompareValues(ctx, Parse(left, ctx).value, Parse(right, ctx).value, OPERATORS[k].1) == Fail
    ensures Parse(left + Token(k) + right, ctx) == Unrelated(left + Token(k) + right, ctx)
  {
    hide Parse, ParseLogical, ParseComparison, CompareValues, Unrelated;
    var e := left + Token(k) + right;
    assert e[0] == left[0] && e[|e| - 1] == right[|right| - 1];
    assert '&' !in Token(k) && '|' !in Token(k);
    OperatorNone(e, '&');
    OperatorNone(e, '|');
    NotLogical(e, ctx);
    ComparisonParses(left, k, right, ctx);
    UncomparedParses(e, ctx);
  }

  lemma UncomparedParses(e: string, ctx: Context)
    requires Starts(e) && ParseLogical(e, ctx).Fail? && ParseComparison(e, ctx, 0).Fail?
    ensures Parse(e, ctx) == Unrelated(e, ctx)
  {
    hide ParseLogical, ParseComparison, ParseCall, ParseVariable;
    TrimIdle(e);
  }

  /** The condition of the documentation: it holds on that system and on no other. */
  lemma SystemTest(ctx: Context)
    requires ctx.parseFloat("os") == None && "os" !in ctx.variables
    ensures Evaluate("os == 'linux'", ctx) == Ok(ctx.os == "linux")
    ensures Evaluate("os != 'linux'", ctx) == Ok(ctx.os != "linux")
  {
    hide Parse, Evaluate, Precedes, Comparable, Says, ResolveVariable;
    SystemTexts();
    OsParses(ctx);
    QuotedEvaluates("linux", '\'', ctx);
    StringsCompare("os", "'linux'", ctx.os, "linux", ctx);
    PlainlySays("os == 'linux'", ctx, ctx.os == "linux");
    PlainlySays("os != 'linux'", ctx, ctx.os != "linux");
  }

  lemma OsParses(ctx: Context)
    requires ctx.parseFloat("os") == None && "os" !in ctx.variables
    ensures Parse("os", ctx) == Ok(Str(ctx.os))
  {
    hide Parse;
    SpecialParses("os", ctx);
  }

  lemma PlainlySays(e: string, ctx: Context, flag: bool)
    requires Says(e, ctx, flag) && e != [] && e[0] != '$' && Trimmed(e)
    ensures Evaluate(e, ctx) == Ok(flag)
  {
    hide Parse, Evaluate;
  }

  lemma SystemTexts()
    ensures Comparable("os", "'linux'") && ['\''] + "linux" + ['\''] == "'linux'"
    ensures "os" + " == " + "'linux'" == "os == 'linux'" && "os" + " != " + "'linux'" == "os != 'linux'"
  {
  }
}
