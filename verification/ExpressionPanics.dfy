/** When evaluation breaks off with a slice out of range. */
module ExpressionPanics {
  import opened StageTypes
  import opened Text
  import opened Expression
  import opened ExpressionLaws

  // ----- Where it breaks off -----

  /** The one place: a quote on its own. */
  lemma VariablePanicsExactly(e: string, ctx: Context)
    ensures ParseVariable(e, ctx).Panic? <==> e == "'" || e == "\""
  {
    if |e| == 1 { assert e == [e[0]]; }
  }

  lemma LoneQuote(e: string, ctx: Context)
    requires e == "'" || e == "\""
    ensures Parse(e, ctx) == Panic
  {
    hide Parse, ParseLogical, ParseComparison, ParseCall;
    OperatorNone(e, '&');
    OperatorNone(e, '|');
    NotLogical(e, ctx);
    NoComparisonAtAll(e, ctx);
    NotCall(e, ctx);
    ParsesAsVariable(e, ctx);
  }

  /** Splitting at an operator inside a quoted text tears its quotes apart. */
  lemma QuotedOperatorPanics(ctx: Context)
    ensures Parse("'<'", ctx) == Panic
  {
    hide Parse, ParseLogical, ParseComparison;
    var e := "'<'";
    OperatorNone(e, '&');
    OperatorNone(e, '|');
    NotLogical(e, ctx);
    LoneQuote("'", ctx);
    QuotedSplits();
    QuotedComparison(ctx);
    TrimIdle(e);
    ParseUnfolds(e, ctx);
  }

  lemma QuotedSplits()
    ensures forall j | 0 <= j < 4 :: SplitTwo("'<'", OPERATORS[j].0) == None
    ensures SplitTwo("'<'", "<") == Some(("'", "'"))
  {
    var e := "'<'";
    IndexNeeds(e, "!=", 0);
    IndexNeeds(e, " = ", 1);
    IndexNeeds(e, "<=", 1);
    IndexNeeds(e, ">=", 0);
    assert e[1..2] == "<" && e[..1] == "'" && e[2..] == "'";
    assert e[0..1] == "'" && e[2..3] == "'";
    IndexIs(e, "<", 0, 1);
    assert Index(e, "<", 2).None?;
  }

  lemma QuotedComparison(ctx: Context)
    requires Parse("'", ctx) == Panic
    requires forall j | 0 <= j < 4 :: SplitTwo("'<'", OPERATORS[j].0) == None
    requires SplitTwo("'<'", "<") == Some(("'", "'"))
    ensures ParseComparison("'<'", ctx, 0) == Panic
  {
    hide Parse, SplitTwo;
    var e := "'<'";
    TrimIdle("'");
    assert ParseComparison(e, ctx, 4) == Panic;
    assert ParseComparison(e, ctx, 3) == Panic;
    assert ParseComparison(e, ctx, 2) == Panic;
    assert ParseComparison(e, ctx, 1) == Panic;
  }

  /** A quote on its own is sliced out of range, and so is a quoted operator, whose quotes are paired. */
  lemma LoneQuotePanics(ctx: Context)
    ensures Evaluate("'", ctx) == Panic && Evaluate("\"", ctx) == Panic
    ensures Evaluate("'<'", ctx) == Panic
  {
    hide Parse;
    LoneQuote("'", ctx);
    LoneQuote("\"", ctx);
    QuotedOperatorPanics(ctx);
    TrimIdle("'");
    TrimIdle("\"");
    TrimIdle("'<'");
  }

  // ----- Where it does not -----

  /** The characters at which texts are cut; blanks are lost only next to a cut or at an end. */
  predicate Cut(c: char) {
    c in "()!=<>&|,"
  }

  predicate Quote(c: char) {
    c == '\'' || c == '"'
  }

  /** Going left from the end, there is nothing but blanks up to the beginning or a cut. */
  predicate LooseEnd(s: string) {
    s != [] ==> if IsSpace(s[|s| - 1]) then LooseEnd(s[..|s| - 1]) else Cut(s[|s| - 1])
  }

  /** Going right from the beginning, there is nothing but blanks up to the end or a cut. */
  predicate LooseStart(s: string) {
    s != [] ==> if IsSpace(s[0]) then LooseStart(s[1..]) else Cut(s[0])
  }

  /** Every quote can go left or right over blanks to a character that stays with it. */
  predicate Attached(s: string) {
    forall i | 0 <= i < |s| && Quote(s[i]) :: AttachedAt(s, i)
  }

  predicate AttachedAt(s: string, i: nat)
    requires i < |s|
  {
    !LooseEnd(s[..i]) || !LooseStart(s[i + 1..])
  }

  lemma {:induction false} BlankIsLoose(s: string)
    requires AllSpace(s)
    ensures LooseEnd(s) && LooseStart(s)
  {
    if s != [] {
      BlankIsLoose(s[..|s| - 1]);
      BlankIsLoose(s[1..]);
    }
  }

  lemma {:induction false} LooseEndGoesOn(a: string, b: string)
    requires LooseEnd(a) && LooseEnd(b)
    ensures LooseEnd(a + b)
  {
    if b == [] {
      assert a + b == a;
    } else if IsSpace(b[|b| - 1]) {
      assert (a + b)[..|a + b| - 1] == a + b[..|b| - 1];
      LooseEndGoesOn(a, b[..|b| - 1]);
    }
  }

  lemma {:induction false} LooseStartGoesOn(a: string, b: string)
    requires LooseStart(a) && LooseStart(b)
    ensures LooseStart(a + b)
  {
    if a == [] {
      assert a + b == b;
    } else if IsSpace(a[0]) {
      assert (a + b)[1..] == a[1..] + b;
      LooseStartGoesOn(a[1..], b);
    }
  }

  /** A slice with loose text on both sides is attached again. */
  lemma AttachedSlice(s: string, i: nat, j: nat)
    requires Attached(s) && i <= j <= |s| && LooseEnd(s[..i]) && LooseStart(s[j..])
    ensures Attached(s[i..j])
  {
    hide LooseEnd, LooseStart;
    var part := s[i..j];
    forall k | 0 <= k < |part| && Quote(part[k])
      ensures AttachedAt(part, k)
    {
      assert part[k] == s[i + k] && AttachedAt(s, i + k);
      assert s[..i + k] == s[..i] + part[..k] && s[i + k + 1..] == part[k + 1..] + s[j..];
      if LooseEnd(part[..k]) { LooseEndGoesOn(s[..i], part[..k]); }
      if LooseStart(part[k + 1..]) { LooseStartGoesOn(part[k + 1..], s[j..]); }
    }
  }

  lemma AttachedTrim(s: string)
    requires Attached(s)
    ensures Attached(TrimSpace(s))
  {
    hide Attached, LooseEnd, LooseStart;
    var i, j := TrimCuts(s);
    BlankIsLoose(s[..i]);
    BlankIsLoose(s[j..]);
    AttachedSlice(s, i, j);
  }

  lemma CutIsVisible(c: char)
    requires Cut(c)
    ensures !IsSpace(c)
  {
    assert c == '(' || c == ')' || c == '!' || c == '=' || c == '<' || c == '>' || c == '&' || c == '|' || c == ',';
  }

  lemma StartsWithCut(s: string)
    requires s != [] && Cut(s[0])
    ensures LooseStart(s)
  {
    hide Cut, IsSpace;
    CutIsVisible(s[0]);
  }

  lemma EndsWithCut(s: string)
    requires s != [] && Cut(s[|s| - 1])
    ensures LooseEnd(s)
  {
    hide Cut, IsSpace;
    CutIsVisible(s[|s| - 1]);
  }

  /** The inside of a text that starts and ends with a cut. */
  lemma AttachedInside(s: string)
    requires Attached(s) && |s| >= 2 && Cut(s[0]) && Cut(s[|s| - 1])
    ensures Attached(s[1..|s| - 1])
  {
    hide Attached, Cut, LooseStart, LooseEnd;
    EndsWithCut(s[..1]);
    StartsWithCut(s[|s| - 1..]);
    AttachedSlice(s, 1, |s| - 1);
  }

  /** Cutting out a part that starts and ends with a cut, perhaps with a blank around it. */
  lemma AttachedCut(s: string, i: nat, j: nat)
    requires Attached(s) && i < j <= |s| && LooseStart(s[i..]) && LooseEnd(s[..j])
    ensures Attached(s[..i]) && Attached(s[j..])
  {
    hide Attached, LooseEnd, LooseStart;
    BlankIsLoose([]);
    assert s[..0] == [] && s[|s|..] == [];
    AttachedSlice(s, 0, i);
    AttachedSlice(s, j, |s|);
    assert s[0..i] == s[..i] && s[j..|s|] == s[j..];
  }

  lemma AttachedCutAt(s: string, i: nat, j: nat)
    requires Attached(s) && i < j <= |s| && Cut(s[i]) && Cut(s[j - 1])
    ensures Attached(s[..i]) && Attached(s[j..])
  {
    hide Attached, Cut, LooseStart, LooseEnd;
    StartsWithCut(s[i..]);
    EndsWithCut(s[..j]);
    AttachedCut(s, i, j);
  }

  /** If every quote is attached, evaluation returns a value or an error. */
  lemma {:induction false} AttachedNeverPanics(expr: string, ctx: Context)
    requires Attached(expr)
    ensures !Parse(expr, ctx).Panic?
    decreases |expr|, 5, 0
  {
    TrimIsTrimmed(expr);
    AttachedTrim(expr);
    var e := TrimSpace(expr);
    if Enclosed(e, '(', ')') {
      AttachedInside(e);
      SideNeverPanics(e[1..|e| - 1], e, ctx);
    } else {
      LogicalNeverPanics(e, ctx);
      ComparisonNeverPanics(e, ctx, 0);
      CallNeverPanics(e, ctx);
      VariableNeverPanics(e, ctx);
    }
  }

  lemma VariableNeverPanics(e: string, ctx: Context)
    requires Attached(e)
    ensures !ParseVariable(e, ctx).Panic?
  {
    hide ParseVariable, Attached;
    VariablePanicsExactly(e, ctx);
    AloneIsNotAttached("'");
    AloneIsNotAttached("\"");
  }

  lemma AloneIsNotAttached(e: string)
    requires |e| == 1 && Quote(e[0])
    ensures !Attached(e)
  {
    assert e[..0] == [] && e[1..] == [];
    assert !AttachedAt(e, 0);
  }

  lemma {:induction false} SideNeverPanics(part: string, whole: string, ctx: Context)
    requires Attached(part) && |part| < |whole|
    ensures !Side(part, whole, ctx).Panic? && !Parse(TrimSpace(part), ctx).Panic?
    decreases |whole|, 0, 0
  {
    TrimIsTrimmed(part);
    AttachedTrim(part);
    AttachedNeverPanics(TrimSpace(part), ctx);
  }

  lemma {:induction false} LogicalNeverPanics(e: string, ctx: Context)
    requires Attached(e)
    ensures !ParseLogical(e, ctx).Panic?
    decreases |e|, 4, 0
  {
    hide Parse, Attached;
    if Prefixed(e, "!") {
      AttachedOperand(e);
      AttachedNeverPanics(Operand(e), ctx);
    } else {
      var and, or := Operator(e, '&', 0), Operator(e, '|', 0);
      if and.Some? {
        AttachedCutAt(e, and.value, and.value + 2);
        SideNeverPanics(e[..and.value], e, ctx);
        SideNeverPanics(e[and.value + 2..], e, ctx);
      } else if or.Some? {
        AttachedCutAt(e, or.value, or.value + 2);
        SideNeverPanics(e[..or.value], e, ctx);
        SideNeverPanics(e[or.value + 2..], e, ctx);
      }
    }
  }

  lemma AttachedOperand(e: string)
    requires Attached(e) && Prefixed(e, "!")
    ensures Attached(Operand(e))
  {
    hide Attached;
    assert e[0] == '!';
    AttachedCutAt(e, 0, 1);
    AttachedTrim(e[1..]);
    var rest := TrimSpace(e[1..]);
    if Enclosed(rest, '(', ')') {
      AttachedInside(rest);
      AttachedTrim(rest[1..|rest| - 1]);
    }
  }

  lemma BlankAround(e: string, i: nat)
    requires i + 3 <= |e| && e[i] == ' ' == e[i + 2] && Cut(e[i + 1])
    ensures LooseStart(e[i..]) && LooseEnd(e[..i + 3])
  {
    var right, left := e[i..], e[..i + 3];
    assert right[0] == ' ' && right[1..][0] == e[i + 1];
    assert left[i + 2] == ' ' && left[..i + 2][i + 1] == e[i + 1];
  }

  lemma AttachedParts(e: string, k: nat)
    requires Attached(e) && k < |OPERATORS| && SplitTwo(e, OPERATORS[k].0).Some?
    ensures Attached(SplitTwo(e, OPERATORS[k].0).value.0) && Attached(SplitTwo(e, OPERATORS[k].0).value.1)
  {
    hide Attached;
    var op := OPERATORS[k].0;
    var i := Index(e, op, 0).value;
    AtHas(e, i, op, 0);
    AtHas(e, i, op, |op| - 1);
    if k == 1 {
      AtHas(e, i, op, 1);
      BlankAround(e, i);
      AttachedCut(e, i, i + 3);
    } else {
      AttachedCutAt(e, i, i + |op|);
    }
  }

  lemma {:induction false} ComparisonNeverPanics(e: string, ctx: Context, k: nat)
    requires Attached(e) && k <= |OPERATORS|
    ensures !ParseComparison(e, ctx, k).Panic?
    decreases |e|, 3, |OPERATORS| - k
  {
    hide Parse, CompareValues, Attached;
    if k < |OPERATORS| {
      var parts := SplitTwo(e, OPERATORS[k].0);
      if parts.None? {
        ComparisonNeverPanics(e, ctx, k + 1);
      } else {
        AttachedParts(e, k);
        SideNeverPanics(parts.value.0, e, ctx);
        SideNeverPanics(parts.value.1, e, ctx);
        var left, right := Side(parts.value.0, e, ctx), Side(parts.value.1, e, ctx);
        if left.Ok? && right.Ok? {
          CompareNeverPanics(ctx, left.value, right.value, OPERATORS[k].1);
        }
      }
    }
  }

  lemma CompareNeverPanics(ctx: Context, left: Value, right: Value, op: Comparator)
    ensures !CompareValues(ctx, left, right, op).Panic?
  {
  }

  lemma {:induction false} CommasAttached(s: string)
    requires Attached(s)
    ensures forall p | p in Commas(s) :: Attached(p)
    decreases |s|
  {
    hide Attached;
    var found := Index(s, ",", 0);
    if found.Some? {
      AtHas(s, found.value, ",", 0);
      AttachedCutAt(s, found.value, found.value + 1);
      CommasAttached(s[found.value + 1..]);
    }
  }

  lemma {:induction false} CallNeverPanics(e: string, ctx: Context)
    requires Attached(e)
    ensures !ParseCall(e, ctx).Panic?
    decreases |e|, 2, 0
  {
    hide Commas, Call, CallParts, Attached;
    var call := CallParts(e);
    if call.Some? { CallAttached(e); }
    if call.Some? && call.value.1 != "" {
      CommasAttached(call.value.1);
      ArgumentsNeverPanic(Commas(call.value.1), e, ctx);
    }
    if call.Some? {
      forall args { FunctionNeverPanics(call.value.0, args, ctx); }
    }
  }

  lemma CallAttached(e: string)
    requires Attached(e) && CallParts(e).Some?
    ensures Attached(CallParts(e).value.1)
  {
    hide Attached;
    var k := WordLength(e);
    EndsWithCut(e[..k + 1]);
    StartsWithCut(e[|e| - 1..]);
    AttachedSlice(e, k + 1, |e| - 1);
  }

  lemma FunctionNeverPanics(name: string, args: seq<Value>, ctx: Context)
    ensures !Call(name, args, ctx).Panic?
  {
  }

  lemma {:induction false} ArgumentsNeverPanic(parts: seq<string>, whole: string, ctx: Context)
    requires forall p | p in parts :: |p| < |whole| && Attached(p)
    ensures !ParseArguments(parts, whole, ctx).Panic?
    decreases |whole|, 1, |parts|
  {
    hide Parse, Attached;
    if parts != [] {
      assert parts[0] in parts;
      SideNeverPanics(parts[0], whole, ctx);
      ArgumentsNeverPanic(parts[1..], whole, ctx);
    }
  }

  /** In particular without any quote. */
  lemma UnquotedNeverPanics(expr: string, ctx: Context)
    requires '\'' !in expr && '"' !in expr
    ensures !Parse(expr, ctx).Panic?
  {
    hide Parse;
    AttachedNeverPanics(expr, ctx);
  }

  predicate Uncut(s: string) {
    forall i | 0 <= i < |s| :: !Cut(s[i]) && !Quote(s[i])
  }

  lemma {:induction false} HeldByStart(w: string, q: char, rest: string)
    requires Uncut(w) && Quote(q)
    ensures !LooseStart(w + [q] + rest)
  {
    if w == [] {
      assert (w + [q] + rest)[0] == q;
    } else {
      assert (w + [q] + rest)[1..] == w[1..] + [q] + rest;
      HeldByStart(w[1..], q, rest);
    }
  }

  lemma {:induction false} HeldByEnd(rest: string, q: char, w: string)
    requires Uncut(w) && Quote(q)
    ensures !LooseEnd(rest + [q] + w)
  {
    var e := rest + [q] + w;
    if w == [] {
      assert e[|e| - 1] == q;
    } else {
      assert e[|e| - 1] == w[|w| - 1] && e[..|e| - 1] == rest + [q] + w[..|w| - 1];
      HeldByEnd(rest, q, w[..|w| - 1]);
    }
  }

  /** A quoted text is no harm either, blank or not, if none of the characters of a cut is in it. */
  lemma QuotedTextNeverPanics(left: string, q: char, w: string, right: string, ctx: Context)
    requires Uncut(w) && Quote(q)
    requires forall c | c in left + right :: !Quote(c)
    ensures !Parse(left + [q] + w + [q] + right, ctx).Panic?
  {
    hide Parse, LooseStart, LooseEnd;
    var e := left + [q] + w + [q] + right;
    forall i | 0 <= i < |e| && Quote(e[i])
      ensures AttachedAt(e, i)
    {
      QuotedAt(left, q, w, right, i);
      if i == |left| {
        assert e[i + 1..] == w + [q] + right;
        HeldByStart(w, q, right);
      } else {
        assert e[..i] == left + [q] + w;
        HeldByEnd(left, q, w);
      }
    }
    AttachedNeverPanics(e, ctx);
  }

  lemma QuotedAt(left: string, q: char, w: string, right: string, i: nat)
    requires Uncut(w) && forall c | c in left + right :: !Quote(c)
    requires i < |left + [q] + w + [q] + right|
    ensures Quote((left + [q] + w + [q] + right)[i]) ==> i == |left| || i == |left| + 1 + |w|
  {
    var e := left + [q] + w + [q] + right;
    if i < |left| {
      assert e[i] == left[i] && left[i] in left + right;
    } else if i > |left| + 1 + |w| {
      var k := i - |left| - |w| - 2;
      assert e[i] == right[k] && right[k] in left + right;
    } else if |left| < i < |left| + 1 + |w| {
      assert e[i] == w[i - |left| - 1];
    }
  }

  lemma QuotedBlankNeverPanics(ctx: Context)
    ensures !Parse("x == ' '", ctx).Panic? && !Parse("contains(x, ' ')", ctx).Panic?
  {
    hide Parse;
    assert "x == " + ['\''] + " " + ['\''] + "" == "x == ' '";
    assert "contains(x, " + ['\''] + " " + ['\''] + ")" == "contains(x, ' ')";
    QuotedTextNeverPanics("x == ", '\'', " ", "", ctx);
    QuotedTextNeverPanics("contains(x, ", '\'', " ", ")", ctx);
  }
}
