/** The evaluator of `when` and `if` expressions, which splits strings and never builds a tree. */
module Expression {
  import opened StageTypes
  import opened Text

  // ----- Values -----

  /** A float64, without its rounding. */
  datatype Num = Finite(value: real) | PosInf | NegInf | NaN

  datatype Value = Bool(flag: bool) | Str(text: string) | Number(num: Num)

  /** A result, an error, or a slice out of range, which nothing recovers from. */
  datatype Outcome<+T> = Ok(value: T) | Fail | Panic

  /** The expression context, and what the library and the file system answer. */
  datatype Context = Context(
    variables: map<string, string>, inputs: map<string, string>, matrix: map<string, string>,
    ci: bool, branch: string, os: string, arch: string, env: string -> string,
    parseFloat: string -> Option<Num>, formatFloat: Num -> string,
    matchRegexp: (string, string) -> Option<bool>, fileExists: string -> bool,
    compareVersions: (string, string) -> Option<int>)

  predicate ToBool(v: Value) {
    match v
    case Bool(flag) => flag
    case Str(text) => text != "false" && text != ""
    case Number(num) => num != Finite(0.0)
  }

  function ToString(ctx: Context, v: Value): string {
    match v
    case Bool(flag) => if flag then "true" else "false"
    case Str(text) => text
    case Number(num) => ctx.formatFloat(num)
  }

  function ToNumber(ctx: Context, v: Value): Num {
    match v
    case Bool(flag) => Finite(if flag then 1.0 else 0.0)
    case Str(text) => var parsed := ctx.parseFloat(text); if parsed.Some? then parsed.value else Finite(0.0)
    case Number(num) => num
  }

  // ----- Comparison -----

  datatype Comparator = Eq | Ne | Lt | Le | Gt | Ge

  predicate NumLess(a: Num, b: Num) {
    match (a, b)
    case (NaN, _) => false
    case (_, NaN) => false
    case (Finite(x), Finite(y)) => x < y
    case (NegInf, _) => b != NegInf
    case (_, PosInf) => a != PosInf
    case _ => false
  }

  predicate CompareNumbers(a: Num, b: Num, op: Comparator) {
    var equal := a == b && a != NaN;
    match op
    case Eq => equal
    case Ne => !equal
    case Lt => NumLess(a, b)
    case Le => NumLess(a, b) || equal
    case Gt => NumLess(b, a)
    case Ge => NumLess(b, a) || equal
  }

  predicate StringLess(a: string, b: string) {
    if b == [] then false
    else if a == [] then true
    else a[0] < b[0] || (a[0] == b[0] && StringLess(a[1..], b[1..]))
  }

  predicate CompareStrings(a: string, b: string, op: Comparator) {
    match op
    case Eq => a == b
    case Ne => a != b
    case Lt => StringLess(a, b)
    case Le => StringLess(a, b) || a == b
    case Gt => StringLess(b, a)
    case Ge => StringLess(b, a) || a == b
  }

  function CompareValues(ctx: Context, left: Value, right: Value, op: Comparator): Outcome<bool> {
    if (left.Number? && right.Number?) || ((left.Number? || right.Number?) && (left.Str? || right.Str?)) then
      Ok(CompareNumbers(ToNumber(ctx, left), ToNumber(ctx, right), op))
    else if left.Str? || right.Str? then Ok(CompareStrings(ToString(ctx, left), ToString(ctx, right), op))
    else if left.Bool? && right.Bool? && op.Eq? then Ok(left.flag == right.flag)
    else if left.Bool? && right.Bool? && op.Ne? then Ok(left.flag != right.flag)
    else Fail
  }

  // ----- Finding the pieces -----

  predicate Prefixed(s: string, prefix: string) {
    prefix <= s
  }

  predicate Enclosed(s: string, open: char, close: char) {
    |s| > 0 && s[0] == open && s[|s| - 1] == close
  }

  /** Opening minus closing parentheses. */
  function Depth(s: string): int {
    if s == [] then 0
    else Depth(s[..|s| - 1]) + match s[|s| - 1] { case '(' => 1 case ')' => -1 case _ => 0 }
  }

  /** `cc` stands at `i` with blanks around it. */
  predicate OperatorAt(s: string, i: nat, c: char) {
    0 < i && i + 2 < |s| && s[i] == c && s[i + 1] == c && s[i - 1] == ' ' && s[i + 2] == ' '
  }

  /** The operator at `i` is outside all parentheses. */
  predicate TopLevelAt(s: string, i: nat, c: char) {
    i <= |s| && OperatorAt(s, i, c) && Depth(s[..i]) == 0
  }

  /** The first top-level operator at `from` or later. */
  function Operator(s: string, c: char, from: nat): (pos: Option<nat>)
    ensures pos.Some? ==> TopLevelAt(s, pos.value, c)
    decreases |s| - from
  {
    if from >= |s| then None
    else if TopLevelAt(s, from, c) then Some(from)
    else Operator(s, c, from + 1)
  }

  lemma {:induction false} OperatorIsFirst(s: string, c: char, from: nat)
    ensures match Operator(s, c, from)
      case Some(i) => from <= i && forall j: nat | from <= j < i :: !TopLevelAt(s, j, c)
      case None => forall j: nat | from <= j :: !TopLevelAt(s, j, c)
    decreases |s| - from
  {
    if from < |s| && !TopLevelAt(s, from, c) {
      OperatorIsFirst(s, c, from + 1);
    }
  }

  lemma OperatorIs(s: string, c: char, i: nat)
    requires TopLevelAt(s, i, c) && forall j: nat | j < i :: !TopLevelAt(s, j, c)
    ensures Operator(s, c, 0) == Some(i)
  {
    OperatorIsFirst(s, c, 0);
  }

  lemma OperatorNone(s: string, c: char)
    requires c !in s
    ensures Operator(s, c, 0) == None
  {
    OperatorIsFirst(s, c, 0);
  }

  lemma OperatorIsContained(s: string, c: char, i: nat)
    requires OperatorAt(s, i, c)
    ensures Contains(s, [' ', c, c, ' '])
  {
    assert s[i - 1..i + 3] == [' ', c, c, ' '];
    assert At(s, i - 1, [' ', c, c, ' ']);
  }

  /** The scan with its count of parentheses finds the first top-level operator. */
  method FindOperator(s: string, c: char) returns (pos: Option<nat>)
    requires c == '&' || c == '|'
    ensures match pos
      case Some(i) => TopLevelAt(s, i, c) && forall j: nat | j < i :: !TopLevelAt(s, j, c)
      case None => forall j: nat :: !TopLevelAt(s, j, c)
    ensures pos == Operator(s, c, 0)
  {
    OperatorIsFirst(s, c, 0);
    if Index(s, [' ', c, c, ' '], 0).None? {
      IndexNone(s, [' ', c, c, ' ']);
      forall j: nat | OperatorAt(s, j, c) { OperatorIsContained(s, c, j); }
      return None;
    }
    var parenCount := 0;
    var i := 0;
    while i < |s|
      invariant 0 <= i <= |s| && parenCount == Depth(s[..i])
      invariant forall j: nat | j < i :: !TopLevelAt(s, j, c)
    {
      assert s[..i + 1][..i] == s[..i];
      if s[i] == '(' {
        parenCount := parenCount + 1;
      } else if s[i] == ')' {
        parenCount := parenCount - 1;
      } else if s[i] == c && i + 1 < |s| && s[i + 1] == c && parenCount == 0 {
        if i > 0 && s[i - 1] == ' ' && i + 2 < |s| && s[i + 2] == ' ' {
          return Some(i);
        }
      }
      i := i + 1;
    }
    return None;
  }

  /** Splitting at `op` gives exactly two parts. */
  function SplitTwo(s: string, op: string): (parts: Option<(string, string)>)
    requires op != []
    ensures parts.Some? ==> |parts.value.0| < |s| && |parts.value.1| < |s|
  {
    match Index(s, op, 0)
    case None => None
    case Some(i) => if Index(s, op, i + |op|).None? then Some((s[..i], s[i + |op|..])) else None
  }

  /** All parts between commas. */
  function Commas(s: string): (parts: seq<string>)
    ensures forall p | p in parts :: |p| <= |s|
    decreases |s|
  {
    match Index(s, ",", 0)
    case None => [s]
    case Some(i) => [s[..i]] + Commas(s[i + 1..])
  }

  predicate IsWord(c: char) {
    'a' <= c <= 'z' || 'A' <= c <= 'Z' || '0' <= c <= '9' || c == '_'
  }

  function WordLength(s: string): (k: nat)
    ensures k <= |s|
  {
    if s != [] && IsWord(s[0]) then 1 + WordLength(s[1..]) else 0
  }

  /** A word, and an argument list in parentheses up to the end, on one line. */
  function CallParts(s: string): (call: Option<(string, string)>)
    ensures call.Some? ==> |call.value.1| < |s|
  {
    var k := WordLength(s);
    if 0 < k < |s| - 1 && s[k] == '(' && s[|s| - 1] == ')' && '\n' !in s[k + 1..|s| - 1]
    then Some((s[..k], s[k + 1..|s| - 1])) else None
  }

  // ----- Evaluation -----

  const OPERATORS: seq<(string, Comparator)> :=
    [("!=", Ne), (" = ", Eq), ("<=", Le), (">=", Ge), ("<", Lt), (">", Gt), ("==", Eq)]

  function Parse(expr: string, ctx: Context): Outcome<Value>
    decreases |expr|, 5, 0
  {
    TrimIsTrimmed(expr);
    var e := TrimSpace(expr);
    if Enclosed(e, '(', ')') then
      TrimIsTrimmed(e[1..|e| - 1]);
      Parse(TrimSpace(e[1..|e| - 1]), ctx)
    else
      var logical := ParseLogical(e, ctx);
      if !logical.Fail? then logical
      else
        var comparison := ParseComparison(e, ctx, 0);
        if !comparison.Fail? then comparison
        else
          var call := ParseCall(e, ctx);
          if !call.Fail? then call else ParseVariable(e, ctx)
  }

  function ParseLogical(e: string, ctx: Context): Outcome<Value>
    decreases |e|, 4, 0
  {
    if Prefixed(e, "!") then
      match Parse(Operand(e), ctx)
      case Ok(v) => Ok(Bool(!ToBool(v)))
      case Fail => Fail
      case Panic => Panic
    else
      match Operator(e, '&', 0)
      case Some(i) => Both(Side(e[..i], e, ctx), Side(e[i + 2..], e, ctx), true)
      case None =>
        match Operator(e, '|', 0)
        case Some(i) => Both(Side(e[..i], e, ctx), Side(e[i + 2..], e, ctx), false)
        case None => Fail
  }

  /** Everything behind the `!`, without the parentheses around it. */
  function Operand(e: string): (operand: string)
    requires Prefixed(e, "!")
    ensures |operand| < |e|
  {
    TrimIsTrimmed(e[1..]);
    var rest := TrimSpace(e[1..]);
    if Enclosed(rest, '(', ')') then
      TrimIsTrimmed(rest[1..|rest| - 1]);
      TrimSpace(rest[1..|rest| - 1])
    else rest
  }

  function Side(part: string, whole: string, ctx: Context): Outcome<Value>
    requires |part| < |whole|
    decreases |whole|, 0, 0
  {
    TrimIsTrimmed(part);
    Parse(TrimSpace(part), ctx)
  }

  /** Both sides are evaluated, the left one first. */
  function Both(left: Outcome<Value>, right: Outcome<Value>, and: bool): Outcome<Value> {
    if !left.Ok? then left
    else if !right.Ok? then right
    else Ok(Bool(if and then ToBool(left.value) && ToBool(right.value) else ToBool(left.value) || ToBool(right.value)))
  }

  /** The comparison operators from the `k`-th on; the first one that splits the text in two decides. */
  function ParseComparison(e: string, ctx: Context, k: nat): Outcome<Value>
    requires k <= |OPERATORS|
    decreases |e|, 3, |OPERATORS| - k
  {
    if k == |OPERATORS| then Fail
    else
      match SplitTwo(e, OPERATORS[k].0)
      case None => ParseComparison(e, ctx, k + 1)
      case Some(parts) =>
        var left := Side(parts.0, e, ctx);
        if !left.Ok? then left
        else
          var right := Side(parts.1, e, ctx);
          if !right.Ok? then right
          else
            match CompareValues(ctx, left.value, right.value, OPERATORS[k].1)
            case Ok(flag) => Ok(Bool(flag))
            case Fail => Fail
            case Panic => Panic
  }

  function ParseCall(e: string, ctx: Context): Outcome<Value>
    decreases |e|, 2, 0
  {
    match CallParts(e)
    case None => Fail
    case Some(call) =>
      var args := if call.1 == "" then Ok([]) else ParseArguments(Commas(call.1), e, ctx);
      match args
      case Ok(values) => Call(call.0, values, ctx)
      case Fail => Fail
      case Panic => Panic
  }

  function ParseArguments(parts: seq<string>, whole: string, ctx: Context): Outcome<seq<Value>>
    requires forall p | p in parts :: |p| < |whole|
    decreases |whole|, 1, |parts|
  {
    if parts == [] then Ok([])
    else
      match Side(parts[0], whole, ctx)
      case Fail => Fail
      case Panic => Panic
      case Ok(v) =>
        match ParseArguments(parts[1..], whole, ctx)
        case Ok(vs) => Ok([v] + vs)
        case Fail => Fail
        case Panic => Panic
  }

  function Call(name: string, args: seq<Value>, ctx: Context): Outcome<Value> {
    if name == "fileExists" then
      if |args| != 1 then Fail else Ok(Bool(ctx.fileExists(ToString(ctx, args[0]))))
    else if |args| != 2 then Fail
    else
      var a, b := ToString(ctx, args[0]), ToString(ctx, args[1]);
      if name == "contains" then Ok(Bool(Contains(a, b)))
      else if name == "startsWith" then Ok(Bool(b <= a))
      else if name == "endsWith" then Ok(Bool(|b| <= |a| && a[|a| - |b|..] == b))
      else if name == "matches" then
        match ctx.matchRegexp(b, a) { case None => Fail case Some(flag) => Ok(Bool(flag)) }
      else if name == "semverCompare" then
        match ctx.compareVersions(a, b) { case None => Fail case Some(c) => Ok(Number(Finite(c as real))) }
      else Fail
  }

  /** A quoted string, a number, a truth value or a variable. A quote on its own is sliced out of range. */
  function ParseVariable(e: string, ctx: Context): Outcome<Value> {
    if Enclosed(e, '\'', '\'') || Enclosed(e, '"', '"') then
      if |e| == 1 then Panic else Ok(Str(e[1..|e| - 1]))
    else if ctx.parseFloat(e).Some? then Ok(Number(ctx.parseFloat(e).value))
    else if e == "true" then Ok(Bool(true))
    else if e == "false" then Ok(Bool(false))
    else
      match ResolveVariable(e, ctx)
      case None => Fail
      case Some(value) => Ok(Str(value))
  }

  function Lookup(values: map<string, string>, name: string): Option<string> {
    if name in values then Some(values[name]) else None
  }

  function ResolveVariable(name: string, ctx: Context): Option<string> {
    if name == "os" then if name in ctx.variables then Some(ctx.variables[name]) else Some(ctx.os)
    else if name == "arch" then if name in ctx.variables then Some(ctx.variables[name]) else Some(ctx.arch)
    else if name == "ci" then Some(if ctx.ci then "true" else "false")
    else if name == "branch" then Some(ctx.branch)
    else if Prefixed(name, "env.") then Some(ctx.env(name[4..]))
    else if Prefixed(name, "inputs.") then Lookup(ctx.inputs, name[7..])
    else if Prefixed(name, "matrix.") then Lookup(ctx.matrix, name[7..])
    else Lookup(ctx.variables, name)
  }

  function Evaluate(expr: string, ctx: Context): Outcome<bool> {
    var e := TrimSpace(expr);
    var inner := if |e| >= 5 && Prefixed(e, "${{") && e[|e| - 2..] == "}}" then TrimSpace(e[3..|e| - 2]) else e;
    Truth(Parse(inner, ctx))
  }

  function Truth(r: Outcome<Value>): Outcome<bool> {
    match r
    case Ok(v) => Ok(ToBool(v))
    case Fail => Fail
    case Panic => Panic
  }
}
