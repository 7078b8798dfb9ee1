/** The condition grammar as text: the recursive-descent parser
    (compiler/src/conditions/ast.rs) and the serializer (compiler/src/conditions/rewrite.rs).
    The parser's cursor is modelled by the input that remains. */
module ConditionText {
  import opened Conditions

  datatype Parsed<+T> = Fail | Got(value: T, rest: string)

  datatype Strength = OrStrength | AndStrength | UnaryStrength

  predicate IsWs(c: char) {
    c == ' ' || c == '\t' || c == '\n' || c == '\r' || c == '\U{0C}'
  }

  predicate IsIdentStart(c: char) {
    'a' <= c <= 'z'
  }

  predicate IsIdentChar(c: char) {
    'a' <= c <= 'z' || '0' <= c <= '9' || c == '_'
  }

  predicate IsIdent(t: string) {
    t != [] && IsIdentStart(t[0]) && forall c | c in t :: IsIdentChar(c)
  }

  function SkipWs(t: string): (r: string)
    ensures |r| <= |t| && (r == [] || !IsWs(r[0]))
  {
    if t != [] && IsWs(t[0]) then SkipWs(t[1..]) else t
  }

  function TakeIdent(t: string): (r: string)
    ensures r <= t && (forall c | c in r :: IsIdentChar(c))
    ensures |r| == |t| || !IsIdentChar(t[|r|])
  {
    if t != [] && IsIdentChar(t[0]) then [t[0]] + TakeIdent(t[1..]) else []
  }

  function ParseIdent(t: string): (r: Parsed<string>)
    ensures r.Got? ==> |r.rest| < |t| && IsIdent(r.value) && StartsWithKeyword(t, r.value)
  {
    if t == [] || !IsIdentStart(t[0]) then Fail
    else
      var name := TakeIdent(t);
      Got(name, t[|name|..])
  }

  function ParseOperator(t: string): (r: Parsed<Op>)
    ensures r.Got? ==> |r.rest| < |t|
  {
    if |t| < 2 || t[1] != '=' then Fail
    else if t[0] == '=' then Got(Eq, t[2..])
    else if t[0] == '!' then Got(NotEq, t[2..])
    else Fail
  }

  /** Everything up to the next quote; there is no escape syntax. */
  function TakeUntil(t: string, quote: char): (r: Parsed<string>)
    ensures r.Got? ==> |r.rest| < |t| && quote !in r.value
  {
    if t == [] then Fail
    else if t[0] == quote then Got([], t[1..])
    else match TakeUntil(t[1..], quote)
      case Fail => Fail
      case Got(v, rest) => Got([t[0]] + v, rest)
  }

  function ParseQuoted(t: string): (r: Parsed<string>)
    ensures r.Got? ==> |r.rest| < |t| && QuoteFor(r.value) !in r.value
  {
    if t == [] || (t[0] != '\'' && t[0] != '"') then Fail else TakeUntil(t[1..], t[0])
  }

  /** The delimiter a literal is written with: single quotes, unless it holds one. */
  function QuoteFor(value: string): char {
    if '\'' in value then '"' else '\''
  }

  predicate StartsWithKeyword(t: string, kw: string) {
    kw <= t && (|t| == |kw| || !IsIdentChar(t[|kw|]))
  }

  predicate At2(t: string, c: char) {
    |t| >= 2 && t[0] == c && t[1] == c
  }

  predicate IsTag(t: string) {
    IsIdent(t) && t != "true" && t != "false"
  }

  /** What every parsed expression satisfies: its names are identifiers that are
      not Boolean literals, its literals fit in one kind of quotes, and its calls
      have at least two arguments. */
  predicate Spellable(e: Expr)
    decreases e, 1
  {
    match e
    case Bool(_) => true
    case Predicate(tag, _, value) => IsTag(tag) && QuoteFor(value) !in value
    case Not(x) => Spellable(x)
    case And(x, y) => Spellable(x) && Spellable(y)
    case Or(x, y) => Spellable(x) && Spellable(y)
    case AnyOf(es) => |es| >= 2 && SpellableEach(es)
    case AllOf(es) => |es| >= 2 && SpellableEach(es)
    case ExactlyOneOf(es) => |es| >= 2 && SpellableEach(es)
    case FacetCompare(l, _, r) => IsTag(l) && IsIdent(r)
  }

  predicate SpellableEach(es: seq<Expr>)
    decreases es, 0
  {
    es == [] || (Spellable(es[0]) && SpellableEach(es[1..]))
  }

  // ----- the parser -----

  function ParseCondition(t: string): (r: Parsed<Expr>)
    ensures r.Got? ==> Spellable(r.value)
  {
    match ParseOr(t)
    case Fail => Fail
    case Got(e, rest) => if SkipWs(rest) == [] then Got(e, []) else Fail
  }

  function ParseOr(t: string): (r: Parsed<Expr>)
    ensures r.Got? ==> |r.rest| < |t| && Spellable(r.value)
    decreases |t|, 5
  {
    match ParseAnd(t)
    case Fail => Fail
    case Got(e, rest) => OrRest(e, rest)
  }

  function OrRest(acc: Expr, t: string): (r: Parsed<Expr>)
    ensures r.Got? ==> |r.rest| <= |t| && (Spellable(acc) ==> Spellable(r.value))
    decreases |t|, 5
  {
    var u := SkipWs(t);
    if At2(u, '|') then
      match ParseAnd(u[2..])
      case Fail => Fail
      case Got(e, rest) => OrRest(Or(acc, e), rest)
    else Got(acc, u)
  }

  function ParseAnd(t: string): (r: Parsed<Expr>)
    ensures r.Got? ==> |r.rest| < |t| && Spellable(r.value)
    decreases |t|, 4
  {
    match ParseUnary(t)
    case Fail => Fail
    case Got(e, rest) => AndRest(e, rest)
  }

  function AndRest(acc: Expr, t: string): (r: Parsed<Expr>)
    ensures r.Got? ==> |r.rest| <= |t| && (Spellable(acc) ==> Spellable(r.value))
    decreases |t|, 4
  {
    var u := SkipWs(t);
    if At2(u, '&') then
      match ParseUnary(u[2..])
      case Fail => Fail
      case Got(e, rest) => AndRest(And(acc, e), rest)
    else Got(acc, u)
  }

  function ParseUnary(t: string): (r: Parsed<Expr>)
    ensures r.Got? ==> |r.rest| < |t| && Spellable(r.value)
    decreases |t|, 3
  {
    var u := SkipWs(t);
    if u != [] && u[0] == '!' && !(|u| > 1 && u[1] == '=') then
      match ParseUnary(u[1..])
      case Fail => Fail
      case Got(e, rest) => Got(Not(e), rest)
    else ParsePrimary(u)
  }

  function ParsePrimary(t: string): (r: Parsed<Expr>)
    ensures r.Got? ==> |r.rest| < |t| && Spellable(r.value)
    decreases |t|, 2
  {
    var u := SkipWs(t);
    if u == [] then Fail
    else if u[0] == '(' then
      match ParseOr(u[1..])
      case Fail => Fail
      case Got(e, rest) =>
        var v := SkipWs(rest);
        if v != [] && v[0] == ')' then Got(e, v[1..]) else Fail
    else if StartsWithKeyword(u, "true") then Got(Bool(true), u[4..])
    else if StartsWithKeyword(u, "false") then Got(Bool(false), u[5..])
    else if StartsCall(u, "any_of") then ParseCall(u, "any_of")
    else if StartsCall(u, "all_of") then ParseCall(u, "all_of")
    else if StartsCall(u, "exactly_one_of") then ParseCall(u, "exactly_one_of")
    else ParsePredicate(u)
  }

  /** A cardinality keyword counts only when an opening parenthesis follows. */
  predicate StartsCall(t: string, kw: string) {
    StartsWithKeyword(t, kw) && var peek := SkipWs(t[|kw|..]); peek != [] && peek[0] == '('
  }

  function CallOf(kw: string, args: seq<Expr>): Expr {
    if kw == "any_of" then AnyOf(args) else if kw == "all_of" then AllOf(args) else ExactlyOneOf(args)
  }

  function ParseCall(t: string, kw: string): (r: Parsed<Expr>)
    requires StartsCall(t, kw)
    ensures r.Got? ==> |r.rest| < |t| && Spellable(r.value)
    decreases |t|, 1
  {
    match ParseArgs(SkipWs(t[|kw|..])[1..])
    case Fail => Fail
    case Got(args, rest) => if |args| < 2 then Fail else Got(CallOf(kw, args), rest)
  }

  function ParseArgs(t: string): (r: Parsed<seq<Expr>>)
    ensures r.Got? ==> |r.rest| < |t| && SpellableEach(r.value)
    decreases |t|, 6
  {
    match ParseOr(t)
    case Fail => Fail
    case Got(e, rest) =>
      var u := SkipWs(rest);
      if u == [] then Fail
      else if u[0] == ')' then Got([e], u[1..])
      else if u[0] == ',' then
        var v := SkipWs(u[1..]);
        if v != [] && v[0] == ')' then Fail
        else match ParseArgs(v)
          case Fail => Fail
          case Got(es, rest') => Got([e] + es, rest')
      else Fail
  }

  function ParsePredicate(t: string): (r: Parsed<Expr>)
    ensures r.Got? ==> |r.rest| < |t|
    ensures r.Got? && !StartsWithKeyword(SkipWs(t), "true") && !StartsWithKeyword(SkipWs(t), "false") ==>
            Spellable(r.value)
  {
    match ParseIdent(SkipWs(t))
    case Fail => Fail
    case Got(tag, afterTag) =>
      match ParseOperator(SkipWs(afterTag))
      case Fail => Fail
      case Got(op, afterOp) =>
        var rhs := SkipWs(afterOp);
        match ParseQuoted(rhs)
        case Got(value, rest) => Got(Predicate(tag, op, value), rest)
        case Fail =>
          match ParseIdent(rhs)
          case Fail => Fail
          case Got(other, rest) => Got(FacetCompare(tag, op, other), rest)
  }

  // ----- the serializer -----

  function OpText(op: Op): string {
    if op == Eq then "==" else "!="
  }

  /** `facet_eq_predicate` and `facet_ne_predicate` (compiler/src/compiler_core.rs). */
  function Spell(tag: string, op: Op, value: string): string {
    tag + [' '] + OpText(op) + [' '] + [QuoteFor(value)] + value + [QuoteFor(value)]
  }

  function Print(e: Expr, parent: Strength): string
    decreases e, 1
  {
    match e
    case Bool(b) => if b then "true" else "false"
    case Predicate(tag, op, value) => tag + " " + OpText(op) + " '" + value + "'"
    case Not(x) => "!" + Print(x, UnaryStrength)
    case And(x, y) =>
      var inner := Print(x, AndStrength) + " && " + Print(y, AndStrength);
      if parent == UnaryStrength then "(" + inner + ")" else inner
    case Or(x, y) =>
      var inner := Print(x, OrStrength) + " || " + Print(y, OrStrength);
      if parent != OrStrength then "(" + inner + ")" else inner
    case AnyOf(es) => "any_of(" + PrintArgs(es) + ")"
    case AllOf(es) => "all_of(" + PrintArgs(es) + ")"
    case ExactlyOneOf(es) => "exactly_one_of(" + PrintArgs(es) + ")"
    case FacetCompare(l, op, r) => l + " " + OpText(op) + " " + r
  }

  function PrintArgs(es: seq<Expr>): string
    decreases es, 0
  {
    if es == [] then ""
    else if |es| == 1 then Print(es[0], OrStrength)
    else Print(es[0], OrStrength) + ", " + PrintArgs(es[1..])
  }

  // ----- what comes back -----

  /** What the serializer can write down without changing it. */
  predicate Printable(e: Expr)
    decreases e, 1
  {
    match e
    case Bool(_) => true
    case Predicate(tag, _, value) => IsTag(tag) && '\'' !in value
    case Not(x) => Printable(x)
    case And(x, y) => Printable(x) && Printable(y)
    case Or(x, y) => Printable(x) && Printable(y)
    case AnyOf(es) => |es| >= 2 && PrintableEach(es)
    case AllOf(es) => |es| >= 2 && PrintableEach(es)
    case ExactlyOneOf(es) => |es| >= 2 && PrintableEach(es)
    case FacetCompare(l, _, r) => IsTag(l) && IsIdent(r)
  }

  predicate PrintableEach(es: seq<Expr>)
    decreases es, 0
  {
    es == [] || (Printable(es[0]) && PrintableEach(es[1..]))
  }

  function AndAppend(x: Expr, y: Expr): Expr {
    if y.And? then And(AndAppend(x, y.left), y.right) else And(x, y)
  }

  function OrAppend(x: Expr, y: Expr): Expr {
    if y.Or? then Or(OrAppend(x, y.left), y.right) else Or(x, y)
  }

  /** The left-nested spelling of an expression: what the parser builds from a chain. */
  function Normal(e: Expr): Expr
    decreases e, 1
  {
    match e
    case Bool(_) => e
    case Predicate(_, _, _) => e
    case Not(x) => Not(Normal(x))
    case And(x, y) => AndAppend(Normal(x), Normal(y))
    case Or(x, y) => OrAppend(Normal(x), Normal(y))
    case AnyOf(es) => AnyOf(NormalEach(es))
    case AllOf(es) => AllOf(NormalEach(es))
    case ExactlyOneOf(es) => ExactlyOneOf(NormalEach(es))
    case FacetCompare(_, _, _) => e
  }

  function NormalEach(es: seq<Expr>): (ns: seq<Expr>)
    ensures |ns| == |es|
    decreases es, 0
  {
    if es == [] then [] else [Normal(es[0])] + NormalEach(es[1..])
  }
}
