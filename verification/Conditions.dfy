/** The typed condition AST (compiler/src/conditions/ast.rs) and its two-valued
    meaning (compiler/src/conditions/implication.rs, `eval_total`). */
module Conditions {

  datatype Op = Eq | NotEq

  datatype Expr =
    | Bool(value: bool)
    | Predicate(tag: string, op: Op, literal: string)
    | Not(inner: Expr)
    | And(left: Expr, right: Expr)
    | Or(left: Expr, right: Expr)
    | AnyOf(args: seq<Expr>)
    | AllOf(args: seq<Expr>)
    | ExactlyOneOf(args: seq<Expr>)
    | FacetCompare(lhs: string, cmp: Op, rhs: string)

  /** A `(facet, value)` pair: one Boolean variable of the constraint root. */
  type Symbol = (string, string)

  type Selection = map<string, string>

  /** Declared value domains by facet name, each in declared order. */
  type Domains = map<string, seq<string>>

  /** What an expression is read against: the values chosen for the facets, the
      set of symbols that are true (with or without the declared domains that give
      a comparison its meaning), or the BDD variables that are true under an index
      from symbol names to variables. */
  datatype World =
    | Bound(choice: Selection)
    | Symbols(on: set<Symbol>)
    | Declared(domains: Domains, truths: set<Symbol>)
    | Variables(index: map<string, nat>, vars: set<nat>)

  function SymbolName(tag: string, value: string): string {
    tag + "." + value
  }

  predicate Under(op: Op, same: bool) {
    if op == Eq then same else !same
  }

  /** The documented meaning of `l == r`: over every value either side declares, one
      side holds it exactly when the other does, an undeclared value counting as false. */
  predicate PairwiseSame(l: string, r: string, dl: seq<string>, dr: seq<string>, on: set<Symbol>) {
    forall v | v in dl + dr :: (v in dl && (l, v) in on) == (v in dr && (r, v) in on)
  }

  /** A leaf naming an unbound facet is false under both operators. */
  predicate LeafHolds(leaf: Expr, w: World) {
    match leaf
    case Predicate(t, op, v) => (
      match w
      case Bound(choice) => t in choice && Under(op, choice[t] == v)
      case Symbols(on) => Under(op, (t, v) in on)
      case Declared(_, on) => Under(op, (t, v) in on)
      case Variables(index, vars) => Under(op, SymbolName(t, v) in index && index[SymbolName(t, v)] in vars))
    case FacetCompare(l, op, r) => (
      match w
      case Bound(choice) => l in choice && r in choice && Under(op, choice[l] == choice[r])
      case Declared(d, on) => l in d && r in d && Under(op, PairwiseSame(l, r, d[l], d[r], on))
      case _ => false)
    case _ => false
  }

  predicate Eval(e: Expr, w: World)
    decreases e, 1
  {
    match e
    case Bool(b) => b
    case Predicate(_, _, _) => LeafHolds(e, w)
    case Not(x) => !Eval(x, w)
    case And(x, y) => Eval(x, w) && Eval(y, w)
    case Or(x, y) => Eval(x, w) || Eval(y, w)
    case AnyOf(es) => true in EvalEach(es, w)
    case AllOf(es) => false !in EvalEach(es, w)
    case ExactlyOneOf(es) => CountTrue(EvalEach(es, w)) == 1
    case FacetCompare(_, _, _) => LeafHolds(e, w)
  }

  function EvalEach(es: seq<Expr>, w: World): (bs: seq<bool>)
    ensures |bs| == |es| && forall i | 0 <= i < |es| :: bs[i] == Eval(es[i], w)
    decreases es, 0
  {
    if es == [] then [] else [Eval(es[0], w)] + EvalEach(es[1..], w)
  }

  function CountTrue(bs: seq<bool>): nat {
    if bs == [] then 0 else (if bs[0] then 1 else 0) + CountTrue(bs[1..])
  }

  /** Every expression of a list holds. */
  predicate AllHold(es: seq<Expr>, w: World) {
    forall e | e in es :: Eval(e, w)
  }

  /** The predicates and comparisons an expression is built from. */
  function Leaves(e: Expr): set<Expr>
    decreases e, 1
  {
    match e
    case Bool(_) => {}
    case Predicate(_, _, _) => {e}
    case Not(x) => Leaves(x)
    case And(x, y) => Leaves(x) + Leaves(y)
    case Or(x, y) => Leaves(x) + Leaves(y)
    case AnyOf(es) => LeavesOfEach(es)
    case AllOf(es) => LeavesOfEach(es)
    case ExactlyOneOf(es) => LeavesOfEach(es)
    case FacetCompare(_, _, _) => {e}
  }

  function LeavesOfEach(es: seq<Expr>): (ls: set<Expr>)
    ensures forall i | 0 <= i < |es| :: Leaves(es[i]) <= ls
    ensures forall l | l in ls :: exists i :: 0 <= i < |es| && l in Leaves(es[i])
    decreases es, 0
  {
    if es == [] then {} else Leaves(es[0]) + LeavesOfEach(es[1..])
  }

  function SymbolsOf(e: Expr): set<Symbol> {
    set l | l in Leaves(e) && l.Predicate? :: (l.tag, l.literal)
  }

  predicate ComparisonFree(e: Expr) {
    forall l | l in Leaves(e) :: l.Predicate?
  }

  /** Every facet the expression names, in a predicate or on either side of a comparison. */
  function TagsOf(e: Expr): set<string> {
    (set l | l in Leaves(e) && l.Predicate? :: l.tag)
    + (set l | l in Leaves(e) && l.FacetCompare? :: l.lhs)
    + (set l | l in Leaves(e) && l.FacetCompare? :: l.rhs)
  }

  /** The leaves of an expression in left-to-right order: the order in which a walk
      reports its operands. */
  function LeafList(e: Expr): (ls: seq<Expr>)
    ensures forall l :: l in ls <==> l in Leaves(e)
    decreases e, 1
  {
    match e
    case Bool(_) => []
    case Predicate(_, _, _) => [e]
    case Not(x) => LeafList(x)
    case And(x, y) => LeafList(x) + LeafList(y)
    case Or(x, y) => LeafList(x) + LeafList(y)
    case AnyOf(es) => LeafListEach(es)
    case AllOf(es) => LeafListEach(es)
    case ExactlyOneOf(es) => LeafListEach(es)
    case FacetCompare(_, _, _) => [e]
  }

  function LeafListEach(es: seq<Expr>): (ls: seq<Expr>)
    ensures forall l :: l in ls <==> l in LeavesOfEach(es)
    decreases es, 0
  {
    if es == [] then [] else LeafList(es[0]) + LeafListEach(es[1..])
  }

  /** Worlds that agree on the leaves agree on the expression. */
  lemma {:induction false} LeavesDecide(e: Expr, w: World, w': World)
    requires forall l | l in Leaves(e) :: LeafHolds(l, w) == LeafHolds(l, w')
    ensures Eval(e, w) == Eval(e, w')
    decreases e, 1
  {
    match e
    case Bool(_) =>
    case Predicate(_, _, _) =>
    case FacetCompare(_, _, _) =>
    case Not(x) => LeavesDecide(x, w, w');
    case And(x, y) => LeavesDecide(x, w, w'); LeavesDecide(y, w, w');
    case Or(x, y) => LeavesDecide(x, w, w'); LeavesDecide(y, w, w');
    case AnyOf(es) => LeavesDecideEach(es, w, w');
    case AllOf(es) => LeavesDecideEach(es, w, w');
    case ExactlyOneOf(es) => LeavesDecideEach(es, w, w');
  }

  lemma {:induction false} LeavesDecideEach(es: seq<Expr>, w: World, w': World)
    requires forall l | l in LeavesOfEach(es) :: LeafHolds(l, w) == LeafHolds(l, w')
    ensures EvalEach(es, w) == EvalEach(es, w')
    decreases es, 0
  {
    if es != [] {
      LeavesDecide(es[0], w, w');
      LeavesDecideEach(es[1..], w, w');
    }
  }

  /** "Exactly one holds" as the emitter encodes it: some index, and no two. */
  lemma {:induction false} CountTrueIsExactlyOne(bs: seq<bool>)
    ensures CountTrue(bs) == 0 <==> true !in bs
    ensures CountTrue(bs) == 1 <==>
            true in bs && forall i, j | 0 <= i < j < |bs| :: !(bs[i] && bs[j])
  {
    if bs != [] {
      var rest := bs[1..];
      CountTrueIsExactlyOne(rest);
      assert bs == [bs[0]] + rest;
      if bs[0] && true in rest {
        var j :| 0 <= j < |rest| && rest[j];
        assert bs[0] && bs[j + 1];
      }
      if CountTrue(bs) == 1 {
        forall i, j | 0 <= i < j < |bs|
          ensures !(bs[i] && bs[j])
        {
          if i > 0 { assert !(rest[i - 1] && rest[j - 1]); } else { assert bs[j] == rest[j - 1]; }
        }
      }
      if forall i, j | 0 <= i < j < |bs| :: !(bs[i] && bs[j]) {
        forall i, j | 0 <= i < j < |rest|
          ensures !(rest[i] && rest[j])
        {
          assert !(bs[i + 1] && bs[j + 1]);
        }
      }
    }
  }
}
