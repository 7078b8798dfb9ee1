/** Expansion of facet-to-facet comparisons against the declared domains
    (compiler/src/conditions/facet_compare.rs). */
module FacetComparison {
  import opened Conditions
  import opened Options

  datatype Expansion = Expanded(e: Expr) | Undeclared(facet: string)

  datatype Expansions = ExpandedEach(es: seq<Expr>) | UndeclaredAmong(facet: string)

  // ----- the union of two domains, in fold order -----

  /** A list without its repeats, each element where it is first seen. */
  function FirstSeen<T(==,!new)>(values: seq<T>): (u: seq<T>)
    ensures forall v :: v in u <==> v in values
    ensures forall i, j | 0 <= i < j < |u| :: u[i] != u[j]
  {
    if values == [] then []
    else
      var init, last := FirstSeen(values[..|values| - 1]), values[|values| - 1];
      assert values == values[..|values| - 1] + [last];
      if last in init then init else init + [last]
  }

  /** The value's first place in the list. */
  predicate FirstPlace<T(==)>(values: seq<T>, k: nat, v: T) {
    k < |values| && values[k] == v && forall i | 0 <= i < k :: values[i] != v
  }

  /** What is listed comes in the order of first places. */
  ghost predicate Earlier<T>(values: seq<T>, v: T, w: T) {
    exists j, k :: 0 <= j < k && FirstPlace(values, j, v) && FirstPlace(values, k, w)
  }

  /** Each value of the list once, in the order of first places. */
  ghost predicate InFirstOrder<T>(values: seq<T>, u: seq<T>) {
    && (forall v | v in values :: v in u)
    && (forall v | v in u :: v in values)
    && forall i, j | 0 <= i < j < |u| :: u[i] != u[j] && Earlier(values, u[i], u[j])
  }

  lemma FirstPlaceExists<T>(values: seq<T>, v: T) returns (k: nat)
    requires v in values
    ensures FirstPlace(values, k, v)
  {
    if values[0] == v {
      k := 0;
    } else {
      var j := FirstPlaceExists(values[1..], v);
      k := j + 1;
      assert forall i | 0 < i < k :: values[i] == values[1..][i - 1];
    }
  }

  lemma {:induction false} FirstSeenInOrder<T(!new)>(values: seq<T>)
    ensures InFirstOrder(values, FirstSeen(values))
  {
    if values != [] {
      var k := |values| - 1;
      var init, last := values[..k], values[k];
      FirstSeenInOrder(init);
      var u := FirstSeen(values);
      forall i, j | 0 <= i < j < |u| ensures Earlier(values, u[i], u[j]) {
        if j < |FirstSeen(init)| {
          var x, y :| 0 <= x < y && FirstPlace(init, x, u[i]) && FirstPlace(init, y, u[j]);
          assert FirstPlace(values, x, u[i]) && FirstPlace(values, y, u[j]);
        } else {
          var x := FirstPlaceExists(init, u[i]);
          assert FirstPlace(values, x, u[i]) && FirstPlace(values, k, u[j]);
        }
      }
    }
  }

  method UnionInFoldOrder(left: seq<string>, right: seq<string>) returns (union: seq<string>)
    ensures union == FirstSeen(left + right)
    ensures FirstSeen(left) <= union
    ensures InFirstOrder(left + right, union)
  {
    FirstSeenInOrder(left + right);
    union := [];
    var chain := left + right;
    for k := 0 to |chain|
      invariant union == FirstSeen(chain[..k])
      invariant k >= |left| ==> FirstSeen(left) <= union
    {
      assert chain[..k + 1][..k] == chain[..k];
      if chain[k] !in union {
        union := union + [chain[k]];
      }
      if k + 1 == |left| { assert chain[..k + 1] == left; }
    }
    if |chain| == 0 { assert left == []; }
    assert chain[..|chain|] == chain;
    if left == [] { assert FirstSeen(left) == []; }
  }

  // ----- one equality -----

  function Term(l: string, r: string, inLeft: bool, inRight: bool, v: string): Expr {
    if inLeft && inRight then
      Or(And(Predicate(l, Eq, v), Predicate(r, Eq, v)), And(Predicate(l, NotEq, v), Predicate(r, NotEq, v)))
    else if inLeft then Predicate(l, NotEq, v)
    else Predicate(r, NotEq, v)
  }

  /** The left-associated conjunction of one term per value; `true` when there is none. */
  function Terms(l: string, r: string, dl: seq<string>, dr: seq<string>, values: seq<string>): Expr
    decreases |values|
  {
    if values == [] then Bool(true)
    else
      var v := values[|values| - 1];
      var term := Term(l, r, v in dl, v in dr, v);
      if |values| == 1 then term else And(Terms(l, r, dl, dr, values[..|values| - 1]), term)
  }

  function Equality(l: string, r: string, dl: seq<string>, dr: seq<string>): Expr {
    Terms(l, r, dl, dr, FirstSeen(dl + dr))
  }

  function Comparison(l: string, op: Op, r: string, d: Domains): Expansion {
    if l !in d then Undeclared(l)
    else if r !in d then Undeclared(r)
    else
      var equality := Equality(l, r, d[l], d[r]);
      Expanded(if op == Eq then equality else Not(equality))
  }

  /** The accumulator loop of `expand_equality`. */
  method ExpandEquality(l: string, r: string, dl: seq<string>, dr: seq<string>) returns (e: Expr)
    ensures e == Equality(l, r, dl, dr)
    ensures forall on :: Eval(e, Symbols(on)) == PairwiseSame(l, r, dl, dr, on)
  {
    var union := UnionInFoldOrder(dl, dr);
    var folded := Bool(true);
    for k := 0 to |union|
      invariant folded == Terms(l, r, dl, dr, union[..k])
    {
      var value := union[k];
      var term := Term(l, r, value in dl, value in dr, value);
      assert union[..k + 1][..k] == union[..k];
      folded := if k == 0 then term else And(folded, term);
    }
    assert union[..|union|] == union;
    e := folded;
    forall on ensures Eval(e, Symbols(on)) == PairwiseSame(l, r, dl, dr, on) {
      EqualityMeans(l, r, dl, dr, on);
    }
  }

  predicate PairAt(l: string, r: string, dl: seq<string>, dr: seq<string>, on: set<Symbol>, v: string) {
    (v in dl && (l, v) in on) == (v in dr && (r, v) in on)
  }

  lemma {:induction false} TermsMean(l: string, r: string, dl: seq<string>, dr: seq<string>, values: seq<string>,
                                     on: set<Symbol>)
    requires forall v | v in values :: v in dl || v in dr
    ensures Eval(Terms(l, r, dl, dr, values), Symbols(on)) <==> forall v | v in values :: PairAt(l, r, dl, dr, on, v)
    decreases |values|
  {
    if values != [] {
      var init, v := values[..|values| - 1], values[|values| - 1];
      assert values == init + [v];
      TermMeans(l, r, dl, dr, v, on);
      TermsMean(l, r, dl, dr, init, on);
    }
  }

  lemma TermMeans(l: string, r: string, dl: seq<string>, dr: seq<string>, v: string, on: set<Symbol>)
    requires v in dl || v in dr
    ensures Eval(Term(l, r, v in dl, v in dr, v), Symbols(on)) == PairAt(l, r, dl, dr, on, v)
  {
    var w := Symbols(on);
    var both, neither := And(Predicate(l, Eq, v), Predicate(r, Eq, v)),
        And(Predicate(l, NotEq, v), Predicate(r, NotEq, v));
    assert Eval(both, w) == ((l, v) in on && (r, v) in on);
    assert Eval(neither, w) == ((l, v) !in on && (r, v) !in on);
    assert Eval(Or(both, neither), w) == (Eval(both, w) || Eval(neither, w));
  }

  lemma TermLeaves(l: string, r: string, dl: seq<string>, dr: seq<string>, v: string)
    requires v in dl || v in dr
    ensures forall x | x in Leaves(Term(l, r, v in dl, v in dr, v)) ::
              x.Predicate? && ((x.tag == l && x.literal in dl) || (x.tag == r && x.literal in dr))
  {
    var both, neither := And(Predicate(l, Eq, v), Predicate(r, Eq, v)),
        And(Predicate(l, NotEq, v), Predicate(r, NotEq, v));
    assert Leaves(both) == {both.left, both.right};
    assert Leaves(neither) == {neither.left, neither.right};
    assert Leaves(Or(both, neither)) == Leaves(both) + Leaves(neither);
  }

  /** The expansion of `l == r` has the documented meaning. */
  lemma EqualityMeans(l: string, r: string, dl: seq<string>, dr: seq<string>, on: set<Symbol>)
    ensures Eval(Equality(l, r, dl, dr), Symbols(on)) == PairwiseSame(l, r, dl, dr, on)
  {
    TermsMean(l, r, dl, dr, FirstSeen(dl + dr), on);
    assert (forall v | v in FirstSeen(dl + dr) :: PairAt(l, r, dl, dr, on, v)) ==
           (forall v | v in dl + dr :: PairAt(l, r, dl, dr, on, v));
    assert (forall v | v in dl + dr :: PairAt(l, r, dl, dr, on, v)) == PairwiseSame(l, r, dl, dr, on);
  }

  lemma {:induction false} TermsLeaves(l: string, r: string, dl: seq<string>, dr: seq<string>, values: seq<string>)
    requires forall v | v in values :: v in dl || v in dr
    ensures forall x | x in Leaves(Terms(l, r, dl, dr, values)) ::
              x.Predicate? && ((x.tag == l && x.literal in dl) || (x.tag == r && x.literal in dr))
    decreases |values|
  {
    if values != [] {
      var init, v := values[..|values| - 1], values[|values| - 1];
      assert values == init + [v];
      TermLeaves(l, r, dl, dr, v);
      TermsLeaves(l, r, dl, dr, init);
    }
  }

  // ----- whole expressions -----

  function Expand(e: Expr, d: Domains): Expansion
    decreases e, 1
  {
    match e
    case Bool(_) => Expanded(e)
    case Predicate(_, _, _) => Expanded(e)
    case Not(x) => (
      match Expand(x, d)
      case Undeclared(f) => Undeclared(f)
      case Expanded(x') => Expanded(Not(x')))
    case And(x, y) => ExpandBinary(Expand(x, d), Expand(y, d), true)
    case Or(x, y) => ExpandBinary(Expand(x, d), Expand(y, d), false)
    case AnyOf(es) => ExpandList(ExpandEach(es, d), es => AnyOf(es))
    case AllOf(es) => ExpandList(ExpandEach(es, d), es => AllOf(es))
    case ExactlyOneOf(es) => ExpandList(ExpandEach(es, d), es => ExactlyOneOf(es))
    case FacetCompare(l, op, r) => Comparison(l, op, r, d)
  }

  function ExpandBinary(x: Expansion, y: Expansion, isAnd: bool): Expansion {
    if x.Undeclared? then x
    else if y.Undeclared? then y
    else Expanded(if isAnd then And(x.e, y.e) else Or(x.e, y.e))
  }

  function ExpandList(es: Expansions, build: seq<Expr> -> Expr): Expansion {
    match es
    case UndeclaredAmong(f) => Undeclared(f)
    case ExpandedEach(xs) => Expanded(build(xs))
  }

  function ExpandEach(es: seq<Expr>, d: Domains): (r: Expansions)
    ensures r.ExpandedEach? ==> |r.es| == |es|
    decreases es, 0
  {
    if es == [] then ExpandedEach([])
    else
      match Expand(es[0], d)
      case Undeclared(f) => UndeclaredAmong(f)
      case Expanded(x) =>
        match ExpandEach(es[1..], d)
        case UndeclaredAmong(f) => UndeclaredAmong(f)
        case ExpandedEach(xs) => ExpandedEach([x] + xs)
  }

  /** Both sides of every comparison are declared. */
  predicate ComparandsDeclared(e: Expr, d: Domains) {
    forall x | x in Leaves(e) && x.FacetCompare? :: x.lhs in d && x.rhs in d
  }

  function DeclaredSymbols(d: Domains): set<Symbol> {
    set f, v | f in d && v in d[f] :: (f, v)
  }

  /** What an expansion may name: the predicates the author wrote and declared symbols. */
  predicate NamesOnly(x: Expr, leaves: set<Expr>, d: Domains) {
    forall p | p in Leaves(x) :: p.Predicate? && (p in leaves || (p.tag, p.literal) in DeclaredSymbols(d))
  }

  ghost predicate Faithful(x: Expr, e: Expr, d: Domains) {
    && NamesOnly(x, Leaves(e), d)
    && forall on :: Eval(x, Symbols(on)) == Eval(e, Declared(d, on))
  }

  /** Expansion succeeds exactly when every comparand is declared; it then means the
      same thing, holds no comparison and names no symbol that is not already there. */
  lemma {:induction false} ExpandIsFaithful(e: Expr, d: Domains)
    ensures Expand(e, d).Expanded? <==> ComparandsDeclared(e, d)
    ensures Expand(e, d).Expanded? ==> Faithful(Expand(e, d).e, e, d)
    decreases e, 1
  {
    match e
    case Bool(_) =>
    case Predicate(_, _, _) =>
    case Not(x) => ExpandIsFaithful(x, d);
    case And(x, y) => BinaryIsFaithful(x, y, d, e);
    case Or(x, y) => BinaryIsFaithful(x, y, d, e);
    case AnyOf(es) => ListIsFaithful(es, d, e);
    case AllOf(es) => ListIsFaithful(es, d, e);
    case ExactlyOneOf(es) => ListIsFaithful(es, d, e);
    case FacetCompare(l, op, r) => ComparisonIsFaithful(l, op, r, d);
  }

  // ----- which facet a refusal names -----

  /** The operand of a comparison that is not declared, the left one first. */
  predicate Lacks(l: Expr, d: Domains, f: string) {
    l.FacetCompare? && if l.lhs !in d then f == l.lhs else l.rhs !in d && f == l.rhs
  }

  predicate NoneLacking(ls: seq<Expr>, d: Domains) {
    forall l | l in ls && l.FacetCompare? :: l.lhs in d && l.rhs in d
  }

  /** The first undeclared operand, from left to right. */
  ghost predicate FirstLacking(ls: seq<Expr>, d: Domains, f: string) {
    exists k :: 0 <= k < |ls| && Lacks(ls[k], d, f) && NoneLacking(ls[..k], d)
  }

  lemma LackingLeft(xs: seq<Expr>, ys: seq<Expr>, d: Domains, f: string)
    requires FirstLacking(xs, d, f)
    ensures FirstLacking(xs + ys, d, f)
  {
    var k :| 0 <= k < |xs| && Lacks(xs[k], d, f) && NoneLacking(xs[..k], d);
    assert (xs + ys)[..k] == xs[..k] && (xs + ys)[k] == xs[k];
  }

  lemma LackingRight(xs: seq<Expr>, ys: seq<Expr>, d: Domains, f: string)
    requires NoneLacking(xs, d) && FirstLacking(ys, d, f)
    ensures FirstLacking(xs + ys, d, f)
  {
    var k :| 0 <= k < |ys| && Lacks(ys[k], d, f) && NoneLacking(ys[..k], d);
    var all, at := xs + ys, |xs| + k;
    assert all[..at] == xs + ys[..k] && all[at] == ys[k];
  }

  lemma DeclaredLacksNone(e: Expr, d: Domains)
    ensures Expand(e, d).Expanded? ==> NoneLacking(LeafList(e), d)
  {
    ExpandIsFaithful(e, d);
  }

  /** A refused expansion names the first undeclared operand of a comparison. */
  lemma {:induction false} ExpandNamesFirst(e: Expr, d: Domains)
    ensures Expand(e, d).Undeclared? ==> FirstLacking(LeafList(e), d, Expand(e, d).facet)
    decreases e, 1
  {
    match e
    case Bool(_) =>
    case Predicate(_, _, _) =>
    case Not(x) => ExpandNamesFirst(x, d);
    case And(x, y) => PairNamesFirst(e, x, y, d);
    case Or(x, y) => PairNamesFirst(e, x, y, d);
    case AnyOf(es) => ListNamesFirst(es, d);
    case AllOf(es) => ListNamesFirst(es, d);
    case ExactlyOneOf(es) => ListNamesFirst(es, d);
    case FacetCompare(_, _, _) =>
      if Expand(e, d).Undeclared? {
        assert LeafList(e)[..0] == [];
        assert Lacks(LeafList(e)[0], d, Expand(e, d).facet);
      }
  }

  lemma {:induction false} PairNamesFirst(e: Expr, x: Expr, y: Expr, d: Domains)
    requires e == And(x, y) || e == Or(x, y)
    ensures Expand(x, d).Undeclared? ==> FirstLacking(LeafList(x) + LeafList(y), d, Expand(x, d).facet)
    ensures Expand(x, d).Expanded? && Expand(y, d).Undeclared? ==>
              FirstLacking(LeafList(x) + LeafList(y), d, Expand(y, d).facet)
    decreases e, 0
  {
    ExpandNamesFirst(x, d);
    ExpandNamesFirst(y, d);
    DeclaredLacksNone(x, d);
    if Expand(x, d).Undeclared? {
      LackingLeft(LeafList(x), LeafList(y), d, Expand(x, d).facet);
    } else if Expand(y, d).Undeclared? {
      LackingRight(LeafList(x), LeafList(y), d, Expand(y, d).facet);
    }
  }

  lemma {:induction false} ListNamesFirst(es: seq<Expr>, d: Domains)
    ensures ExpandEach(es, d).UndeclaredAmong? ==> FirstLacking(LeafListEach(es), d, ExpandEach(es, d).facet)
    decreases es, 0
  {
    if es != [] {
      ExpandNamesFirst(es[0], d);
      DeclaredLacksNone(es[0], d);
      ListNamesFirst(es[1..], d);
      if Expand(es[0], d).Undeclared? {
        LackingLeft(LeafList(es[0]), LeafListEach(es[1..]), d, Expand(es[0], d).facet);
      } else if ExpandEach(es[1..], d).UndeclaredAmong? {
        LackingRight(LeafList(es[0]), LeafListEach(es[1..]), d, ExpandEach(es[1..], d).facet);
      }
    }
  }

  lemma ComparisonIsFaithful(l: string, op: Op, r: string, d: Domains)
    ensures var e := FacetCompare(l, op, r);
            && (Comparison(l, op, r, d).Expanded? <==> ComparandsDeclared(e, d))
            && (Comparison(l, op, r, d).Expanded? ==> Faithful(Comparison(l, op, r, d).e, e, d))
  {
    var e := FacetCompare(l, op, r);
    assert Leaves(e) == {e};
    if l in d && r in d {
      var x := Comparison(l, op, r, d).e;
      TermsLeaves(l, r, d[l], d[r], FirstSeen(d[l] + d[r]));
      assert Leaves(x) == Leaves(Equality(l, r, d[l], d[r]));
      forall on ensures Eval(x, Symbols(on)) == Eval(e, Declared(d, on)) {
        EqualityMeans(l, r, d[l], d[r], on);
      }
    }
  }

  lemma {:induction false} BinaryIsFaithful(x: Expr, y: Expr, d: Domains, e: Expr)
    requires e == And(x, y) || e == Or(x, y)
    ensures Expand(e, d).Expanded? <==> ComparandsDeclared(e, d)
    ensures Expand(e, d).Expanded? ==> Faithful(Expand(e, d).e, e, d)
    decreases e, 0
  {
    ExpandIsFaithful(x, d);
    ExpandIsFaithful(y, d);
  }

  ghost predicate FaithfulEach(xs: seq<Expr>, es: seq<Expr>, d: Domains) {
    && |xs| == |es|
    && (forall p | p in LeavesOfEach(xs) ::
          p.Predicate? && (p in LeavesOfEach(es) || (p.tag, p.literal) in DeclaredSymbols(d)))
    && forall on :: EvalEach(xs, Symbols(on)) == EvalEach(es, Declared(d, on))
  }

  lemma {:induction false} ListIsFaithful(es: seq<Expr>, d: Domains, e: Expr)
    requires e == AnyOf(es) || e == AllOf(es) || e == ExactlyOneOf(es)
    ensures Expand(e, d).Expanded? <==> ComparandsDeclared(e, d)
    ensures Expand(e, d).Expanded? ==> Faithful(Expand(e, d).e, e, d)
    decreases e, 0
  {
    EachIsFaithful(es, d);
    assert Leaves(e) == LeavesOfEach(es);
    if Expand(e, d).Expanded? {
      var xs := ExpandEach(es, d).es;
      var x := Expand(e, d).e;
      assert Leaves(x) == LeavesOfEach(xs);
      forall on ensures Eval(x, Symbols(on)) == Eval(e, Declared(d, on)) {
        assert EvalEach(xs, Symbols(on)) == EvalEach(es, Declared(d, on));
      }
    }
  }

  lemma {:induction false} EachIsFaithful(es: seq<Expr>, d: Domains)
    ensures ExpandEach(es, d).ExpandedEach? <==>
            forall x | x in LeavesOfEach(es) && x.FacetCompare? :: x.lhs in d && x.rhs in d
    ensures ExpandEach(es, d).ExpandedEach? ==> FaithfulEach(ExpandEach(es, d).es, es, d)
    decreases es
  {
    if es != [] {
      ExpandIsFaithful(es[0], d);
      EachIsFaithful(es[1..], d);
      if ExpandEach(es, d).ExpandedEach? {
        var x, xs := Expand(es[0], d).e, ExpandEach(es[1..], d).es;
        assert ([x] + xs)[1..] == xs;
        forall on ensures EvalEach([x] + xs, Symbols(on)) == EvalEach(es, Declared(d, on)) {
          assert Eval(x, Symbols(on)) == Eval(es[0], Declared(d, on));
        }
      }
    }
  }

  // ----- against a concrete selection -----

  /** The symbols a selection makes true. */
  function Indicator(sel: Selection): set<Symbol> {
    set f | f in sel :: (f, sel[f])
  }

  /** Under a selection's indicator an expanded `l == r` holds exactly when the two
      values are equal and declared on both sides, or undeclared on both. */
  lemma ExpandedEqualityUnderSelection(l: string, r: string, dl: seq<string>, dr: seq<string>, sel: Selection)
    requires l in sel && r in sel
    ensures PairwiseSame(l, r, dl, dr, Indicator(sel)) <==>
            if sel[l] in dl || sel[r] in dr then sel[l] == sel[r] && sel[l] in dl && sel[r] in dr else true
  {
  }

  datatype Facet = Facet(values: seq<string>, fallback: Option<string>, open: bool)

  type Facets = map<string, Facet>

  function DomainsOf(facets: Facets): Domains {
    map f | f in facets :: facets[f].values
  }

  /** A value for every declared facet, taken from the domain unless the facet is open. */
  predicate Legal(sel: Selection, facets: Facets) {
    && sel.Keys == facets.Keys
    && forall f | f in facets :: facets[f].open || sel[f] in facets[f].values
  }

  /** A comparison the expansion cannot get wrong. */
  predicate Safe(l: string, r: string, facets: Facets)
    requires l in facets && r in facets
  {
    var x, y := facets[l], facets[r];
    || l == r
    || (!x.open && !y.open)
    || (!x.open && forall v | v in x.values :: v in y.values)
    || (!y.open && forall v | v in y.values :: v in x.values)
  }

  predicate ComparedRight(l: string, r: string, facets: Facets, sel: Selection)
    requires l in facets && r in facets && Legal(sel, facets)
  {
    PairwiseSame(l, r, facets[l].values, facets[r].values, Indicator(sel)) == (sel[l] == sel[r])
  }

  lemma SafeIsRight(l: string, r: string, facets: Facets, sel: Selection)
    requires l in facets && r in facets && Legal(sel, facets) && Safe(l, r, facets)
    ensures ComparedRight(l, r, facets, sel)
  {
  }

  /** A string longer than every string of a list. */
  function Longer(values: seq<string>): (s: string)
    ensures forall v | v in values :: |v| < |s|
  {
    if values == [] then "a"
    else
      var s := Longer(values[1..]);
      if |values[0]| < |s| then s else values[0] + "a"
  }

  /** An unsafe comparison is answered wrongly for some legal selection. */
  lemma UnsafeIsWrong(l: string, r: string, facets: Facets, base: Selection) returns (sel: Selection)
    requires l in facets && r in facets && Legal(base, facets) && !Safe(l, r, facets)
    ensures Legal(sel, facets) && !ComparedRight(l, r, facets, sel)
  {
    var x, y := facets[l], facets[r];
    if x.open && y.open {
      var s := Longer(x.values + y.values);
      var t := s + "a";
      assert s !in x.values + y.values;
      assert t !in x.values + y.values;
      sel := base[l := s][r := t];
    } else if x.open {
      var v :| v in y.values && v !in x.values;
      sel := base[l := v][r := v];
    } else {
      var v :| v in x.values && v !in y.values;
      sel := base[l := v][r := v];
    }
    ExpandedEqualityUnderSelection(l, r, x.values, y.values, sel);
  }

  /** The solver's `l == r` agrees with a concrete resolve on every legal selection
      exactly when the two facets are one, both closed, or the closed one's domain lies
      within the other's. */
  lemma ComparisonAgreesIff(l: string, r: string, facets: Facets, base: Selection)
    requires l in facets && r in facets && Legal(base, facets)
    ensures (forall sel | Legal(sel, facets) :: ComparedRight(l, r, facets, sel)) <==> Safe(l, r, facets)
  {
    if Safe(l, r, facets) {
      forall sel | Legal(sel, facets) ensures ComparedRight(l, r, facets, sel) {
        SafeIsRight(l, r, facets, sel);
      }
    } else {
      var sel := UnsafeIsWrong(l, r, facets, base);
    }
  }
}
