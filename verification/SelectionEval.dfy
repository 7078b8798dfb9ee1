/** Three-valued evaluation of a condition against incomplete knowledge
    (compiler/src/conditions/selection_eval.rs). A concrete resolve rejects a
    selection exactly when this answers `False` for one of its constraints. */
module SelectionEval {
  import opened Conditions

  datatype Ternary = True | False | Unknown

  /** What is known: one value per named facet, or the values still open to it. */
  datatype Known =
    | OneValue(bound: Selection)
    | Restricted(open: map<string, set<string>>)

  function Of(b: bool): Ternary {
    if b then True else False
  }

  function KNot(t: Ternary): Ternary {
    match t case True => False case False => True case Unknown => Unknown
  }

  function KAnd(t: Ternary, u: Ternary): Ternary {
    if t == False || u == False then False else if t == Unknown || u == Unknown then Unknown else True
  }

  function KOr(t: Ternary, u: Ternary): Ternary {
    if t == True || u == True then True else if t == Unknown || u == Unknown then Unknown else False
  }

  function HoldsValue(k: Known, facet: string, value: string): Ternary {
    match k
    case OneValue(bound) => if facet in bound then Of(bound[facet] == value) else Unknown
    case Restricted(open) =>
      if facet !in open || open[facet] == {} then Unknown
      else if value !in open[facet] then False
      else if |open[facet]| == 1 then True
      else Unknown
  }

  function Agree(k: Known, l: string, r: string): Ternary {
    match k
    case OneValue(bound) => if l in bound && r in bound then Of(bound[l] == bound[r]) else Unknown
    case Restricted(open) =>
      if l in open && r in open && open[l] != {} && open[r] != {} then
        if open[l] !! open[r] then False
        else if |open[l]| == 1 && open[l] == open[r] then True
        else Unknown
      else Unknown
  }

  function UnderOp(op: Op, t: Ternary): Ternary {
    if op == Eq then t else KNot(t)
  }

  function FoldOr(ts: seq<Ternary>): (t: Ternary)
    ensures t == if True in ts then True else if Unknown in ts then Unknown else False
  {
    if ts == [] then False
    else
      assert ts == ts[..|ts| - 1] + [ts[|ts| - 1]];
      KOr(FoldOr(ts[..|ts| - 1]), ts[|ts| - 1])
  }

  function FoldAnd(ts: seq<Ternary>): (t: Ternary)
    ensures t == if False in ts then False else if Unknown in ts then Unknown else True
  {
    if ts == [] then True
    else
      assert ts == ts[..|ts| - 1] + [ts[|ts| - 1]];
      KAnd(FoldAnd(ts[..|ts| - 1]), ts[|ts| - 1])
  }

  predicate Two(ts: seq<Ternary>, bad: set<Ternary>) {
    exists i, j :: 0 <= i < j < |ts| && ts[i] in bad && ts[j] in bad
  }

  /** `exactly_one_of` under partial knowledge: refuted by two certain children or by
      none that may hold, certain when one holds and every other fails. */
  function ExactlyOne(ts: seq<Ternary>): Ternary {
    if Two(ts, {True}) || !(True in ts || Unknown in ts) then False
    else if True in ts && !Two(ts, {True, Unknown}) then True
    else Unknown
  }

  /** The nested at-most-one loop of `eval_exactly_one_of`. */
  method EvalExactlyOne(evaluated: seq<Ternary>) returns (t: Ternary)
    ensures t == ExactlyOne(evaluated)
  {
    var atLeastOne := FoldOr(evaluated);
    var atMostOne := True;
    for i := 0 to |evaluated|
      invariant atMostOne == AtMostOneUpTo(evaluated, i, 0)
    {
      for j := i + 1 to |evaluated|
        invariant atMostOne == AtMostOneUpTo(evaluated, i, j)
      {
        atMostOne := KAnd(atMostOne, KNot(KAnd(evaluated[i], evaluated[j])));
        RowStep(evaluated, i, j);
      }
      RowEnd(evaluated, i);
    }
    t := KAnd(atLeastOne, atMostOne);
    AllPairs(evaluated);
  }

  /** Two entries from a set of answers at a pair of positions already visited. */
  predicate TwoUpTo(ts: seq<Ternary>, bad: set<Ternary>, row: nat, col: nat) {
    exists i, j :: 0 <= i < j < |ts| && (i < row || (i == row && j < col)) && ts[i] in bad && ts[j] in bad
  }

  function AtMostOneUpTo(ts: seq<Ternary>, row: nat, col: nat): Ternary {
    if TwoUpTo(ts, {True}, row, col) then False
    else if TwoUpTo(ts, {True, Unknown}, row, col) then Unknown
    else True
  }

  lemma VisitStep(ts: seq<Ternary>, bad: set<Ternary>, i: nat, j: nat)
    requires i < j < |ts|
    ensures TwoUpTo(ts, bad, i, j + 1) == (TwoUpTo(ts, bad, i, j) || (ts[i] in bad && ts[j] in bad))
  {
    if TwoUpTo(ts, bad, i, j) {
      var x, y :| 0 <= x < y < |ts| && (x < i || (x == i && y < j)) && ts[x] in bad && ts[y] in bad;
      assert 0 <= x < y < |ts| && (x < i || (x == i && y < j + 1));
    }
    if TwoUpTo(ts, bad, i, j + 1) {
      var x, y :| 0 <= x < y < |ts| && (x < i || (x == i && y < j + 1)) && ts[x] in bad && ts[y] in bad;
      if !(x == i && y == j) { assert 0 <= x < y < |ts| && (x < i || (x == i && y < j)); }
    }
  }

  lemma RowStep(ts: seq<Ternary>, i: nat, j: nat)
    requires i < j < |ts|
    ensures AtMostOneUpTo(ts, i, j + 1) == KAnd(AtMostOneUpTo(ts, i, j), KNot(KAnd(ts[i], ts[j])))
  {
    VisitStep(ts, {True}, i, j);
    VisitStep(ts, {True, Unknown}, i, j);
    if TwoUpTo(ts, {True}, i, j) { CertainIsPossible(ts, i, j); }
    if TwoUpTo(ts, {True}, i, j + 1) { CertainIsPossible(ts, i, j + 1); }
  }

  lemma CertainIsPossible(ts: seq<Ternary>, i: nat, j: nat)
    requires TwoUpTo(ts, {True}, i, j)
    ensures TwoUpTo(ts, {True, Unknown}, i, j)
  {
    var x, y :| 0 <= x < y < |ts| && (x < i || (x == i && y < j)) && ts[x] in {True} && ts[y] in {True};
    assert ts[x] in {True, Unknown} && ts[y] in {True, Unknown};
  }

  lemma VisitedRow(ts: seq<Ternary>, bad: set<Ternary>, i: nat)
    requires i < |ts|
    ensures TwoUpTo(ts, bad, i, |ts|) == TwoUpTo(ts, bad, i + 1, 0)
    ensures TwoUpTo(ts, bad, i, i + 1) == TwoUpTo(ts, bad, i, 0)
  {
  }

  lemma RowEnd(ts: seq<Ternary>, i: nat)
    requires i < |ts|
    ensures AtMostOneUpTo(ts, i, |ts|) == AtMostOneUpTo(ts, i + 1, 0)
    ensures AtMostOneUpTo(ts, i, i + 1) == AtMostOneUpTo(ts, i, 0)
  {
    VisitedRow(ts, {True}, i);
    VisitedRow(ts, {True, Unknown}, i);
  }

  lemma AllPairs(ts: seq<Ternary>)
    ensures KAnd(FoldOr(ts), AtMostOneUpTo(ts, |ts|, 0)) == ExactlyOne(ts)
  {
    assert TwoUpTo(ts, {True}, |ts|, 0) == Two(ts, {True});
    assert TwoUpTo(ts, {True, Unknown}, |ts|, 0) == Two(ts, {True, Unknown});
    if Two(ts, {True}) {
      var i, j :| 0 <= i < j < |ts| && ts[i] in {True} && ts[j] in {True};
      assert ts[i] in {True, Unknown} && ts[j] in {True, Unknown};
    }
  }

  function Partial(e: Expr, k: Known): Ternary
    decreases e, 1
  {
    match e
    case Bool(b) => Of(b)
    case Predicate(t, op, v) => UnderOp(op, HoldsValue(k, t, v))
    case Not(x) => KNot(Partial(x, k))
    case And(x, y) => KAnd(Partial(x, k), Partial(y, k))
    case Or(x, y) => KOr(Partial(x, k), Partial(y, k))
    case AnyOf(es) => FoldOr(PartialEach(es, k))
    case AllOf(es) => FoldAnd(PartialEach(es, k))
    case ExactlyOneOf(es) => ExactlyOne(PartialEach(es, k))
    case FacetCompare(l, op, r) => UnderOp(op, Agree(k, l, r))
  }

  function PartialEach(es: seq<Expr>, k: Known): (ts: seq<Ternary>)
    ensures |ts| == |es| && forall i | 0 <= i < |es| :: ts[i] == Partial(es[i], k)
    decreases es, 0
  {
    if es == [] then [] else [Partial(es[0], k)] + PartialEach(es[1..], k)
  }

  predicate NotContradicted(e: Expr, bound: Selection) {
    Partial(e, OneValue(bound)) != False
  }

  /** A selection that keeps every fact already known. */
  predicate Completes(sel: Selection, k: Known) {
    match k
    case OneValue(bound) => forall f | f in bound :: f in sel && sel[f] == bound[f]
    case Restricted(open) => forall f | f in open && open[f] != {} :: f in sel && sel[f] in open[f]
  }

  predicate Sound(t: Ternary, b: bool) {
    (t == True ==> b) && (t == False ==> !b)
  }

  lemma OnlyMember(s: set<string>, x: string, y: string)
    requires |s| == 1 && x in s && y in s
    ensures x == y
  {
    assert |s - {x}| == 0;
    assert s - {x} == {};
  }

  lemma LeafIsSound(e: Expr, k: Known, sel: Selection)
    requires (e.Predicate? || e.FacetCompare?) && TagsOf(e) <= sel.Keys && Completes(sel, k)
    ensures Sound(Partial(e, k), Eval(e, Bound(sel)))
  {
    assert Leaves(e) == {e};
    match e
    case Predicate(t, op, v) =>
      assert t in TagsOf(e);
      if k.Restricted? && t in k.open && v in k.open[t] && |k.open[t]| == 1 { OnlyMember(k.open[t], v, sel[t]); }
    case FacetCompare(l, op, r) =>
      assert l in TagsOf(e) && r in TagsOf(e);
      if k.Restricted? && l in k.open && r in k.open && |k.open[l]| == 1 && k.open[l] == k.open[r] {
        OnlyMember(k.open[l], sel[l], sel[r]);
      }
  }

  /** A definite answer is the answer of every completion of what is known. */
  lemma {:induction false} PartialIsSound(e: Expr, k: Known, sel: Selection)
    requires TagsOf(e) <= sel.Keys && Completes(sel, k)
    ensures Sound(Partial(e, k), Eval(e, Bound(sel)))
    decreases e, 1
  {
    match e
    case Bool(_) =>
    case Predicate(_, _, _) => LeafIsSound(e, k, sel);
    case FacetCompare(_, _, _) => LeafIsSound(e, k, sel);
    case Not(x) => TagsWithin(e, x); PartialIsSound(x, k, sel);
    case And(x, y) => TagsWithin(e, x); TagsWithin(e, y); PartialIsSound(x, k, sel); PartialIsSound(y, k, sel);
    case Or(x, y) => TagsWithin(e, x); TagsWithin(e, y); PartialIsSound(x, k, sel); PartialIsSound(y, k, sel);
    case AnyOf(es) => ListIsSound(e, es, k, sel);
    case AllOf(es) => ListIsSound(e, es, k, sel);
    case ExactlyOneOf(es) => ListIsSound(e, es, k, sel);
  }

  lemma TagsWithin(e: Expr, x: Expr)
    requires Leaves(x) <= Leaves(e)
    ensures TagsOf(x) <= TagsOf(e)
  {
  }

  lemma {:induction false} ListIsSound(e: Expr, es: seq<Expr>, k: Known, sel: Selection)
    requires e == AnyOf(es) || e == AllOf(es) || e == ExactlyOneOf(es)
    requires TagsOf(e) <= sel.Keys && Completes(sel, k)
    ensures Sound(Partial(e, k), Eval(e, Bound(sel)))
    decreases e, 0
  {
    var ts, bs := PartialEach(es, k), EvalEach(es, Bound(sel));
    forall i | 0 <= i < |es| ensures Sound(ts[i], bs[i]) {
      assert Leaves(e) == LeavesOfEach(es) && Leaves(es[i]) <= LeavesOfEach(es);
      TagsWithin(e, es[i]);
      PartialIsSound(es[i], k, sel);
    }
    CountTrueIsExactlyOne(bs);
    FoldsAreSound(ts, bs);
  }

  lemma FoldsAreSound(ts: seq<Ternary>, bs: seq<bool>)
    requires |ts| == |bs| && forall i | 0 <= i < |ts| :: Sound(ts[i], bs[i])
    ensures Sound(FoldOr(ts), true in bs) && Sound(FoldAnd(ts), false !in bs)
    ensures Sound(ExactlyOne(ts), CountTrue(bs) == 1)
  {
    if True in ts {
      var i :| 0 <= i < |ts| && ts[i] == True;
      assert bs[i];
    }
    if False in ts {
      var i :| 0 <= i < |ts| && ts[i] == False;
      assert !bs[i];
    }
    CountTrueIsExactlyOne(bs);
    if Two(ts, {True}) {
      var i, j :| 0 <= i < j < |ts| && ts[i] in {True} && ts[j] in {True};
      assert bs[i] && bs[j];
    } else if ExactlyOne(ts) == True {
      forall i, j | 0 <= i < j < |bs| ensures !(bs[i] && bs[j]) {
        assert !(ts[i] in {True, Unknown} && ts[j] in {True, Unknown});
      }
    }
  }

  /** Once every facet is bound there is no `Unknown`: a total selection is rejected
      exactly when the constraint is false under it. */
  lemma {:induction false} TotalSelectionDecides(e: Expr, sel: Selection)
    requires TagsOf(e) <= sel.Keys
    ensures Partial(e, OneValue(sel)) == Of(Eval(e, Bound(sel)))
    ensures NotContradicted(e, sel) <==> Eval(e, Bound(sel))
  {
    NoUnknown(e, sel);
    PartialIsSound(e, OneValue(sel), sel);
  }

  lemma {:induction false} NoUnknown(e: Expr, sel: Selection)
    requires TagsOf(e) <= sel.Keys
    ensures Partial(e, OneValue(sel)) != Unknown
    decreases e, 1
  {
    var k := OneValue(sel);
    match e
    case Bool(_) =>
    case Predicate(t, _, _) => assert Leaves(e) == {e}; assert t in TagsOf(e);
    case FacetCompare(l, _, r) => assert Leaves(e) == {e}; assert l in TagsOf(e) && r in TagsOf(e);
    case Not(x) => TagsWithin(e, x); NoUnknown(x, sel);
    case And(x, y) => TagsWithin(e, x); TagsWithin(e, y); NoUnknown(x, sel); NoUnknown(y, sel);
    case Or(x, y) => TagsWithin(e, x); TagsWithin(e, y); NoUnknown(x, sel); NoUnknown(y, sel);
    case AnyOf(es) => NoUnknownEach(e, es, sel);
    case AllOf(es) => NoUnknownEach(e, es, sel);
    case ExactlyOneOf(es) => NoUnknownEach(e, es, sel);
  }

  lemma {:induction false} NoUnknownEach(e: Expr, es: seq<Expr>, sel: Selection)
    requires e == AnyOf(es) || e == AllOf(es) || e == ExactlyOneOf(es)
    requires TagsOf(e) <= sel.Keys
    ensures Partial(e, OneValue(sel)) != Unknown
    decreases e, 0
  {
    var ts := PartialEach(es, OneValue(sel));
    forall i | 0 <= i < |es| ensures ts[i] != Unknown {
      assert Leaves(e) == LeavesOfEach(es) && Leaves(es[i]) <= LeavesOfEach(es);
      TagsWithin(e, es[i]);
      NoUnknown(es[i], sel);
    }
    assert Unknown !in ts;
    if Two(ts, {True, Unknown}) {
      var i, j :| 0 <= i < j < |ts| && ts[i] in {True, Unknown} && ts[j] in {True, Unknown};
      assert ts[i] in {True} && ts[j] in {True};
    }
  }

  function Singletons(bound: Selection): map<string, set<string>> {
    map f | f in bound :: {bound[f]}
  }

  /** The two shapes of knowledge agree on every input both can express. */
  lemma {:induction false} BoundIsSingletonRestriction(e: Expr, bound: Selection)
    ensures Partial(e, OneValue(bound)) == Partial(e, Restricted(Singletons(bound)))
    decreases e, 1
  {
    match e
    case Bool(_) =>
    case Predicate(_, _, _) =>
    case FacetCompare(l, _, r) =>
      SingletonsAgree(bound, l, r);
    case Not(x) => BoundIsSingletonRestriction(x, bound);
    case And(x, y) => BoundIsSingletonRestriction(x, bound); BoundIsSingletonRestriction(y, bound);
    case Or(x, y) => BoundIsSingletonRestriction(x, bound); BoundIsSingletonRestriction(y, bound);
    case AnyOf(es) => SingletonEach(es, bound);
    case AllOf(es) => SingletonEach(es, bound);
    case ExactlyOneOf(es) => SingletonEach(es, bound);
  }

  lemma SingletonsAgree(bound: Selection, l: string, r: string)
    ensures Agree(OneValue(bound), l, r) == Agree(Restricted(Singletons(bound)), l, r)
  {
    if l in bound && r in bound {
      if bound[l] == bound[r] { assert !({bound[l]} !! {bound[r]}) by { assert bound[l] in {bound[l]} * {bound[r]}; } }
    }
  }

  lemma {:induction false} SingletonEach(es: seq<Expr>, bound: Selection)
    ensures PartialEach(es, OneValue(bound)) == PartialEach(es, Restricted(Singletons(bound)))
    decreases es, 0
  {
    if es != [] {
      BoundIsSingletonRestriction(es[0], bound);
      SingletonEach(es[1..], bound);
    }
  }
}
