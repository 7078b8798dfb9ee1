/** How much three-valued evaluation finds out (compiler/src/conditions/selection_eval.rs
    `eval_partial`): all there is, as long as no facet is named twice. */
module PartialExact {
  import opened Conditions
  import opened SelectionEval

  /** The facets a leaf names. */
  function LeafTags(l: Expr): set<string> {
    if l.Predicate? then {l.tag} else if l.FacetCompare? then {l.lhs, l.rhs} else {}
  }

  predicate Separate(l: Expr, m: Expr) {
    LeafTags(l) !! LeafTags(m)
  }

  /** No two leaves name one facet, and no comparison names one facet twice. */
  predicate Apart(ls: seq<Expr>) {
    && (forall l | l in ls :: l.FacetCompare? ==> l.lhs != l.rhs)
    && forall i, j | 0 <= i < j < |ls| :: Separate(ls[i], ls[j])
  }

  predicate NamesOnce(e: Expr) {
    Apart(LeafList(e))
  }

  /** A completion of what is known that binds every facet of the expression. */
  ghost predicate Decides(sel: Selection, e: Expr, k: Known) {
    Completes(sel, k) && TagsOf(e) <= sel.Keys
  }

  /** Some completion gives the expression this value. */
  ghost predicate Reaches(e: Expr, k: Known, b: bool) {
    exists sel :: Decides(sel, e, k) && Eval(e, Bound(sel)) == b
  }

  // ----- choosing values -----

  /** The answer leaves this value possible. */
  predicate Can(t: Ternary, b: bool) {
    t == Unknown || t == Of(b)
  }

  predicate Allowed(open: map<string, set<string>>, facet: string, value: string) {
    facet in open && open[facet] != {} ==> value in open[facet]
  }

  predicate AllAllowed(choice: Selection, open: map<string, set<string>>) {
    forall f | f in choice :: Allowed(open, f, choice[f])
  }

  lemma OtherMember(s: set<string>, x: string) returns (y: string)
    requires s != {} && !(x in s && |s| == 1)
    ensures y in s && y != x
  {
    if x in s {
      assert |s - {x}| > 0;
      y :| y in s - {x};
    } else {
      y :| y in s;
    }
  }

  lemma OtherValue(open: map<string, set<string>>, facet: string, x: string) returns (y: string)
    requires Can(HoldsValue(Restricted(open), facet, x), false)
    ensures Allowed(open, facet, y) && y != x
  {
    if facet in open && open[facet] != {} {
      y := OtherMember(open[facet], x);
    } else {
      y := x + "'";
    }
  }

  lemma AnyValue(open: map<string, set<string>>, facet: string) returns (x: string)
    ensures Allowed(open, facet, x)
  {
    x := "";
    if facet in open && open[facet] != {} { x :| x in open[facet]; }
  }

  lemma Common(s: set<string>, t: set<string>) returns (x: string)
    requires !(s !! t)
    ensures x in s && x in t
  {
    x :| x in s && x in t;
  }

  lemma SameValue(open: map<string, set<string>>, l: string, r: string) returns (x: string)
    requires Can(Agree(Restricted(open), l, r), true)
    ensures Allowed(open, l, x) && Allowed(open, r, x)
  {
    if l in open && open[l] != {} && r in open && open[r] != {} {
      x := Common(open[l], open[r]);
    } else if l in open && open[l] != {} {
      x := AnyValue(open, l);
    } else {
      x := AnyValue(open, r);
    }
  }

  lemma OnlyOne(s: set<string>, x: string)
    requires x in s && forall y | y in s :: y == x
    ensures s == {x} && |s| == 1
  {
    assert s == {x};
  }

  lemma TwoValues(open: map<string, set<string>>, l: string, r: string) returns (x: string, y: string)
    requires Can(Agree(Restricted(open), l, r), false)
    ensures Allowed(open, l, x) && Allowed(open, r, y) && x != y
  {
    if l in open && open[l] != {} && r in open && open[r] != {} {
      if z, w :| z in open[l] && w in open[r] && z != w {
        x, y := z, w;
      } else {
        x :| x in open[l];
        y :| y in open[r];
        OnlyOne(open[l], x);
        OnlyOne(open[r], x);
        assert false;
      }
    } else if l in open && open[l] != {} {
      x := AnyValue(open, l);
      y := x + "'";
    } else {
      y := AnyValue(open, r);
      x := y + "'";
    }
  }

  lemma LeafReaches(e: Expr, open: map<string, set<string>>, b: bool) returns (choice: Selection)
    requires e.Predicate? || (e.FacetCompare? && e.lhs != e.rhs)
    requires Can(Partial(e, Restricted(open)), b)
    ensures choice.Keys == TagsOf(e) && AllAllowed(choice, open) && Eval(e, Bound(choice)) == b
  {
    assert Leaves(e) == {e};
    match e
    case Predicate(t, op, v) =>
      var x := v;
      if Under(op, true) != b { x := OtherValue(open, t, v); }
      choice := map[t := x];
    case FacetCompare(l, op, r) =>
      var x, y;
      if Under(op, true) == b {
        x := SameValue(open, l, r);
        y := x;
      } else {
        x, y := TwoValues(open, l, r);
      }
      choice := map[l := x, r := y];
  }

  // ----- putting choices together -----

  lemma ApartParts(xs: seq<Expr>, ys: seq<Expr>)
    requires Apart(xs + ys)
    ensures Apart(xs) && Apart(ys) && forall l, m | l in xs && m in ys :: Separate(l, m)
  {
    var all := xs + ys;
    assert forall l | l in xs || l in ys :: l in all;
    forall i, j | 0 <= i < j < |xs| ensures Separate(xs[i], xs[j]) { assert Separate(all[i], all[j]); }
    forall i, j | 0 <= i < j < |ys| ensures Separate(ys[i], ys[j]) { assert Separate(all[|xs| + i], all[|xs| + j]); }
    forall l, m | l in xs && m in ys ensures Separate(l, m) {
      var i :| 0 <= i < |xs| && xs[i] == l;
      var j :| 0 <= j < |ys| && ys[j] == m;
      assert Separate(all[i], all[|xs| + j]);
    }
  }

  function TagsOfAll(ls: set<Expr>): set<string> {
    set l, f | l in ls && f in LeafTags(l) :: f
  }

  lemma TagsAreLeafTags(e: Expr)
    ensures TagsOf(e) == TagsOfAll(Leaves(e))
  {
    forall f | f in TagsOf(e) ensures f in TagsOfAll(Leaves(e)) { TagIsLeafTag(e, f); }
    forall f | f in TagsOfAll(Leaves(e)) ensures f in TagsOf(e) {
      var l :| l in Leaves(e) && f in LeafTags(l);
    }
  }

  lemma TagIsLeafTag(e: Expr, f: string)
    requires f in TagsOf(e)
    ensures f in TagsOfAll(Leaves(e))
  {
    if l :| l in Leaves(e) && l.Predicate? && l.tag == f {
      assert f in LeafTags(l);
    } else if l :| l in Leaves(e) && l.FacetCompare? && l.lhs == f {
      assert f in LeafTags(l);
    } else {
      var l :| l in Leaves(e) && l.FacetCompare? && l.rhs == f;
      assert f in LeafTags(l);
    }
  }

  lemma {:induction false} LeavesAreLeaves(e: Expr, l: Expr)
    requires l in Leaves(e)
    ensures l.Predicate? || l.FacetCompare?
    decreases e, 1
  {
    match e
    case Bool(_) =>
    case Predicate(_, _, _) =>
    case FacetCompare(_, _, _) =>
    case Not(x) => LeavesAreLeaves(x, l);
    case And(x, y) => if l in Leaves(x) { LeavesAreLeaves(x, l); } else { LeavesAreLeaves(y, l); }
    case Or(x, y) => if l in Leaves(x) { LeavesAreLeaves(x, l); } else { LeavesAreLeaves(y, l); }
    case AnyOf(es) => LeavesOfEachAreLeaves(es, l);
    case AllOf(es) => LeavesOfEachAreLeaves(es, l);
    case ExactlyOneOf(es) => LeavesOfEachAreLeaves(es, l);
  }

  lemma {:induction false} LeavesOfEachAreLeaves(es: seq<Expr>, l: Expr)
    requires l in LeavesOfEach(es)
    ensures l.Predicate? || l.FacetCompare?
    decreases es, 0
  {
    if l in Leaves(es[0]) { LeavesAreLeaves(es[0], l); } else { LeavesOfEachAreLeaves(es[1..], l); }
  }

  lemma AddingKeeps(e: Expr, choice: Selection, more: Selection)
    requires TagsOf(e) <= choice.Keys && forall f | f in TagsOf(e) :: f in more && more[f] == choice[f]
    ensures Eval(e, Bound(more)) == Eval(e, Bound(choice))
  {
    forall l | l in Leaves(e) ensures LeafHolds(l, Bound(more)) == LeafHolds(l, Bound(choice)) {
      LeavesAreLeaves(e, l);
      if l.Predicate? {
        assert l.tag in TagsOf(e);
      } else {
        assert l.lhs in TagsOf(e) && l.rhs in TagsOf(e);
      }
    }
    LeavesDecide(e, Bound(more), Bound(choice));
  }

  lemma DisjointTags(x: Expr, ys: set<Expr>)
    requires forall l, m | l in Leaves(x) && m in ys :: Separate(l, m)
    ensures TagsOf(x) !! TagsOfAll(ys)
  {
    TagsAreLeafTags(x);
    forall f | f in TagsOf(x) ensures f !in TagsOfAll(ys) {
      var l :| l in Leaves(x) && f in LeafTags(l);
      forall m | m in ys ensures f !in LeafTags(m) { assert Separate(l, m); }
    }
  }

  /** The values asked of a list of expressions. */
  predicate CanEach(ts: seq<Ternary>, bs: seq<bool>) {
    |bs| == |ts| && forall i | 0 <= i < |ts| :: Can(ts[i], bs[i])
  }

  /** Expressions that name no facet twice can be given any of their possible values together. */
  lemma {:induction false} EachReaches(es: seq<Expr>, open: map<string, set<string>>, bs: seq<bool>)
    returns (choice: Selection)
    requires Apart(LeafListEach(es)) && CanEach(PartialEach(es, Restricted(open)), bs)
    ensures choice.Keys == TagsOfAll(LeavesOfEach(es)) && AllAllowed(choice, open)
    ensures EvalEach(es, Bound(choice)) == bs
    decreases es, 0
  {
    if es == [] {
      choice := map[];
    } else {
      var x, rest := es[0], es[1..];
      ApartParts(LeafList(x), LeafListEach(rest));
      assert CanEach(PartialEach(rest, Restricted(open)), bs[1..]);
      var c := ValueReaches(x, open, bs[0]);
      var d := EachReaches(rest, open, bs[1..]);
      TagsAreLeafTags(x);
      DisjointTags(x, LeavesOfEach(rest));
      choice := c + d;
      AddingKeeps(x, c, choice);
      RestKeeps(rest, d, choice);
      TagsOfBoth(Leaves(x), LeavesOfEach(rest));
      assert bs == [bs[0]] + bs[1..];
    }
  }

  lemma RestKeeps(es: seq<Expr>, choice: Selection, more: Selection)
    requires choice.Keys == TagsOfAll(LeavesOfEach(es)) && forall f | f in choice :: f in more && more[f] == choice[f]
    ensures EvalEach(es, Bound(more)) == EvalEach(es, Bound(choice))
  {
    forall i | 0 <= i < |es| ensures Eval(es[i], Bound(more)) == Eval(es[i], Bound(choice)) {
      TagsAreLeafTags(es[i]);
      assert Leaves(es[i]) <= LeavesOfEach(es);
      AddingKeeps(es[i], choice, more);
    }
  }

  // ----- which values to ask -----

  function Settle(ts: seq<Ternary>): (bs: seq<bool>)
    ensures CanEach(ts, bs) && forall i | 0 <= i < |ts| :: bs[i] <==> ts[i] == True
  {
    seq(|ts|, i requires 0 <= i < |ts| => ts[i] == True)
  }

  /** Values whose disjunction, conjunction or exactly-one is the one asked. */
  lemma OrReaches(ts: seq<Ternary>, b: bool) returns (bs: seq<bool>)
    requires Can(FoldOr(ts), b)
    ensures CanEach(ts, bs) && (true in bs) == b
  {
    bs := Settle(ts);
    if b && True !in ts {
      var i :| 0 <= i < |ts| && ts[i] == Unknown;
      bs := bs[i := true];
      assert bs[i];
    } else if b {
      var i :| 0 <= i < |ts| && ts[i] == True;
      assert bs[i];
    }
  }

  function Negated(ts: seq<Ternary>): (us: seq<Ternary>)
    ensures |us| == |ts| && forall i | 0 <= i < |ts| :: us[i] == KNot(ts[i])
  {
    seq(|ts|, i requires 0 <= i < |ts| => KNot(ts[i]))
  }

  lemma NegatedFold(ts: seq<Ternary>)
    ensures FoldOr(Negated(ts)) == KNot(FoldAnd(ts))
  {
    var us := Negated(ts);
    assert True in us <==> False in ts by {
      if False in ts { var i :| 0 <= i < |ts| && ts[i] == False; assert us[i] == True; }
      if True in us { var i :| 0 <= i < |us| && us[i] == True; assert ts[i] == False; }
    }
    assert Unknown in us <==> Unknown in ts by {
      if Unknown in ts { var i :| 0 <= i < |ts| && ts[i] == Unknown; assert us[i] == Unknown; }
      if Unknown in us { var i :| 0 <= i < |us| && us[i] == Unknown; assert ts[i] == Unknown; }
    }
  }

  lemma AndReaches(ts: seq<Ternary>, b: bool) returns (bs: seq<bool>)
    requires Can(FoldAnd(ts), b)
    ensures CanEach(ts, bs) && (false !in bs) == b
  {
    NegatedFold(ts);
    var cs := OrReaches(Negated(ts), !b);
    bs := seq(|ts|, i requires 0 <= i < |ts| => !cs[i]);
    if true in cs {
      var i :| 0 <= i < |cs| && cs[i];
      assert !bs[i];
    }
  }

  /** A second candidate beside a certain one, where the answer is open. */
  lemma SpareCandidate(ts: seq<Ternary>, i: nat) returns (j: nat)
    requires i < |ts| && ts[i] == True && !Two(ts, {True}) && Two(ts, {True, Unknown})
    ensures j < |ts| && j != i && ts[j] == Unknown
  {
    var x, y :| 0 <= x < y < |ts| && ts[x] in {True, Unknown} && ts[y] in {True, Unknown};
    j := if x == i then y else x;
    assert !(ts[i] in {True} && ts[j] in {True});
  }

  predicate OnlyAt(bs: seq<bool>, i: nat) {
    i < |bs| && bs[i] && forall j | 0 <= j < |bs| && j != i :: !bs[j]
  }

  lemma OnlyAtIsOne(bs: seq<bool>, i: nat)
    requires OnlyAt(bs, i)
    ensures CountTrue(bs) == 1
  {
    CountTrueIsExactlyOne(bs);
    assert bs[i];
  }

  lemma TwoAreNotOne(bs: seq<bool>, i: nat, j: nat)
    requires i < |bs| && j < |bs| && i != j && bs[i] && bs[j]
    ensures CountTrue(bs) != 1
  {
    CountTrueIsExactlyOne(bs);
  }

  lemma OneReaches(ts: seq<Ternary>, b: bool) returns (bs: seq<bool>)
    requires Can(ExactlyOne(ts), b)
    ensures CanEach(ts, bs) && (CountTrue(bs) == 1) == b
  {
    bs := Settle(ts);
    if b && True !in ts {
      var i :| 0 <= i < |ts| && ts[i] == Unknown;
      bs := bs[i := true];
      OnlyAtIsOne(bs, i);
    } else if b {
      var i :| 0 <= i < |ts| && ts[i] == True;
      assert forall j | 0 <= j < |ts| && j != i :: !(ts[i] in {True} && ts[j] in {True});
      OnlyAtIsOne(bs, i);
    } else if Two(ts, {True}) {
      var i, j :| 0 <= i < j < |ts| && ts[i] in {True} && ts[j] in {True};
      TwoAreNotOne(bs, i, j);
    } else if True in ts {
      var i :| 0 <= i < |ts| && ts[i] == True;
      var j := SpareCandidate(ts, i);
      bs := bs[j := true];
      TwoAreNotOne(bs, i, j);
    } else {
      CountTrueIsExactlyOne(bs);
    }
  }

  lemma {:induction false} ValueReaches(e: Expr, open: map<string, set<string>>, b: bool) returns (choice: Selection)
    requires NamesOnce(e) && Can(Partial(e, Restricted(open)), b)
    ensures choice.Keys == TagsOf(e) && AllAllowed(choice, open) && Eval(e, Bound(choice)) == b
    decreases e, 1
  {
    TagsAreLeafTags(e);
    match e
    case Bool(_) => choice := map[];
    case Predicate(_, _, _) => choice := LeafReaches(e, open, b);
    case FacetCompare(_, _, _) =>
      assert e in LeafList(e);
      choice := LeafReaches(e, open, b);
    case Not(x) =>
      TagsAreLeafTags(x);
      choice := ValueReaches(x, open, !b);
    case And(x, y) => choice := PairReaches(e, x, y, open, b);
    case Or(x, y) => choice := PairReaches(e, x, y, open, b);
    case AnyOf(es) => var bs := OrReaches(PartialEach(es, Restricted(open)), b); choice := EachReaches(es, open, bs);
    case AllOf(es) => var bs := AndReaches(PartialEach(es, Restricted(open)), b); choice := EachReaches(es, open, bs);
    case ExactlyOneOf(es) =>
      var bs := OneReaches(PartialEach(es, Restricted(open)), b);
      choice := EachReaches(es, open, bs);
  }

  /** Values for both sides. */
  lemma PairValues(t: Ternary, u: Ternary, conjoined: bool, b: bool) returns (v: bool, w: bool)
    requires Can(if conjoined then KAnd(t, u) else KOr(t, u), b)
    ensures Can(t, v) && Can(u, w) && b == if conjoined then v && w else v || w
  {
    v := if Can(t, b) then b else !b;
    w := if Can(u, b) then b else !b;
  }

  lemma TagsOfBoth(xs: set<Expr>, ys: set<Expr>)
    ensures TagsOfAll(xs + ys) == TagsOfAll(xs) + TagsOfAll(ys)
  {
  }

  lemma Join(x: Expr, c: Selection, y: Expr, d: Selection, open: map<string, set<string>>) returns (choice: Selection)
    requires c.Keys == TagsOf(x) && d.Keys == TagsOf(y) && TagsOf(x) !! TagsOf(y)
    requires AllAllowed(c, open) && AllAllowed(d, open)
    ensures choice.Keys == TagsOf(x) + TagsOf(y) && AllAllowed(choice, open)
    ensures Eval(x, Bound(choice)) == Eval(x, Bound(c)) && Eval(y, Bound(choice)) == Eval(y, Bound(d))
  {
    choice := c + d;
    AddingKeeps(x, c, choice);
    AddingKeeps(y, d, choice);
  }

  lemma {:induction false} PairReaches(e: Expr, x: Expr, y: Expr, open: map<string, set<string>>, b: bool)
    returns (choice: Selection)
    requires e == And(x, y) || e == Or(x, y)
    requires NamesOnce(e) && Can(Partial(e, Restricted(open)), b)
    ensures choice.Keys == TagsOfAll(Leaves(e)) && AllAllowed(choice, open) && Eval(e, Bound(choice)) == b
    decreases e, 0
  {
    ApartParts(LeafList(x), LeafList(y));
    var v, w := PairValues(Partial(x, Restricted(open)), Partial(y, Restricted(open)), e.And?, b);
    var c := ValueReaches(x, open, v);
    var d := ValueReaches(y, open, w);
    TagsAreLeafTags(x);
    TagsAreLeafTags(y);
    DisjointTags(x, Leaves(y));
    choice := Join(x, c, y, d, open);
    TagsOfBoth(Leaves(x), Leaves(y));
  }

  // ----- the theorem -----

  ghost function AnyOpen(open: map<string, set<string>>): Selection {
    map f | f in open && open[f] != {} :: var v :| v in open[f]; v
  }

  lemma CanReach(e: Expr, open: map<string, set<string>>, b: bool)
    requires NamesOnce(e) && Can(Partial(e, Restricted(open)), b)
    ensures Reaches(e, Restricted(open), b)
  {
    var choice := ValueReaches(e, open, b);
    var sel := AnyOpen(open) + choice;
    AddingKeeps(e, choice, sel);
    forall f | f in open && open[f] != {} ensures f in sel && sel[f] in open[f] {
      if f in choice { assert Allowed(open, f, choice[f]); }
    }
    assert Decides(sel, e, Restricted(open));
  }

  /** One value each is one open value each. */
  lemma SameCompletions(bound: Selection, sel: Selection)
    ensures Completes(sel, OneValue(bound)) <==> Completes(sel, Restricted(Singletons(bound)))
  {
    if Completes(sel, Restricted(Singletons(bound))) {
      forall f | f in bound ensures f in sel && sel[f] == bound[f] {
        assert f in Singletons(bound) && bound[f] in Singletons(bound)[f];
      }
    }
  }

  function OpenOf(k: Known): map<string, set<string>> {
    match k case OneValue(bound) => Singletons(bound) case Restricted(open) => open
  }

  lemma OpenIsKnown(e: Expr, k: Known)
    ensures Partial(e, k) == Partial(e, Restricted(OpenOf(k)))
    ensures forall sel :: Decides(sel, e, k) <==> Decides(sel, e, Restricted(OpenOf(k)))
  {
    if k.OneValue? {
      BoundIsSingletonRestriction(e, k.bound);
      forall sel ensures Completes(sel, k) <==> Completes(sel, Restricted(OpenOf(k))) { SameCompletions(k.bound, sel); }
    }
  }

  lemma CanIffReaches(e: Expr, k: Known, b: bool)
    requires NamesOnce(e)
    ensures Can(Partial(e, k), b) <==> Reaches(e, k, b)
  {
    OpenIsKnown(e, k);
    if Can(Partial(e, k), b) {
      CanReach(e, OpenOf(k), b);
      var sel :| Decides(sel, e, Restricted(OpenOf(k))) && Eval(e, Bound(sel)) == b;
      assert Decides(sel, e, k);
    }
    forall sel | Decides(sel, e, k) && Eval(e, Bound(sel)) == b ensures Can(Partial(e, k), b) {
      PartialIsSound(e, k, sel);
    }
  }

  /** Of an expression that names no facet twice, the answer is open exactly when completions
      disagree, and otherwise it is the answer of all of them. */
  lemma PartialIsExact(e: Expr, k: Known)
    requires NamesOnce(e)
    ensures Partial(e, k) == Unknown <==> Reaches(e, k, true) && Reaches(e, k, false)
    ensures Partial(e, k) == False <==> forall sel | Decides(sel, e, k) :: !Eval(e, Bound(sel))
    ensures Partial(e, k) == True <==> forall sel | Decides(sel, e, k) :: Eval(e, Bound(sel))
  {
    CanIffReaches(e, k, true);
    CanIffReaches(e, k, false);
  }

  /** A selection is rejected over such a constraint exactly when nothing it can still become
      meets the constraint. */
  lemma RejectsOnlyTheHopeless(e: Expr, bound: Selection)
    requires NamesOnce(e)
    ensures NotContradicted(e, bound) <==>
            exists sel :: Decides(sel, e, OneValue(bound)) && Eval(e, Bound(sel))
  {
    PartialIsExact(e, OneValue(bound));
  }

  /** A facet named twice can hide a contradiction: two values are asked of one facet, and
      nothing is found out although every completion refutes it. */
  lemma NamedTwiceIsMissed(t: string, v: string, w: string)
    requires v != w
    ensures var e := And(Predicate(t, Eq, v), Predicate(t, Eq, w));
            && !NamesOnce(e) && Partial(e, OneValue(map[])) == Unknown && !Reaches(e, OneValue(map[]), true)
  {
    var x, y, k := Predicate(t, Eq, v), Predicate(t, Eq, w), OneValue(map[]);
    var ls := LeafList(And(x, y));
    assert LeafList(x) == [x] && LeafList(y) == [y];
    assert ls[0] == x && ls[1] == y;
    assert t in LeafTags(x) * LeafTags(y);
    assert !Separate(ls[0], ls[1]);
    assert Partial(x, k) == Unknown && Partial(y, k) == Unknown;
    assert forall sel :: !(Eval(x, Bound(sel)) && Eval(y, Bound(sel)));
  }
}
