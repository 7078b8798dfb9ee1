/** When the implication engine's verdict is the true one: exactly when the facet
    comparisons form a forest. */
module ImplicationExact {
  import opened Conditions
  import opened Graphs
  import opened Implication
  import Sorting

  /** A refusal is always right: a row of the table is a selection. */
  lemma RefusalIsRight(a: Expr, b: Expr)
    requires !TableImplies(a, b)
    ensures !Implies(a, b)
  {
  }

  // ----- two sentinels colour a forest -----

  function At(sel: Selection, t: string): string {
    if t in sel then sel[t] else ""
  }

  /** The colouring tells equal from different along an edge. */
  predicate Tells(sel: Selection, second: set<string>, e: Edge) {
    (At(sel, e.0) == At(sel, e.1)) == ((e.0 in second) == (e.1 in second))
  }

  /** The facets on `b`'s side of the edges seen so far. */
  ghost function Side(es: set<Edge>, all: set<string>, b: string): set<string> {
    set t | t in all && Linked(es, b, t)
  }

  function Flip(second: set<string>, side: set<string>): set<string> {
    (second - side) + (side - second)
  }

  lemma SideIsClosed(es: set<Edge>, all: set<string>, b: string, e: Edge)
    requires e in es && e.0 in all && e.1 in all
    ensures e.0 in Side(es, all, b) <==> e.1 in Side(es, all, b)
  {
    LinkedEdge(es, e.0, e.1);
    LinkedEdge(es, e.1, e.0);
    if Linked(es, b, e.0) { LinkedTrans(es, b, e.0, e.1); }
    if Linked(es, b, e.1) { LinkedTrans(es, b, e.1, e.0); }
  }

  /** The new edge has its ends on different sides, so flipping one side mends it. */
  lemma FlipMends(es: seq<Edge>, sel: Selection, second: set<string>, i: nat)
    requires Forest(es) && i < |es| && !Tells(sel, second, es[i])
    ensures Tells(sel, Flip(second, Side(EdgeSet(es[..i]), Ends(EdgeSet(es)), es[i].1)), es[i])
  {
    var e, seen, all := es[i], EdgeSet(es[..i]), Ends(EdgeSet(es));
    assert e in EdgeSet(es);
    LinkedRefl(seen, e.1);
    assert e.1 in Side(seen, all, e.1);
    if Linked(seen, e.1, e.0) { LinkedSym(seen, e.1, e.0); }
    assert e.0 !in Side(seen, all, e.1);
  }

  /** Any pattern of equal and different along the edges of a forest has a colouring:
      an edge joins two sides, and one side can be flipped as a whole. */
  lemma {:induction false} Colour(es: seq<Edge>, sel: Selection, i: nat) returns (second: set<string>)
    requires Forest(es) && i <= |es|
    ensures forall k | 0 <= k < i :: Tells(sel, second, es[k])
  {
    if i == 0 {
      second := {};
    } else {
      second := Colour(es, sel, i - 1);
      if !Tells(sel, second, es[i - 1]) {
        FlipKeeps(es, sel, second, i - 1, es[i - 1].1);
        FlipMends(es, sel, second, i - 1);
        second := Flip(second, Side(EdgeSet(es[..i - 1]), Ends(EdgeSet(es)), es[i - 1].1));
      }
    }
  }

  lemma FlipKeeps(es: seq<Edge>, sel: Selection, second: set<string>, i: nat, b: string)
    requires i <= |es| && forall k | 0 <= k < i :: Tells(sel, second, es[k])
    ensures forall k | 0 <= k < i :: Tells(sel, Flip(second, Side(EdgeSet(es[..i]), Ends(EdgeSet(es)), b)), es[k])
  {
    var seen, all := EdgeSet(es[..i]), Ends(EdgeSet(es));
    forall k | 0 <= k < i ensures Tells(sel, Flip(second, Side(seen, all, b)), es[k]) {
      assert es[..i][k] == es[k];
      assert es[k] in EdgeSet(es);
      SideIsClosed(seen, all, b, es[k]);
    }
  }

  // ----- a row for every selection -----

  /** The row that stands for a selection: named values stay, others become sentinels. */
  ghost function Stand(values: set<string>, v: string, isSecond: bool): string {
    var first := Sentinel(values);
    if v in values then v else if isSecond then Sentinel(values + {first}) else first
  }

  ghost function RowOf(leaves: set<Expr>, sel: Selection, second: set<string>): Selection {
    map t | t in TagsIn(leaves) :: Stand(Shared(leaves, t), At(sel, t), t in second && t in Ends(Comparisons(leaves)))
  }

  lemma RowFits(leaves: set<Expr>, sel: Selection, second: set<string>)
    ensures Fits(RowOf(leaves, sel, second), ColumnsOf(leaves))
  {
  }

  lemma StandTells(values: set<string>, u: string, v: string, s: bool, t: bool)
    requires u in values || v in values || ((u == v) == (s == t))
    ensures (Stand(values, u, s) == Stand(values, v, t)) == (u == v)
    ensures forall w | w in values :: (Stand(values, u, s) == w) == (u == w)
  {
  }

  lemma SharedAlong(leaves: set<Expr>, a: string, b: string)
    requires Linked(Comparisons(leaves), a, b)
    ensures Shared(leaves, a) == Shared(leaves, b)
  {
    var es := Comparisons(leaves);
    LinkedSym(es, a, b);
    forall v | v in Shared(leaves, a) ensures v in Shared(leaves, b) {
      var u := SharedIsReached(leaves, a, v);
      LinkedTrans(es, u, a, b);
      ReachedIsShared(leaves, u, b, v);
    }
    forall v | v in Shared(leaves, b) ensures v in Shared(leaves, a) {
      var u := SharedIsReached(leaves, b, v);
      LinkedTrans(es, u, b, a);
      ReachedIsShared(leaves, u, a, v);
    }
  }

  /** Every comparison joins a facet to itself or follows one of the edges. */
  predicate ComparesWithin(leaves: set<Expr>, es: seq<Edge>) {
    forall e | e in Comparisons(leaves) :: e.0 == e.1 || Adjacent(EdgeSet(es), e.0, e.1)
  }

  lemma PredicateStands(leaves: set<Expr>, sel: Selection, second: set<string>, l: Expr)
    requires l in leaves && l.Predicate? && TagsIn(leaves) <= sel.Keys
    ensures LeafHolds(l, Bound(sel)) == LeafHolds(l, Bound(RowOf(leaves, sel, second)))
  {
    var t := l.tag;
    assert t in TagsIn(leaves) && l.literal in LiteralsOf(leaves, t);
    LinkedRefl(Comparisons(leaves), t);
    ReachedIsShared(leaves, t, t, l.literal);
    var s := t in second && t in Ends(Comparisons(leaves));
    StandTells(Shared(leaves, t), At(sel, t), At(sel, t), s, s);
  }

  lemma ComparisonStands(leaves: set<Expr>, sel: Selection, second: set<string>, es: seq<Edge>, l: Expr)
    requires l in leaves && l.FacetCompare? && TagsIn(leaves) <= sel.Keys && ComparesWithin(leaves, es)
    requires forall k | 0 <= k < |es| :: Tells(sel, second, es[k])
    ensures LeafHolds(l, Bound(sel)) == LeafHolds(l, Bound(RowOf(leaves, sel, second)))
  {
    var x, y, ds := l.lhs, l.rhs, Comparisons(leaves);
    assert (x, y) in ds;
    assert x in Ends(ds) && y in Ends(ds);
    assert x in TagsIn(leaves) && y in TagsIn(leaves);
    if x != y {
      LinkedEdge(ds, x, y);
      SharedAlong(leaves, x, y);
      assert Tells(sel, second, (x, y)) by {
        var k :| 0 <= k < |es| && (es[k] == (x, y) || es[k] == (y, x));
        assert Tells(sel, second, es[k]);
      }
      StandTells(Shared(leaves, x), At(sel, x), At(sel, y), x in second, y in second);
    }
  }

  /** Over a forest of comparisons each selection is matched by a row that no leaf can
      tell from it. */
  lemma EverySelectionHasARow(a: Expr, b: Expr, es: seq<Edge>, sel: Selection) returns (row: Selection)
    requires Forest(es) && ComparesWithin(BothLeaves(a, b), es) && TagsIn(BothLeaves(a, b)) <= sel.Keys
    ensures IsRow(a, b, row) && Eval(a, Bound(row)) == Eval(a, Bound(sel)) && Eval(b, Bound(row)) == Eval(b, Bound(sel))
  {
    var leaves := BothLeaves(a, b);
    var second := Colour(es, sel, |es|);
    row := RowOf(leaves, sel, second);
    RowFits(leaves, sel, second);
    forall l | l in leaves ensures LeafHolds(l, Bound(sel)) == LeafHolds(l, Bound(row)) {
      if l.Predicate? { PredicateStands(leaves, sel, second, l); }
      else if l.FacetCompare? { ComparisonStands(leaves, sel, second, es, l); }
    }
    LeavesDecide(a, Bound(row), Bound(sel));
    LeavesDecide(b, Bound(row), Bound(sel));
  }

  ghost predicate ExactAt(a: Expr, b: Expr) {
    TableImplies(a, b) <==> Implies(a, b)
  }

  lemma ForestIsExact(a: Expr, b: Expr, es: seq<Edge>)
    requires Forest(es) && ComparesWithin(BothLeaves(a, b), es)
    ensures ExactAt(a, b)
  {
    if TableImplies(a, b) {
      forall sel: Selection | TagsIn(BothLeaves(a, b)) <= sel.Keys ensures ImpliesAt(a, b, sel) {
        var row := EverySelectionHasARow(a, b, es, sel);
        assert ImpliesAt(a, b, row);
      }
    } else {
      RefusalIsRight(a, b);
    }
  }

  /** Without comparisons the engine is always exact. */
  lemma ComparisonFreeIsExact(a: Expr, b: Expr)
    requires ComparisonFree(a) && ComparisonFree(b)
    ensures ExactAt(a, b)
  {
    assert Comparisons(BothLeaves(a, b)) == {};
    ForestIsExact(a, b, []);
  }

  // ----- a cycle defeats two sentinels -----

  function CycleLeaf(p: seq<string>, k: nat): Expr
    requires k < |p|
  {
    var next := if k + 1 == |p| then p[0] else p[k + 1];
    FacetCompare(p[k], if k < 2 || k + 1 == |p| then NotEq else Eq, next)
  }

  /** Around a cycle: different, different, then equal up to a last difference. */
  function CycleLeaves(p: seq<string>): (ls: seq<Expr>)
    ensures |ls| == |p| && forall k | 0 <= k < |p| :: ls[k] == CycleLeaf(p, k)
  {
    seq(|p|, k requires 0 <= k < |p| => CycleLeaf(p, k))
  }

  function CycleCondition(p: seq<string>): Expr {
    AllOf(CycleLeaves(p))
  }

  lemma CycleConditionLeaves(p: seq<string>, l: Expr)
    ensures l in Leaves(CycleCondition(p)) <==> l in CycleLeaves(p)
  {
  }

  lemma CycleHolds(p: seq<string>, w: World)
    ensures Eval(CycleCondition(p), w) <==> forall k | 0 <= k < |p| :: LeafHolds(CycleLeaf(p, k), w)
  {
  }

  lemma {:induction false} EqualTail(p: seq<string>, sel: Selection, k: nat)
    requires 2 <= k < |p| && forall i | 0 <= i < |p| :: p[i] in sel
    requires forall i | 0 <= i < |p| - 1 :: LeafHolds(CycleLeaf(p, i), Bound(sel))
    ensures sel[p[k]] == sel[p[2]]
  {
    if k > 2 {
      EqualTail(p, sel, k - 1);
      assert LeafHolds(CycleLeaf(p, k - 1), Bound(sel));
    }
  }

  /** With two values the parity does not work out. */
  lemma TwoValuesFail(p: seq<string>, sel: Selection, u: string, v: string)
    requires |p| >= 3 && forall k | 0 <= k < |p| :: p[k] in sel && (sel[p[k]] == u || sel[p[k]] == v)
    ensures !Eval(CycleCondition(p), Bound(sel))
  {
    CycleHolds(p, Bound(sel));
    if forall i | 0 <= i < |p| - 1 :: LeafHolds(CycleLeaf(p, i), Bound(sel)) {
      assert LeafHolds(CycleLeaf(p, 0), Bound(sel)) && LeafHolds(CycleLeaf(p, 1), Bound(sel));
      EqualTail(p, sel, |p| - 1);
      assert !LeafHolds(CycleLeaf(p, |p| - 1), Bound(sel));
    }
  }

  /** With three values it does. */
  function ThreeValues(p: seq<string>): Selection
    requires |p| >= 3
  {
    map t | t in p :: if t == p[0] then "x" else if t == p[1] then "y" else "z"
  }

  lemma ThreeValuesHold(p: seq<string>)
    requires |p| >= 3 && Sorting.NoRepeats(p)
    ensures Eval(CycleCondition(p), Bound(ThreeValues(p)))
  {
    var sel := ThreeValues(p);
    CycleHolds(p, Bound(sel));
    forall k | 0 <= k < |p| ensures LeafHolds(CycleLeaf(p, k), Bound(sel)) {
      assert p[k] in p && p[0] in p && (k + 1 < |p| ==> p[k + 1] in p);
    }
  }

  lemma CycleColumns(p: seq<string>, leaves: set<Expr>, row: Selection)
    requires |p| >= 3 && (forall l :: l in leaves <==> l in CycleLeaves(p)) && Fits(row, ColumnsOf(leaves))
    ensures forall k | 0 <= k < |p| ::
              p[k] in row && (row[p[k]] == Sentinel({}) || row[p[k]] == Sentinel({Sentinel({})}))
  {
    forall k | 0 <= k < |p|
      ensures p[k] in row && (row[p[k]] == Sentinel({}) || row[p[k]] == Sentinel({Sentinel({})}))
    {
      var l := CycleLeaf(p, k);
      assert l == CycleLeaves(p)[k];
      assert (l.lhs, l.rhs) in Comparisons(leaves);
      assert p[k] in Ends(Comparisons(leaves)) && p[k] in TagsIn(leaves);
      assert forall m | m in leaves :: !m.Predicate?;
      assert Shared(leaves, p[k]) == {};
      assert {} + {Sentinel({})} == {Sentinel({})};
    }
  }

  /** Every cycle gives a condition the engine takes for unsatisfiable and is not. */
  lemma CycleCompares(es: seq<Edge>, p: seq<string>, leaves: set<Expr>)
    requires Cycle(EdgeSet(es), p) && forall l :: l in leaves <==> l in CycleLeaves(p)
    ensures ComparesWithin(leaves, es)
  {
    forall e | e in Comparisons(leaves) ensures Adjacent(EdgeSet(es), e.0, e.1) {
      var l :| l in leaves && l.FacetCompare? && e == (l.lhs, l.rhs);
      var k :| 0 <= k < |p| && l == CycleLeaf(p, k);
      if k + 1 < |p| { assert Adjacent(EdgeSet(es), p[k], p[k + 1]); }
    }
  }

  lemma CycleIsWrong(es: seq<Edge>, p: seq<string>)
    requires Cycle(EdgeSet(es), p)
    ensures var a, b := CycleCondition(p), Bool(false);
            ComparesWithin(BothLeaves(a, b), es) && TableImplies(a, b) && !Implies(a, b)
  {
    var a, b := CycleCondition(p), Bool(false);
    var leaves := BothLeaves(a, b);
    forall l ensures l in leaves <==> l in CycleLeaves(p) { CycleConditionLeaves(p, l); }
    CycleCompares(es, p, leaves);
    forall row | IsRow(a, b, row) ensures ImpliesAt(a, b, row) {
      CycleColumns(p, leaves, row);
      TwoValuesFail(p, row, Sentinel({}), Sentinel({Sentinel({})}));
    }
    ThreeValuesHold(p);
    var sel := ThreeValues(p);
    forall t | t in TagsIn(leaves) ensures t in sel {
      CycleTags(p, leaves, t);
    }
    assert !ImpliesAt(a, b, sel);
  }

  lemma CycleTags(p: seq<string>, leaves: set<Expr>, t: string)
    requires |p| >= 3 && (forall l :: l in leaves <==> l in CycleLeaves(p)) && t in TagsIn(leaves)
    ensures t in p
  {
  }

  /** The engine is right about every pair of conditions whose comparisons follow the
      given edges exactly when those edges form a forest. */
  lemma ExactIffForest(es: seq<Edge>)
    requires SimpleEdges(es)
    ensures (forall a, b | ComparesWithin(BothLeaves(a, b), es) :: ExactAt(a, b)) <==> Forest(es)
  {
    if Forest(es) {
      forall a, b | ComparesWithin(BothLeaves(a, b), es) ensures ExactAt(a, b) {
        ForestIsExact(a, b, es);
      }
    } else {
      var p := NotForestHasCycle(es);
      CycleIsWrong(es, p);
      assert !ExactAt(CycleCondition(p), Bool(false));
    }
  }
}
