/** What the solver offers when facets are open (compiler/src/compiler_core.rs). */
module OpenOptions {
  import opened Conditions
  import opened ConditionText
  import opened FacetComparison
  import opened FacetRules
  import opened SynthesizedText
  import opened ConstraintModel
  import opened SelectionEval
  import opened Agreement
  import ConditionRoundTrip
  import Implication

  // ----- the selection an assignment spells -----

  /** A value no facet declares. */
  function Fresh(facets: Facets): (v: string)
    ensures forall s | s in DeclaredSymbols(DomainsOf(facets)) :: s.1 != v
  {
    var values := set s | s in DeclaredSymbols(DomainsOf(facets)) :: s.1;
    assert forall s | s in DeclaredSymbols(DomainsOf(facets)) :: s.1 in values;
    Implication.Sentinel(values)
  }

  /** On the declared symbols the assignment is the indicator of the legal selection. */
  predicate Spells(on: set<Symbol>, facets: Facets, sel: Selection) {
    Legal(sel, facets) && forall s | s in DeclaredSymbols(DomainsOf(facets)) :: s in on <==> s in Indicator(sel)
  }

  /** Facets without a declared value share one that none declares. */
  predicate OneFresh(facets: Facets, sel: Selection) {
    sel.Keys == facets.Keys && forall f | f in facets :: sel[f] in facets[f].values || sel[f] == Fresh(facets)
  }

  predicate HasValue(f: string, facet: Facet, on: set<Symbol>) {
    exists u :: u in facet.values && (f, u) in on
  }

  lemma SpelledSelection(on: set<Symbol>, facets: Facets) returns (sel: Selection)
    requires OneHot(facets, on)
    ensures Spells(on, facets, sel) && OneFresh(facets, sel)
  {
    sel := map f | f in facets :: if HasValue(f, facets[f], on) then ChosenValue(f, facets[f], on) else Fresh(facets);
    forall s | s in DeclaredSymbols(DomainsOf(facets)) ensures s in on <==> s in Indicator(sel) {
      var f, v := s.0, s.1;
      assert CardinalityHolds(f, facets[f], on);
      assert s in Indicator(sel) <==> sel[f] == v by { InIndicator(sel, f, v); }
    }
    forall f | f in facets ensures facets[f].open || sel[f] in facets[f].values {
      assert CardinalityHolds(f, facets[f], on);
    }
  }

  lemma InIndicator(sel: Selection, f: string, v: string)
    requires f in sel
    ensures (f, v) in Indicator(sel) <==> sel[f] == v
  {
  }

  // ----- constraints that test declared values -----

  /** The undeclared symbols an expression tests are among the given ones. */
  predicate TestsWithin(e: Expr, facets: Facets, strays: set<Symbol>) {
    forall l | l in Leaves(e) && l.Predicate? ::
      (l.tag, l.literal) in DeclaredSymbols(DomainsOf(facets)) || (l.tag, l.literal) in strays
  }

  predicate AllTestWithin(constraints: seq<(string, string)>, facets: Facets, strays: set<Symbol>) {
    forall c | c in constraints && ParseCondition(c.1).Got? :: TestsWithin(ParseCondition(c.1).value, facets, strays)
  }

  lemma FreshComparesRight(l: string, r: string, facets: Facets, on: set<Symbol>, sel: Selection)
    requires l in facets && r in facets && Spells(on, facets, sel) && OneFresh(facets, sel)
    ensures PairwiseSame(l, r, facets[l].values, facets[r].values, on) <==> sel[l] == sel[r]
  {
    SameOverDeclared(l, r, facets, on, sel);
    ExpandedEqualityUnderSelection(l, r, facets[l].values, facets[r].values, sel);
    FreshIsUndeclared(l, facets);
    FreshIsUndeclared(r, facets);
  }

  lemma FreshIsUndeclared(f: string, facets: Facets)
    requires f in facets
    ensures Fresh(facets) !in facets[f].values
  {
    assert Fresh(facets) in facets[f].values ==> (f, Fresh(facets)) in DeclaredSymbols(DomainsOf(facets));
  }

  lemma DeclaredLeafMeans(l: Expr, facets: Facets, on: set<Symbol>, sel: Selection)
    requires LeafViolation(l, facets) == Satisfied && Spells(on, facets, sel) && OneFresh(facets, sel)
    requires l.Predicate? ==> (l.tag, l.literal) in DeclaredSymbols(DomainsOf(facets))
    ensures LeafHolds(l, Declared(DomainsOf(facets), on)) == LeafHolds(l, Bound(sel))
  {
    if l.Predicate? {
      InIndicator(sel, l.tag, l.literal);
    } else if l.FacetCompare? {
      FreshComparesRight(l.lhs, l.rhs, facets, on, sel);
    }
  }

  lemma DeclaredTestsMean(e: Expr, facets: Facets, on: set<Symbol>, sel: Selection)
    requires OperandsOk(e, facets) && TestsWithin(e, facets, {}) && Spells(on, facets, sel) && OneFresh(facets, sel)
    ensures Eval(e, Declared(DomainsOf(facets), on)) == NotContradicted(e, sel)
  {
    var d := DomainsOf(facets);
    OperandsBound(e, facets);
    forall l | l in Leaves(e) ensures LeafHolds(l, Declared(d, on)) == LeafHolds(l, Bound(sel)) {
      assert LeafViolation(l, facets) == Satisfied;
      DeclaredLeafMeans(l, facets, on, sel);
    }
    LeavesDecide(e, Declared(d, on), Bound(sel));
    TotalSelectionDecides(e, sel);
  }

  /** Open facets included: when the constraints test declared values only, whatever satisfies
      the root spells a legal selection that resolve accepts. */
  lemma SatisfyingSpells(selectors: seq<string>, constraints: seq<(string, string)>, facets: Facets, exprs: seq<Expr>,
                         on: set<Symbol>) returns (sel: Selection)
    requires Usable(facets) && ConstraintsOk(constraints, facets) && AllTestWithin(constraints, facets, {})
    requires IsRoot(exprs, ModelOf(selectors, constraints, facets)) && AllHold(exprs, Symbols(on))
    ensures Spells(on, facets, sel) && Resolves(sel, constraints)
  {
    RootMeans(selectors, constraints, facets, exprs, on);
    sel := SpelledSelection(on, facets);
    forall c | c in constraints ensures ParseCondition(c.1).Got? && NotContradicted(ParseCondition(c.1).value, sel) {
      assert PolicyTextHolds(c.1, facets, on) && TestsWithin(ParseCondition(c.1).value, facets, {});
      DeclaredTestsMean(ParseCondition(c.1).value, facets, on, sel);
    }
  }

  lemma OfferedIsTakable(selectors: seq<string>, constraints: seq<(string, string)>, facets: Facets,
                         exprs: seq<Expr>, s: Symbol)
    requires Usable(facets) && ConstraintsOk(constraints, facets) && AllTestWithin(constraints, facets, {})
    requires IsRoot(exprs, ModelOf(selectors, constraints, facets)) && s in DeclaredSymbols(DomainsOf(facets))
    requires Offered(s, exprs)
    ensures Takable(s, facets, constraints)
  {
    var on :| AllHold(exprs, Symbols(on)) && s in on;
    var sel := SatisfyingSpells(selectors, constraints, facets, exprs, on);
    assert s in Indicator(sel);
  }

  /** With open facets option validity is exact for constraints that test declared values and
      compare facets safely. */
  lemma OpenOptionValidity(selectors: seq<string>, constraints: seq<(string, string)>, facets: Facets,
                           exprs: seq<Expr>, s: Symbol)
    requires Usable(facets) && ConstraintsOk(constraints, facets) && AllTestWithin(constraints, facets, {})
    requires IsRoot(exprs, ModelOf(selectors, constraints, facets)) && s in DeclaredSymbols(DomainsOf(facets))
    requires forall c | c in constraints :: ComparesSafely(ParseCondition(c.1).value, facets)
    ensures Offered(s, exprs) <==> Takable(s, facets, constraints)
  {
    if Offered(s, exprs) { OfferedIsTakable(selectors, constraints, facets, exprs, s); }
    if Takable(s, facets, constraints) {
      var sel :| Legal(sel, facets) && Resolves(sel, constraints) && s in Indicator(sel);
      LegalSelectionsAgree(selectors, constraints, facets, exprs, sel);
    }
  }

  // ----- a constraint that tests an undeclared value -----

  /** A value an open facet does not declare, and a text can spell. */
  predicate Stray(s: Symbol, facets: Facets) {
    s.0 in facets && facets[s.0].open && s.1 !in facets[s.0].values && QuoteFor(s.1) !in s.1
  }

  lemma StrayPolicyReads(facets: Facets, s: Symbol)
    requires Usable(facets) && Stray(s, facets)
    ensures ParseCondition(Spell(s.0, Eq, s.1)) == Got(Predicate(s.0, Eq, s.1), [])
    ensures ConstraintsOk(EqualityPolicy(s.0, s.1), facets)
  {
    ConditionRoundTrip.SpelledAlone(s.0, Eq, s.1);
    var e := Predicate(s.0, Eq, s.1);
    assert Leaves(e) == {e};
  }

  lemma StrayIsFree(facets: Facets, s: Symbol, sel: Selection)
    requires Usable(facets) && Stray(s, facets) && Legal(sel, facets)
    ensures OneHot(facets, Indicator(sel) + {s}) && PolicyHolds(EqualityPolicy(s.0, s.1), facets, Indicator(sel) + {s})
  {
    var on := Indicator(sel) + {s};
    IndicatorIsOneHot(facets, sel);
    forall f | f in facets ensures CardinalityHolds(f, facets[f], on) {
      assert CardinalityHolds(f, facets[f], Indicator(sel));
      assert forall v | v in facets[f].values :: (f, v) in on <==> (f, v) in Indicator(sel);
    }
    StrayPolicyReads(facets, s);
  }

  /** Under the policy that an open facet take a value it does not declare, the solver offers
      every declared value of that facet, and no selection can take one. */
  lemma StrayIsOffered(selectors: seq<string>, facets: Facets, exprs: seq<Expr>, s: Symbol, v: string)
    requires Usable(facets) && Stray(s, facets) && v in facets[s.0].values
    requires IsRoot(exprs, ModelOf(selectors, EqualityPolicy(s.0, s.1), facets))
    ensures Offered((s.0, v), exprs) && !Takable((s.0, v), facets, EqualityPolicy(s.0, s.1))
  {
    var sel := LegalTaking(facets, s.0, v);
    OfferedWithStray(selectors, facets, exprs, s, sel);
    NoneTakes(facets, s, v);
  }

  lemma LegalTaking(facets: Facets, f: string, v: string) returns (sel: Selection)
    requires Usable(facets) && f in facets && v in facets[f].values
    ensures Legal(sel, facets) && (f, v) in Indicator(sel)
  {
    var base := SomeLegal(facets);
    sel := base[f := v];
    InIndicator(sel, f, v);
  }

  lemma OfferedWithStray(selectors: seq<string>, facets: Facets, exprs: seq<Expr>, s: Symbol, sel: Selection)
    requires Usable(facets) && Stray(s, facets) && Legal(sel, facets)
    requires IsRoot(exprs, ModelOf(selectors, EqualityPolicy(s.0, s.1), facets))
    ensures forall t | t in Indicator(sel) :: Offered(t, exprs)
  {
    var on := Indicator(sel) + {s};
    StrayIsFree(facets, s, sel);
    RootMeans(selectors, EqualityPolicy(s.0, s.1), facets, exprs, on);
    assert forall t | t in Indicator(sel) :: t in on;
  }

  lemma NoneTakes(facets: Facets, s: Symbol, v: string)
    requires Usable(facets) && Stray(s, facets) && v in facets[s.0].values
    ensures !Takable((s.0, v), facets, EqualityPolicy(s.0, s.1))
  {
    StrayPolicyReads(facets, s);
    assert EqualityPolicy(s.0, s.1)[0] in EqualityPolicy(s.0, s.1);
    forall sel | Legal(sel, facets) && Resolves(sel, EqualityPolicy(s.0, s.1)) ensures (s.0, v) !in Indicator(sel) {
      InIndicator(sel, s.0, v);
    }
  }

  // ----- exactly when what is offered can be taken -----

  ghost predicate OffersTakable(facets: Facets, strays: set<Symbol>) {
    forall selectors, constraints, exprs |
      && ConstraintsOk(constraints, facets) && AllTestWithin(constraints, facets, strays)
      && IsRoot(exprs, ModelOf(selectors, constraints, facets)) ::
      AllTakable(facets, constraints, exprs)
  }

  ghost predicate AllTakable(facets: Facets, constraints: seq<(string, string)>, exprs: seq<Expr>) {
    forall s | s in DeclaredSymbols(DomainsOf(facets)) && Offered(s, exprs) :: Takable(s, facets, constraints)
  }

  lemma StrayBreaks(facets: Facets, strays: set<Symbol>, s: Symbol)
    requires Usable(facets) && s in strays && Stray(s, facets)
    ensures !OffersTakable(facets, strays)
  {
    var constraints, v := EqualityPolicy(s.0, s.1), facets[s.0].values[0];
    StrayPolicyReads(facets, s);
    assert Leaves(Predicate(s.0, Eq, s.1)) == {Predicate(s.0, Eq, s.1)};
    assert AllTestWithin(constraints, facets, strays);
    OkIsReadable(constraints, facets);
    var exprs := RootExists([], constraints, facets);
    StrayIsOffered([], facets, exprs, s, v);
    assert (s.0, v) in DeclaredSymbols(DomainsOf(facets));
    assert !AllTakable(facets, constraints, exprs);
  }

  /** Whatever the constraints, as long as the undeclared values they test come from the given
      set, every declared option the solver offers can be taken, exactly when the set is empty. */
  lemma OffersTakableIff(facets: Facets, strays: set<Symbol>)
    requires Usable(facets) && forall s | s in strays :: Stray(s, facets)
    ensures OffersTakable(facets, strays) <==> strays == {}
  {
    if strays == {} {
      forall selectors, constraints, exprs, s |
        && ConstraintsOk(constraints, facets) && AllTestWithin(constraints, facets, strays)
        && IsRoot(exprs, ModelOf(selectors, constraints, facets))
        && s in DeclaredSymbols(DomainsOf(facets)) && Offered(s, exprs)
        ensures Takable(s, facets, constraints)
      {
        OfferedIsTakable(selectors, constraints, facets, exprs, s);
      }
    } else {
      var s :| s in strays;
      StrayBreaks(facets, strays, s);
    }
  }
}
