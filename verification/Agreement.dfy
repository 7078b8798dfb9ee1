/** The solver and a concrete resolve agree: what satisfies the compiled root is
    exactly what `resolve` accepts. */
module Agreement {
  import opened Conditions
  import opened ConditionText
  import opened ConditionRoundTrip
  import opened FacetComparison
  import opened FacetRules
  import opened ClauseSynthesis
  import opened SynthesizedText
  import opened ConstraintModel
  import opened SelectionEval
  import Bdd
  import BddFile
  import Emitter
  import FileReader
  import Identifiers
  import Sorting

  predicate AllClosed(facets: Facets) {
    forall f | f in facets :: !facets[f].open
  }

  /** The concrete side: no constraint is contradicted by the bound values. */
  predicate Resolves(sel: Selection, constraints: seq<(string, string)>) {
    forall c | c in constraints :: ParseCondition(c.1).Got? && NotContradicted(ParseCondition(c.1).value, sel)
  }

  /** The symbolic side picks out one selection. */
  predicate Picks(on: set<Symbol>, facets: Facets, sel: Selection) {
    Legal(sel, facets) && on * DeclaredSymbols(DomainsOf(facets)) == Indicator(sel)
  }

  /** On the declared symbols, the indicator of a total legal selection that resolves. */
  ghost predicate PicksAccepted(on: set<Symbol>, facets: Facets, constraints: seq<(string, string)>) {
    exists sel :: Picks(on, facets, sel) && Resolves(sel, constraints)
  }

  predicate ComparesSafely(e: Expr, facets: Facets) {
    forall l | l in Leaves(e) && l.FacetCompare? :: l.lhs in facets && l.rhs in facets && Safe(l.lhs, l.rhs, facets)
  }

  // ----- one constraint -----

  lemma OperandsBound(e: Expr, facets: Facets)
    requires OperandsOk(e, facets)
    ensures TagsOf(e) <= facets.Keys
  {
  }

  /** Reading `on` as the selection: the symbols that matter agree. */
  predicate SymbolsAgree(e: Expr, facets: Facets, on: set<Symbol>, sel: Selection) {
    && (forall s | s in SymbolsOf(e) :: s in on <==> s in Indicator(sel))
    && (forall s | s in DeclaredSymbols(DomainsOf(facets)) :: s in on <==> s in Indicator(sel))
  }

  lemma ConstraintUnderSelection(e: Expr, facets: Facets, on: set<Symbol>, sel: Selection)
    requires OperandsOk(e, facets) && Legal(sel, facets) && SymbolsAgree(e, facets, on, sel) &&
             ComparesSafely(e, facets)
    ensures Eval(e, Declared(DomainsOf(facets), on)) == Eval(e, Bound(sel)) == NotContradicted(e, sel)
  {
    var d := DomainsOf(facets);
    OperandsBound(e, facets);
    forall l | l in Leaves(e) ensures LeafHolds(l, Declared(d, on)) == LeafHolds(l, Bound(sel)) {
      assert LeafViolation(l, facets) == Satisfied;
      if l.Predicate? {
        assert (l.tag, l.literal) in SymbolsOf(e);
        assert (l.tag, l.literal) in Indicator(sel) <==> sel[l.tag] == l.literal;
      } else if l.FacetCompare? {
        SameOverDeclared(l.lhs, l.rhs, facets, on, sel);
        SafeIsRight(l.lhs, l.rhs, facets, sel);
      }
    }
    LeavesDecide(e, Declared(d, on), Bound(sel));
    TotalSelectionDecides(e, sel);
  }

  lemma SameOverDeclared(l: string, r: string, facets: Facets, on: set<Symbol>, sel: Selection)
    requires l in facets && r in facets
    requires forall s | s in DeclaredSymbols(DomainsOf(facets)) :: s in on <==> s in Indicator(sel)
    ensures PairwiseSame(l, r, facets[l].values, facets[r].values, on) ==
            PairwiseSame(l, r, facets[l].values, facets[r].values, Indicator(sel))
  {
  }

  // ----- closed facets: exact agreement -----

  /** One-hot symbols of closed facets are the indicator of a selection. */
  lemma {:induction false} SelectionFrom(on: set<Symbol>, facets: Facets) returns (sel: Selection)
    requires AllClosed(facets) && OneHot(facets, on)
    ensures Picks(on, facets, sel)
  {
    sel := map f | f in facets :: ChosenValue(f, facets[f], on);
    var declared := DeclaredSymbols(DomainsOf(facets));
    forall s ensures s in on * declared <==> s in Indicator(sel) {
      if s.0 in facets { assert CardinalityHolds(s.0, facets[s.0], on); }
      if s in Indicator(sel) { assert s.0 in facets && s.1 == sel[s.0]; }
    }
  }

  ghost function ChosenValue(f: string, facet: Facet, on: set<Symbol>): (v: string)
    ensures (exists u :: u in facet.values && (f, u) in on) ==> v in facet.values && (f, v) in on
  {
    if exists u :: u in facet.values && (f, u) in on then
      var u :| u in facet.values && (f, u) in on; u
    else ""
  }

  lemma PickedIsOneHot(on: set<Symbol>, facets: Facets, sel: Selection)
    requires AllClosed(facets) && Picks(on, facets, sel)
    ensures OneHot(facets, on)
  {
    var declared := DeclaredSymbols(DomainsOf(facets));
    forall f | f in facets ensures CardinalityHolds(f, facets[f], on) {
      assert (f, sel[f]) in Indicator(sel);
      forall v | v in facets[f].values && (f, v) in on ensures v == sel[f] {
        assert (f, v) in on * declared;
        assert (f, v) in Indicator(sel);
      }
    }
  }

  lemma PickedUnique(on: set<Symbol>, facets: Facets, sel: Selection, sel': Selection)
    requires Picks(on, facets, sel) && Picks(on, facets, sel')
    ensures sel == sel'
  {
    forall f | f in facets ensures sel[f] == sel'[f] {
      assert (f, sel[f]) in Indicator(sel');
    }
  }

  lemma ClosedSymbolsAgree(e: Expr, facets: Facets, on: set<Symbol>, sel: Selection)
    requires AllClosed(facets) && OperandsOk(e, facets) && Picks(on, facets, sel)
    ensures SymbolsAgree(e, facets, on, sel) && ComparesSafely(e, facets)
  {
  }

  lemma PickedPolicy(constraints: seq<(string, string)>, facets: Facets, on: set<Symbol>, sel: Selection)
    requires AllClosed(facets) && ConstraintsOk(constraints, facets) && Picks(on, facets, sel)
    ensures PolicyHolds(constraints, facets, on) <==> Resolves(sel, constraints)
  {
    forall c | c in constraints
      ensures Eval(ParseCondition(c.1).value, Declared(DomainsOf(facets), on)) ==
              NotContradicted(ParseCondition(c.1).value, sel)
    {
      var e := ParseCondition(c.1).value;
      ClosedSymbolsAgree(e, facets, on, sel);
      ConstraintUnderSelection(e, facets, on, sel);
    }
  }

  /** Solver and resolve agree: for closed facets, symbols satisfy the compiled root
      exactly when they are, on the declared symbols, the indicator of one total legal
      selection that a concrete resolve accepts. */
  lemma SolverAgreesWithResolve(selectors: seq<string>, constraints: seq<(string, string)>, facets: Facets,
                                exprs: seq<Expr>, on: set<Symbol>)
    requires Usable(facets) && AllClosed(facets) && ConstraintsOk(constraints, facets)
    requires IsRoot(exprs, ModelOf(selectors, constraints, facets))
    ensures AllHold(exprs, Symbols(on)) <==> PicksAccepted(on, facets, constraints)
  {
    RootMeans(selectors, constraints, facets, exprs, on);
    if OneHot(facets, on) && PolicyHolds(constraints, facets, on) {
      var sel := SelectionFrom(on, facets);
      PickedPolicy(constraints, facets, on, sel);
    }
    forall sel | Picks(on, facets, sel) && Resolves(sel, constraints)
      ensures OneHot(facets, on) && PolicyHolds(constraints, facets, on)
    {
      PickedIsOneHot(on, facets, sel);
      PickedPolicy(constraints, facets, on, sel);
    }
  }

  lemma IndicatorPicks(facets: Facets, sel: Selection)
    requires AllClosed(facets) && Legal(sel, facets)
    ensures Picks(Indicator(sel), facets, sel)
  {
  }

  /** An option the solver offers: the root together with its symbol is satisfiable. */
  ghost predicate Offered(s: Symbol, exprs: seq<Expr>) {
    exists on :: AllHold(exprs, Symbols(on)) && s in on
  }

  /** An option some accepted selection takes. */
  ghost predicate Takable(s: Symbol, facets: Facets, constraints: seq<(string, string)>) {
    exists sel :: Legal(sel, facets) && Resolves(sel, constraints) && s in Indicator(sel)
  }

  /** Option validity is exact. */
  lemma OptionValidityExact(selectors: seq<string>, constraints: seq<(string, string)>, facets: Facets,
                            exprs: seq<Expr>, s: Symbol)
    requires Usable(facets) && AllClosed(facets) && ConstraintsOk(constraints, facets)
    requires IsRoot(exprs, ModelOf(selectors, constraints, facets)) && s in DeclaredSymbols(DomainsOf(facets))
    ensures Offered(s, exprs) <==> Takable(s, facets, constraints)
  {
    if Offered(s, exprs) {
      var on :| AllHold(exprs, Symbols(on)) && s in on;
      SolverAgreesWithResolve(selectors, constraints, facets, exprs, on);
      var sel :| Picks(on, facets, sel) && Resolves(sel, constraints);
      assert s in Indicator(sel);
    }
    if Takable(s, facets, constraints) {
      var sel :| Legal(sel, facets) && Resolves(sel, constraints) && s in Indicator(sel);
      IndicatorPicks(facets, sel);
      SolverAgreesWithResolve(selectors, constraints, facets, exprs, Indicator(sel));
    }
  }

  // ----- without the cardinality conjuncts -----

  /** The one policy `f == 'v'`. */
  function EqualityPolicy(f: string, v: string): seq<(string, string)> {
    [("policy", Spell(f, Eq, v))]
  }

  lemma PolicyText(f: string, v: string, d: Domains, on: set<Symbol>)
    requires IsTag(f) && '\'' !in v && (f, v) in on
    ensures forall t | t in ConditionTexts(EqualityPolicy(f, v)) :: TextHolds(t, d, on)
  {
    OneReads(f, v);
    ComparisonFreeReads(Spell(f, Eq, v), Predicate(f, Eq, v), d);
    assert ConditionTexts(EqualityPolicy(f, v)) == [Spell(f, Eq, v)];
  }

  lemma OnlyTheValueResolves(f: string, v: string, facets: Facets, sel: Selection)
    requires IsTag(f) && '\'' !in v && f in facets && Legal(sel, facets) && Resolves(sel, EqualityPolicy(f, v))
    ensures sel[f] == v
  {
    OneReads(f, v);
    assert EqualityPolicy(f, v)[0] in EqualityPolicy(f, v);
  }

  /** Drop the cardinality channel and a positive equality no longer prunes: with the
      policy `f == 'v'` the root still offers every declared symbol, including another
      value of `f` that no accepted selection can take. */
  lemma WithoutCardinality(selectors: seq<string>, facets: Facets, exprs: seq<Expr>, f: string, v: string, s: Symbol)
    requires Usable(facets) && f in facets && v in facets[f].values
    requires IsRoot(exprs, ModelOf(selectors, EqualityPolicy(f, v), facets).(cardinality := []))
    ensures Offered(s, exprs)
    ensures s.0 == f && s.1 != v ==> !Takable(s, facets, EqualityPolicy(f, v))
  {
    StillOffered(selectors, facets, exprs, f, v, s);
    forall sel | Legal(sel, facets) && Resolves(sel, EqualityPolicy(f, v)) && s in Indicator(sel)
      ensures s.0 == f ==> s.1 == v
    {
      OnlyTheValueResolves(f, v, facets, sel);
    }
  }

  lemma StillOffered(selectors: seq<string>, facets: Facets, exprs: seq<Expr>, f: string, v: string, s: Symbol)
    requires Usable(facets) && f in facets && v in facets[f].values
    requires IsRoot(exprs, ModelOf(selectors, EqualityPolicy(f, v), facets).(cardinality := []))
    ensures Offered(s, exprs)
  {
    var m, on := ModelOf(selectors, EqualityPolicy(f, v), facets).(cardinality := []), {s, (f, v)};
    RootIsTexts(exprs, m, on);
    SelectorsAssertNothing(selectors, facets, on);
    PolicyText(f, v, m.domains, on);
    assert AllHold(exprs, Symbols(on));
  }

  // ----- open facets -----

  lemma IndicatorIsOneHot(facets: Facets, sel: Selection)
    requires Legal(sel, facets)
    ensures OneHot(facets, Indicator(sel))
  {
  }

  /** With open facets too, the root accepts the indicator of a legal selection exactly
      when resolve accepts the selection, provided every comparison is a safe one. */
  lemma LegalSelectionsAgree(selectors: seq<string>, constraints: seq<(string, string)>, facets: Facets,
                             exprs: seq<Expr>, sel: Selection)
    requires Usable(facets) && ConstraintsOk(constraints, facets) && Legal(sel, facets)
    requires IsRoot(exprs, ModelOf(selectors, constraints, facets))
    requires forall c | c in constraints :: ComparesSafely(ParseCondition(c.1).value, facets)
    ensures AllHold(exprs, Symbols(Indicator(sel))) <==> Resolves(sel, constraints)
  {
    var on := Indicator(sel);
    RootMeans(selectors, constraints, facets, exprs, on);
    IndicatorIsOneHot(facets, sel);
    forall c | c in constraints
      ensures Eval(ParseCondition(c.1).value, Declared(DomainsOf(facets), on)) ==
              NotContradicted(ParseCondition(c.1).value, sel)
    {
      ConstraintUnderSelection(ParseCondition(c.1).value, facets, on, sel);
    }
  }

  function CompareText(l: string, op: Op, r: string): string {
    Print(FacetCompare(l, op, r), OrStrength)
  }

  /** The one policy `l == r` or `l != r`. */
  function Comparing(l: string, op: Op, r: string): seq<(string, string)> {
    [("policy", CompareText(l, op, r))]
  }

  lemma CompareTextReads(l: string, op: Op, r: string, facets: Facets)
    requires Usable(facets) && l in facets && r in facets
    ensures ParseCondition(CompareText(l, op, r)) == Got(FacetCompare(l, op, r), [])
    ensures ConstraintsOk(Comparing(l, op, r), facets)
  {
    var e := FacetCompare(l, op, r);
    SerializeThenParse(e);
    assert Leaves(e) == {e};
  }

  lemma ComparisonResolves(l: string, op: Op, r: string, facets: Facets, sel: Selection)
    requires Usable(facets) && l in facets && r in facets && Legal(sel, facets)
    ensures Resolves(sel, Comparing(l, op, r)) == Under(op, sel[l] == sel[r])
  {
    CompareTextReads(l, op, r, facets);
    assert Comparing(l, op, r)[0] in Comparing(l, op, r);
  }

  lemma ComparisonPolicy(l: string, op: Op, r: string, facets: Facets, on: set<Symbol>)
    requires Usable(facets) && l in facets && r in facets
    ensures PolicyHolds(Comparing(l, op, r), facets, on) ==
            Under(op, PairwiseSame(l, r, facets[l].values, facets[r].values, on))
  {
    CompareTextReads(l, op, r, facets);
    assert Comparing(l, op, r)[0] in Comparing(l, op, r);
  }

  /** For the one policy `l == r`, or `l != r`, the root and resolve agree on a legal selection
      exactly when the expansion gets that selection right. */
  lemma ComparisonPolicyAgrees(selectors: seq<string>, facets: Facets, exprs: seq<Expr>, l: string, op: Op, r: string,
                               sel: Selection)
    requires Usable(facets) && l in facets && r in facets && Legal(sel, facets)
    requires IsRoot(exprs, ModelOf(selectors, Comparing(l, op, r), facets))
    ensures (AllHold(exprs, Symbols(Indicator(sel))) == Resolves(sel, Comparing(l, op, r))) <==>
            ComparedRight(l, r, facets, sel)
  {
    RootMeans(selectors, Comparing(l, op, r), facets, exprs, Indicator(sel));
    IndicatorIsOneHot(facets, sel);
    ComparisonResolves(l, op, r, facets, sel);
    ComparisonPolicy(l, op, r, facets, Indicator(sel));
  }

  ghost predicate AgreesEverywhere(facets: Facets, exprs: seq<Expr>, constraints: seq<(string, string)>) {
    forall sel | Legal(sel, facets) :: AllHold(exprs, Symbols(Indicator(sel))) == Resolves(sel, constraints)
  }

  lemma SomeLegal(facets: Facets) returns (sel: Selection)
    requires Usable(facets)
    ensures Legal(sel, facets)
  {
    sel := map f | f in facets :: facets[f].values[0];
  }

  /** With an open facet the promised agreement can fail. For a comparison policy it
      holds on every legal selection exactly when the comparison is safe. */
  lemma ComparisonPolicyExactIff(selectors: seq<string>, facets: Facets, exprs: seq<Expr>, l: string, op: Op, r: string)
    requires Usable(facets) && l in facets && r in facets
    requires IsRoot(exprs, ModelOf(selectors, Comparing(l, op, r), facets))
    ensures AgreesEverywhere(facets, exprs, Comparing(l, op, r)) <==> Safe(l, r, facets)
  {
    forall sel | Legal(sel, facets)
      ensures (AllHold(exprs, Symbols(Indicator(sel))) == Resolves(sel, Comparing(l, op, r))) <==>
              ComparedRight(l, r, facets, sel)
    {
      ComparisonPolicyAgrees(selectors, facets, exprs, l, op, r, sel);
    }
    var base := SomeLegal(facets);
    ComparisonAgreesIff(l, r, facets, base);
    if !Safe(l, r, facets) {
      var sel := UnsafeIsWrong(l, r, facets, base);
    }
  }

  /** Every comparison in the constraints is one of the given pairs. */
  predicate ComparesAmong(constraints: seq<(string, string)>, pairs: set<(string, string)>) {
    forall c | c in constraints :: ParseCondition(c.1).Got? ==> AmongPairs(ParseCondition(c.1).value, pairs)
  }

  predicate AmongPairs(e: Expr, pairs: set<(string, string)>) {
    forall l | l in Leaves(e) && l.FacetCompare? :: (l.lhs, l.rhs) in pairs
  }

  ghost predicate AllAgree(facets: Facets, pairs: set<(string, string)>) {
    forall selectors, constraints, exprs |
      ConstraintsOk(constraints, facets) && ComparesAmong(constraints, pairs) &&
          IsRoot(exprs, ModelOf(selectors, constraints, facets)) ::
      AgreesEverywhere(facets, exprs, constraints)
  }

  lemma RootExists(selectors: seq<string>, constraints: seq<(string, string)>, facets: Facets)
      returns (exprs: seq<Expr>)
    requires Usable(facets) && ConstraintsReadable(constraints, facets)
    ensures IsRoot(exprs, ModelOf(selectors, constraints, facets))
  {
    var m := ModelOf(selectors, constraints, facets);
    UsableModelReadableIff(selectors, constraints, facets);
    forall i | 0 <= i < |Texts(m)| ensures Readable(Texts(m)[i], m.domains) { assert Texts(m)[i] in Texts(m); }
    exprs := seq(|Texts(m)|, i requires 0 <= i < |Texts(m)| => Read(Texts(m)[i], m.domains));
  }

  lemma UnsafeDisagrees(facets: Facets, pairs: set<(string, string)>, p: (string, string))
    requires Usable(facets) && p in pairs && p.0 in facets && p.1 in facets && !Safe(p.0, p.1, facets)
    ensures !AllAgree(facets, pairs)
  {
    var constraints := Comparing(p.0, Eq, p.1);
    CompareTextReads(p.0, Eq, p.1, facets);
    assert Leaves(FacetCompare(p.0, Eq, p.1)) == {FacetCompare(p.0, Eq, p.1)};
    assert ComparesAmong(constraints, pairs);
    OkIsReadable(constraints, facets);
    var exprs := RootExists([], constraints, facets);
    ComparisonPolicyExactIff([], facets, exprs, p.0, Eq, p.1);
  }

  /** Whatever the constraints, as long as their comparisons come from the given pairs, root and
      resolve agree on every legal selection, exactly when every pair is safe. */
  lemma AgreementExactIff(facets: Facets, pairs: set<(string, string)>)
    requires Usable(facets) && forall p | p in pairs :: p.0 in facets && p.1 in facets
    ensures AllAgree(facets, pairs) <==> forall p | p in pairs :: Safe(p.0, p.1, facets)
  {
    if forall p | p in pairs :: Safe(p.0, p.1, facets) {
      forall selectors, constraints, exprs, sel |
        ConstraintsOk(constraints, facets) && ComparesAmong(constraints, pairs) &&
            IsRoot(exprs, ModelOf(selectors, constraints, facets)) &&
        Legal(sel, facets)
        ensures AllHold(exprs, Symbols(Indicator(sel))) == Resolves(sel, constraints)
      {
        SafeAmong(constraints, pairs, facets);
        LegalSelectionsAgree(selectors, constraints, facets, exprs, sel);
      }
    } else {
      var p :| p in pairs && !Safe(p.0, p.1, facets);
      UnsafeDisagrees(facets, pairs, p);
    }
  }

  lemma SafeAmong(constraints: seq<(string, string)>, pairs: set<(string, string)>, facets: Facets)
    requires ConstraintsOk(constraints, facets) && ComparesAmong(constraints, pairs)
    requires forall p | p in pairs :: p.0 in facets && p.1 in facets && Safe(p.0, p.1, facets)
    ensures forall c | c in constraints :: ComparesSafely(ParseCondition(c.1).value, facets)
  {
    forall c | c in constraints ensures ComparesSafely(ParseCondition(c.1).value, facets) {
      assert AmongPairs(ParseCondition(c.1).value, pairs);
    }
  }

  // ----- down to the emitted table -----

  /** A variable order: the symbols of the root, each once, in any order. */
  ghost predicate IsOrder(order: seq<Symbol>, exprs: seq<Expr>) {
    && Sorting.NoRepeats(order)
    && forall s :: s in order <==> exists e :: e in exprs && s in SymbolsOf(e)
  }

  function SymbolsAt(order: seq<Symbol>, vars: set<nat>): set<Symbol> {
    set i | i in vars && i < |order| :: order[i]
  }

  /** Every conjunct of a root is free of comparisons and names identifiers only. */
  lemma RootNames(exprs: seq<Expr>, m: Model, facets: Facets, e: Expr)
    requires Usable(facets) && m.domains == DomainsOf(facets) && IsRoot(exprs, m) && e in exprs
    ensures ComparisonFree(e) && forall s | s in SymbolsOf(e) :: IsIdent(s.0)
  {
    var i :| 0 <= i < |exprs| && exprs[i] == e;
    var parsed := ParseCondition(Texts(m)[i]).value;
    ExpandIsFaithful(parsed, m.domains);
    SpellableLeaves(parsed);
    forall l | l in Leaves(e) ensures l.Predicate? && IsIdent(l.tag) {
      if l in Leaves(parsed) { assert Writable((l.tag, l.literal)); }
    }
  }

  predicate Dotless(order: seq<Symbol>) {
    forall s | s in order :: '.' !in s.0
  }

  /** The condition grammar's identifiers hold no dot, so no two symbols share a
      variable name: a symbol's variable is its position in the order. */
  lemma IndexIsPosition(order: seq<Symbol>, i: nat)
    requires Dotless(order) && Sorting.NoRepeats(order) && i < |order|
    ensures SymbolName(order[i].0, order[i].1) in Emitter.IndexOf(order) &&
            Emitter.IndexOf(order)[SymbolName(order[i].0, order[i].1)] == i
  {
    var index := Emitter.IndexOf(order);
    var name := SymbolName(order[i].0, order[i].1);
    var k := index[name];
    assert order[k] in order && order[i] in order;
    Identifiers.SymbolNameInjective(order[k].0, order[k].1, order[i].0, order[i].1);
  }

  lemma SymbolLeaf(order: seq<Symbol>, l: Expr, vars: set<nat>)
    requires Sorting.NoRepeats(order) && Dotless(order) && l.Predicate? && (l.tag, l.literal) in order
    ensures LeafHolds(l, Variables(Emitter.IndexOf(order), vars)) == LeafHolds(l, Symbols(SymbolsAt(order, vars)))
  {
    var i :| 0 <= i < |order| && order[i] == (l.tag, l.literal);
    IndexIsPosition(order, i);
    if order[i] in SymbolsAt(order, vars) {
      var j :| j in vars && j < |order| && order[j] == order[i];
      assert j == i;
    }
  }

  lemma VariableIsSymbol(order: seq<Symbol>, e: Expr, vars: set<nat>)
    requires Sorting.NoRepeats(order) && Dotless(order)
    requires ComparisonFree(e) && forall s | s in SymbolsOf(e) :: s in order
    ensures Eval(e, Variables(Emitter.IndexOf(order), vars)) == Eval(e, Symbols(SymbolsAt(order, vars)))
  {
    var w, w' := Variables(Emitter.IndexOf(order), vars), Symbols(SymbolsAt(order, vars));
    forall l | l in Leaves(e) ensures LeafHolds(l, w) == LeafHolds(l, w') {
      assert (l.tag, l.literal) in SymbolsOf(e);
      SymbolLeaf(order, l, vars);
    }
    LeavesDecide(e, w, w');
  }

  lemma AllOfIsAllHold(exprs: seq<Expr>, w: World)
    ensures Eval(AllOf(exprs), w) == AllHold(exprs, w)
  {
  }

  lemma VariablesAreSymbols(order: seq<Symbol>, exprs: seq<Expr>, m: Model, facets: Facets, vars: set<nat>)
    requires Usable(facets) && m.domains == DomainsOf(facets) && IsRoot(exprs, m) && IsOrder(order, exprs)
    ensures Eval(AllOf(exprs), Variables(Emitter.IndexOf(order), vars)) ==
            AllHold(exprs, Symbols(SymbolsAt(order, vars)))
  {
    forall s | s in order ensures '.' !in s.0 {
      var e :| e in exprs && s in SymbolsOf(e);
      RootNames(exprs, m, facets, e);
    }
    forall e | e in exprs
      ensures Eval(e, Variables(Emitter.IndexOf(order), vars)) == Eval(e, Symbols(SymbolsAt(order, vars)))
    {
      RootNames(exprs, m, facets, e);
      VariableIsSymbol(order, e, vars);
    }
    AllOfIsAllHold(exprs, Variables(Emitter.IndexOf(order), vars));
  }

  /** End to end: the solver accepts the emitted file, and the settings under which its bytes
      are true are exactly the selections a concrete resolve accepts. */
  lemma EmittedFileAgrees(selectors: seq<string>, constraints: seq<(string, string)>, facets: Facets, exprs: seq<Expr>,
                          order: seq<Symbol>, bytes: seq<nat>, vars: set<nat>) returns (nodeCount: nat)
    requires Usable(facets) && AllClosed(facets) && ConstraintsOk(constraints, facets)
    requires IsRoot(exprs, ModelOf(selectors, constraints, facets)) && IsOrder(order, exprs)
    requires Emitter.IsFileOf(bytes, Emitter.IndexOf(order), AllOf(exprs), |order|)
    requires BddFile.IdsFit(bytes) && BddFile.Fits32(|order|)
    ensures BddFile.FileValue(bytes, vars) <==> PicksAccepted(SymbolsAt(order, vars), facets, constraints)
    ensures |bytes| == 24 + 16 * nodeCount
    ensures FileReader.SolverReads(bytes, |order|, nodeCount, vars, BddFile.FileValue(bytes, vars))
  {
    nodeCount := Emitter.FileMeans(bytes, Emitter.IndexOf(order), AllOf(exprs), |order|, vars);
    VariablesAreSymbols(order, exprs, ModelOf(selectors, constraints, facets), facets, vars);
    SolverAgreesWithResolve(selectors, constraints, facets, exprs, SymbolsAt(order, vars));
  }

  /** The bytes fix one table, whose satisfying assignments are the accepted selections. */
  lemma EmittedTableAgrees(selectors: seq<string>, constraints: seq<(string, string)>, facets: Facets,
                           exprs: seq<Expr>, order: seq<Symbol>, bytes: seq<nat>)
    returns (table: seq<Bdd.Node>, root: nat)
    requires Usable(facets) && AllClosed(facets) && ConstraintsOk(constraints, facets)
    requires IsRoot(exprs, ModelOf(selectors, constraints, facets)) && IsOrder(order, exprs)
    requires Emitter.IsFileOf(bytes, Emitter.IndexOf(order), AllOf(exprs), |order|)
    ensures BddFile.FileForm(table, root) && bytes == BddFile.FileBytes(table, root, |order|)
    ensures forall vars: set<nat> :: Bdd.Sat(table, root, vars) <==>
            PicksAccepted(SymbolsAt(order, vars), facets, constraints)
    ensures BddFile.TableFits(table) ==> OnlyTable(bytes, |order|, table, root)
  {
    var index, e := Emitter.IndexOf(order), AllOf(exprs);
    table, root :| BddFile.FileForm(table, root) && Emitter.Denotes(table, index, e, root) &&
        bytes == BddFile.FileBytes(table, root, |order|);
    forall vars: set<nat>
      ensures Bdd.Sat(table, root, vars) <==> PicksAccepted(SymbolsAt(order, vars), facets, constraints)
    {
      assert Emitter.DenotesAt(table, index, e, root, vars);
      VariablesAreSymbols(order, exprs, ModelOf(selectors, constraints, facets), facets, vars);
      SolverAgreesWithResolve(selectors, constraints, facets, exprs, SymbolsAt(order, vars));
    }
    if BddFile.TableFits(table) { BytesFixTable(bytes, |order|, table, root); }
  }

  /** Whoever decodes the bytes to a table that fits its fields, decodes them to this one. */
  ghost predicate OnlyTable(bytes: seq<nat>, varCount: nat, table: seq<Bdd.Node>, root: nat) {
    forall other, r | Decodes(bytes, varCount, other, r) :: other == table && r == root
  }

  ghost predicate Decodes(bytes: seq<nat>, varCount: nat, table: seq<Bdd.Node>, root: nat) {
    BddFile.TableFits(table) && Bdd.IsRef(table, root) && bytes == BddFile.FileBytes(table, root, varCount)
  }

  lemma BytesFixTable(bytes: seq<nat>, varCount: nat, table: seq<Bdd.Node>, root: nat)
    requires Decodes(bytes, varCount, table, root)
    ensures OnlyTable(bytes, varCount, table, root)
  {
    forall other, r | Decodes(bytes, varCount, other, r) ensures other == table && r == root {
      BddFile.FileBytesInjective(other, r, table, root, varCount);
    }
  }
}
