/** Packages the link rules accept whose guards name facets nobody declares
    (compiler/src/lowering.rs, compiler/src/link_verify.rs). */
module UndeclaredGuards {
  import opened Conditions
  import opened ConditionText
  import opened FacetComparison
  import opened FacetRules
  import opened SynthesizedText
  import opened ConstraintModel
  import opened Options
  import opened Summaries
  import opened LinkRules
  import opened Lowering
  import opened Agreement
  import opened PackageModel
  import ConditionRoundTrip
  import Identifiers
  import OpenOptions

  /** A component with the given condition that accepts `x` for the binding `b`, which may be
      `x` or `y`. */
  function Guarding(b: string, condition: string): Summary {
    Summary({"u"}, map[(Bindings, b) := ["u"], (Catalogues, "k") := ["u"], (Components, "c") := ["u"]], map[],
            map[], {}, map["k" := ["x", "y"]], map[b := BindingLink("k", None, None, [], 0)],
                [Requirement(b, condition)], [], [])
  }

  function Requirement(b: string, condition: string): RequirementLink {
    RequirementLink("c", "s", b, Some(["x"]), Some(condition))
  }

  /** Two names a binding may have, so that one is left whatever a guard names. */
  predicate Spare(b: string) {
    b == "b" || b == "d"
  }

  const B := Facet(["x", "y"], None, false)

  predicate Usual(condition: string) {
    Trim(condition) == condition != [] && ParseCondition(condition).Got?
  }

  lemma GuardingFacets(b: string, condition: string)
    ensures DeclaredFacets(Guarding(b, condition)) == map[b := B] && Authored(Guarding(b, condition)) == []
  {
    var m := Guarding(b, condition);
    assert AuthoredFacets(m) == map[];
    assert ById(m.clauses) == map[];
  }

  lemma GuardingChoosable(b: string, condition: string)
    ensures AcceptsIntersect(Guarding(b, condition))
  {
    var m := Guarding(b, condition);
    assert ["x", "y"][0] == "x" && ["x"][0] == "x";
    forall c | c in m.bindingLinks && Narrowed(m.requirements, c) ensures Choosable(m, c) {
      assert "x" in EntriesFor(m, c) && Survives("x", c, m.requirements);
    }
  }

  lemma GuardingOk(b: string, condition: string)
    requires Usual(condition)
    ensures SummaryOk(Guarding(b, condition), Complete) && NamesApart(Guarding(b, condition))
  {
    var m := Guarding(b, condition);
    GuardingChoosable(b, condition);
    assert ["x", "y"][0] == "x";
    assert RequirementOk(m, Requirement(b, condition), Complete);
  }

  lemma OneLetter(s: string)
    requires Spare(s)
    ensures Identifiers.Matches(Identifiers.SNAKE_ID, s)
  {
    Identifiers.SnakeIdIsPattern(s);
  }

  lemma BindingFacetOk(b: string)
    requires Spare(b)
    ensures FacetOk(b, B)
  {
    OneLetter(b);
    assert B.values[0] != B.values[1];
  }

  lemma GuardingValid(b: string, condition: string)
    requires Spare(b) && Usual(condition)
    ensures var f := DeclaredFacets(Guarding(b, condition));
            FacetsOk(f) && NoneReserved(f) && AllClosed(f) && Usable(f) &&
                ConstraintsOk(Authored(Guarding(b, condition)), f)
  {
    GuardingFacets(b, condition);
    BindingFacetOk(b);
    ValidatedIsUsable(DeclaredFacets(Guarding(b, condition)));
  }

  // ----- a package that links and whose model is refused -----

  /** The condition compares two facets, one of them undeclared: the package passes the link
      rules, and its model is then refused. */
  lemma LinkedButRefused(b: string, l: string, r: string)
    requires Spare(b) && IsTag(l) && IsIdent(r) && (l != b || r != b)
    ensures var m := Guarding(b, CompareText(l, Eq, r));
            && SummaryOk(m, Complete)
            && !forall t | t in Texts(ModelOf(SelectorTextsOf(m), CcmConstraints(m), DeclaredFacets(m))) ::
                 Readable(t, DomainsOf(DeclaredFacets(m)))
  {
    var c, m := CompareText(l, Eq, r), Guarding(b, CompareText(l, Eq, r));
    CompareIsUsual(l, r);
    GuardingOk(b, c);
    GuardingValid(b, c);
    PackageReadableIff(m);
    UnreadableGuard(b, l, r);
  }

  lemma UnreadableGuard(b: string, l: string, r: string)
    requires Spare(b) && IsTag(l) && IsIdent(r) && (l != b || r != b)
    ensures !GuardsReadable(Guarding(b, CompareText(l, Eq, r)))
  {
    var e, q := FacetCompare(l, Eq, r), Requirement(b, CompareText(l, Eq, r));
    var m := Guarding(b, CompareText(l, Eq, r));
    CompareIsUsual(l, r);
    GuardingFacets(b, CompareText(l, Eq, r));
    assert Leaves(e) == {e} && !ComparandsDeclared(e, DomainsOf(map[b := B]));
    assert q in m.requirements && Contributes(q) && HasGuard(q);
  }

  lemma CompareIsUsual(l: string, r: string)
    requires IsTag(l) && IsIdent(r)
    ensures Usual(CompareText(l, Eq, r)) && ParseCondition(CompareText(l, Eq, r)) == Got(FacetCompare(l, Eq, r), [])
  {
    var t := CompareText(l, Eq, r);
    ConditionRoundTrip.SerializeThenParse(FacetCompare(l, Eq, r));
    assert t[0] == l[0] && t[|t| - 1] == r[|r| - 1];
    assert r[|r| - 1] in r;
    TrimKeeps(t);
  }

  // ----- a guard whose symbol is free -----

  /** The condition tests an undeclared facet: the package links and its model is readable, and
      with that facet's symbol on, the root refuses `y` for `b` although the selection that takes
      `y` honours the package. */
  lemma FreeGuard(b: string, g: string, v: string) returns (exprs: seq<Expr>)
    requires Spare(b) && IsTag(g) && g != b && QuoteFor(v) !in v
    ensures var m, on := Guarding(b, Spell(g, Eq, v)), {(b, "y"), (g, v)};
            && SummaryOk(m, Complete)
            && IsRoot(exprs, ModelOf(SelectorTextsOf(m), CcmConstraints(m), DeclaredFacets(m)))
            && !AllHold(exprs, Symbols(on))
            && exists sel :: Picks(on, DeclaredFacets(m), sel) && Honoured(m, sel)
  {
    var m, on := Guarding(b, Spell(g, Eq, v)), {(b, "y"), (g, v)};
    SpellIsUsual(g, v);
    GuardingOk(b, Spell(g, Eq, v));
    GuardingValid(b, Spell(g, Eq, v));
    exprs := FreeGuardRoot(b, g, v);
    PackageRootMeans(m, exprs, on);
    forall sel | Picks(on, DeclaredFacets(m), sel) ensures !Kept(m, on, sel) { NotKept(b, g, v, sel); }
    YHonours(b, g, v);
  }

  lemma FreeGuardRoot(b: string, g: string, v: string) returns (exprs: seq<Expr>)
    requires Spare(b) && IsTag(g) && QuoteFor(v) !in v
    ensures var m := Guarding(b, Spell(g, Eq, v));
            IsRoot(exprs, ModelOf(SelectorTextsOf(m), CcmConstraints(m), DeclaredFacets(m)))
  {
    var m := Guarding(b, Spell(g, Eq, v));
    SpellIsUsual(g, v);
    GuardingOk(b, Spell(g, Eq, v));
    GuardingValid(b, Spell(g, Eq, v));
    GuardingFacets(b, Spell(g, Eq, v));
    assert GuardsReadable(m) by {
      forall r | r in m.requirements && Contributes(r) && HasGuard(r)
        ensures GuardReadable(r, DomainsOf(DeclaredFacets(m)))
      {
        assert r == Requirement(b, Spell(g, Eq, v));
      }
    }
    LoweredReadableIff(m);
    assert CcmConstraints(m) == Lowered(m);
    exprs := RootExists(SelectorTextsOf(m), CcmConstraints(m), DeclaredFacets(m));
  }

  lemma NotKept(b: string, g: string, v: string, sel: Selection)
    requires Spare(b) && IsTag(g) && g != b && QuoteFor(v) !in v
    requires Picks({(b, "y"), (g, v)}, DeclaredFacets(Guarding(b, Spell(g, Eq, v))), sel)
    ensures !Kept(Guarding(b, Spell(g, Eq, v)), {(b, "y"), (g, v)}, sel)
  {
    var r, m, on := Requirement(b, Spell(g, Eq, v)), Guarding(b, Spell(g, Eq, v)), {(b, "y"), (g, v)};
    GuardingFacets(b, Spell(g, Eq, v));
    PicksY(b, g, v);
    PickedUnique(on, DeclaredFacets(m), map[b := "y"], sel);
    FreeGuardHolds(b, g, v);
    assert r in m.requirements && Contributes(r) && !AcceptsForOn(r, DeclaredFacets(m), on, sel);
  }

  lemma YHonours(b: string, g: string, v: string)
    requires Spare(b) && IsTag(g) && g != b && QuoteFor(v) !in v
    ensures var m := Guarding(b, Spell(g, Eq, v));
            Picks({(b, "y"), (g, v)}, DeclaredFacets(m), map[b := "y"]) && Honoured(m, map[b := "y"])
  {
    GuardingFacets(b, Spell(g, Eq, v));
    PicksY(b, g, v);
    FreeGuardHolds(b, g, v);
  }

  lemma SpellIsUsual(g: string, v: string)
    requires IsTag(g) && QuoteFor(v) !in v
    ensures Usual(Spell(g, Eq, v)) && ParseCondition(Spell(g, Eq, v)) == Got(Predicate(g, Eq, v), [])
  {
    var t := Spell(g, Eq, v);
    ConditionRoundTrip.SpelledAlone(g, Eq, v);
    assert t[0] == g[0] && t[|t| - 1] == QuoteFor(v);
    TrimKeeps(t);
  }

  lemma IndicatorOfOne(f: string, v: string)
    ensures Indicator(map[f := v]) == {(f, v)}
  {
    var sel := map[f := v];
    forall s ensures s in Indicator(sel) <==> s == (f, v) {
      if s == (f, v) { assert f in sel && s == (f, sel[f]); }
    }
  }

  lemma PicksY(b: string, g: string, v: string)
    requires g != b
    ensures Picks({(b, "y"), (g, v)}, map[b := B], map[b := "y"])
  {
    var facets, on := map[b := B], {(b, "y"), (g, v)};
    assert B.values[1] == "y";
    assert DomainsOf(facets) == map[b := ["x", "y"]];
    IndicatorOfOne(b, "y");
    assert on * DeclaredSymbols(DomainsOf(facets)) == {(b, "y")};
  }

  lemma FreeGuardHolds(b: string, g: string, v: string)
    requires Spare(b) && IsTag(g) && g != b && QuoteFor(v) !in v
    ensures GuardHolds(Requirement(b, Spell(g, Eq, v)), map[b := B], {(b, "y"), (g, v)})
    ensures !IncludedBy(Some(Spell(g, Eq, v)), map[b := "y"])
  {
    SpellIsUsual(g, v);
  }

  // ----- exactly when the root stands for the honouring selections -----

  function ModelFor(m: Summary): Model {
    ModelOf(SelectorTextsOf(m), CcmConstraints(m), DeclaredFacets(m))
  }

  /** A package that links, with valid closed facets and valid authored constraints. */
  ghost predicate LinkedClosed(m: Summary) {
    && SummaryOk(m, Complete) && NamesApart(m) && ConstraintsOk(Authored(m), DeclaredFacets(m))
    && FacetsOk(DeclaredFacets(m)) && NoneReserved(DeclaredFacets(m)) && AllClosed(DeclaredFacets(m))
  }

  /** The undeclared symbols the guards test are among the given ones. */
  predicate GuardsWithin(m: Summary, strays: set<Symbol>) {
    forall r | r in m.requirements && Contributes(r) && HasGuard(r) :: GuardWithin(r, DeclaredFacets(m), strays)
  }

  predicate GuardWithin(r: RequirementLink, facets: Facets, strays: set<Symbol>)
    requires HasGuard(r)
  {
    var p := ParseCondition(Trim(r.condition.value));
    p.Got? ==> OpenOptions.TestsWithin(p.value, facets, strays)
  }

  /** At this assignment the root says whether its selection honours the package. */
  ghost predicate HonouredAt(m: Summary, exprs: seq<Expr>, on: set<Symbol>) {
    AllHold(exprs, Symbols(on)) <==> exists sel :: Picks(on, DeclaredFacets(m), sel) && Honoured(m, sel)
  }

  ghost predicate RootsHonour(strays: set<Symbol>) {
    forall m, exprs, on | LinkedClosed(m) && GuardsWithin(m, strays) && IsRoot(exprs, ModelFor(m)) ::
      HonouredAt(m, exprs, on)
  }

  lemma WithinIsOk(m: Summary)
    requires GuardsReadable(m) && GuardsWithin(m, {})
    ensures GuardsOk(m)
  {
    var facets := DeclaredFacets(m);
    forall r | r in m.requirements && Contributes(r) ensures GuardOk(r, facets) {
      if HasGuard(r) {
        assert GuardReadable(r, DomainsOf(facets)) && GuardWithin(r, facets, {});
        OperandsDeclared(ParseCondition(Trim(r.condition.value)).value, facets);
      }
    }
  }

  lemma OperandsDeclared(e: Expr, facets: Facets)
    requires ComparandsDeclared(e, DomainsOf(facets)) && OpenOptions.TestsWithin(e, facets, {})
    ensures OperandsOk(e, facets)
  {
    forall l | l in Leaves(e) ensures LeafViolation(l, facets) == Satisfied {
      if l.Predicate? { assert (l.tag, l.literal) in DeclaredSymbols(DomainsOf(facets)); }
    }
  }

  lemma DeclaredHonours(m: Summary, exprs: seq<Expr>, on: set<Symbol>)
    requires LinkedClosed(m) && GuardsWithin(m, {}) && IsRoot(exprs, ModelFor(m))
    ensures HonouredAt(m, exprs, on)
  {
    ValidatedIsUsable(DeclaredFacets(m));
    RootIsReadable(exprs, ModelFor(m));
    PackageReadableIff(m);
    WithinIsOk(m);
    PackageRootMeans(m, exprs, on);
    DeclaredGuardsMean(m, on);
  }

  lemma StrayBreaks(strays: set<Symbol>, g: string, v: string)
    requires (g, v) in strays && IsTag(g) && QuoteFor(v) !in v
    ensures !RootsHonour(strays)
  {
    var b := if g == "b" then "d" else "b";
    var exprs := FreeGuard(b, g, v);
    GuardingLinked(b, g, v);
    StrayWithin(b, g, v, strays);
    NotAll(strays, Guarding(b, Spell(g, Eq, v)), exprs, {(b, "y"), (g, v)});
  }

  lemma GuardingLinked(b: string, g: string, v: string)
    requires Spare(b) && IsTag(g) && QuoteFor(v) !in v
    ensures LinkedClosed(Guarding(b, Spell(g, Eq, v)))
  {
    SpellIsUsual(g, v);
    GuardingOk(b, Spell(g, Eq, v));
    GuardingValid(b, Spell(g, Eq, v));
  }

  lemma NotAll(strays: set<Symbol>, m: Summary, exprs: seq<Expr>, on: set<Symbol>)
    requires LinkedClosed(m) && GuardsWithin(m, strays) && IsRoot(exprs, ModelFor(m)) && !HonouredAt(m, exprs, on)
    ensures !RootsHonour(strays)
  {
  }

  lemma StrayWithin(b: string, g: string, v: string, strays: set<Symbol>)
    requires (g, v) in strays && IsTag(g) && QuoteFor(v) !in v
    ensures GuardsWithin(Guarding(b, Spell(g, Eq, v)), strays)
  {
    var m, e := Guarding(b, Spell(g, Eq, v)), Predicate(g, Eq, v);
    SpellIsUsual(g, v);
    assert Leaves(e) == {e};
    forall r | r in m.requirements && Contributes(r) && HasGuard(r) ensures GuardWithin(r, DeclaredFacets(m), strays) {
      assert r == Requirement(b, Spell(g, Eq, v));
    }
  }

  /** The roots of all linked packages whose guards test undeclared symbols only from the given
      set stand for the selections that honour them, exactly when the set is empty. */
  lemma RootsHonourIff(strays: set<Symbol>)
    requires forall s | s in strays :: IsTag(s.0) && QuoteFor(s.1) !in s.1
    ensures RootsHonour(strays) <==> strays == {}
  {
    if strays == {} {
      forall m, exprs, on | LinkedClosed(m) && GuardsWithin(m, strays) && IsRoot(exprs, ModelFor(m))
        ensures HonouredAt(m, exprs, on)
      {
        DeclaredHonours(m, exprs, on);
      }
    } else {
      var s :| s in strays;
      StrayBreaks(strays, s.0, s.1);
    }
  }
}
