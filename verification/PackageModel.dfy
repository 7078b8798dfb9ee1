/** From a linked summary to its constraint model, and what the model then means
    (compiler/src/compiler_core.rs `declared_facets_from_summary`, `ccm_constraints`,
    `condition_model_from_summary`). */
module PackageModel {
  import opened Conditions
  import opened ConditionText
  import opened FacetComparison
  import opened FacetRules
  import opened SynthesizedText
  import opened ConstraintModel
  import opened Options
  import opened Summaries
  import opened LinkRules
  import opened Lowering
  import opened Agreement
  import ClauseSynthesis
  import ConditionRoundTrip
  import SelectionEval
  import Sorting

  // ----- declared facets -----

  predicate IsBindingFacet(m: Summary, name: string) {
    name in m.bindingLinks && m.bindingLinks[name].catalogue in m.catalogueEntries
  }

  /** The closed facet a binding is. */
  function BindingFacet(m: Summary, name: string): Facet
    requires IsBindingFacet(m, name)
  {
    Facet(m.catalogueEntries[m.bindingLinks[name].catalogue], m.bindingLinks[name].fallback, false)
  }

  function AuthoredFacet(m: Summary, name: string): Facet
    requires name in m.facetDomains
  {
    Facet(m.facetDomains[name], None, name in m.openFacets)
  }

  function AuthoredFacets(m: Summary): Facets {
    map name | name in m.facetDomains :: AuthoredFacet(m, name)
  }

  /** Authored facets, and over them the facet each resolved binding is. */
  function DeclaredFacets(m: Summary): Facets {
    WithBindings(m, m.bindingLinks.Keys)
  }

  function WithBindings(m: Summary, bindings: set<string>): Facets {
    AuthoredFacets(m) + map b | b in bindings && IsBindingFacet(m, b) :: BindingFacet(m, b)
  }

  method CollectAuthored(m: Summary) returns (declared: Facets)
    ensures declared == AuthoredFacets(m)
  {
    declared := map[];
    var ids := Sorting.Keys(m.facetDomains.Keys);
    for k := 0 to |ids|
      invariant declared == map name | name in ids[..k] && name in m.facetDomains :: AuthoredFacet(m, name)
    {
      assert ids[k] in m.facetDomains.Keys && ids[..k + 1] == ids[..k] + [ids[k]];
      declared := declared[ids[k] := AuthoredFacet(m, ids[k])];
    }
    assert ids[..|ids|] == ids;
  }

  function NameSet(ids: seq<string>): set<string> {
    set id | id in ids
  }

  lemma BindingStep(m: Summary, ids: seq<string>, k: nat)
    requires k < |ids|
    ensures WithBindings(m, NameSet(ids[..k + 1])) ==
            if IsBindingFacet(m, ids[k]) then WithBindings(m, NameSet(ids[..k]))[ids[k] := BindingFacet(m, ids[k])]
            else WithBindings(m, NameSet(ids[..k]))
  {
    assert ids[..k + 1] == ids[..k] + [ids[k]];
    assert NameSet(ids[..k + 1]) == NameSet(ids[..k]) + {ids[k]};
  }

  /** What the package declares: a binding whose catalogue is there is a closed facet over the
      catalogue's entries, and every other facet is as authored, without a default. */
  ghost predicate Declares(declared: Facets, m: Summary) {
    && (forall f :: f in declared <==> f in m.facetDomains ||
                                       (f in m.bindingLinks && m.bindingLinks[f].catalogue in m.catalogueEntries))
    && forall f | f in declared ::
         declared[f] == if f in m.bindingLinks && m.bindingLinks[f].catalogue in m.catalogueEntries
                        then Facet(m.catalogueEntries[m.bindingLinks[f].catalogue], m.bindingLinks[f].fallback, false)
                        else if f in m.facetDomains then Facet(m.facetDomains[f], None, f in m.openFacets)
                        else declared[f]
  }

  lemma DeclaredFacetsAre(m: Summary)
    ensures Declares(DeclaredFacets(m), m)
  {
  }

  method DeclaredFacetsFromSummary(m: Summary) returns (declared: Facets)
    ensures declared == DeclaredFacets(m)
    ensures Declares(declared, m)
  {
    declared := CollectAuthored(m);
    var ids := Sorting.Keys(m.bindingLinks.Keys);
    NoBindingsYet(m);
    assert NameSet(ids[..0]) == {};
    for k := 0 to |ids|
      invariant declared == WithBindings(m, NameSet(ids[..k]))
    {
      assert ids[k] in m.bindingLinks.Keys;
      BindingStep(m, ids, k);
      if m.bindingLinks[ids[k]].catalogue !in m.catalogueEntries { continue; }
      declared := declared[ids[k] := BindingFacet(m, ids[k])];
    }
    AllNamed(m.bindingLinks.Keys);
    assert ids[..|ids|] == ids;
    DeclaredFacetsAre(m);
  }

  /** The link rules and the emitter read a name alike where facets and bindings are apart; where
      they are not, a rule reads the facet and the emitter the binding. */
  lemma DomainSources(m: Summary, name: string)
    ensures NamesApart(m) ==>
              DeclaredDomain(m, name) ==
              if name in DeclaredFacets(m) then Some(DeclaredFacets(m)[name].values) else None
    ensures name in m.facetDomains ==> DeclaredDomain(m, name) == Some(m.facetDomains[name])
    ensures IsBindingFacet(m, name) ==> DeclaredFacets(m)[name] == BindingFacet(m, name)
  {
    DeclaredFacetsAre(m);
  }

  lemma NoBindingsYet(m: Summary)
    ensures WithBindings(m, {}) == AuthoredFacets(m)
  {
  }

  lemma AllNamed(names: set<string>)
    ensures NameSet(Sorting.Keys(names)) == names
  {
  }

  // ----- constraints -----

  /** Clause texts by id; of two clauses with one id the later stays. */
  function ById(clauses: seq<Clause>): map<string, string> {
    if clauses == [] then map[] else ById(clauses[..|clauses| - 1])[clauses[|clauses| - 1].id :=
        clauses[|clauses| - 1].condition]
  }

  function Pairs(texts: map<string, string>, ids: seq<string>): (out: seq<(string, string)>)
    requires forall id | id in ids :: id in texts
    ensures forall c | c in out :: c.0 in texts && c.1 == texts[c.0]
  {
    if ids == [] then [] else [(ids[0], texts[ids[0]])] + Pairs(texts, ids[1..])
  }

  /** The authored constraints, id-ascending. */
  function Authored(m: Summary): seq<(string, string)> {
    var texts := ById(m.clauses);
    Pairs(texts, Sorting.Keys(texts.Keys))
  }

  /** No later clause has the id of this one. */
  predicate Standing(clauses: seq<Clause>, i: nat) {
    i < |clauses| && forall j | i < j < |clauses| :: clauses[j].id != clauses[i].id
  }

  /** A concrete resolve does not reject the selection over this clause. */
  predicate ClauseHolds(clause: Clause, sel: Selection) {
    var p := ParseCondition(clause.condition);
    p.Got? && SelectionEval.NotContradicted(p.value, sel)
  }

  predicate ClausesHold(clauses: seq<Clause>, sel: Selection) {
    forall i | 0 <= i < |clauses| && Standing(clauses, i) :: ClauseHolds(clauses[i], sel)
  }

  lemma {:induction false} StandingStays(clauses: seq<Clause>, i: nat)
    requires Standing(clauses, i)
    ensures clauses[i].id in ById(clauses) && ById(clauses)[clauses[i].id] == clauses[i].condition
  {
    var n := |clauses| - 1;
    if i < n { StandingStays(clauses[..n], i); }
  }

  lemma {:induction false} NamedBy(clauses: seq<Clause>, id: string) returns (i: nat)
    requires id in ById(clauses)
    ensures i < |clauses| && clauses[i].id == id
  {
    var n := |clauses| - 1;
    if id == clauses[n].id { i := n; } else { i := NamedBy(clauses[..n], id); }
  }

  lemma {:induction false} LastNamed(clauses: seq<Clause>, i: nat) returns (k: nat)
    requires i < |clauses|
    ensures Standing(clauses, k) && clauses[k].id == clauses[i].id
    decreases |clauses| - i
  {
    if Standing(clauses, i) {
      k := i;
    } else {
      var j :| i < j < |clauses| && clauses[j].id == clauses[i].id;
      k := LastNamed(clauses, j);
    }
  }

  lemma {:induction false} PairsAt(texts: map<string, string>, ids: seq<string>)
    requires forall id | id in ids :: id in texts
    ensures |Pairs(texts, ids)| == |ids|
    ensures forall k | 0 <= k < |ids| :: Pairs(texts, ids)[k] == (ids[k], texts[ids[k]])
  {
    if ids != [] { PairsAt(texts, ids[1..]); }
  }

  /** These constraints are the clauses no later clause replaces, under strictly ascending ids. */
  predicate SpellsClauses(constraints: seq<(string, string)>, clauses: seq<Clause>) {
    && (forall i | 0 <= i < |clauses| && Standing(clauses, i) :: (clauses[i].id, clauses[i].condition) in constraints)
    && (forall c | c in constraints :: SpelledBy(c, clauses))
    && forall j, k | 0 <= j < k < |constraints| ::
         constraints[j].0 != constraints[k].0 && Sorting.Le(constraints[j].0, constraints[k].0)
  }

  predicate SpelledBy(c: (string, string), clauses: seq<Clause>) {
    exists i :: 0 <= i < |clauses| && Standing(clauses, i) && c == (clauses[i].id, clauses[i].condition)
  }

  lemma AuthoredAre(m: Summary)
    ensures SpellsClauses(Authored(m), m.clauses)
  {
    var texts := ById(m.clauses);
    var ids := Sorting.Keys(texts.Keys);
    PairsAt(texts, ids);
    Sorting.KeysAscend(texts.Keys);
    forall i | 0 <= i < |m.clauses| && Standing(m.clauses, i)
      ensures (m.clauses[i].id, m.clauses[i].condition) in Authored(m)
    {
      StandingStays(m.clauses, i);
      var k :| 0 <= k < |ids| && ids[k] == m.clauses[i].id;
      assert Authored(m)[k] == (m.clauses[i].id, m.clauses[i].condition);
    }
    forall c | c in Authored(m) ensures SpelledBy(c, m.clauses) {
      var i := NamedBy(m.clauses, c.0);
      var k := LastNamed(m.clauses, i);
      StandingStays(m.clauses, k);
    }
  }

  lemma AuthoredMeans(m: Summary, sel: Selection)
    ensures Resolves(sel, Authored(m)) <==> ClausesHold(m.clauses, sel)
  {
    AuthoredAre(m);
    if ClausesHold(m.clauses, sel) {
      forall c | c in Authored(m)
        ensures ParseCondition(c.1).Got? && SelectionEval.NotContradicted(ParseCondition(c.1).value, sel)
      {
        assert SpelledBy(c, m.clauses);
      }
    }
  }

  /** Authored first, then what is lowered. */
  function CcmConstraints(m: Summary): seq<(string, string)> {
    Authored(m) + Lowered(m)
  }

  /** What the constraints of a package ask of a selection. */
  lemma CcmConstraintsMean(m: Summary, sel: Selection)
    ensures Resolves(sel, CcmConstraints(m)) <==> ClausesHold(m.clauses, sel) && Resolves(sel, Lowered(m))
  {
    AuthoredMeans(m, sel);
    assert forall c :: c in CcmConstraints(m) <==> c in Authored(m) || c in Lowered(m);
  }

  function SelectorTextsOf(m: Summary): seq<string> {
    seq(|m.selectors|, i requires 0 <= i < |m.selectors| => m.selectors[i].condition)
  }

  /** Some selector that parses names the symbol. */
  ghost predicate NamedBySelector(m: Summary, s: Symbol) {
    exists i :: 0 <= i < |m.selectors| && Names(m.selectors[i].condition, s)
  }

  predicate Names(selector: string, s: Symbol) {
    var p := ParseCondition(Trim(selector));
    p.Got? && s in SymbolsOf(p.value)
  }

  /** The clauses introduce what selectors name and facets declare, and nothing else. */
  ghost predicate IntroducesNamed(clauses: seq<string>, m: Summary) {
    && (forall s | NamedBySelector(m, s) || s in DeclaredSymbols(DomainsOf(DeclaredFacets(m))) ::
          ClauseSynthesis.Introduction(s) in clauses)
    && forall t | t in clauses ::
         exists s :: (NamedBySelector(m, s) || s in DeclaredSymbols(DomainsOf(DeclaredFacets(m)))) &&
                     t == ClauseSynthesis.Introduction(s)
  }

  lemma {:induction false} PairIsNamed(selectors: seq<string>, s: Symbol) returns (i: nat)
    requires s in SelectorPairs(selectors)
    ensures i < |selectors| && Names(selectors[i], s)
    decreases |selectors|
  {
    var k := |selectors| - 1;
    if Names(selectors[k], s) { i := k; } else { i := PairIsNamed(selectors[..k], s); }
  }

  lemma {:induction false} NamedIsPair(selectors: seq<string>, i: nat, s: Symbol)
    requires i < |selectors| && Names(selectors[i], s)
    ensures s in SelectorPairs(selectors)
    decreases |selectors|
  {
    var k := |selectors| - 1;
    if i < k { NamedIsPair(selectors[..k], i, s); }
  }

  lemma SelectorsNamed(m: Summary, s: Symbol)
    ensures s in SelectorPairs(SelectorTextsOf(m)) <==> NamedBySelector(m, s)
  {
    var texts := SelectorTextsOf(m);
    if s in SelectorPairs(texts) {
      var i := PairIsNamed(texts, s);
      assert Names(m.selectors[i].condition, s);
    }
    if i :| 0 <= i < |m.selectors| && Names(m.selectors[i].condition, s) { NamedIsPair(texts, i, s); }
  }

  lemma NamedAreIntroduced(m: Summary)
    ensures IntroducesNamed(ClauseSynthesis.Clauses(SelectorTextsOf(m), DeclaredFacets(m)), m)
  {
    var selectors, facets := SelectorTextsOf(m), DeclaredFacets(m);
    ClausesIntroduce(selectors, facets);
    forall s ensures s in Universe(selectors, facets) <==>
                     NamedBySelector(m, s) || s in DeclaredSymbols(DomainsOf(facets))
    {
      SelectorsNamed(m, s);
    }
  }

  method CollectById(clauses: seq<Clause>) returns (texts: map<string, string>)
    ensures texts == ById(clauses)
  {
    texts := map[];
    for k := 0 to |clauses|
      invariant texts == ById(clauses[..k])
    {
      assert clauses[..k + 1][..k] == clauses[..k];
      texts := texts[clauses[k].id := clauses[k].condition];
    }
    assert clauses[..|clauses|] == clauses;
  }

  method ConditionModelFromSummary(m: Summary) returns (model: Model)
    ensures model == ModelOf(SelectorTextsOf(m), CcmConstraints(m), DeclaredFacets(m))
    ensures var n := |model.constraints| - |Lowered(m)|;
            n >= 0 && model.constraints[n..] == Lowered(m) && SpellsClauses(model.constraints[..n], m.clauses)
    ensures IntroducesNamed(model.clauses, m)
  {
    var declared := DeclaredFacetsFromSummary(m);
    var texts := CollectById(m.clauses);
    var lowered := LoweredRootConjuncts(m);
    model := BuildConditionModel(SelectorTextsOf(m), Pairs(texts, Sorting.Keys(texts.Keys)) + lowered, declared);
    ModelSpells(m, model.constraints);
    NamedAreIntroduced(m);
  }

  lemma ModelSpells(m: Summary, constraints: seq<(string, string)>)
    requires constraints == CcmConstraints(m)
    ensures var n := |constraints| - |Lowered(m)|;
            n >= 0 && constraints[n..] == Lowered(m) && SpellsClauses(constraints[..n], m.clauses)
  {
    AuthoredAre(m);
    assert constraints[..|Authored(m)|] == Authored(m);
  }

  // ----- lowered conjuncts are valid constraints -----

  predicate NamesApart(m: Summary) {
    forall name | name in m.facetDomains :: name !in m.bindingLinks
  }

  /** The guard of an `accepts` conjunct. */
  predicate GuardOk(r: RequirementLink, facets: Facets) {
    r.condition.Some? && Trim(r.condition.value) != [] ==>
      ParseCondition(Trim(r.condition.value)).Got? && OperandsOk(ParseCondition(Trim(r.condition.value)).value, facets)
  }

  /** Every guard an `accepts` list is lowered under keeps to the declared facets, as the
      authored constraints must. */
  predicate GuardsOk(m: Summary) {
    forall r | r in m.requirements && Contributes(r) :: GuardOk(r, DeclaredFacets(m))
  }

  lemma EntriesAreValues(m: Summary, b: string)
    requires b in m.bindingLinks && BindingOk(m, m.bindingLinks[b], Complete)
    ensures IsBindingFacet(m, b) && b in DeclaredFacets(m) && DeclaredFacets(m)[b].values == EntriesFor(m, b)
  {
  }

  lemma SourceIsDeclared(m: Summary, source: string)
    requires NamesApart(m) && DeclaredDomain(m, source).Some?
    ensures source in DeclaredFacets(m) && DeclaredFacets(m)[source].values == DeclaredDomain(m, source).value
  {
  }

  /** A derive pair of an accepted binding names declared symbols on both sides. */
  lemma DerivePairDeclared(m: Summary, b: string, p: (string, string))
    requires NamesApart(m) && b in m.bindingLinks && BindingOk(m, m.bindingLinks[b], Complete)
    requires m.bindingLinks[b].deriveSource.Some? && p in m.bindingLinks[b].derivePairs
    ensures var source, facets := m.bindingLinks[b].deriveSource.value, DeclaredFacets(m);
            b in facets && source in facets && p.0 in facets[source].values && p.1 in facets[b].values
  {
    EntriesAreValues(m, b);
    SourceIsDeclared(m, m.bindingLinks[b].deriveSource.value);
  }

  lemma DeriveTextOk(source: string, value: string, binding: string, entry: string, facets: Facets)
    requires Usable(facets) && source in facets && binding in facets && value in facets[source].values &&
             entry in facets[binding].values
    ensures var p := ParseCondition(DeriveText(source, value, binding, entry)); p.Got? && OperandsOk(p.value, facets)
  {
    SpelledOrReads(source, value, binding, entry);
    var e := Or(Predicate(source, NotEq, value), Predicate(binding, Eq, entry));
    assert Leaves(e) == {e.left, e.right};
  }

  lemma SpelledOrReads(source: string, value: string, binding: string, entry: string)
    requires IsTag(source) && IsTag(binding) && '\'' !in value && '\'' !in entry
    ensures ParseCondition(DeriveText(source, value, binding, entry)) ==
            Got(Or(Predicate(source, NotEq, value), Predicate(binding, Eq, entry)), [])
  {
    ConditionRoundTrip.SpelledOr(source, NotEq, value, binding, Eq, entry);
  }

  lemma AcceptsOperands(binding: string, list: seq<string>, facets: Facets)
    requires list != [] && binding in facets && forall e | e in list :: e in facets[binding].values
    ensures OperandsOk(AcceptsExpr(binding, list), facets)
  {
    var x := AcceptsExpr(binding, list);
    forall l | l in Leaves(x) ensures LeafViolation(l, facets) == Satisfied {
      if |list| > 1 {
        var es := Equals(binding, list);
        var i :| 0 <= i < |es| && l in Leaves(es[i]);
        assert l == es[i] && list[i] in list;
      } else {
        assert l == Predicate(binding, Eq, list[0]) && list[0] in list;
      }
    }
  }

  predicate TextOk(c: (string, string), facets: Facets) {
    ParseCondition(c.1).Got? && OperandsOk(ParseCondition(c.1).value, facets)
  }

  lemma {:induction false} DeriveOneOk(b: string, source: string, pairs: seq<(string, string)>, facets: Facets)
    requires Usable(facets) && b in facets && source in facets
    requires forall p | p in pairs :: p.0 in facets[source].values && p.1 in facets[b].values
    ensures forall c | c in DeriveOne(b, source, pairs) :: TextOk(c, facets)
    decreases |pairs|
  {
    if pairs != [] {
      var k := |pairs| - 1;
      assert pairs[k] in pairs && forall p | p in pairs[..k] :: p in pairs;
      DeriveOneOk(b, source, pairs[..k], facets);
      DeriveTextOk(source, pairs[k].0, b, pairs[k].1, facets);
    }
  }

  lemma {:induction false} DeriveAllOk(m: Summary, ids: seq<string>)
    requires Usable(DeclaredFacets(m)) && NamesApart(m)
    requires forall b | b in ids :: b in m.bindingLinks && BindingOk(m, m.bindingLinks[b], Complete)
    ensures forall c | c in DeriveAll(ids, m.bindingLinks) :: TextOk(c, DeclaredFacets(m))
    decreases |ids|
  {
    if ids != [] {
      var k := |ids| - 1;
      var b, link := ids[k], m.bindingLinks[ids[k]];
      assert b in ids && forall x | x in ids[..k] :: x in ids;
      DeriveAllOk(m, ids[..k]);
      if link.deriveSource.Some? {
        EntriesAreValues(m, b);
        SourceIsDeclared(m, link.deriveSource.value);
        forall p | p in link.derivePairs
          ensures p.0 in DeclaredFacets(m)[link.deriveSource.value].values && p.1 in DeclaredFacets(m)[b].values
        {
          DerivePairDeclared(m, b, p);
        }
        DeriveOneOk(b, link.deriveSource.value, link.derivePairs, DeclaredFacets(m));
      }
    }
  }

  lemma RequirementDeclared(m: Summary, r: RequirementLink)
    requires SummaryOk(m, Complete) && r in m.requirements && Contributes(r)
    ensures r.binding in m.bindingLinks && r.binding in DeclaredFacets(m)
    ensures forall e | e in r.accepts.value :: e in DeclaredFacets(m)[r.binding].values
  {
    assert RequirementOk(m, r, Complete);
    EntriesAreValues(m, r.binding);
  }

  // ----- what the lowered conjuncts need of the guards -----

  lemma GuardParses(m: Summary, r: RequirementLink)
    requires SummaryOk(m, Complete) && r in m.requirements && Contributes(r) && HasGuard(r)
    ensures ParseCondition(Trim(r.condition.value)).Got?
  {
    assert RequirementOk(m, r, Complete);
  }

  predicate HasGuard(r: RequirementLink) {
    r.condition.Some? && Trim(r.condition.value) != []
  }

  function ConjunctOf(r: RequirementLink): string
    requires Contributes(r)
  {
    Guarded(r.condition, AcceptsText(r.binding, r.accepts.value))
  }

  /** What an `accepts` conjunct parses to. */
  lemma ConjunctReads(m: Summary, r: RequirementLink)
    requires SummaryOk(m, Complete) && Usable(DeclaredFacets(m)) && r in m.requirements && Contributes(r)
    ensures var x := AcceptsExpr(r.binding, r.accepts.value);
            && OperandsOk(x, DeclaredFacets(m))
            && (HasGuard(r) ==> ParseCondition(Trim(r.condition.value)).Got?)
            && ParseCondition(ConjunctOf(r)) == Got(if HasGuard(r)
                then Or(Not(ParseCondition(Trim(r.condition.value)).value), x) else x, [])
  {
    var list := r.accepts.value;
    var conjunct, x := AcceptsText(r.binding, list), AcceptsExpr(r.binding, list);
    RequirementDeclared(m, r);
    AcceptsReads(r.binding, list);
    AcceptsOperands(r.binding, list, DeclaredFacets(m));
    if HasGuard(r) {
      GuardParses(m, r);
      GuardedReads(Trim(r.condition.value), conjunct, x);
    } else {
      ConditionRoundTrip.AloneStep(conjunct, x);
    }
  }

  lemma ConjunctOkIff(m: Summary, r: RequirementLink)
    requires SummaryOk(m, Complete) && Usable(DeclaredFacets(m)) && r in m.requirements && Contributes(r)
    ensures TextOk((AcceptsId(r.component, r.slot), ConjunctOf(r)), DeclaredFacets(m)) <==>
            GuardOk(r, DeclaredFacets(m))
  {
    ConjunctReads(m, r);
    if HasGuard(r) { GuardTags(ParseCondition(Trim(r.condition.value)).value,
        AcceptsExpr(r.binding, r.accepts.value)); }
  }

  lemma {:induction false} AcceptsInto(rs: seq<RequirementLink>, r: RequirementLink)
    requires r in rs && Contributes(r)
    ensures (AcceptsId(r.component, r.slot), ConjunctOf(r)) in AcceptsAll(rs)
    decreases |rs|
  {
    var k := |rs| - 1;
    if rs[k] != r {
      assert rs == rs[..k] + [rs[k]];
      AcceptsInto(rs[..k], r);
    }
  }

  lemma {:induction false} AcceptsFrom(rs: seq<RequirementLink>, c: (string, string)) returns (r: RequirementLink)
    requires c in AcceptsAll(rs)
    ensures r in rs && Contributes(r) && c == (AcceptsId(r.component, r.slot), ConjunctOf(r))
    decreases |rs|
  {
    var k := |rs| - 1;
    if c in AcceptsAll(rs[..k]) {
      r := AcceptsFrom(rs[..k], c);
    } else {
      r := rs[k];
    }
  }

  /** What the link rules accept has lowered conjuncts that pass as constraints, exactly when
      the guards do: nothing checks a component's condition against the declared facets. */
  lemma LoweredOkIff(m: Summary)
    requires SummaryOk(m, Complete) && NamesApart(m) && Usable(DeclaredFacets(m))
    ensures ConstraintsOk(Lowered(m), DeclaredFacets(m)) <==> GuardsOk(m)
  {
    DeriveAllOk(m, Sorting.Keys(m.bindingLinks.Keys));
    if GuardsOk(m) {
      forall c | c in AcceptsAll(m.requirements) ensures TextOk(c, DeclaredFacets(m)) {
        var r := AcceptsFrom(m.requirements, c);
        ConjunctOkIff(m, r);
      }
      forall c | c in Lowered(m) ensures TextOk(c, DeclaredFacets(m)) {
      }
    }
    if ConstraintsOk(Lowered(m), DeclaredFacets(m)) {
      forall r | r in m.requirements && Contributes(r) ensures GuardOk(r, DeclaredFacets(m)) {
        AcceptsInto(m.requirements, r);
        ConjunctOkIff(m, r);
        assert (AcceptsId(r.component, r.slot), ConjunctOf(r)) in Lowered(m);
      }
    }
  }

  /** Every guard compares declared facets only. */
  predicate GuardsReadable(m: Summary) {
    forall r | r in m.requirements && Contributes(r) && HasGuard(r) :: GuardReadable(r, DomainsOf(DeclaredFacets(m)))
  }

  predicate GuardReadable(r: RequirementLink, d: Domains)
    requires HasGuard(r)
  {
    ParseCondition(Trim(r.condition.value)).Got? && ComparandsDeclared(ParseCondition(Trim(r.condition.value)).value, d)
  }

  lemma ConjunctReadableIff(m: Summary, r: RequirementLink)
    requires SummaryOk(m, Complete) && Usable(DeclaredFacets(m)) && r in m.requirements && Contributes(r)
    ensures var d := DomainsOf(DeclaredFacets(m)); Readable(ConjunctOf(r), d) <==> (HasGuard(r) ==> GuardReadable(r, d))
  {
    var d := DomainsOf(DeclaredFacets(m));
    ConjunctReads(m, r);
    RequirementDeclared(m, r);
    if HasGuard(r) {
      GuardReadableIff(Trim(r.condition.value), r.binding, r.accepts.value, d);
    } else {
      AcceptsTags(r.binding, r.accepts.value);
      ExpandIsFaithful(AcceptsExpr(r.binding, r.accepts.value), d);
    }
  }

  lemma LoweredReadableIff(m: Summary)
    requires SummaryOk(m, Complete) && NamesApart(m) && Usable(DeclaredFacets(m))
    ensures ConstraintsReadable(Lowered(m), DeclaredFacets(m)) <==> GuardsReadable(m)
  {
    var ids := Sorting.Keys(m.bindingLinks.Keys);
    DeriveAllOk(m, ids);
    OkIsReadable(DeriveAll(ids, m.bindingLinks), DeclaredFacets(m));
    if GuardsReadable(m) {
      forall c | c in AcceptsAll(m.requirements) ensures Readable(c.1, DomainsOf(DeclaredFacets(m))) {
        var r := AcceptsFrom(m.requirements, c);
        ConjunctReadableIff(m, r);
      }
    }
    if ConstraintsReadable(Lowered(m), DeclaredFacets(m)) {
      forall r | r in m.requirements && Contributes(r) && HasGuard(r)
        ensures GuardReadable(r, DomainsOf(DeclaredFacets(m)))
      {
        AcceptsInto(m.requirements, r);
        ConjunctReadableIff(m, r);
        assert (AcceptsId(r.component, r.slot), ConjunctOf(r)) in Lowered(m);
      }
    }
  }

  /** A linked package whose facets and authored constraints are valid has a readable model
      exactly when its guards compare declared facets only. */
  lemma PackageReadableIff(m: Summary)
    requires SummaryOk(m, Complete) && NamesApart(m) && Usable(DeclaredFacets(m)) &&
             ConstraintsOk(Authored(m), DeclaredFacets(m))
    ensures (forall t | t in Texts(ModelOf(SelectorTextsOf(m), CcmConstraints(m), DeclaredFacets(m))) ::
            Readable(t, DomainsOf(DeclaredFacets(m)))) <==>
            GuardsReadable(m)
  {
    UsableModelReadableIff(SelectorTextsOf(m), CcmConstraints(m), DeclaredFacets(m));
    OkIsReadable(Authored(m), DeclaredFacets(m));
    LoweredReadableIff(m);
    assert forall c | c in Lowered(m) :: c in CcmConstraints(m);
  }

  // ----- the package theorem -----

  /** A guard under an assignment: its names are read off the symbols, so that a name no facet
      declares is free. */
  predicate GuardHolds(r: RequirementLink, facets: Facets, on: set<Symbol>) {
    HasGuard(r) ==>
      ParseCondition(Trim(r.condition.value)).Got? &&
          Eval(ParseCondition(Trim(r.condition.value)).value, Declared(DomainsOf(facets), on))
  }

  ghost predicate AcceptsHoldOn(rs: seq<RequirementLink>, facets: Facets, on: set<Symbol>, sel: Selection) {
    forall r | r in rs && Contributes(r) :: AcceptsForOn(r, facets, on, sel)
  }

  predicate AcceptsForOn(r: RequirementLink, facets: Facets, on: set<Symbol>, sel: Selection)
    requires Contributes(r)
  {
    r.binding in sel && (GuardHolds(r, facets, on) ==> sel[r.binding] in r.accepts.value)
  }

  lemma ConjunctMeansOn(m: Summary, r: RequirementLink, on: set<Symbol>, sel: Selection)
    requires SummaryOk(m, Complete) && Usable(DeclaredFacets(m)) && AllClosed(DeclaredFacets(m)) &&
             r in m.requirements && Contributes(r)
    requires Picks(on, DeclaredFacets(m), sel)
    ensures PolicyTextHolds(ConjunctOf(r), DeclaredFacets(m), on) <==> AcceptsForOn(r, DeclaredFacets(m), on, sel)
  {
    RequirementDeclared(m, r);
    ConjunctReads(m, r);
    AcceptsExprOn(r.binding, r.accepts.value, DeclaredFacets(m), on, sel);
    if HasGuard(r) {
      GuardedEval(ParseCondition(Trim(r.condition.value)).value, AcceptsExpr(r.binding, r.accepts.value),
                  Declared(DomainsOf(DeclaredFacets(m)), on));
    }
  }

  lemma GuardedEval(e: Expr, x: Expr, w: World)
    ensures Eval(Or(Not(e), x), w) == (Eval(e, w) ==> Eval(x, w))
  {
    assert Eval(Not(e), w) == !Eval(e, w);
  }

  lemma AcceptsExprOn(binding: string, accepts: seq<string>, facets: Facets, on: set<Symbol>, sel: Selection)
    requires AllClosed(facets) && binding in facets && accepts != [] && Picks(on, facets, sel)
    requires OperandsOk(AcceptsExpr(binding, accepts), facets)
    ensures Eval(AcceptsExpr(binding, accepts), Declared(DomainsOf(facets), on)) <==> sel[binding] in accepts
  {
    var x := AcceptsExpr(binding, accepts);
    ClosedSymbolsAgree(x, facets, on, sel);
    ConstraintUnderSelection(x, facets, on, sel);
    AcceptsHolds(binding, accepts, sel);
  }

  lemma AcceptsMeanOn(m: Summary, on: set<Symbol>, sel: Selection)
    requires SummaryOk(m, Complete) && Usable(DeclaredFacets(m)) && AllClosed(DeclaredFacets(m)) &&
             Picks(on, DeclaredFacets(m), sel)
    ensures PolicyHolds(AcceptsAll(m.requirements), DeclaredFacets(m), on) <==>
            AcceptsHoldOn(m.requirements, DeclaredFacets(m), on, sel)
  {
    var facets := DeclaredFacets(m);
    if AcceptsHoldOn(m.requirements, facets, on, sel) {
      forall c | c in AcceptsAll(m.requirements) ensures PolicyTextHolds(c.1, facets, on) {
        var r := AcceptsFrom(m.requirements, c);
        ConjunctMeansOn(m, r, on, sel);
      }
    }
    if PolicyHolds(AcceptsAll(m.requirements), facets, on) {
      forall r | r in m.requirements && Contributes(r) ensures AcceptsForOn(r, facets, on, sel) {
        AcceptsInto(m.requirements, r);
        ConjunctMeansOn(m, r, on, sel);
      }
    }
  }

  lemma DerivesCovered(m: Summary, sel: Selection)
    requires SummaryOk(m, Complete) && NamesApart(m) && Usable(DeclaredFacets(m)) && Legal(sel, DeclaredFacets(m))
    ensures DerivesLowerable(m, sel)
  {
    forall b, p | b in m.bindingLinks && m.bindingLinks[b].deriveSource.Some? && p in m.bindingLinks[b].derivePairs
      ensures DeriveLowerable(b, m.bindingLinks[b].deriveSource.value, p, sel)
    {
      DerivePairDeclared(m, b, p);
    }
  }

  lemma DerivesMeanOn(m: Summary, on: set<Symbol>, sel: Selection)
    requires SummaryOk(m, Complete) && NamesApart(m) && Usable(DeclaredFacets(m)) && AllClosed(DeclaredFacets(m))
    requires Picks(on, DeclaredFacets(m), sel)
    ensures PolicyHolds(DeriveAll(Sorting.Keys(m.bindingLinks.Keys), m.bindingLinks), DeclaredFacets(m), on) <==>
            DerivesHold(m, sel)
  {
    var ids := Sorting.Keys(m.bindingLinks.Keys);
    var texts := DeriveAll(ids, m.bindingLinks);
    DeriveAllOk(m, ids);
    assert ConstraintsOk(texts, DeclaredFacets(m)) by {
      forall c | c in texts ensures TextOk(c, DeclaredFacets(m)) {
      }
    }
    PickedPolicy(texts, DeclaredFacets(m), on, sel);
    DerivesCovered(m, sel);
    DeriveAllMeans(ids, m, sel);
    assert Resolves(sel, texts) <==> forall c | c in texts :: Met(c, sel);
    assert DerivesHold(m, sel) <==> forall b | b in ids :: DerivesHoldFor(b, m.bindingLinks[b], sel);
  }

  lemma PolicyJoins(xs: seq<(string, string)>, ys: seq<(string, string)>, facets: Facets, on: set<Symbol>)
    ensures PolicyHolds(xs + ys, facets, on) <==> PolicyHolds(xs, facets, on) && PolicyHolds(ys, facets, on)
  {
    if PolicyHolds(xs + ys, facets, on) {
      forall c | c in xs ensures PolicyTextHolds(c.1, facets, on) { assert c in xs + ys; }
      forall c | c in ys ensures PolicyTextHolds(c.1, facets, on) { assert c in xs + ys; }
    }
  }

  /** The selection an assignment spells keeps every authored constraint, follows every derive
      table, and gives an accepted entry wherever the guard holds. */
  ghost predicate Kept(m: Summary, on: set<Symbol>, sel: Selection) {
    ClausesHold(m.clauses, sel) && DerivesHold(m, sel) && AcceptsHoldOn(m.requirements, DeclaredFacets(m), on, sel)
  }

  ghost predicate StandsFor(m: Summary, on: set<Symbol>) {
    exists sel :: Picks(on, DeclaredFacets(m), sel) && Kept(m, on, sel)
  }

  lemma PickedPackage(m: Summary, on: set<Symbol>, sel: Selection)
    requires SummaryOk(m, Complete) && NamesApart(m) && Usable(DeclaredFacets(m)) && AllClosed(DeclaredFacets(m))
    requires ConstraintsOk(Authored(m), DeclaredFacets(m)) && Picks(on, DeclaredFacets(m), sel)
    ensures PolicyHolds(CcmConstraints(m), DeclaredFacets(m), on) <==> Kept(m, on, sel)
  {
    var facets := DeclaredFacets(m);
    PickedPolicy(Authored(m), facets, on, sel);
    AuthoredMeans(m, sel);
    DerivesMeanOn(m, on, sel);
    AcceptsMeanOn(m, on, sel);
    PolicyJoins(Authored(m), Lowered(m), facets, on);
    PolicyJoins(DeriveAll(Sorting.Keys(m.bindingLinks.Keys), m.bindingLinks), AcceptsAll(m.requirements), facets, on);
  }

  /** For a linked package whose facets are closed, symbols satisfy the compiled root
      exactly when they spell one legal selection that keeps every authored constraint,
      follows every derive table and gives an accepted entry wherever the guard holds. */
  lemma PackageRootMeans(m: Summary, exprs: seq<Expr>, on: set<Symbol>)
    requires SummaryOk(m, Complete) && NamesApart(m)
    requires FacetsOk(DeclaredFacets(m)) && NoneReserved(DeclaredFacets(m)) && AllClosed(DeclaredFacets(m))
    requires ConstraintsOk(Authored(m), DeclaredFacets(m))
    requires IsRoot(exprs, ModelOf(SelectorTextsOf(m), CcmConstraints(m), DeclaredFacets(m)))
    ensures AllHold(exprs, Symbols(on)) <==> StandsFor(m, on)
  {
    var facets := DeclaredFacets(m);
    ValidatedIsUsable(facets);
    RootMeans(SelectorTextsOf(m), CcmConstraints(m), facets, exprs, on);
    if OneHot(facets, on) && PolicyHolds(CcmConstraints(m), facets, on) {
      var sel := SelectionFrom(on, facets);
      PickedPackage(m, on, sel);
    }
    forall sel | Picks(on, facets, sel) && Kept(m, on, sel)
      ensures OneHot(facets, on) && PolicyHolds(CcmConstraints(m), facets, on)
    {
      PickedIsOneHot(on, facets, sel);
      PickedPackage(m, on, sel);
    }
  }

  // ----- guards over declared facets -----

  /** The selection alone keeps the package. A guard is read two-valued: a test of a name the
      selection does not bind is false, under either operator. (The direct evaluator would report
      the name as missing, and the three-valued one would leave the test unknown.) */
  ghost predicate Honoured(m: Summary, sel: Selection) {
    ClausesHold(m.clauses, sel) && DerivesHold(m, sel) && AcceptsHold(m.requirements, sel)
  }

  lemma GuardBySelection(m: Summary, r: RequirementLink, on: set<Symbol>, sel: Selection)
    requires AllClosed(DeclaredFacets(m)) && GuardOk(r, DeclaredFacets(m)) && Picks(on, DeclaredFacets(m), sel)
    ensures GuardHolds(r, DeclaredFacets(m), on) <==> IncludedBy(r.condition, sel)
  {
    if HasGuard(r) {
      var e := ParseCondition(Trim(r.condition.value)).value;
      ClosedSymbolsAgree(e, DeclaredFacets(m), on, sel);
      ConstraintUnderSelection(e, DeclaredFacets(m), on, sel);
    }
  }

  /** Where the guards keep to the declared facets, the root stands for the selections that
      honour the package. */
  lemma DeclaredGuardsMean(m: Summary, on: set<Symbol>)
    requires AllClosed(DeclaredFacets(m)) && GuardsOk(m)
    ensures StandsFor(m, on) <==> exists sel :: Picks(on, DeclaredFacets(m), sel) && Honoured(m, sel)
  {
    forall sel | Picks(on, DeclaredFacets(m), sel) ensures Kept(m, on, sel) <==> Honoured(m, sel) {
      forall r | r in m.requirements && Contributes(r)
        ensures AcceptsForOn(r, DeclaredFacets(m), on, sel) <==> AcceptsHoldsFor(r, sel)
      {
        GuardBySelection(m, r, on, sel);
      }
    }
  }

  /** Facet and binding ids are apart wherever they are exported. */
  lemma ExportedNamesApart(m: Summary)
    requires ExportsUnique(m) && (forall f | f in m.facetDomains :: (FacetIds, f) in m.exports)
    requires forall b | b in m.bindingLinks :: (Bindings, b) in m.exports
    ensures NamesApart(m)
  {
  }
}
