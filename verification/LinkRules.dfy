/** The rules over a merged summary (compiler/src/link_verify.rs
    `validate_unique_exports`, `validate_binding_links`, `validate_requirements`,
    `validate_accepts_intersection`). */
module LinkRules {
  import opened ConditionText
  import opened FacetRules
  import opened Options
  import opened Summaries
  import Sorting

  datatype Rule =
    | Passed
    | DuplicateExport(id: Id)
    | SharedId(name: string)
    | BadBinding(name: string)
    | BadRequirement(at: nat)
    | NoAcceptableEntry(name: string)

  // ----- unique exports -----

  /** One id, one declaring source (constraints aside), and no id both a facet and a binding. */
  ghost predicate ExportsUnique(m: Summary) {
    && (forall id | id in m.exports && id.0 != Constraints :: |m.exports[id]| < 2)
    && forall name :: !((Bindings, name) in m.exports && (FacetIds, name) in m.exports)
  }

  /** The six namespaces the rule walks; constraints are not among them. */
  const CHECKED: seq<Namespace> := [Components, Definitions, Artifacts, Catalogues, FacetIds, Bindings]

  function NamesIn(m: Summary, ns: Namespace): set<string> {
    set id | id in m.exports && id.0 == ns :: id.1
  }

  /** The names of a namespace exported twice. */
  ghost function Repeated(m: Summary, ns: Namespace): set<string> {
    set id | id in m.exports && id.0 == ns && |m.exports[id]| >= 2 :: id.1
  }

  /** The binding ids that are facet ids too. */
  ghost function SharedNames(m: Summary): set<string> {
    set id | id in m.exports && id.0 == Bindings && (FacetIds, id.1) in m.exports :: id.1
  }

  /** What the rule reports, from the `k`th namespace on. */
  ghost function UniqueRule(m: Summary, k: nat): Rule
    requires k <= |CHECKED|
    decreases |CHECKED| - k
  {
    if k == |CHECKED| then
      if SharedNames(m) == {} then Passed else SharedId(Sorting.Least(SharedNames(m)))
    else if Repeated(m, CHECKED[k]) == {} then UniqueRule(m, k + 1)
    else DuplicateExport((CHECKED[k], Sorting.Least(Repeated(m, CHECKED[k]))))
  }

  method CheckUnique(m: Summary, ns: Namespace) returns (v: Rule)
    ensures v == if Repeated(m, ns) == {} then Passed else DuplicateExport((ns, Sorting.Least(Repeated(m, ns))))
  {
    var names := Sorting.Keys(NamesIn(m, ns));
    for k := 0 to |names|
      invariant forall i | 0 <= i < k :: names[i] !in Repeated(m, ns)
    {
      assert names[k] in NamesIn(m, ns);
      if |m.exports[(ns, names[k])]| >= 2 {
        assert (ns, names[k]).1 in Repeated(m, ns);
        Sorting.FirstIsLeast(NamesIn(m, ns), k, Repeated(m, ns));
        return DuplicateExport((ns, names[k]));
      }
    }
    forall name ensures name !in Repeated(m, ns) {
      assert name in Repeated(m, ns) ==> name in NamesIn(m, ns);
      assert name in NamesIn(m, ns) ==> name in names;
    }
    return Passed;
  }

  method CheckShared(m: Summary) returns (v: Rule)
    ensures v == if SharedNames(m) == {} then Passed else SharedId(Sorting.Least(SharedNames(m)))
  {
    var names := Sorting.Keys(NamesIn(m, Bindings));
    for k := 0 to |names|
      invariant forall i | 0 <= i < k :: names[i] !in SharedNames(m)
    {
      assert names[k] in NamesIn(m, Bindings);
      if (FacetIds, names[k]) in m.exports {
        assert (Bindings, names[k]).1 in SharedNames(m);
        Sorting.FirstIsLeast(NamesIn(m, Bindings), k, SharedNames(m));
        return SharedId(names[k]);
      }
    }
    forall name ensures name !in SharedNames(m) {
      assert name in SharedNames(m) ==> name in NamesIn(m, Bindings);
      assert name in NamesIn(m, Bindings) ==> name in names;
    }
    return Passed;
  }

  method ValidateUniqueExports(m: Summary) returns (v: Rule)
    ensures v == UniqueRule(m, 0)
    ensures v == Passed <==> ExportsUnique(m)
  {
    UniquePasses(m);
    for k := 0 to |CHECKED|
      invariant UniqueRule(m, 0) == UniqueRule(m, k)
    {
      v := CheckUnique(m, CHECKED[k]);
      if v != Passed { return; }
    }
    v := CheckShared(m);
  }

  lemma UniquePasses(m: Summary)
    ensures UniqueRule(m, 0) == Passed <==> ExportsUnique(m)
  {
    UniqueFrom(m, 0);
    NoneRepeated(m);
    NoneShared(m);
  }

  lemma NoneRepeated(m: Summary)
    ensures (forall i | 0 <= i < |CHECKED| :: Repeated(m, CHECKED[i]) == {}) <==>
            forall id | id in m.exports && id.0 != Constraints :: |m.exports[id]| < 2
  {
    if forall i | 0 <= i < |CHECKED| :: Repeated(m, CHECKED[i]) == {} {
      forall id | id in m.exports && id.0 != Constraints ensures |m.exports[id]| < 2 {
        CheckedNamespace(id.0);
        var i :| 0 <= i < |CHECKED| && CHECKED[i] == id.0;
        assert id.1 !in Repeated(m, CHECKED[i]);
      }
    }
    if forall id | id in m.exports && id.0 != Constraints :: |m.exports[id]| < 2 {
      forall i | 0 <= i < |CHECKED| ensures Repeated(m, CHECKED[i]) == {} {
        assert CHECKED[i] != Constraints;
      }
    }
  }

  lemma NoneShared(m: Summary)
    ensures SharedNames(m) == {} <==> forall name :: !((Bindings, name) in m.exports && (FacetIds, name) in m.exports)
  {
    forall name | (Bindings, name) in m.exports && (FacetIds, name) in m.exports ensures name in SharedNames(m) {
      assert (Bindings, name).1 in SharedNames(m);
    }
  }

  lemma CheckedNamespace(ns: Namespace)
    requires ns != Constraints
    ensures ns in CHECKED
  {
    var i := if ns == Components then 0 else if ns == Definitions then 1 else if ns == Artifacts then 2
             else if ns == Catalogues then 3 else if ns == FacetIds then 4 else 5;
    assert CHECKED[i] == ns;
  }

  lemma {:induction false} UniqueFrom(m: Summary, k: nat)
    requires k <= |CHECKED|
    ensures UniqueRule(m, k) == Passed <==>
            (forall i | k <= i < |CHECKED| :: Repeated(m, CHECKED[i]) == {}) && SharedNames(m) == {}
    decreases |CHECKED| - k
  {
    if k < |CHECKED| { UniqueFrom(m, k + 1); }
  }

  // ----- bindings -----

  predicate DeriveOk(m: Summary, link: BindingLink, entries: seq<string>, scope: Scope) {
    link.deriveSource.Some? ==>
      match DeclaredDomain(m, link.deriveSource.value)
      case None => scope == UnitLocal
      case Some(domain) => forall p | p in link.derivePairs :: p.0 in domain && p.1 in entries
  }

  /** A binding's default and derive table stay within its catalogue and its source. */
  predicate BindingOk(m: Summary, link: BindingLink, scope: Scope) {
    && !(link.fallback.Some? && link.deriveSourceCount > 0)
    && match Lookup(m.catalogueEntries, link.catalogue)
       case None => scope == UnitLocal
       case Some(entries) =>
         && (link.fallback.Some? ==> link.fallback.value in entries)
         && link.deriveSourceCount <= 1
         && DeriveOk(m, link, entries, scope)
  }

  method CheckPairs(pairs: seq<(string, string)>, domain: seq<string>, entries: seq<string>) returns (ok: bool)
    ensures ok <==> forall p | p in pairs :: p.0 in domain && p.1 in entries
  {
    for k := 0 to |pairs|
      invariant forall i | 0 <= i < k :: pairs[i].0 in domain && pairs[i].1 in entries
    {
      if pairs[k].0 !in domain || pairs[k].1 !in entries {
        assert pairs[k] in pairs;
        return false;
      }
    }
    return true;
  }

  method CheckBinding(m: Summary, link: BindingLink, scope: Scope) returns (ok: bool)
    ensures ok <==> BindingOk(m, link, scope)
  {
    if link.fallback.Some? && link.deriveSourceCount > 0 { return false; }
    if link.catalogue !in m.catalogueEntries { return scope == UnitLocal; }
    var entries := m.catalogueEntries[link.catalogue];
    if link.fallback.Some? && link.fallback.value !in entries { return false; }
    if link.deriveSourceCount > 1 { return false; }
    if link.deriveSource.None? { return true; }
    var domain := DeclaredDomain(m, link.deriveSource.value);
    if domain.None? { return scope == UnitLocal; }
    ok := CheckPairs(link.derivePairs, domain.value, entries);
  }

  ghost function BadBindings(m: Summary, scope: Scope): set<string> {
    set b | b in m.bindingLinks && !BindingOk(m, m.bindingLinks[b], scope)
  }

  ghost function BindingRule(m: Summary, scope: Scope): Rule {
    if BadBindings(m, scope) == {} then Passed else BadBinding(Sorting.Least(BadBindings(m, scope)))
  }

  method ValidateBindingLinks(m: Summary, scope: Scope) returns (v: Rule)
    ensures v == BindingRule(m, scope)
    ensures v == Passed <==> forall b | b in m.bindingLinks :: BindingOk(m, m.bindingLinks[b], scope)
  {
    var ids := Sorting.Keys(m.bindingLinks.Keys);
    for k := 0 to |ids|
      invariant forall i | 0 <= i < k :: ids[i] !in BadBindings(m, scope)
    {
      assert ids[k] in m.bindingLinks.Keys;
      var ok := CheckBinding(m, m.bindingLinks[ids[k]], scope);
      if !ok {
        Sorting.FirstIsLeast(m.bindingLinks.Keys, k, BadBindings(m, scope));
        return BadBinding(ids[k]);
      }
    }
    forall b | b in m.bindingLinks ensures b !in BadBindings(m, scope) {
      assert b in ids;
    }
    return Passed;
  }

  // ----- requirements -----

  /** The entries of the binding's catalogue; none when the catalogue is not there. */
  function EntriesFor(m: Summary, binding: string): seq<string> {
    if binding in m.bindingLinks && m.bindingLinks[binding].catalogue in m.catalogueEntries
    then m.catalogueEntries[m.bindingLinks[binding].catalogue] else []
  }

  predicate AcceptsListOk(list: seq<string>, entries: seq<string>, condition: Option<string>) {
    && list != []
    && Sorting.NoRepeats(list)
    && (forall e | e in list :: e in entries)
    && (condition.Some? && Trim(condition.value) != [] ==> ParseCondition(Trim(condition.value)).Got?)
  }

  predicate RequirementOk(m: Summary, r: RequirementLink, scope: Scope) {
    if r.binding !in m.bindingLinks then scope == UnitLocal
    else r.accepts.Some? ==> AcceptsListOk(r.accepts.value, EntriesFor(m, r.binding), r.condition)
  }

  method CheckAccepts(list: seq<string>, entries: seq<string>, condition: Option<string>) returns (ok: bool)
    ensures ok <==> AcceptsListOk(list, entries, condition)
  {
    if list == [] { return false; }
    var seen: set<string> := {};
    for k := 0 to |list|
      invariant forall e :: e in seen <==> e in list[..k]
      invariant Sorting.NoRepeats(list[..k]) && forall i | 0 <= i < k :: list[i] in entries
    {
      if list[k] in seen || list[k] !in entries {
        return false;
      }
      seen := seen + {list[k]};
      assert list[..k + 1] == list[..k] + [list[k]];
    }
    assert list[..|list|] == list;
    return condition.Some? && Trim(condition.value) != [] ==> ParseCondition(Trim(condition.value)).Got?;
  }

  /** Requirements that narrow a binding. */
  predicate Narrows(r: RequirementLink, b: string) {
    r.binding == b && r.accepts.Some?
  }

  predicate Narrowed(rs: seq<RequirementLink>, b: string) {
    exists r :: r in rs && Narrows(r, b)
  }

  /** The entry belongs to every list that narrows the binding. */
  predicate Survives(e: string, b: string, rs: seq<RequirementLink>) {
    forall r | r in rs && Narrows(r, b) :: e in r.accepts.value
  }

  /** Every narrowed binding keeps an entry of its catalogue. */
  ghost predicate AcceptsIntersect(m: Summary) {
    forall b | b in m.bindingLinks && Narrowed(m.requirements, b) :: Choosable(m, b)
  }

  ghost predicate Choosable(m: Summary, b: string) {
    exists e :: e in EntriesFor(m, b) && Survives(e, b, m.requirements)
  }

  function Retain(entries: seq<string>, list: seq<string>): (kept: seq<string>)
    ensures forall e :: e in kept <==> e in entries && e in list
  {
    if entries == [] then []
    else (if entries[0] in list then [entries[0]] else []) + Retain(entries[1..], list)
  }

  /** The `surviving` map after some requirements. */
  ghost predicate SurvivingOk(m: Summary, rs: seq<RequirementLink>, surviving: map<string, seq<string>>) {
    && (forall b :: b in surviving <==> b in m.bindingLinks && Narrowed(rs, b))
    && forall b, e | b in surviving :: e in surviving[b] <==> e in EntriesFor(m, b) && Survives(e, b, rs)
  }

  lemma SurvivesStep(e: string, b: string, rs: seq<RequirementLink>, r: RequirementLink)
    ensures Survives(e, b, rs + [r]) <==> Survives(e, b, rs) && (Narrows(r, b) ==> e in r.accepts.value)
    ensures Narrowed(rs + [r], b) <==> Narrowed(rs, b) || Narrows(r, b)
  {
    assert r in rs + [r];
    assert forall x :: x in rs + [r] <==> x in rs || x == r;
  }

  lemma NotYetNarrowed(e: string, b: string, rs: seq<RequirementLink>)
    requires !Narrowed(rs, b)
    ensures Survives(e, b, rs)
  {
  }

  function NarrowStep(m: Summary, r: RequirementLink, surviving: map<string, seq<string>>): map<string, seq<string>> {
    if r.accepts.None? || r.binding !in m.bindingLinks then surviving
    else
      var entries := if r.binding in surviving then surviving[r.binding] else EntriesFor(m, r.binding);
      surviving[r.binding := Retain(entries, r.accepts.value)]
  }

  lemma NarrowStepKeeps(m: Summary, rs: seq<RequirementLink>, r: RequirementLink, surviving: map<string, seq<string>>)
    requires SurvivingOk(m, rs, surviving)
    ensures SurvivingOk(m, rs + [r], NarrowStep(m, r, surviving))
  {
    var after := NarrowStep(m, r, surviving);
    forall b ensures b in after <==> b in m.bindingLinks && Narrowed(rs + [r], b) {
      SurvivesStep("", b, rs, r);
    }
    forall b, e | b in after ensures e in after[b] <==> e in EntriesFor(m, b) && Survives(e, b, rs + [r]) {
      SurvivesStep(e, b, rs, r);
      if b !in surviving { NotYetNarrowed(e, b, rs); }
    }
  }

  ghost function Stuck(m: Summary): set<string> {
    set b | b in m.bindingLinks && Narrowed(m.requirements, b) && !Choosable(m, b)
  }

  ghost function IntersectionRule(m: Summary): Rule {
    if Stuck(m) == {} then Passed else NoAcceptableEntry(Sorting.Least(Stuck(m)))
  }

  /** `validate_accepts_intersection`: fold the lists, then look for an empty one. */
  method ValidateAcceptsIntersection(m: Summary) returns (v: Rule)
    ensures v == IntersectionRule(m)
    ensures v == Passed <==> AcceptsIntersect(m)
  {
    var surviving: map<string, seq<string>> := map[];
    for k := 0 to |m.requirements|
      invariant SurvivingOk(m, m.requirements[..k], surviving)
    {
      var r := m.requirements[k];
      NarrowStepKeeps(m, m.requirements[..k], r, surviving);
      assert m.requirements[..k] + [r] == m.requirements[..k + 1];
      surviving := NarrowStep(m, r, surviving);
    }
    assert m.requirements[..|m.requirements|] == m.requirements;
    v := FirstEmpty(surviving);
    EmptyIsStuck(m, surviving);
    IntersectionPasses(m);
  }

  lemma IntersectionPasses(m: Summary)
    ensures IntersectionRule(m) == Passed <==> AcceptsIntersect(m)
  {
    if Stuck(m) == {} {
      forall b | b in m.bindingLinks && Narrowed(m.requirements, b) ensures Choosable(m, b) {
        assert b !in Stuck(m);
      }
    }
  }

  ghost function Emptied(surviving: map<string, seq<string>>): set<string> {
    set b | b in surviving && surviving[b] == []
  }

  lemma EmptyIsStuck(m: Summary, surviving: map<string, seq<string>>)
    requires SurvivingOk(m, m.requirements, surviving)
    ensures Emptied(surviving) == Stuck(m)
  {
    forall b | b in surviving ensures surviving[b] == [] <==> !Choosable(m, b) {
      if surviving[b] != [] { assert surviving[b][0] in surviving[b]; }
    }
  }

  method FirstEmpty(surviving: map<string, seq<string>>) returns (v: Rule)
    ensures v == if Emptied(surviving) == {} then Passed else NoAcceptableEntry(Sorting.Least(Emptied(surviving)))
  {
    var ids := Sorting.Keys(surviving.Keys);
    for k := 0 to |ids|
      invariant forall i | 0 <= i < k :: ids[i] !in Emptied(surviving)
    {
      assert ids[k] in surviving.Keys;
      if surviving[ids[k]] == [] {
        Sorting.FirstIsLeast(surviving.Keys, k, Emptied(surviving));
        return NoAcceptableEntry(ids[k]);
      }
    }
    forall b | b in surviving ensures b !in Emptied(surviving) {
      assert b in ids;
    }
    return Passed;
  }

  ghost predicate RequirementsOk(m: Summary, scope: Scope) {
    (forall r | r in m.requirements :: RequirementOk(m, r, scope)) && AcceptsIntersect(m)
  }

  /** What the rule reports, from the `k`th requirement on. */
  ghost function RequirementRule(m: Summary, scope: Scope, k: nat): Rule
    requires k <= |m.requirements|
    decreases |m.requirements| - k
  {
    if k == |m.requirements| then IntersectionRule(m)
    else if RequirementOk(m, m.requirements[k], scope) then RequirementRule(m, scope, k + 1)
    else BadRequirement(k)
  }

  method ValidateRequirements(m: Summary, scope: Scope) returns (v: Rule)
    ensures v == RequirementRule(m, scope, 0)
    ensures v == Passed <==> RequirementsOk(m, scope)
  {
    for k := 0 to |m.requirements|
      invariant forall i | 0 <= i < k :: RequirementOk(m, m.requirements[i], scope)
      invariant RequirementRule(m, scope, 0) == RequirementRule(m, scope, k)
    {
      var r := m.requirements[k];
      assert r in m.requirements;
      if r.binding !in m.bindingLinks {
        if scope == UnitLocal { continue; }
        return BadRequirement(k);
      }
      if r.accepts.Some? {
        var ok := CheckAccepts(r.accepts.value, EntriesFor(m, r.binding), r.condition);
        if !ok { return BadRequirement(k); }
      }
    }
    v := ValidateAcceptsIntersection(m);
  }

  /** Everything `validate_merged_summary` asks for. */
  ghost predicate SummaryOk(m: Summary, scope: Scope) {
    && ExportsUnique(m)
    && (forall b | b in m.bindingLinks :: BindingOk(m, m.bindingLinks[b], scope))
    && RequirementsOk(m, scope)
  }

  /** The first rule a summary breaks, and on what. */
  ghost function SummaryRule(m: Summary, scope: Scope): Rule {
    if UniqueRule(m, 0) != Passed then UniqueRule(m, 0)
    else if BindingRule(m, scope) != Passed then BindingRule(m, scope)
    else RequirementRule(m, scope, 0)
  }

  method ValidateMergedSummary(m: Summary, scope: Scope) returns (v: Rule)
    ensures v == SummaryRule(m, scope)
    ensures v == Passed <==> SummaryOk(m, scope)
  {
    v := ValidateUniqueExports(m);
    if v != Passed { return; }
    v := ValidateBindingLinks(m, scope);
    if v != Passed { return; }
    v := ValidateRequirements(m, scope);
  }

  lemma {:induction false} RequirementsFrom(m: Summary, scope: Scope, k: nat)
    requires k <= |m.requirements|
    ensures RequirementRule(m, scope, k) == Passed <==>
            (forall i | k <= i < |m.requirements| :: RequirementOk(m, m.requirements[i], scope)) && AcceptsIntersect(m)
    decreases |m.requirements| - k
  {
    if k < |m.requirements| { RequirementsFrom(m, scope, k + 1); } else { IntersectionPasses(m); }
  }

  /** No rule is broken exactly when the summary is in order. */
  lemma SummaryRulePasses(m: Summary, scope: Scope)
    ensures SummaryRule(m, scope) == Passed <==> SummaryOk(m, scope)
  {
    UniquePasses(m);
    RequirementsFrom(m, scope, 0);
    assert BindingRule(m, scope) == Passed <==> forall b | b in m.bindingLinks ::
        BindingOk(m, m.bindingLinks[b], scope) by {
      forall b | b in m.bindingLinks ensures BindingOk(m, m.bindingLinks[b], scope) <==> b !in BadBindings(m, scope) {
      }
    }
    forall r | r in m.requirements ensures exists i :: 0 <= i < |m.requirements| && m.requirements[i] == r {
    }
  }

  // ----- what acceptance means -----

  /** In a model accepted at link scope, every binding with an `accepts` list has a
      catalogue entry that belongs to every such list. */
  lemma AcceptedBindingIsChoosable(m: Summary, r: RequirementLink) returns (e: string)
    requires RequirementsOk(m, Complete) && r in m.requirements && r.accepts.Some?
    ensures r.binding in m.bindingLinks && m.bindingLinks[r.binding].catalogue in m.catalogueEntries
    ensures e in m.catalogueEntries[m.bindingLinks[r.binding].catalogue]
    ensures forall s | s in m.requirements && s.binding == r.binding && s.accepts.Some? :: e in s.accepts.value
  {
    assert RequirementOk(m, r, Complete);
    assert Narrows(r, r.binding);
    assert Narrowed(m.requirements, r.binding);
    assert Choosable(m, r.binding);
    e :| e in EntriesFor(m, r.binding) && Survives(e, r.binding, m.requirements);
    assert EntriesFor(m, r.binding) != [];
    forall s | s in m.requirements && s.binding == r.binding && s.accepts.Some? ensures e in s.accepts.value {
      assert Narrows(s, r.binding);
    }
  }

  /** Lists that share no catalogue entry refuse the model, at either scope. */
  lemma EmptyIntersectionRefused(m: Summary, b: string, scope: Scope)
    requires b in m.bindingLinks && Narrowed(m.requirements, b)
    requires forall e | e in EntriesFor(m, b) :: !Survives(e, b, m.requirements)
    ensures !SummaryOk(m, scope)
  {
  }

  /** What link scope accepts, unit scope accepts. */
  lemma CompleteImpliesUnitLocal(m: Summary)
    requires SummaryOk(m, Complete)
    ensures SummaryOk(m, UnitLocal)
  {
    forall b | b in m.bindingLinks ensures BindingOk(m, m.bindingLinks[b], UnitLocal) {
      assert BindingOk(m, m.bindingLinks[b], Complete);
    }
    forall r | r in m.requirements ensures RequirementOk(m, r, UnitLocal) {
      assert RequirementOk(m, r, Complete);
    }
  }

  /** Every catalogue, derive source and binding that is named is declared. */
  predicate AllResolved(m: Summary) {
    && (forall b | b in m.bindingLinks :: m.bindingLinks[b].catalogue in m.catalogueEntries)
    && (forall b | b in m.bindingLinks && m.bindingLinks[b].deriveSource.Some? ::
          DeclaredDomain(m, m.bindingLinks[b].deriveSource.value).Some?)
    && forall r | r in m.requirements :: r.binding in m.bindingLinks
  }

  /** Where everything resolves the two scopes give one verdict. */
  lemma ResolvedScopesCoincide(m: Summary)
    requires AllResolved(m)
    ensures SummaryOk(m, Complete) <==> SummaryOk(m, UnitLocal)
  {
    forall b | b in m.bindingLinks
      ensures BindingOk(m, m.bindingLinks[b], Complete) == BindingOk(m, m.bindingLinks[b], UnitLocal)
    {
    }
    forall r | r in m.requirements ensures RequirementOk(m, r, Complete) == RequirementOk(m, r, UnitLocal) {
    }
  }

  /** Unit scope defers what it cannot resolve, with one exception: an `accepts` list on a
      binding whose catalogue lives elsewhere is refused, not deferred. A requirement is
      deferred exactly when its binding is the thing that is missing. */
  lemma ImportedCatalogueIsNotDeferred(m: Summary, r: RequirementLink)
    requires r in m.requirements && r.accepts.Some?
    requires r.binding in m.bindingLinks ==> m.bindingLinks[r.binding].catalogue !in m.catalogueEntries
    ensures RequirementOk(m, r, UnitLocal) <==> r.binding !in m.bindingLinks
    ensures r.binding in m.bindingLinks ==> !SummaryOk(m, UnitLocal)
  {
    if r.binding in m.bindingLinks {
      assert EntriesFor(m, r.binding) == [];
      var list := r.accepts.value;
      assert list == [] || list[0] in list;
    }
  }
}
