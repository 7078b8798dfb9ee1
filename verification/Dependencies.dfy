/** Component dependencies and definition inheritance
    (compiler/src/link_verify.rs `validate_component_dependencies_scoped`,
    `validate_definition_inheritance_scoped`). */
module Dependencies {
  import opened Conditions
  import opened ConditionText
  import opened FacetComparison
  import opened FacetRules
  import opened Graphs
  import opened Options
  import opened Implication
  import opened ImplicationExact
  import DF = DepthFirst
  import DepthCeiling
  import FirstPaths
  import ConditionRoundTrip
  import Sorting

  datatype Component = Component(condition: Option<string>, dependsOn: seq<string>)

  type Components = map<string, Component>

  datatype Verdict =
    | DependenciesAccepted
    | SelfDependency(name: string)
    | UnknownComponent(name: string, dep: string)
    | ConditionError(name: string, dep: string)
    | Incompatible(name: string, dep: string)
    | WalkRefused(outcome: DF.Outcome)

  function GraphOf(components: Components): DF.Graph {
    DF.Graph(map n | n in components :: FirstSeen(components[n].dependsOn), map[])
  }

  /** The depender's condition holds only where the dependency's does, as the engine
      judges it. */
  ghost predicate Compatible(components: Components, n: string, d: string) {
    && n in components
    && (d in components ==> ImpliesTexts(components[n].condition, components[d].condition) == Decided(true))
  }

  predicate Resolved(components: Components, n: string, d: string, scope: Scope) {
    n != d && (scope == UnitLocal || d in components)
  }

  ghost predicate TargetsOk(components: Components, n: string, scope: Scope)
    requires n in components
  {
    forall d | d in components[n].dependsOn :: Resolved(components, n, d, scope)
  }

  ghost predicate ConditionsOk(components: Components, n: string)
    requires n in components
  {
    forall d | d in components[n].dependsOn :: Compatible(components, n, d)
  }

  ghost predicate DependenciesOk(components: Components, scope: Scope) {
    && (forall n | n in components :: TargetsOk(components, n, scope))
    && (forall n | n in components :: ConditionsOk(components, n))
    && DF.Check(GraphOf(components), DF.Roots(GraphOf(components))).Fine?
  }

  ghost predicate AllTargetsOk(components: Components, scope: Scope) {
    forall n | n in components :: TargetsOk(components, n, scope)
  }

  ghost predicate AllConditionsOk(components: Components) {
    forall n | n in components :: ConditionsOk(components, n)
  }

  predicate DependsOn(components: Components, n: string, d: string) {
    n in components && d in components[n].dependsOn
  }

  ghost predicate Judged(components: Components, n: string, d: string, verdict: Implication.Verdict) {
    d in components && DependsOn(components, n, d) &&
    ImpliesTexts(components[n].condition, components[d].condition) == verdict
  }

  /** What a target refusal shows. */
  ghost predicate BlamesTarget(components: Components, scope: Scope, v: Verdict) {
    match v
    case SelfDependency(n) => DependsOn(components, n, n)
    case UnknownComponent(n, d) => DependsOn(components, n, d) && n != d && d !in components && scope == Complete
    case _ => false
  }

  /** What a condition refusal shows. */
  ghost predicate BlamesCondition(components: Components, v: Verdict) {
    match v
    case ConditionError(n, d) => exists t :: Judged(components, n, d, ConditionFails(t))
    case Incompatible(n, d) => Judged(components, n, d, Decided(false))
    case _ => false
  }

  /** Every refusal shows its reason, and conditions are judged only once all targets resolve,
      cycles looked for only once all conditions agree. */
  ghost predicate Explains(components: Components, scope: Scope, v: Verdict) {
    || v == DependenciesAccepted
    || BlamesTarget(components, scope, v)
    || (AllTargetsOk(components, scope) && BlamesCondition(components, v))
    || (AllTargetsOk(components, scope) && AllConditionsOk(components) &&
        v == WalkRefused(DF.Check(GraphOf(components), DF.Roots(GraphOf(components)))))
  }

  function EdgesOf(components: Components, ns: seq<string>): map<string, seq<string>> {
    map n | n in ns && n in components :: FirstSeen(components[n].dependsOn)
  }

  lemma EdgesStep(components: Components, ns: seq<string>, k: nat)
    requires k < |ns| && ns[k] in components
    ensures EdgesOf(components, ns[..k + 1]) == EdgesOf(components, ns[..k])[ns[k] :=
            FirstSeen(components[ns[k]].dependsOn)]
  {
    assert ns[..k + 1] == ns[..k] + [ns[k]];
  }

  /** The edges, each target once in first-seen order. */
  method BuildEdges(components: Components) returns (edges: map<string, seq<string>>)
    ensures edges == GraphOf(components).edges
  {
    edges := map[];
    var ids := Sorting.Keys(components.Keys);
    for k := 0 to |ids|
      invariant edges == EdgesOf(components, ids[..k])
    {
      assert ids[k] in components.Keys;
      EdgesStep(components, ids, k);
      var deps := Deduplicate(components[ids[k]].dependsOn);
      edges := edges[ids[k] := deps];
    }
    assert ids[..|ids|] == ids;
  }

  method Deduplicate(targets: seq<string>) returns (deps: seq<string>)
    ensures deps == FirstSeen(targets)
  {
    var seen: set<string> := {};
    deps := [];
    for k := 0 to |targets|
      invariant deps == FirstSeen(targets[..k]) && forall d :: d in seen <==> d in deps
    {
      assert targets[..k + 1][..k] == targets[..k];
      if targets[k] !in seen {
        seen := seen + {targets[k]};
        deps := deps + [targets[k]];
      }
    }
    assert targets[..|targets|] == targets;
  }

  method CheckTargets(components: Components, n: string, deps: seq<string>, scope: Scope) returns (v: Verdict)
    requires n in components
    requires forall d | d in deps :: d in components[n].dependsOn
    ensures v == DependenciesAccepted <==> forall d | d in deps :: Resolved(components, n, d, scope)
    ensures v != DependenciesAccepted ==> BlamesTarget(components, scope, v)
  {
    for k := 0 to |deps|
      invariant forall i | 0 <= i < k :: Resolved(components, n, deps[i], scope)
    {
      assert deps[k] in deps;
      if n == deps[k] { return SelfDependency(n); }
      if deps[k] !in components && scope == Complete { return UnknownComponent(n, deps[k]); }
    }
    return DependenciesAccepted;
  }

  method CheckConditions(components: Components, n: string, deps: seq<string>) returns (v: Verdict)
    requires n in components
    requires forall d | d in deps :: d in components[n].dependsOn
    ensures v == DependenciesAccepted <==> forall d | d in deps :: Compatible(components, n, d)
    ensures v != DependenciesAccepted ==> BlamesCondition(components, v)
  {
    for k := 0 to |deps|
      invariant forall i | 0 <= i < k :: Compatible(components, n, deps[i])
    {
      assert deps[k] in deps;
      if deps[k] in components {
        var implies := ConditionImpliesTyped(components[n].condition, components[deps[k]].condition);
        if implies.ConditionFails? {
          assert Judged(components, n, deps[k], ConditionFails(implies.text));
          return ConditionError(n, deps[k]);
        }
        if !implies.implies { return Incompatible(n, deps[k]); }
      }
    }
    return DependenciesAccepted;
  }

  ghost predicate SameTargets(components: Components, edges: map<string, seq<string>>) {
    edges.Keys == components.Keys && forall n | n in components :: SameTargetsAt(components[n].dependsOn, edges[n])
  }

  ghost predicate SameTargetsAt(targets: seq<string>, deps: seq<string>) {
    forall d :: d in deps <==> d in targets
  }

  method CheckAllTargets(components: Components, edges: map<string, seq<string>>, scope: Scope) returns (v: Verdict)
    requires SameTargets(components, edges)
    ensures v == DependenciesAccepted <==> AllTargetsOk(components, scope)
    ensures v != DependenciesAccepted ==> BlamesTarget(components, scope, v)
  {
    var ids := Sorting.Keys(components.Keys);
    for k := 0 to |ids|
      invariant forall i | 0 <= i < k :: TargetsOk(components, ids[i], scope)
    {
      assert ids[k] in components.Keys && SameTargetsAt(components[ids[k]].dependsOn, edges[ids[k]]);
      v := CheckTargets(components, ids[k], edges[ids[k]], scope);
      if v != DependenciesAccepted {
        assert !TargetsOk(components, ids[k], scope);
        return;
      }
    }
    forall n | n in components ensures TargetsOk(components, n, scope) {
      assert n in ids;
    }
    v := DependenciesAccepted;
  }

  method CheckAllConditions(components: Components, edges: map<string, seq<string>>) returns (v: Verdict)
    requires SameTargets(components, edges)
    ensures v == DependenciesAccepted <==> AllConditionsOk(components)
    ensures v != DependenciesAccepted ==> BlamesCondition(components, v)
  {
    var ids := Sorting.Keys(components.Keys);
    for k := 0 to |ids|
      invariant forall i | 0 <= i < k :: ConditionsOk(components, ids[i])
    {
      assert ids[k] in components.Keys && SameTargetsAt(components[ids[k]].dependsOn, edges[ids[k]]);
      v := CheckConditions(components, ids[k], edges[ids[k]]);
      if v != DependenciesAccepted {
        assert !ConditionsOk(components, ids[k]);
        return;
      }
    }
    forall n | n in components ensures ConditionsOk(components, n) {
      assert n in ids;
    }
    v := DependenciesAccepted;
  }

  method ValidateComponentDependencies(components: Components, scope: Scope) returns (v: Verdict)
    ensures v == DependenciesAccepted <==> DependenciesOk(components, scope)
    ensures Explains(components, scope, v)
  {
    var edges := BuildEdges(components);
    assert SameTargets(components, edges) by {
      forall n | n in components ensures SameTargetsAt(components[n].dependsOn, edges[n]) {
      }
    }
    v := CheckAllTargets(components, edges, scope);
    if v != DependenciesAccepted { return; }
    v := CheckAllConditions(components, edges);
    if v != DependenciesAccepted { return; }
    var outcome := DF.CheckAcyclic(DF.Graph(edges, map[]));
    return if outcome.Fine? then DependenciesAccepted else WalkRefused(outcome);
  }

  /** What link scope accepts, unit scope accepts; where every target resolves the two
      verdicts are one. */
  lemma DependencyScopesAgree(components: Components)
    ensures DependenciesOk(components, Complete) ==> DependenciesOk(components, UnitLocal)
    ensures (forall n | n in components :: forall d | d in components[n].dependsOn :: d in components) ==>
            (DependenciesOk(components, Complete) <==> DependenciesOk(components, UnitLocal))
  {
    forall n | n in components
      ensures TargetsOk(components, n, Complete) ==> TargetsOk(components, n, UnitLocal)
      ensures (forall d | d in components[n].dependsOn :: d in components) ==>
              (TargetsOk(components, n, Complete) <==> TargetsOk(components, n, UnitLocal))
    {
      forall d | d in components[n].dependsOn
        ensures Resolved(components, n, d, Complete) <==> Resolved(components, n, d, UnitLocal) && d in components
      {
      }
    }
  }

  // ----- inclusion is dependency-closed -----

  /** A component is included where its condition holds; without one it always is. */
  predicate Included(c: Component, sel: Selection) {
    match c.condition
    case None => true
    case Some(t) => ParseCondition(t).Got? && Eval(ParseCondition(t).value, Bound(sel))
  }

  function ConditionOf(c: Component): Expr {
    match c.condition
    case None => Bool(true)
    case Some(t) => var r := ParseCondition(t); if r.Got? then r.value else Bool(false)
  }

  /** Every facet a condition names has a value. */
  predicate Covers(sel: Selection, components: Components) {
    forall n | n in components :: TagsIn(Leaves(ConditionOf(components[n]))) <= sel.Keys
  }

  /** Every comparison of every condition follows one of the edges. */
  predicate ConditionsWithin(components: Components, es: seq<Edge>) {
    forall n | n in components :: ComparesWithin(Leaves(ConditionOf(components[n])), es)
  }

  lemma BothWithin(a: Expr, b: Expr, es: seq<Edge>, sel: Selection)
    requires ComparesWithin(Leaves(a), es) && ComparesWithin(Leaves(b), es)
    requires TagsIn(Leaves(a)) <= sel.Keys && TagsIn(Leaves(b)) <= sel.Keys
    ensures ComparesWithin(BothLeaves(a, b), es) && TagsIn(BothLeaves(a, b)) <= sel.Keys
  {
    TagsJoin(Leaves(a), Leaves(b));
  }

  lemma EdgeCarries(components: Components, n: string, d: string, es: seq<Edge>, sel: Selection)
    requires n in components && d in components && Compatible(components, n, d)
    requires Forest(es) && ConditionsWithin(components, es) && Covers(sel, components)
    ensures Included(components[n], sel) ==> Included(components[d], sel)
  {
    var a, b := ConditionOf(components[n]), ConditionOf(components[d]);
    if components[d].condition.Some? && Included(components[n], sel) {
      BothWithin(a, b, es, sel);
      ForestIsExact(a, b, es);
      assert ImpliesAt(a, b, sel);
    }
  }

  /** Each component of the path declares the next one as a dependency. */
  predicate DependsAlong(components: Components, p: seq<string>) {
    |p| > 0 && forall i | 0 <= i < |p| - 1 :: DependsOn(components, p[i], p[i + 1])
  }

  lemma PathsAreDependencies(components: Components, p: seq<string>)
    ensures DF.Path(GraphOf(components), p) <==> DependsAlong(components, p)
  {
    var g := GraphOf(components);
    forall n, d ensures d in DF.Next(g, n) <==> DependsOn(components, n, d) { }
    if DependsAlong(components, p) {
      forall i | 0 <= i < |p| - 1 ensures p[i + 1] in DF.Next(g, p[i]) { assert DependsOn(components, p[i], p[i + 1]); }
    }
    if DF.Path(g, p) {
      forall i | 0 <= i < |p| - 1 ensures DependsOn(components, p[i], p[i + 1]) { assert p[i + 1] in DF.Next(g, p[i]); }
    }
  }

  /** The walk goes through the targets once each, where they are first declared. */
  lemma TargetsInOrder(components: Components, n: string)
    requires n in components
    ensures n in GraphOf(components).edges && InFirstOrder(components[n].dependsOn, GraphOf(components).edges[n])
  {
    FirstSeenInOrder(components[n].dependsOn);
  }

  ghost predicate NoDependencyCycle(components: Components) {
    forall p | DependsAlong(components, p) && |p| >= 2 :: p[0] != p[|p| - 1]
  }

  lemma AcyclicMeans(components: Components)
    ensures DF.Acyclic(GraphOf(components)) <==> NoDependencyCycle(components)
  {
    forall p ensures DF.Path(GraphOf(components), p) <==> DependsAlong(components, p) {
      PathsAreDependencies(components, p);
    }
    if DF.Acyclic(GraphOf(components)) {
      forall p | DependsAlong(components, p) && |p| >= 2 ensures p[0] != p[|p| - 1] {
        assert !DF.RealCycle(GraphOf(components), p);
      }
    }
  }

  lemma PathTail(g: DF.Graph, p: seq<string>)
    requires DF.Path(g, p) && |p| > 1
    ensures p[1] in DF.Next(g, p[0]) && DF.Path(g, p[1..])
  {
    var q := p[1..];
    assert p[0 + 1] in DF.Next(g, p[0]);
    forall i | 0 <= i < |q| - 1 ensures q[i + 1] in DF.Next(g, q[i]) {
      assert p[i + 1 + 1] in DF.Next(g, p[i + 1]);
    }
  }

  lemma TargetIsKnown(components: Components, n: string, d: string)
    requires DependenciesOk(components, Complete) && n in components && d in DF.Next(GraphOf(components), n)
    ensures d in components && Compatible(components, n, d)
  {
    assert d in components[n].dependsOn;
    assert TargetsOk(components, n, Complete) && ConditionsOk(components, n);
    assert Resolved(components, n, d, Complete);
  }

  /** Inclusion is dependency-closed: in an accepted model, under every selection, a
      component is included only together with everything it transitively depends on,
      by whatever paths. The comparisons in the conditions must form a forest. */
  lemma {:induction false} InclusionIsClosed(components: Components, es: seq<Edge>, sel: Selection, p: seq<string>)
    requires DependenciesOk(components, Complete)
    requires Forest(es) && ConditionsWithin(components, es) && Covers(sel, components)
    requires DependsAlong(components, p) && p[0] in components
    ensures p[|p| - 1] in components
    ensures Included(components[p[0]], sel) ==> Included(components[p[|p| - 1]], sel)
    decreases |p|
  {
    if |p| > 1 {
      PathsAreDependencies(components, p);
      PathsAreDependencies(components, p[1..]);
      PathTail(GraphOf(components), p);
      TargetIsKnown(components, p[0], p[1]);
      EdgeCarries(components, p[0], p[1], es, sel);
      InclusionIsClosed(components, es, sel, p[1..]);
    }
  }

  /** An accepted model has no dependency cycle, by whatever names. */
  lemma AcceptedIsAcyclic(components: Components, scope: Scope)
    requires DependenciesOk(components, scope)
    ensures NoDependencyCycle(components)
  {
    AcyclicMeans(components);
    DF.CheckIsRight(GraphOf(components));
  }

  /** Acceptance in terms of the declarations: every target resolves, every edge is compatible,
      there is no cycle, and no first path is longer than the ceiling. */
  lemma AcceptedIff(components: Components, scope: Scope)
    ensures DependenciesOk(components, scope) <==>
            && (forall n | n in components :: TargetsOk(components, n, scope))
            && (forall n | n in components :: ConditionsOk(components, n))
            && NoDependencyCycle(components) && !FirstPaths.HasDeepFirstPath(GraphOf(components))
  {
    AcyclicMeans(components);
    FirstPaths.AcceptedIff(GraphOf(components));
  }

  // ----- and where it is not -----

  /** A component guarded by a comparison cycle, depending on one that is never included. */
  function BrokenModel(p: seq<string>, lib: string, app: string): Components {
    map[lib := Component(Some(Print(Bool(false), OrStrength)), []),
        app := Component(Some(Print(CycleCondition(p), OrStrength)), [lib])]
  }

  lemma {:induction false} CycleTextParses(p: seq<string>)
    requires |p| >= 3 && forall t | t in p :: IsTag(t)
    ensures ParseCondition(Print(CycleCondition(p), OrStrength)) == Got(CycleCondition(p), [])
  {
    var ls := CycleLeaves(p);
    forall k | 0 <= k < |p| ensures IsTag(p[k]) { assert p[k] in p; }
    ComparisonsPrintable(ls);
    ConditionRoundTrip.SerializeThenParse(CycleCondition(p));
  }

  lemma {:induction false} ComparisonsPrintable(ls: seq<Expr>)
    requires forall l | l in ls :: l.FacetCompare? && IsTag(l.lhs) && IsIdent(l.rhs)
    ensures PrintableEach(ls) && NormalEach(ls) == ls
  {
    if ls != [] {
      ComparisonsPrintable(ls[1..]);
    }
  }

  lemma TwoKeys(x: string, y: string)
    requires x != y && Sorting.Le(x, y)
    ensures Sorting.Keys({x, y}) == [x, y]
  {
    assert Sorting.Ascending([x, y]);
    Sorting.KeysAscend({x, y});
    Sorting.AscendingUnique(Sorting.Keys({x, y}), [x, y]);
  }

  lemma OnlyTarget(x: string)
    ensures FirstSeen([x]) == [x]
  {
    assert [x][..0] == [];
  }

  lemma TwoNodesSettle(g: DF.Graph, x: string, y: string)
    requires x != y && g.missing == map[] && DF.Next(g, x) == [] && DF.Next(g, y) == [x]
    ensures DF.Settled(g, [x, y])
  {
    var order := [x, y];
    forall i | 0 <= i < |order|
      ensures order[i] !in g.missing && forall m | m in DF.Next(g, order[i]) :: m in order[..i]
    {
      if i == 1 { assert order[..i] == [x]; }
    }
  }

  lemma TwoRoots(components: Components, x: string, y: string)
    requires x != y && Sorting.Le(x, y) && components.Keys == {x, y}
    ensures DF.Roots(GraphOf(components)) == [x, y]
  {
    assert GraphOf(components).edges.Keys == {x, y};
    TwoKeys(x, y);
  }

  lemma TwoLinks(components: Components, x: string, y: string)
    requires components.Keys == {x, y} && components[x].dependsOn == [] && components[y].dependsOn == [x]
    ensures DF.Next(GraphOf(components), x) == [] && DF.Next(GraphOf(components), y) == [x]
  {
    OnlyTarget(x);
  }

  lemma TwoRootsSettle(components: Components, x: string, y: string)
    requires x != y && Sorting.Le(x, y) && components.Keys == {x, y}
    requires components[x].dependsOn == [] && components[y].dependsOn == [x]
    ensures DF.Settled(GraphOf(components), DF.Roots(GraphOf(components)))
  {
    TwoRoots(components, x, y);
    TwoLinks(components, x, y);
    TwoNodesSettle(GraphOf(components), x, y);
  }

  lemma TwoNodesWalk(components: Components, x: string, y: string)
    requires x != y && Sorting.Le(x, y) && components.Keys == {x, y}
    requires components[x].dependsOn == [] && components[y].dependsOn == [x]
    ensures DF.Check(GraphOf(components), DF.Roots(GraphOf(components))).Fine?
  {
    TwoRootsSettle(components, x, y);
    DepthCeiling.SettledRootsAccepted(GraphOf(components));
  }

  lemma BrokenEdge(p: seq<string>, lib: string, app: string)
    requires |p| >= 3 && Sorting.NoRepeats(p) && (forall t | t in p :: IsTag(t)) && lib != app
    ensures Compatible(BrokenModel(p, lib, app), app, lib)
    ensures Included(BrokenModel(p, lib, app)[app], ThreeValues(p)) &&
            !Included(BrokenModel(p, lib, app)[lib], ThreeValues(p))
  {
    CycleTextParses(p);
    ConditionRoundTrip.SerializeThenParse(Bool(false));
    ThreeValuesHold(p);
    CycleRefutesTable(p);
  }

  /** With a comparison cycle the promised closure fails: the model is accepted, and yet
      a selection includes a component without its dependency. */
  lemma ComparisonCycleBreaksInclusion(p: seq<string>, lib: string, app: string)
    requires |p| >= 3 && Sorting.NoRepeats(p) && (forall t | t in p :: IsTag(t)) && lib != app && Sorting.Le(lib, app)
    ensures DependenciesOk(BrokenModel(p, lib, app), Complete)
    ensures Included(BrokenModel(p, lib, app)[app], ThreeValues(p)) &&
            !Included(BrokenModel(p, lib, app)[lib], ThreeValues(p))
  {
    TwoNodesWalk(BrokenModel(p, lib, app), lib, app);
    BrokenEdge(p, lib, app);
    OneEdgeOk(BrokenModel(p, lib, app), lib, app);
  }

  lemma OneEdgeOk(components: Components, x: string, y: string)
    requires x != y && components.Keys == {x, y} && components[x].dependsOn == [] && components[y].dependsOn == [x]
    requires Compatible(components, y, x)
    ensures forall n | n in components :: TargetsOk(components, n, Complete)
    ensures forall n | n in components :: ConditionsOk(components, n)
  {
  }

  lemma CycleRefutesTable(p: seq<string>)
    requires |p| >= 3 && Sorting.NoRepeats(p)
    ensures TableImplies(CycleCondition(p), Bool(false))
  {
    var es := seq(|p|, k requires 0 <= k < |p| => (p[k], if k + 1 == |p| then p[0] else p[k + 1]));
    forall k | 0 <= k < |p| ensures Adjacent(EdgeSet(es), p[k], if k + 1 == |p| then p[0] else p[k + 1]) {
      assert es[k] in es;
    }
    assert Cycle(EdgeSet(es), p) by {
      forall k | 0 <= k < |p| - 1 ensures Adjacent(EdgeSet(es), p[k], p[k + 1]) {
        assert es[k] in es;
      }
      assert es[|p| - 1] in es;
    }
    CycleIsWrong(es, p);
  }

  /** Under every selection, what a component reaches is included with it. */
  ghost predicate InclusionClosed(components: Components) {
    forall sel, p | Covers(sel, components) && DependsAlong(components, p) && p[0] in components &&
        Included(components[p[0]], sel) ::
      p[|p| - 1] in components && Included(components[p[|p| - 1]], sel)
  }

  predicate Tagged(es: seq<Edge>) {
    forall e | e in es :: IsTag(e.0) && IsTag(e.1)
  }

  lemma CycleIsTagged(es: seq<Edge>, p: seq<string>)
    requires Tagged(es) && Cycle(EdgeSet(es), p)
    ensures forall t | t in p :: IsTag(t)
  {
    forall t | t in p ensures IsTag(t) {
      var k :| 0 <= k < |p| && p[k] == t;
      if k < |p| - 1 { assert Adjacent(EdgeSet(es), p[k], p[k + 1]); }
    }
  }

  lemma CycleWithin(es: seq<Edge>, p: seq<string>)
    requires Cycle(EdgeSet(es), p)
    ensures ComparesWithin(Leaves(CycleCondition(p)), es)
  {
    CycleIsWrong(es, p);
  }

  lemma CycleCovered(p: seq<string>)
    requires |p| >= 3
    ensures TagsIn(Leaves(CycleCondition(p))) <= ThreeValues(p).Keys
  {
    var leaves := Leaves(CycleCondition(p));
    forall l ensures l in leaves <==> l in CycleLeaves(p) { CycleConditionLeaves(p, l); }
    forall t | t in TagsIn(leaves) ensures t in ThreeValues(p) { CycleTags(p, leaves, t); }
  }

  lemma BrokenConditions(p: seq<string>, lib: string, app: string)
    requires |p| >= 3 && (forall t | t in p :: IsTag(t)) && lib != app
    ensures ConditionOf(BrokenModel(p, lib, app)[lib]) == Bool(false)
    ensures ConditionOf(BrokenModel(p, lib, app)[app]) == CycleCondition(p)
  {
    CycleTextParses(p);
    ConditionRoundTrip.SerializeThenParse(Bool(false));
  }

  lemma NothingInFalse(es: seq<Edge>)
    ensures ComparesWithin(Leaves(Bool(false)), es) && TagsIn(Leaves(Bool(false))) == {}
  {
  }

  lemma BrokenWithin(es: seq<Edge>, p: seq<string>, lib: string, app: string)
    requires Tagged(es) && Cycle(EdgeSet(es), p) && lib != app
    ensures ConditionsWithin(BrokenModel(p, lib, app), es) && Covers(ThreeValues(p), BrokenModel(p, lib, app))
  {
    CycleIsTagged(es, p);
    BrokenConditions(p, lib, app);
    NothingInFalse(es);
    CycleWithin(es, p);
    CycleCovered(p);
  }

  /** One edge that does not carry inclusion is enough. */
  lemma OpenEdge(components: Components, x: string, y: string, sel: Selection)
    requires x in components && y in components && x in DF.Next(GraphOf(components), y)
    requires Covers(sel, components) && Included(components[y], sel) && !Included(components[x], sel)
    ensures !InclusionClosed(components)
  {
    var q := [y, x];
    assert DependsAlong(components, q);
    assert q[0] == y && q[|q| - 1] == x;
  }

  /** Every accepted model whose conditions compare along the given edges includes closed
      sets of components, exactly when those edges form a forest. */
  lemma ClosedIffForest(es: seq<Edge>)
    requires SimpleEdges(es) && Tagged(es)
    ensures (forall components | DependenciesOk(components, Complete) &&
            ConditionsWithin(components, es) :: InclusionClosed(components)) <==>
            Forest(es)
  {
    if Forest(es) {
      forall components, sel, p | DependenciesOk(components, Complete) && ConditionsWithin(components, es) &&
          Covers(sel, components) &&
        DependsAlong(components, p) && p[0] in components && Included(components[p[0]], sel)
        ensures p[|p| - 1] in components && Included(components[p[|p| - 1]], sel)
      {
        InclusionIsClosed(components, es, sel, p);
      }
    } else {
      var p := NotForestHasCycle(es);
      CycleIsTagged(es, p);
      BrokenWithin(es, p, "a", "b");
      ComparisonCycleBreaksInclusion(p, "a", "b");
      TwoLinks(BrokenModel(p, "a", "b"), "a", "b");
      OpenEdge(BrokenModel(p, "a", "b"), "a", "b", ThreeValues(p));
    }
  }

  // ----- inheritance -----

  type Definitions = map<string, Option<string>>

  predicate Dangling(definitions: Definitions, n: string) {
    n in definitions && definitions[n].Some? && definitions[n].value !in definitions
  }

  /** The inheritance graph: at unit scope an unknown parent only ends the walk. */
  function InheritanceGraph(definitions: Definitions, scope: Scope): DF.Graph {
    DF.Graph(map n | n in definitions ::
               if definitions[n].Some? && definitions[n].value in definitions then [definitions[n].value] else [],
             if scope == UnitLocal then map[]
             else map n | n in definitions && Dangling(definitions, n) :: definitions[n].value)
  }

  function Inheritance(definitions: Definitions, scope: Scope): DF.Outcome {
    var g := InheritanceGraph(definitions, scope);
    DF.Check(g, DF.Roots(g))
  }

  method ValidateDefinitionInheritance(definitions: Definitions, scope: Scope) returns (r: DF.Outcome)
    ensures r == Inheritance(definitions, scope)
    ensures r.Fine? ==> NoInheritanceCycle(definitions)
    ensures r.Fine? && scope == Complete ==> forall n | n in definitions :: !Dangling(definitions, n)
    ensures ExplainsInheritance(definitions, scope, r)
  {
    r := DF.CheckAcyclic(InheritanceGraph(definitions, scope));
    NoCycleMeans(definitions, scope);
    InheritanceExplained(definitions, scope);
    InheritanceScopesAgree(definitions);
  }

  /** At link scope acceptance means every parent is known and no chain returns to
      itself; what link scope accepts unit scope accepts, and where every parent is
      known the two outcomes are one. */
  lemma InheritanceScopesAgree(definitions: Definitions)
    ensures Inheritance(definitions, Complete).Fine? ==>
              NoInheritanceCycle(definitions) && forall n | n in definitions :: !Dangling(definitions, n)
    ensures Inheritance(definitions, Complete).Fine? ==> Inheritance(definitions, UnitLocal).Fine?
    ensures (forall n | n in definitions :: !Dangling(definitions, n)) ==>
            Inheritance(definitions, Complete) == Inheritance(definitions, UnitLocal)
  {
    var g := InheritanceGraph(definitions, Complete);
    DF.CheckIsRight(g);
    NoCycleMeans(definitions, Complete);
    if g.missing == map[] {
      assert g == InheritanceGraph(definitions, UnitLocal);
      forall n | n in definitions ensures !Dangling(definitions, n) {
        assert n !in g.missing;
      }
    }
    if forall n | n in definitions :: !Dangling(definitions, n) {
      assert g.missing == map[];
    }
  }

  /** Each definition of the chain inherits from the next, which is known. */
  predicate Descends(definitions: Definitions, p: seq<string>) {
    |p| > 0 && forall i | 0 <= i < |p| - 1 :: Inherits(definitions, p[i], p[i + 1])
  }

  predicate Inherits(definitions: Definitions, n: string, parent: string) {
    n in definitions && definitions[n] == Some(parent) && parent in definitions
  }

  ghost predicate NoInheritanceCycle(definitions: Definitions) {
    forall p | Descends(definitions, p) && |p| >= 2 :: p[0] != p[|p| - 1]
  }

  /** No definition with a lesser name leads to the end of the chain. */
  ghost predicate FromLeastName(definitions: Definitions, p: seq<string>) {
    && Descends(definitions, p) && p[0] in definitions
    && forall q | Descends(definitions, q) && q[0] in definitions && q[|q| - 1] == p[|p| - 1] :: Sorting.Le(p[0], q[0])
  }

  lemma ChainsAreInheritance(definitions: Definitions, scope: Scope, p: seq<string>)
    ensures DF.Path(InheritanceGraph(definitions, scope), p) <==> Descends(definitions, p)
  {
    var g := InheritanceGraph(definitions, scope);
    forall n, d ensures d in DF.Next(g, n) <==> Inherits(definitions, n, d) { }
    if Descends(definitions, p) {
      forall i | 0 <= i < |p| - 1 ensures p[i + 1] in DF.Next(g, p[i]) { assert Inherits(definitions, p[i], p[i + 1]); }
    }
    if DF.Path(g, p) {
      forall i | 0 <= i < |p| - 1 ensures Inherits(definitions, p[i], p[i + 1]) { assert p[i + 1] in DF.Next(g, p[i]); }
    }
  }

  lemma LeastChains(definitions: Definitions, scope: Scope, p: seq<string>)
    ensures FirstPaths.FromLeast(InheritanceGraph(definitions, scope), p) <==> FromLeastName(definitions, p)
  {
    var g := InheritanceGraph(definitions, scope);
    forall q ensures DF.Path(g, q) <==> Descends(definitions, q) { ChainsAreInheritance(definitions, scope, q); }
    if FirstPaths.FromLeast(g, p) {
      forall q | Descends(definitions, q) && q[0] in definitions && q[|q| - 1] == p[|p| - 1]
        ensures Sorting.Le(p[0], q[0])
      {
        assert DF.Path(g, q) && FirstPaths.Reaches(g, q[0], p[|p| - 1]);
      }
    }
    if FromLeastName(definitions, p) {
      assert DF.Path(g, p) && FirstPaths.Reaches(g, p[0], p[|p| - 1]);
      forall x | x in g.edges && FirstPaths.Reaches(g, x, p[|p| - 1]) ensures Sorting.Le(p[0], x) {
        var q :| DF.Path(g, q) && q[0] == x && q[|q| - 1] == p[|p| - 1];
        assert Descends(definitions, q);
      }
    }
  }

  lemma NoCycleMeans(definitions: Definitions, scope: Scope)
    ensures DF.Acyclic(InheritanceGraph(definitions, scope)) <==> NoInheritanceCycle(definitions)
  {
    var g := InheritanceGraph(definitions, scope);
    forall p ensures DF.Path(g, p) <==> Descends(definitions, p) { ChainsAreInheritance(definitions, scope, p); }
    if DF.Acyclic(g) {
      forall p | Descends(definitions, p) && |p| >= 2 ensures p[0] != p[|p| - 1] { assert !DF.RealCycle(g, p); }
    }
  }

  /** What a refusal of the inheritance shows. */
  ghost predicate ExplainsInheritance(definitions: Definitions, scope: Scope, r: DF.Outcome) {
    match r
    case Fine(_) => true
    case CycleFound(p) => Descends(definitions, p) && |p| >= 2 && p[0] == p[|p| - 1]
    case TooDeep(n) => exists p :: DeepChain(definitions, p, n)
    case UnknownTarget(n, parent) =>
      scope == Complete && n in definitions && definitions[n] == Some(parent) && parent !in definitions
  }

  predicate DeepChain(definitions: Definitions, p: seq<string>, n: string) {
    Descends(definitions, p) && Sorting.NoRepeats(p) && |p| == DF.MAX_CHAIN_DEPTH + 1 && p[|p| - 1] == n
  }

  lemma InheritanceExplained(definitions: Definitions, scope: Scope)
    ensures ExplainsInheritance(definitions, scope, Inheritance(definitions, scope))
  {
    var g := InheritanceGraph(definitions, scope);
    DF.CheckIsRight(g);
    forall p ensures DF.Path(g, p) <==> Descends(definitions, p) { ChainsAreInheritance(definitions, scope, p); }
    var r := Inheritance(definitions, scope);
    if r.TooDeep? {
      var p :| DF.Path(g, p) && Sorting.NoRepeats(p) && |p| == DF.MAX_CHAIN_DEPTH + 1 && p[|p| - 1] == r.at;
      assert DeepChain(definitions, p, r.at);
    }
  }

  /** Definitions are accepted exactly when every parent is known (at link scope), no chain
      returns to itself, and no definition lies a thousand steps or more from the least-named
      definition that leads to it. */
  lemma InheritanceAcceptedIff(definitions: Definitions, scope: Scope)
    ensures Inheritance(definitions, scope).Fine? <==>
            && (scope == Complete ==> forall n | n in definitions :: !Dangling(definitions, n))
            && NoInheritanceCycle(definitions)
            && !exists p :: FromLeastName(definitions, p) && |p| > 1000
  {
    var g := InheritanceGraph(definitions, scope);
    FirstPaths.AcceptedIff(g);
    NoCycleMeans(definitions, scope);
    assert g.missing == map[] <==> (scope == Complete ==> forall n | n in definitions :: !Dangling(definitions, n)) by {
      if scope == Complete && g.missing == map[] {
        forall n | n in definitions ensures !Dangling(definitions, n) { assert n !in g.missing; }
      }
    }
    forall p ensures FirstPaths.FirstPath(g, p) <==> FromLeastName(definitions, p) {
      FirstPaths.FirstIffFromLeast(g, p);
      LeastChains(definitions, scope, p);
    }
  }
}
