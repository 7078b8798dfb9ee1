/** Ingest rules for facets and constraints (compiler/src/link_verify.rs). */
module FacetRules {
  import opened Conditions
  import opened Options
  import opened ConditionText
  import opened FacetComparison
  import opened Identifiers
  import ConditionRoundTrip
  import Sorting

  /** Whether an unresolved name is a fault or is left to the linker. */
  datatype Scope = Complete | UnitLocal

  /** Rust's `char::is_whitespace`. */
  predicate IsSpace(c: char) {
    || '\t' <= c <= '\r' || c == ' ' || c == '\U{85}' || c == '\U{A0}' || c == '\U{1680}'
    || '\U{2000}' <= c <= '\U{200A}' || c == '\U{2028}' || c == '\U{2029}' || c == '\U{202F}'
    || c == '\U{205F}' || c == '\U{3000}'
  }

  function TrimStart(t: string): (r: string)
    ensures |r| <= |t|
  {
    if t != [] && IsSpace(t[0]) then TrimStart(t[1..]) else t
  }

  function TrimEnd(t: string): (r: string)
    ensures |r| <= |t|
  {
    if t != [] && IsSpace(t[|t| - 1]) then TrimEnd(t[..|t| - 1]) else t
  }

  function Trim(t: string): string {
    TrimEnd(TrimStart(t))
  }

  lemma {:induction false} TrimStartIs(t: string)
    ensures TrimStart(t) == t[|t| - |TrimStart(t)|..]
    ensures forall k | 0 <= k < |t| - |TrimStart(t)| :: IsSpace(t[k])
    ensures TrimStart(t) != [] ==> !IsSpace(TrimStart(t)[0])
  {
    if t != [] && IsSpace(t[0]) { TrimStartIs(t[1..]); }
  }

  lemma {:induction false} TrimEndIs(t: string)
    ensures TrimEnd(t) == t[..|TrimEnd(t)|]
    ensures forall k | |TrimEnd(t)| <= k < |t| :: IsSpace(t[k])
    ensures TrimEnd(t) != [] ==> !IsSpace(TrimEnd(t)[|TrimEnd(t)| - 1])
  {
    if t != [] && IsSpace(t[|t| - 1]) { TrimEndIs(t[..|t| - 1]); }
  }

  /** Trimming drops the white space on both sides and nothing else. */
  lemma TrimIs(t: string) returns (i: nat, j: nat)
    ensures i <= j <= |t| && Trim(t) == t[i..j]
    ensures (forall k | 0 <= k < i :: IsSpace(t[k])) && forall k | j <= k < |t| :: IsSpace(t[k])
    ensures i < j ==> !IsSpace(t[i]) && !IsSpace(t[j - 1])
  {
    var u := TrimStart(t);
    TrimStartIs(t);
    TrimEndIs(u);
    i := |t| - |u|;
    j := i + |Trim(t)|;
    assert forall k | 0 <= k < |u| :: u[k] == t[i + k];
    forall k | j <= k < |t| ensures IsSpace(t[k]) { assert t[k] == u[k - i]; }
  }

  // ----- facets -----

  ghost predicate FacetOk(id: string, facet: Facet) {
    && Matches(SNAKE_ID, id)
    && (forall v | v in facet.values :: IsSymbolToken(v))
    && facet.values != []
    && Sorting.NoRepeats(facet.values)
    && (facet.fallback.Some? ==> facet.fallback.value in facet.values)
  }

  ghost predicate FacetsOk(facets: Facets) {
    forall f | f in facets :: FacetOk(f, facets[f])
  }

  /** A condition's equality predicates stay inside the closed domains they name. */
  predicate StaysInDomain(condition: string, facets: Facets) {
    match ParseCondition(Trim(condition))
    case Fail => true
    case Got(e, _) =>
      forall l | l in Leaves(e) && l.Predicate? && l.op == Eq && l.tag in facets && !facets[l.tag].open ::
        l.literal in facets[l.tag].values
  }

  datatype FacetVerdict =
    | FacetsAccepted
    | BadFacet(id: string)
    | OutsideDomain(tag: string, value: string)

  method CheckFacet(id: string, facet: Facet) returns (ok: bool)
    ensures ok <==> FacetOk(id, facet)
  {
    var snake := IsSnakeId(id);
    if !snake { return false; }
    for k := 0 to |facet.values|
      invariant forall i | 0 <= i < k :: IsSymbolToken(facet.values[i])
    {
      if !IsSymbolToken(facet.values[k]) { return false; }
    }
    if facet.values == [] { return false; }
    var seen: set<string> := {};
    for k := 0 to |facet.values|
      invariant forall v :: v in seen <==> v in facet.values[..k]
      invariant Sorting.NoRepeats(facet.values[..k])
    {
      if facet.values[k] in seen { return false; }
      seen := seen + {facet.values[k]};
      assert facet.values[..k + 1] == facet.values[..k] + [facet.values[k]];
    }
    assert facet.values[..|facet.values|] == facet.values;
    return facet.fallback.Some? ==> facet.fallback.value in facet.values;
  }

  method CheckCondition(condition: string, facets: Facets) returns (v: FacetVerdict)
    ensures v == FacetsAccepted <==> StaysInDomain(condition, facets)
    ensures v == FacetsAccepted || v.OutsideDomain?
  {
    var trimmed := Trim(condition);
    if trimmed == [] { return FacetsAccepted; }
    match ParseCondition(trimmed) {
      case Fail => return FacetsAccepted;
      case Got(e, _) =>
        var leaves := LeafList(e);
        for k := 0 to |leaves|
          invariant forall l | l in leaves[..k] && l.Predicate? && l.op == Eq && l.tag in facets &&
                    !facets[l.tag].open ::
              l.literal in facets[l.tag].values
        {
          var l := leaves[k];
          if l.Predicate? && l.op == Eq && l.tag in facets && !facets[l.tag].open &&
              l.literal !in facets[l.tag].values {
            assert l in Leaves(e);
            return OutsideDomain(l.tag, l.literal);
          }
          assert leaves[..k + 1] == leaves[..k] + [l];
        }
        assert leaves[..|leaves|] == leaves;
        return FacetsAccepted;
    }
  }

  lemma LaterKey(keys: set<string>, k: nat, f: string)
    requires k < |Sorting.Keys(keys)| && f in keys && f !in Sorting.Keys(keys)[..k]
    ensures Sorting.Le(Sorting.Keys(keys)[k], f)
  {
    var ids := Sorting.Keys(keys);
    Sorting.KeysAscend(keys);
    var i :| 0 <= i < |ids| && ids[i] == f;
    assert forall j | 0 <= j < k :: ids[..k][j] == ids[j];
    Sorting.LeTotal(f, f);
  }

  /** The least id of a map whose entry is at fault. */
  ghost predicate LeastFault(id: string, facets: Facets) {
    && id in facets && !FacetOk(id, facets[id])
    && forall f | f in facets && !FacetOk(f, facets[f]) :: Sorting.Le(id, f)
  }

  method CheckDeclarations(facets: Facets) returns (v: FacetVerdict)
    ensures v == FacetsAccepted <==> FacetsOk(facets)
    ensures v == FacetsAccepted || (v.BadFacet? && LeastFault(v.id, facets))
  {
    var ids := Sorting.Keys(facets.Keys);
    for k := 0 to |ids|
      invariant forall i | 0 <= i < k :: FacetOk(ids[i], facets[ids[i]])
    {
      assert ids[k] in facets.Keys;
      var ok := CheckFacet(ids[k], facets[ids[k]]);
      if !ok {
        forall f | f in facets && !FacetOk(f, facets[f]) ensures Sorting.Le(ids[k], f) {
          LaterKey(facets.Keys, k, f);
        }
        return BadFacet(ids[k]);
      }
    }
    forall f | f in facets ensures FacetOk(f, facets[f]) {
      assert f in ids;
    }
    return FacetsAccepted;
  }

  method CheckConditions(conditions: seq<string>, facets: Facets) returns (v: FacetVerdict)
    ensures v == FacetsAccepted <==> forall c | c in conditions :: StaysInDomain(c, facets)
    ensures v == FacetsAccepted || v.OutsideDomain?
  {
    for k := 0 to |conditions|
      invariant forall i | 0 <= i < k :: StaysInDomain(conditions[i], facets)
    {
      v := CheckCondition(conditions[k], facets);
      if v != FacetsAccepted {
        return;
      }
    }
    v := FacetsAccepted;
  }

  lemma OpenNeverGates(condition: string, facets: Facets)
    requires forall f | f in facets :: facets[f].open
    ensures StaysInDomain(condition, facets)
  {
  }

  /** `validate_facets`: the declarations in id order, then the conditions. The id it
      reports is the least faulty one. */
  method ValidateFacets(facets: Facets, conditions: seq<string>) returns (v: FacetVerdict)
    ensures v == FacetsAccepted <==> FacetsOk(facets) && forall c | c in conditions :: StaysInDomain(c, facets)
    ensures v.BadFacet? ==> LeastFault(v.id, facets)
  {
    v := CheckDeclarations(facets);
    if v != FacetsAccepted {
      return;
    }
    if forall f | f in facets :: facets[f].open {
      forall c | c in conditions ensures StaysInDomain(c, facets) {
        OpenNeverGates(c, facets);
      }
      return;
    }
    v := CheckConditions(conditions, facets);
  }

  // ----- constraints -----

  datatype Violation =
    | Satisfied
    | UndeclaredFacet(facet: string)
    | UndeclaredComparand(facet: string)
    | UndeclaredValue(facet: string, value: string)
  {
    predicate Unresolved() {
      UndeclaredFacet? || UndeclaredComparand?
    }
  }

  function LeafViolation(l: Expr, facets: Facets): Violation {
    match l
    case Predicate(t, _, v) =>
      if t !in facets then UndeclaredFacet(t)
      else if !facets[t].open && v !in facets[t].values then UndeclaredValue(t, v)
      else Satisfied
    case FacetCompare(x, _, y) =>
      if x !in facets then UndeclaredFacet(x) else if y !in facets then UndeclaredComparand(y) else Satisfied
    case _ => Satisfied
  }

  /** What a violation shows of the leaf. */
  lemma ViolationShows(l: Expr, facets: Facets)
    ensures match LeafViolation(l, facets)
            case UndeclaredFacet(f) =>
              f !in facets && ((l.Predicate? && l.tag == f) || (l.FacetCompare? && l.lhs == f))
            case UndeclaredComparand(f) => f !in facets && l.FacetCompare? && l.rhs == f && l.lhs in facets
            case UndeclaredValue(f, v) =>
              l.Predicate? && l.tag == f && l.literal == v && f in facets && !facets[f].open && v !in facets[f].values
            case Satisfied =>
              (l.Predicate? ==> l.tag in facets) && (l.FacetCompare? ==> l.lhs in facets && l.rhs in facets)
  {
  }

  /** The first violation of a walk over the leaves. */
  function FirstViolation(ls: seq<Expr>, facets: Facets): (v: Violation)
    ensures v == Satisfied <==> forall l | l in ls :: LeafViolation(l, facets) == Satisfied
  {
    if ls == [] then Satisfied
    else
      var v := LeafViolation(ls[0], facets);
      if v != Satisfied then v else FirstViolation(ls[1..], facets)
  }

  /** Every name is declared and every value of a closed facet is in its domain. */
  predicate OperandsOk(e: Expr, facets: Facets) {
    forall l | l in Leaves(e) :: LeafViolation(l, facets) == Satisfied
  }

  datatype ConstraintVerdict =
    | Accepted
    | Unparseable(id: string)
    | Violates(id: string, violation: Violation)

  function CheckText(id: string, text: string, facets: Facets, scope: Scope): ConstraintVerdict {
    match ParseCondition(Trim(text))
    case Fail => Unparseable(id)
    case Got(e, _) =>
      var v := FirstViolation(LeafList(e), facets);
      if v == Satisfied || (scope == UnitLocal && v.Unresolved()) then Accepted else Violates(id, v)
  }

  predicate Passes(constraints: map<string, string>, facets: Facets, scope: Scope, id: string) {
    id in constraints && CheckText(id, constraints[id], facets, scope) == Accepted
  }

  method CheckConstraint(id: string, text: string, facets: Facets, scope: Scope) returns (v: ConstraintVerdict)
    ensures v == CheckText(id, text, facets, scope)
  {
    match ParseCondition(Trim(text)) {
      case Fail => return Unparseable(id);
      case Got(e, _) =>
        var leaves := LeafList(e);
        var violation := Satisfied;
        for k := 0 to |leaves|
          invariant FirstViolation(leaves, facets) == if violation == Satisfied
                    then FirstViolation(leaves[k..], facets) else violation
        {
          if violation == Satisfied {
            violation := LeafViolation(leaves[k], facets);
          }
        }
        if scope == UnitLocal && violation.Unresolved() {
          violation := Satisfied;
        }
        return if violation == Satisfied then Accepted else Violates(id, violation);
    }
  }

  predicate AllPass(constraints: map<string, string>, facets: Facets, scope: Scope, ids: seq<string>, n: nat)
    requires n <= |ids|
  {
    forall i | 0 <= i < n :: Passes(constraints, facets, scope, ids[i])
  }

  lemma OneMorePasses(constraints: map<string, string>, facets: Facets, scope: Scope, ids: seq<string>, n: nat)
    requires n < |ids| && AllPass(constraints, facets, scope, ids, n) && ids[n] in constraints
    requires CheckText(ids[n], constraints[ids[n]], facets, scope) == Accepted
    ensures AllPass(constraints, facets, scope, ids, n + 1)
  {
    assert Passes(constraints, facets, scope, ids[n]);
  }

  lemma EveryPasses(constraints: map<string, string>, facets: Facets, scope: Scope)
    requires var ids := Sorting.Keys(constraints.Keys); AllPass(constraints, facets, scope, ids, |ids|)
    ensures forall id | id in constraints :: Passes(constraints, facets, scope, id)
  {
    forall id | id in constraints ensures Passes(constraints, facets, scope, id) {
      assert id in Sorting.Keys(constraints.Keys);
    }
  }

  lemma LeastRefused(constraints: map<string, string>, facets: Facets, scope: Scope, k: nat)
    requires var ids := Sorting.Keys(constraints.Keys);
             k < |ids| && AllPass(constraints, facets, scope, ids, k)
    ensures forall id | id in constraints && !Passes(constraints, facets, scope, id) ::
              Sorting.Le(Sorting.Keys(constraints.Keys)[k], id)
  {
    var ids := Sorting.Keys(constraints.Keys);
    forall id | id in constraints && !Passes(constraints, facets, scope, id) ensures Sorting.Le(ids[k], id) {
      LaterKey(constraints.Keys, k, id);
    }
  }

  /** `validate_constraints_scoped`: constraints in id order, the least faulty id reported. */
  method ValidateConstraints(constraints: map<string, string>, facets: Facets, scope: Scope)
      returns (v: ConstraintVerdict)
    ensures v == Accepted <==> forall id | id in constraints :: Passes(constraints, facets, scope, id)
    ensures v != Accepted ==> v.id in constraints && v == CheckText(v.id, constraints[v.id], facets, scope) &&
                              forall id | id in constraints &&
                                  !Passes(constraints, facets, scope, id) :: Sorting.Le(v.id, id)
  {
    var ids := Sorting.Keys(constraints.Keys);
    for k := 0 to |ids|
      invariant AllPass(constraints, facets, scope, ids, k)
    {
      assert ids[k] in constraints.Keys;
      v := CheckConstraint(ids[k], constraints[ids[k]], facets, scope);
      if v != Accepted {
        LeastRefused(constraints, facets, scope, k);
        return;
      }
      OneMorePasses(constraints, facets, scope, ids, k);
    }
    EveryPasses(constraints, facets, scope);
    v := Accepted;
  }

  /** At link scope a constraint is accepted exactly when it parses and all its operands
      are declared. */
  lemma CompleteScopeMeans(id: string, text: string, facets: Facets)
    ensures var r := ParseCondition(Trim(text));
            CheckText(id, text, facets, Complete) == Accepted <==> r.Got? && OperandsOk(r.value, facets)
  {
  }

  predicate NoneUnresolved(e: Expr, facets: Facets) {
    forall l | l in Leaves(e) :: !LeafViolation(l, facets).Unresolved()
  }

  /** Whatever link scope accepts, unit scope accepts; and where every name resolves the
      two verdicts are one. */
  lemma ConstraintScopesAgree(id: string, text: string, facets: Facets)
    ensures CheckText(id, text, facets, Complete) == Accepted ==> CheckText(id, text, facets, UnitLocal) == Accepted
    ensures var r := ParseCondition(Trim(text));
            (r.Got? ==> NoneUnresolved(r.value, facets)) ==>
            CheckText(id, text, facets, Complete) == CheckText(id, text, facets, UnitLocal)
  {
    var r := ParseCondition(Trim(text));
    if r.Got? && NoneUnresolved(r.value, facets) {
      FirstIsSomeLeaf(LeafList(r.value), facets);
    }
  }

  lemma {:induction false} FirstIsSomeLeaf(ls: seq<Expr>, facets: Facets)
    ensures FirstViolation(ls, facets) == Satisfied ||
            exists l :: l in ls && LeafViolation(l, facets) == FirstViolation(ls, facets)
  {
    if ls != [] && LeafViolation(ls[0], facets) == Satisfied {
      FirstIsSomeLeaf(ls[1..], facets);
    }
  }

  /** A bad value that no unresolved name comes before. */
  ghost predicate ShowsBadValue(ls: seq<Expr>, facets: Facets) {
    exists k :: 0 <= k < |ls| && LeafViolation(ls[k], facets).UndeclaredValue? &&
                forall i | 0 <= i < k :: !LeafViolation(ls[i], facets).Unresolved()
  }

  lemma BadValueAt(ls: seq<Expr>, facets: Facets, k: nat)
    requires k < |ls| && LeafViolation(ls[k], facets).UndeclaredValue?
    requires forall i | 0 <= i < k :: !LeafViolation(ls[i], facets).Unresolved()
    ensures ShowsBadValue(ls, facets)
  {
  }

  lemma {:induction false} FirstIsBadValue(ls: seq<Expr>, facets: Facets)
    ensures FirstViolation(ls, facets).UndeclaredValue? <==> ShowsBadValue(ls, facets)
  {
    if ls != [] {
      var rest := ls[1..];
      FirstIsBadValue(rest, facets);
      if LeafViolation(ls[0], facets) == Satisfied {
        if ShowsBadValue(rest, facets) {
          var k :| 0 <= k < |rest| && LeafViolation(rest[k], facets).UndeclaredValue? &&
                   forall i | 0 <= i < k :: !LeafViolation(rest[i], facets).Unresolved();
          BadValueAt(ls, facets, k + 1);
        }
        if ShowsBadValue(ls, facets) {
          var k :| 0 <= k < |ls| && LeafViolation(ls[k], facets).UndeclaredValue? &&
                   forall i | 0 <= i < k :: !LeafViolation(ls[i], facets).Unresolved();
          BadValueAt(rest, facets, k - 1);
        }
      }
    }
  }

  /** At unit scope a constraint that parses is refused exactly when it holds a bad value of a
      declared facet that no unresolved name comes before: such a name hides what follows. */
  lemma UnitScopeReports(id: string, text: string, facets: Facets)
    ensures var r := ParseCondition(Trim(text));
            CheckText(id, text, facets, UnitLocal) == Accepted <==> r.Got? && !ShowsBadValue(LeafList(r.value), facets)
  {
    var r := ParseCondition(Trim(text));
    if r.Got? { FirstIsBadValue(LeafList(r.value), facets); }
  }

  lemma TrimKeeps(t: string)
    requires t != [] && !IsSpace(t[0]) && !IsSpace(t[|t| - 1])
    ensures Trim(t) == t
  {
  }

  /** The two predicates joined by `&&`, as an author would write them. */
  function Joined(p: Expr, q: Expr): string {
    Print(And(p, q), OrStrength)
  }

  lemma JoinedReads(tag: string, value: string, tag': string, value': string)
    requires IsTag(tag) && IsTag(tag') && '\'' !in value && '\'' !in value'
    ensures var p, q := Predicate(tag, Eq, value), Predicate(tag', Eq, value');
            Trim(Joined(p, q)) == Joined(p, q) && ParseCondition(Joined(p, q)) == Got(And(p, q), [])
  {
    var p, q := Predicate(tag, Eq, value), Predicate(tag', Eq, value');
    var t := Joined(p, q);
    ConditionRoundTrip.SerializeThenParse(And(p, q));
    assert t[0] == tag[0] && t[|t| - 1] == '\'';
    TrimKeeps(t);
  }

  /** A declared facet's bad value goes unreported at unit scope when an undeclared facet
      is named before it, and is reported when the two are the other way round. */
  lemma UnresolvedNameHidesBadValue(id: string, facets: Facets, ghostly: string, x: string, f: string, v: string)
    requires IsTag(ghostly) && ghostly !in facets && '\'' !in x
    requires IsTag(f) && f in facets && !facets[f].open && v !in facets[f].values && '\'' !in v
    ensures var p, q := Predicate(ghostly, Eq, x), Predicate(f, Eq, v);
            && CheckText(id, Joined(p, q), facets, UnitLocal) == Accepted
            && CheckText(id, Joined(q, p), facets, UnitLocal) == Violates(id, UndeclaredValue(f, v))
  {
    var p, q := Predicate(ghostly, Eq, x), Predicate(f, Eq, v);
    JoinedReads(ghostly, x, f, v);
    JoinedReads(f, v, ghostly, x);
    assert LeafList(And(p, q)) == [p, q] && LeafList(And(q, p)) == [q, p];
  }
}
