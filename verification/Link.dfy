/** Stage 1 of a link, from object headers alone (compiler/src/link.rs). */
module Link {
  import opened FacetRules
  import opened LinkRules
  import opened HeaderMerge
  import opened Options
  import opened Summaries
  import Sorting

  /** A unit two objects claim, and the hashes of the two that are named. */
  datatype Shared = Shared(unit: string, first: string, second: string)

  datatype Linked =
    | Merged(summary: Summary)
    | DuplicateUnit(shared: Shared)
    | DuplicateId(id: Id)
    | UnresolvedImport(id: Id)
    | InterfaceMismatch(unit: string, ref: InterfaceRef)
    | RuleBroken(rule: Rule)

  // ----- order -----

  predicate UnitLe(a: Header, b: Header) {
    Sorting.Le(a.unit, b.unit)
  }

  function Ordered(headers: seq<Header>): seq<Header> {
    Sorting.Sort(headers, UnitLe)
  }

  lemma UnitLeTotal()
    ensures Sorting.TotalPreorder(UnitLe)
  {
    Sorting.LeIsTotalPreorder();
    forall x, y ensures UnitLe(x, y) || UnitLe(y, x) { Sorting.LeTotal(x.unit, y.unit); }
    forall x, y, z | UnitLe(x, y) && UnitLe(y, z) ensures UnitLe(x, z) { Sorting.LeTransitive(x.unit, y.unit, z.unit); }
  }

  /** The first two neighbours of one unit. */
  function Repeated(ordered: seq<Header>): Option<Shared> {
    if |ordered| < 2 then None
    else if ordered[0].unit == ordered[1].unit then
      Some(Shared(ordered[0].unit, ordered[0].objectHash, ordered[1].objectHash))
    else Repeated(ordered[1..])
  }

  predicate UnitsDistinct(headers: seq<Header>) {
    forall i, j | 0 <= i < j < |headers| :: headers[i].unit != headers[j].unit
  }

  lemma RepeatedStep(ordered: seq<Header>, k: nat)
    requires k + 1 < |ordered|
    ensures Repeated(ordered[k..]) ==
            if ordered[k].unit == ordered[k + 1].unit
            then Some(Shared(ordered[k].unit, ordered[k].objectHash, ordered[k + 1].objectHash))
            else Repeated(ordered[k + 1..])
  {
    assert ordered[k..][1..] == ordered[k + 1..];
  }

  method OrderObjects(headers: seq<Header>) returns (ordered: seq<Header>, repeated: Option<Shared>)
    ensures ordered == Ordered(headers) && repeated == Repeated(ordered)
    ensures multiset(ordered) == multiset(headers) && Sorting.Sorted(ordered, UnitLe)
  {
    ordered := Sorting.Sort(headers, UnitLe);
    UnitLeTotal();
    Sorting.SortSorts(headers, UnitLe);
    var k := 0;
    while k + 1 < |ordered|
      invariant k <= |ordered| && Repeated(ordered) == Repeated(ordered[k..])
    {
      if ordered[k].unit == ordered[k + 1].unit {
        RepeatedStep(ordered, k);
        return ordered, Some(Shared(ordered[k].unit, ordered[k].objectHash, ordered[k + 1].objectHash));
      }
      RepeatedStep(ordered, k);
      k := k + 1;
    }
    return ordered, None;
  }

  // ----- the checks -----

  const ALL: seq<Namespace> := [Definitions, Components, Artifacts, FacetIds, Bindings, Catalogues, Constraints]

  /** Imports a link must answer; a facet nobody declares is not an obligation. */
  const OBLIGATIONS: seq<Namespace> := [Components, Definitions, Bindings, Catalogues]

  function WithNamespace(ns: Namespace, names: seq<string>): (ids: seq<Id>)
    ensures forall id :: id in ids <==> id.0 == ns && id.1 in names
  {
    if names == [] then [] else [(ns, names[0])] + WithNamespace(ns, names[1..])
  }

  function NamesOf(keys: set<Id>, ns: Namespace): set<string> {
    set id | id in keys && id.0 == ns :: id.1
  }

  /** The ids of some namespaces, namespace by namespace and then by name. */
  function Listed(keys: set<Id>, namespaces: seq<Namespace>): (ids: seq<Id>)
    ensures forall id :: id in ids <==> id in keys && id.0 in namespaces
  {
    if namespaces == [] then []
    else
      var ns := namespaces[0];
      assert forall id | id in keys && id.0 == ns :: id.1 in NamesOf(keys, ns);
      WithNamespace(ns, Sorting.Keys(NamesOf(keys, ns))) + Listed(keys, namespaces[1..])
  }

  function FirstDuplicate(exports: map<Id, seq<string>>, ids: seq<Id>): (d: Option<Id>)
    requires forall id | id in ids :: id in exports
    ensures d.None? <==> forall id | id in ids :: |exports[id]| < 2
  {
    if ids == [] then None else if |exports[ids[0]]| >= 2 then Some(ids[0]) else FirstDuplicate(exports, ids[1..])
  }

  function FirstUnresolved(exports: set<Id>, ids: seq<Id>): (d: Option<Id>)
    ensures d.None? <==> forall id | id in ids :: id in exports
  {
    if ids == [] then None else if ids[0] !in exports then Some(ids[0]) else FirstUnresolved(exports, ids[1..])
  }

  method CheckDuplicateIds(m: Summary) returns (d: Option<Id>)
    ensures d == FirstDuplicate(m.exports, Listed(m.exports.Keys, ALL))
  {
    var ids := Listed(m.exports.Keys, ALL);
    for k := 0 to |ids|
      invariant FirstDuplicate(m.exports, ids) == FirstDuplicate(m.exports, ids[k..])
    {
      assert ids[k] in ids;
      if |m.exports[ids[k]]| >= 2 { return Some(ids[k]); }
    }
    return None;
  }

  method CheckUnresolvedImports(m: Summary) returns (d: Option<Id>)
    ensures d == FirstUnresolved(m.exports.Keys, Listed(m.imports.Keys, OBLIGATIONS))
  {
    var ids := Listed(m.imports.Keys, OBLIGATIONS);
    for k := 0 to |ids|
      invariant FirstUnresolved(m.exports.Keys, ids) == FirstUnresolved(m.exports.Keys, ids[k..])
    {
      UnresolvedStep(m.exports.Keys, ids, k);
      if ids[k] !in m.exports { return Some(ids[k]); }
    }
    return None;
  }

  lemma UnresolvedStep(exports: set<Id>, ids: seq<Id>, k: nat)
    requires k < |ids|
    ensures FirstUnresolved(exports, ids[k..]) ==
            if ids[k] !in exports then Some(ids[k]) else FirstUnresolved(exports, ids[k + 1..])
  {
    assert ids[k..][1..] == ids[k + 1..];
  }

  function HashOf(hs: seq<Header>): map<string, string> {
    if hs == [] then map[] else HashOf(hs[..|hs| - 1])[hs[|hs| - 1].unit := hs[|hs| - 1].objectHash]
  }

  predicate Agrees(linked: map<string, string>, ref: InterfaceRef) {
    ref.unit in linked ==> linked[ref.unit] == ref.objectHash
  }

  function FirstStale(linked: map<string, string>, refs: seq<InterfaceRef>): (d: Option<InterfaceRef>)
    ensures d.None? <==> forall ref | ref in refs :: Agrees(linked, ref)
  {
    if refs == [] then None else if !Agrees(linked, refs[0]) then Some(refs[0]) else FirstStale(linked, refs[1..])
  }

  function FirstMismatch(linked: map<string, string>, hs: seq<Header>): (d: Option<(string, InterfaceRef)>)
    ensures d.None? <==> forall h | h in hs :: forall ref | ref in h.interfaces :: Agrees(linked, ref)
  {
    if hs == [] then None
    else
      var stale := FirstStale(linked, hs[0].interfaces);
      if stale.Some? then Some((hs[0].unit, stale.value)) else FirstMismatch(linked, hs[1..])
  }

  method CheckInterfaceHashes(ordered: seq<Header>) returns (d: Option<(string, InterfaceRef)>)
    ensures d == FirstMismatch(HashOf(ordered), ordered)
  {
    var linked: map<string, string> := map[];
    for k := 0 to |ordered|
      invariant linked == HashOf(ordered[..k])
    {
      assert ordered[..k + 1][..k] == ordered[..k];
      linked := linked[ordered[k].unit := ordered[k].objectHash];
    }
    assert ordered[..|ordered|] == ordered;
    for k := 0 to |ordered|
      invariant FirstMismatch(linked, ordered) == FirstMismatch(linked, ordered[k..])
    {
      var refs := ordered[k].interfaces;
      for j := 0 to |refs|
        invariant FirstStale(linked, refs) == FirstStale(linked, refs[j..])
      {
        if refs[j].unit in linked && linked[refs[j].unit] != refs[j].objectHash {
          return Some((ordered[k].unit, refs[j]));
        }
      }
      assert ordered[k..][1..] == ordered[k + 1..];
    }
    return None;
  }

  // ----- the stage -----

  /** What is found first is reported. */
  ghost function Verdict(repeated: Option<Shared>, duplicate: Option<Id>, missing: Option<Id>,
                         stale: Option<(string, InterfaceRef)>, m: Summary): Linked {
    if repeated.Some? then DuplicateUnit(repeated.value)
    else if duplicate.Some? then DuplicateId(duplicate.value)
    else if missing.Some? then UnresolvedImport(missing.value)
    else if stale.Some? then InterfaceMismatch(stale.value.0, stale.value.1)
    else if SummaryRule(m, Complete) == Passed then Merged(m) else RuleBroken(SummaryRule(m, Complete))
  }

  ghost function LinkOrdered(ordered: seq<Header>): Linked {
    var m := MergeHeadersOf(ordered);
    Verdict(Repeated(ordered), FirstDuplicate(m.exports, Listed(m.exports.Keys, ALL)),
            FirstUnresolved(m.exports.Keys, Listed(m.imports.Keys, OBLIGATIONS)),
            FirstMismatch(HashOf(ordered), ordered), m)
  }

  method LinkStageHeaders(headers: seq<Header>) returns (r: Linked)
    ensures r == LinkOrdered(Ordered(headers))
    ensures var hs := Ordered(headers);
            r.Merged? <==> UnitsDistinct(hs) && ExportsDisjoint(hs) && ImportsProvided(hs) && InterfacesCurrent(hs) &&
                           SummaryOk(MergeHeadersOf(hs), Complete)
    ensures Explains(r, Ordered(headers))
  {
    OrderedIsSorted(headers);
    LinkSucceedsIff(Ordered(headers));
    LinkExplained(Ordered(headers));
    MergedMerges(Ordered(headers));
    var ordered, repeated := OrderObjects(headers);
    if repeated.Some? { return DuplicateUnit(repeated.value); }
    var m := MergeHeaders(ordered);
    var duplicate := CheckDuplicateIds(m);
    if duplicate.Some? { return DuplicateId(duplicate.value); }
    var missing := CheckUnresolvedImports(m);
    if missing.Some? { return UnresolvedImport(missing.value); }
    var stale := CheckInterfaceHashes(ordered);
    if stale.Some? { return InterfaceMismatch(stale.value.0, stale.value.1); }
    var rule := ValidateMergedSummary(m, Complete);
    return if rule == Passed then Merged(m) else RuleBroken(rule);
  }

  // ----- the lock -----

  datatype LockVerdict = LockKept | LockMismatch(unit: string) | NotLinked(unit: string)

  /** Every linked object is the pinned one. */
  predicate Pinned(lock: map<string, string>, h: Header) {
    h.unit in lock && lock[h.unit] == h.objectHash
  }

  predicate LinkedUnit(headers: seq<Header>, unit: string) {
    exists h :: h in headers && h.unit == unit
  }

  lemma FirstUnpinned(headers: seq<Header>, linked: seq<Header>, lock: map<string, string>, k: nat, h: Header)
    requires Sorted(linked) && k < |linked| && (forall x :: x in linked <==> x in headers)
    requires (forall i | 0 <= i < k :: Pinned(lock, linked[i])) && h in headers && !Pinned(lock, h)
    ensures Sorting.Le(linked[k].unit, h.unit)
  {
    assert h in linked;
    var i :| 0 <= i < |linked| && linked[i] == h;
    if i == k { Sorting.LeTotal(h.unit, h.unit); } else { assert UnitLe(linked[k], linked[i]); }
  }

  method CheckPins(lock: map<string, string>, headers: seq<Header>) returns (unpinned: Option<string>)
    ensures unpinned.None? <==> forall h | h in headers :: Pinned(lock, h)
    ensures unpinned.Some? ==> forall h | h in headers && !Pinned(lock, h) :: Sorting.Le(unpinned.value, h.unit)
  {
    var linked := Ordered(headers);
    OrderedCounts(headers);
    SameMembers(linked, headers);
    for k := 0 to |linked|
      invariant forall i | 0 <= i < k :: Pinned(lock, linked[i])
    {
      if linked[k].unit !in lock || lock[linked[k].unit] != linked[k].objectHash {
        assert linked[k] in headers;
        forall h | h in headers && !Pinned(lock, h) ensures Sorting.Le(linked[k].unit, h.unit) {
          FirstUnpinned(headers, linked, lock, k, h);
        }
        return Some(linked[k].unit);
      }
    }
    forall h | h in headers ensures Pinned(lock, h) {
      assert h in linked;
    }
    return None;
  }

  /** The least pinned unit for which nothing was linked. */
  ghost predicate LeastUnlinked(lock: map<string, string>, headers: seq<Header>, unit: string) {
    unit in lock && !LinkedUnit(headers, unit) && forall u | u in lock && !LinkedUnit(headers, u) :: Sorting.Le(unit, u)
  }

  method CheckAllLinked(lock: map<string, string>, headers: seq<Header>) returns (missing: Option<string>)
    ensures missing.None? <==> forall unit | unit in lock :: LinkedUnit(headers, unit)
    ensures missing.Some? ==> LeastUnlinked(lock, headers, missing.value)
  {
    var units := Sorting.Keys(lock.Keys);
    Sorting.KeysAscend(lock.Keys);
    for k := 0 to |units|
      invariant forall i | 0 <= i < k :: LinkedUnit(headers, units[i])
    {
      if !LinkedUnit(headers, units[k]) {
        assert units[k] in lock.Keys;
        forall unit | unit in lock && !LinkedUnit(headers, unit) ensures Sorting.Le(units[k], unit) {
          assert unit in units;
          var i :| 0 <= i < |units| && units[i] == unit;
          if i == k { Sorting.LeTotal(unit, unit); }
        }
        return Some(units[k]);
      }
    }
    forall unit | unit in lock ensures LinkedUnit(headers, unit) {
      assert unit in units;
    }
    return None;
  }

  /** `check_lock` (compiler/src/link_lock.rs): mismatches before pins nothing was linked
      for. The verdict depends on the set of objects, not on their order. */
  method CheckLock(lock: map<string, string>, headers: seq<Header>, allowExtra: bool) returns (v: LockVerdict)
    ensures v == LockKept <==>
            (forall h | h in headers :: Pinned(lock, h)) &&
                (allowExtra || forall unit | unit in lock :: LinkedUnit(headers, unit))
    ensures v.LockMismatch? <==> exists h :: h in headers && !Pinned(lock, h)
    ensures v.LockMismatch? ==> forall h | h in headers && !Pinned(lock, h) :: Sorting.Le(v.unit, h.unit)
    ensures v.NotLinked? ==> !allowExtra && LeastUnlinked(lock, headers, v.unit)
  {
    var unpinned := CheckPins(lock, headers);
    if unpinned.Some? { return LockMismatch(unpinned.value); }
    if allowExtra { return LockKept; }
    var missing := CheckAllLinked(lock, headers);
    return if missing.Some? then NotLinked(missing.value) else LockKept;
  }

  // ----- distinct units -----

  lemma UnitsDecide(headers: seq<Header>, x: Header, y: Header)
    requires UnitsDistinct(headers) && x in headers && y in headers && x.unit == y.unit
    ensures x == y
  {
  }

  lemma SameMembers(s: seq<Header>, t: seq<Header>)
    requires multiset(s) == multiset(t)
    ensures forall x :: x in s <==> x in t
  {
    forall x ensures x in s <==> x in t {
      assert x in s <==> x in multiset(s);
      assert x in t <==> x in multiset(t);
    }
  }

  lemma DistinctIsOrderIndependent(headers: seq<Header>, headers': seq<Header>)
    requires multiset(headers) == multiset(headers') && UnitsDistinct(headers)
    ensures Ordered(headers) == Ordered(headers')
  {
    UnitLeTotal();
    Sorting.SortSorts(headers, UnitLe);
    Sorting.SortSorts(headers', UnitLe);
    SameMembers(Ordered(headers), headers);
    forall x, y | x in Ordered(headers) && y in Ordered(headers) && UnitLe(x, y) && UnitLe(y, x) ensures x == y {
      Sorting.LeAntisymmetric(x.unit, y.unit);
      UnitsDecide(headers, x, y);
    }
    Sorting.SortedUnique(Ordered(headers), Ordered(headers'), UnitLe);
  }

  // ----- duplicate units -----

  function Count(hs: seq<Header>, unit: string): nat {
    if hs == [] then 0 else (if hs[0].unit == unit then 1 else 0) + Count(hs[1..], unit)
  }

  /** A unit claimed by two of the headers. */
  predicate Claimed(headers: seq<Header>, unit: string) {
    Count(headers, unit) >= 2
  }

  lemma {:induction false} CountJoin(a: seq<Header>, b: seq<Header>, unit: string)
    ensures Count(a + b, unit) == Count(a, unit) + Count(b, unit)
  {
    if a == [] {
      assert a + b == b;
    } else {
      assert (a + b)[1..] == a[1..] + b;
      CountJoin(a[1..], b, unit);
    }
  }

  lemma CountCons(h: Header, rest: seq<Header>, unit: string)
    ensures Count([h] + rest, unit) == (if h.unit == unit then 1 else 0) + Count(rest, unit)
  {
  }

  lemma CountRemove(hs: seq<Header>, j: nat, unit: string)
    requires j < |hs|
    ensures Count(hs, unit) == (if hs[j].unit == unit then 1 else 0) + Count(hs[..j] + hs[j + 1..], unit)
  {
    var left, h, right := hs[..j], hs[j], hs[j + 1..];
    Sorting.SplitAt(hs, j);
    CountJoin(left, right, unit);
    CountJoin(left, [h] + right, unit);
    CountCons(h, right, unit);
  }

  lemma {:induction false} CountPermutes(hs: seq<Header>, hs': seq<Header>, unit: string)
    requires multiset(hs) == multiset(hs')
    ensures Count(hs, unit) == Count(hs', unit)
    decreases |hs|
  {
    if hs == [] {
      assert |multiset(hs')| == 0;
    } else {
      var j := Sorting.FindHead(hs, hs');
      CountPermutes(hs[1..], hs'[..j] + hs'[j + 1..], unit);
      CountRemove(hs', j, unit);
    }
  }

  ghost predicate Sorted(hs: seq<Header>) {
    Sorting.Sorted(hs, UnitLe)
  }

  lemma {:induction false} CountedIsThere(hs: seq<Header>, unit: string) returns (i: nat)
    requires Count(hs, unit) > 0
    ensures i < |hs| && hs[i].unit == unit
  {
    if hs[0].unit == unit {
      i := 0;
    } else {
      i := CountedIsThere(hs[1..], unit);
      i := i + 1;
    }
  }

  lemma HeadIsLeast(hs: seq<Header>, unit: string)
    requires Sorted(hs) && Count(hs, unit) > 0
    ensures Sorting.Le(hs[0].unit, unit)
  {
    var i := CountedIsThere(hs, unit);
    if i == 0 { Sorting.LeTotal(unit, unit); } else { assert UnitLe(hs[0], hs[i]); }
  }

  /** A unit that differs from its successor in sorted order occurs once. */
  lemma HeadIsAlone(hs: seq<Header>)
    requires Sorted(hs) && |hs| >= 2 && hs[0].unit != hs[1].unit
    ensures Count(hs[1..], hs[0].unit) == 0
  {
    var u, rest := hs[0].unit, hs[1..];
    assert Sorted(rest);
    assert UnitLe(hs[0], hs[1]) && rest[0] == hs[1];
    if Count(rest, u) > 0 {
      HeadIsLeast(rest, u);
      Sorting.LeAntisymmetric(u, rest[0].unit);
    }
  }

  /** In sorted order a repeated unit shows as two neighbours, and the first such pair is
      the least repeated unit. */
  lemma {:induction false} RepeatedMeans(hs: seq<Header>, u: string)
    requires Sorted(hs)
    ensures Repeated(hs).Some? ==> Claimed(hs, Repeated(hs).value.unit)
    ensures Claimed(hs, u) ==> Repeated(hs).Some? && Sorting.Le(Repeated(hs).value.unit, u)
    decreases |hs|
  {
    if |hs| >= 2 {
      assert hs[1..][0] == hs[1];
      if hs[0].unit == hs[1].unit {
        assert Count(hs[1..], hs[0].unit) >= 1;
        if Claimed(hs, u) { HeadIsLeast(hs, u); }
      } else {
        assert Sorted(hs[1..]);
        HeadIsAlone(hs);
        RepeatedMeans(hs[1..], u);
      }
    } else if |hs| == 1 {
      assert hs[1..] == [];
    }
  }

  lemma RefusedForUnits(hs: seq<Header>)
    ensures LinkOrdered(hs).DuplicateUnit? <==> Repeated(hs).Some?
    ensures Repeated(hs).Some? ==> LinkOrdered(hs).shared == Repeated(hs).value
  {
    var m := MergeHeadersOf(hs);
    VerdictMeans(Repeated(hs), FirstDuplicate(m.exports, Listed(m.exports.Keys, ALL)),
                 FirstUnresolved(m.exports.Keys, Listed(m.imports.Keys, OBLIGATIONS)),
                 FirstMismatch(HashOf(hs), hs), m);
  }

  lemma VerdictMeans(repeated: Option<Shared>, duplicate: Option<Id>, missing: Option<Id>,
                     stale: Option<(string, InterfaceRef)>, m: Summary)
    ensures var r := Verdict(repeated, duplicate, missing, stale, m);
            && (r.DuplicateUnit? <==> repeated.Some?) && (repeated.Some? ==> r.shared == repeated.value)
            && (r.Merged? <==> repeated.None? && duplicate.None? && missing.None? && stale.None? &&
                               SummaryRule(m, Complete) == Passed)
            && (r.Merged? ==> r.summary == m)
  {
  }

  lemma OrderedCounts(headers: seq<Header>)
    ensures Sorted(Ordered(headers)) && multiset(Ordered(headers)) == multiset(headers)
  {
    UnitLeTotal();
    Sorting.SortSorts(headers, UnitLe);
  }

  /** Two headers of one unit are refused for their unit on every permutation, and then
      for the least such unit; nothing else is refused for its units. */
  lemma DuplicateUnitsAlwaysRefused(headers: seq<Header>, headers': seq<Header>, u: string)
    requires multiset(headers) == multiset(headers')
    ensures var r := LinkOrdered(Ordered(headers'));
            && (Claimed(headers, u) ==> r.DuplicateUnit? && Sorting.Le(r.shared.unit, u))
            && (r.DuplicateUnit? ==> Claimed(headers, r.shared.unit))
  {
    var ordered := Ordered(headers');
    OrderedCounts(headers');
    RefusedForUnits(ordered);
    RepeatedMeans(ordered, u);
    CountPermutes(headers, ordered, u);
    if Repeated(ordered).Some? { CountPermutes(headers, ordered, Repeated(ordered).value.unit); }
  }

  lemma SharedIsClaimed(headers: seq<Header>, i: nat, j: nat)
    requires i < j < |headers| && headers[i].unit == headers[j].unit
    ensures Claimed(headers, headers[i].unit)
  {
    var u := headers[i].unit;
    Sorting.SplitAt(headers, i);
    var before, after := headers[..i], headers[i + 1..];
    CountJoin(before, [headers[i]] + after, u);
    CountThere(after, j - i - 1);
    assert ([headers[i]] + after)[1..] == after;
  }

  lemma {:induction false} CountThere(hs: seq<Header>, k: nat)
    requires k < |hs|
    ensures Count(hs, hs[k].unit) >= 1
  {
    if k > 0 {
      assert hs[1..][k - 1] == hs[k];
      CountThere(hs[1..], k - 1);
    }
  }

  // ----- which two objects are named -----

  /** The headers of one unit, in the order given. */
  function Of(hs: seq<Header>, unit: string): (of: seq<Header>)
    ensures |of| == Count(hs, unit)
  {
    if hs == [] then [] else (if hs[0].unit == unit then [hs[0]] else []) + Of(hs[1..], unit)
  }

  lemma {:induction false} InsertKeepsOrder(h: Header, hs: seq<Header>, unit: string)
    ensures Of(Sorting.Insert(h, hs, UnitLe), unit) == Of([h] + hs, unit)
  {
    assert ([h] + hs)[1..] == hs;
    if hs != [] && !UnitLe(h, hs[0]) {
      InsertKeepsOrder(h, hs[1..], unit);
      Sorting.LeTotal(h.unit, h.unit);
      var rest := Sorting.Insert(h, hs[1..], UnitLe);
      assert ([hs[0]] + rest)[1..] == rest && ([h] + hs[1..])[1..] == hs[1..];
    }
  }

  /** The sort is stable: the headers of one unit stay as they were given. */
  lemma {:induction false} OrderedKeepsOrder(headers: seq<Header>, unit: string)
    ensures Of(Ordered(headers), unit) == Of(headers, unit)
  {
    if headers != [] {
      OrderedKeepsOrder(headers[1..], unit);
      InsertKeepsOrder(headers[0], Ordered(headers[1..]), unit);
      OfCons(headers[0], Ordered(headers[1..]), unit);
    }
  }

  lemma OfCons(h: Header, hs: seq<Header>, unit: string)
    ensures Of([h] + hs, unit) == (if h.unit == unit then [h] else []) + Of(hs, unit)
  {
    assert ([h] + hs)[1..] == hs;
  }

  /** In sorted order the neighbours found are the first two of their unit. */
  lemma {:induction false} RepeatedNames(hs: seq<Header>)
    requires Sorted(hs) && Repeated(hs).Some?
    ensures var s, of := Repeated(hs).value, Of(hs, Repeated(hs).value.unit);
            |of| >= 2 && s.first == of[0].objectHash && s.second == of[1].objectHash
  {
    if hs[0].unit == hs[1].unit {
      assert hs[1..][0] == hs[1];
      assert Of(hs[1..], hs[0].unit)[0] == hs[1];
    } else {
      assert Sorted(hs[1..]);
      HeadIsAlone(hs);
      RepeatedNames(hs[1..]);
    }
  }

  /** The least unit that two headers claim. */
  ghost predicate LeastClaimed(headers: seq<Header>, unit: string) {
    Claimed(headers, unit) && forall u | Claimed(headers, u) :: Sorting.Le(unit, u)
  }

  /** The refusal names the first two objects of the least claimed unit, in the order the
      headers were given. */
  lemma NamesFirstTwo(headers: seq<Header>, unit: string)
    requires LeastClaimed(headers, unit)
    ensures var of := Of(headers, unit);
            LinkOrdered(Ordered(headers)) == DuplicateUnit(Shared(unit, of[0].objectHash, of[1].objectHash))
  {
    var ordered := Ordered(headers);
    OrderedCounts(headers);
    DuplicateUnitsAlwaysRefused(headers, headers, unit);
    RefusedForUnits(ordered);
    var s := Repeated(ordered).value;
    Sorting.LeAntisymmetric(unit, s.unit);
    RepeatedNames(ordered);
    OrderedKeepsOrder(headers, unit);
  }

  /** Two objects of one unit with different hashes: the diagnostic follows their order. */
  lemma DiagnosticFollowsOrder(x: Header, y: Header)
    requires x.unit == y.unit && x.objectHash != y.objectHash
    ensures LinkOrdered(Ordered([x, y])) == DuplicateUnit(Shared(x.unit, x.objectHash, y.objectHash))
    ensures LinkOrdered(Ordered([y, x])) == DuplicateUnit(Shared(x.unit, y.objectHash, x.objectHash))
  {
    PairFirst(x, y, []);
    PairFirst(y, x, []);
    assert [x, y] == [x, y] + [] && [y, x] == [y, x] + [];
    OnlyClaimed(x, y);
    OnlyClaimed(y, x);
    NamesFirstTwo([x, y], x.unit);
    NamesFirstTwo([y, x], x.unit);
  }

  lemma PairFirst(x: Header, y: Header, rest: seq<Header>)
    requires x.unit == y.unit
    ensures Of([x, y] + rest, x.unit) == [x, y] + Of(rest, x.unit)
  {
    assert [x, y] + rest == [x] + ([y] + rest);
    OfCons(x, [y] + rest, x.unit);
    OfCons(y, rest, x.unit);
  }

  lemma OnlyClaimed(x: Header, y: Header)
    requires x.unit == y.unit
    ensures LeastClaimed([x, y], x.unit)
  {
    assert [x, y] == [x] + [y] && [y] == [y] + [];
    forall u ensures Claimed([x, y], u) <==> u == x.unit {
      CountCons(x, [y], u);
      CountCons(y, [], u);
    }
    Sorting.LeTotal(x.unit, x.unit);
  }

  // ----- every permutation -----

  predicate OneHash(headers: seq<Header>, unit: string) {
    forall x, y | x in headers && y in headers && x.unit == unit && y.unit == unit :: x.objectHash == y.objectHash
  }

  /** Nobody shares a unit, or the objects of the least shared unit have one hash. */
  ghost predicate Indifferent(headers: seq<Header>) {
    UnitsDistinct(headers) || forall u | LeastClaimed(headers, u) :: OneHash(headers, u)
  }

  ghost predicate OrderIndependent(headers: seq<Header>) {
    forall hs | multiset(hs) == multiset(headers) :: LinkOrdered(Ordered(hs)) == LinkOrdered(Ordered(headers))
  }

  lemma LeastClaimedExists(headers: seq<Header>) returns (u: string)
    requires !UnitsDistinct(headers)
    ensures LeastClaimed(headers, u)
  {
    var i, j :| 0 <= i < j < |headers| && headers[i].unit == headers[j].unit;
    SharedIsClaimed(headers, i, j);
    DuplicateUnitsAlwaysRefused(headers, headers, headers[i].unit);
    u := LinkOrdered(Ordered(headers)).shared.unit;
    forall v | Claimed(headers, v) ensures Sorting.Le(u, v) { DuplicateUnitsAlwaysRefused(headers, headers, v); }
  }

  lemma LeastClaimedPermutes(headers: seq<Header>, hs: seq<Header>, u: string)
    requires multiset(hs) == multiset(headers) && LeastClaimed(headers, u)
    ensures LeastClaimed(hs, u)
  {
    forall v ensures Claimed(hs, v) <==> Claimed(headers, v) { CountPermutes(hs, headers, v); }
  }

  lemma {:induction false} OfMembers(hs: seq<Header>, unit: string)
    ensures forall h | h in Of(hs, unit) :: h in hs && h.unit == unit
  {
    if hs != [] { OfMembers(hs[1..], unit); }
  }

  lemma OneHashIsIndependent(headers: seq<Header>, hs: seq<Header>, u: string)
    requires multiset(hs) == multiset(headers) && LeastClaimed(headers, u) && OneHash(headers, u)
    ensures LinkOrdered(Ordered(hs)) == LinkOrdered(Ordered(headers))
  {
    LeastClaimedPermutes(headers, hs, u);
    NamesFirstTwo(headers, u);
    NamesFirstTwo(hs, u);
    SameMembers(hs, headers);
    OfMembers(hs, u);
    OfMembers(headers, u);
    var x, y := Of(headers, u), Of(hs, u);
    assert x[0] in x && x[1] in x && y[0] in y && y[1] in y;
  }

  lemma TwoHashesDepend(headers: seq<Header>, u: string)
    requires LeastClaimed(headers, u) && !OneHash(headers, u)
    ensures !OrderIndependent(headers)
  {
    var x, y :| x in headers && y in headers && x.unit == u && y.unit == u && x.objectHash != y.objectHash;
    var rest := Sorting.BringForward(headers, x, y);
    PairNamed(headers, x, y, rest);
    PairNamed(headers, y, x, rest);
    TwoResults(headers, [x, y] + rest, [y, x] + rest);
  }

  lemma TwoResults(headers: seq<Header>, hs: seq<Header>, hs': seq<Header>)
    requires multiset(hs) == multiset(headers) == multiset(hs')
    requires LinkOrdered(Ordered(hs)) != LinkOrdered(Ordered(hs'))
    ensures !OrderIndependent(headers)
  {
  }

  lemma PairNamed(headers: seq<Header>, x: Header, y: Header, rest: seq<Header>)
    requires multiset([x, y] + rest) == multiset(headers) && x.unit == y.unit && LeastClaimed(headers, x.unit)
    ensures LinkOrdered(Ordered([x, y] + rest)) == DuplicateUnit(Shared(x.unit, x.objectHash, y.objectHash))
  {
    LeastClaimedPermutes(headers, [x, y] + rest, x.unit);
    NamesFirstTwo([x, y] + rest, x.unit);
    PairFirst(x, y, rest);
  }

  /** Every permutation of the headers links to the identical result, the same summary or the
      same diagnostic, exactly when no unit is shared or the objects of the least shared unit
      have one hash. */
  lemma OrderIndependentIff(headers: seq<Header>)
    ensures OrderIndependent(headers) <==> Indifferent(headers)
  {
    if UnitsDistinct(headers) {
      forall hs | multiset(hs) == multiset(headers) ensures LinkOrdered(Ordered(hs)) == LinkOrdered(Ordered(headers)) {
        DistinctIsOrderIndependent(headers, hs);
      }
    } else {
      var u := LeastClaimedExists(headers);
      if OneHash(headers, u) {
        forall v | LeastClaimed(headers, v) ensures v == u { Sorting.LeAntisymmetric(u, v); }
        forall hs | multiset(hs) == multiset(headers)
          ensures LinkOrdered(Ordered(hs)) == LinkOrdered(Ordered(headers))
        {
          OneHashIsIndependent(headers, hs, u);
        }
      } else {
        TwoHashesDepend(headers, u);
      }
    }
  }

  // ----- what a successful link is -----

  /** Somebody exports the id. */
  predicate Provided(hs: seq<Header>, id: Id) {
    exists i :: 0 <= i < |hs| && id in hs[i].exports
  }

  /** The id is exported by two of the headers. */
  predicate ExportedTwice(hs: seq<Header>, id: Id) {
    exists i, j :: 0 <= i < j < |hs| && id in hs[i].exports && id in hs[j].exports
  }

  lemma ProvidedStep(hs: seq<Header>, h: Header, id: Id)
    ensures Provided(hs + [h], id) <==> Provided(hs, id) || id in h.exports
  {
    var all := hs + [h];
    assert all[|hs|] == h && forall i | 0 <= i < |hs| :: all[i] == hs[i];
    if Provided(hs, id) {
      var i :| 0 <= i < |hs| && id in hs[i].exports;
      assert id in all[i].exports;
    }
  }

  lemma TwiceStep(hs: seq<Header>, h: Header, id: Id)
    ensures ExportedTwice(hs + [h], id) <==> ExportedTwice(hs, id) || (Provided(hs, id) && id in h.exports)
  {
    var all := hs + [h];
    assert all[|hs|] == h && forall i | 0 <= i < |hs| :: all[i] == hs[i];
    if ExportedTwice(hs, id) {
      var i, j :| 0 <= i < j < |hs| && id in hs[i].exports && id in hs[j].exports;
      assert id in all[i].exports && id in all[j].exports;
    }
    if Provided(hs, id) && id in h.exports {
      var i :| 0 <= i < |hs| && id in hs[i].exports;
      assert id in all[i].exports && id in all[|hs|].exports;
    }
    if ExportedTwice(all, id) {
      var i, j :| 0 <= i < j < |all| && id in all[i].exports && id in all[j].exports;
      assert id in hs[i].exports;
      if j < |hs| { assert id in hs[j].exports; }
    }
  }

  lemma {:induction false} MergedExports(hs: seq<Header>, id: Id)
    ensures id in MergeEach(hs).exports <==> Provided(hs, id)
    ensures id in MergeEach(hs).exports ==> |MergeEach(hs).exports[id]| >= 1
    ensures id in MergeEach(hs).exports ==> (|MergeEach(hs).exports[id]| >= 2 <==> ExportedTwice(hs, id))
    decreases |hs|
  {
    if hs != [] {
      var k := |hs| - 1;
      MergedExports(hs[..k], id);
      ProvidedStep(hs[..k], hs[k], id);
      TwiceStep(hs[..k], hs[k], id);
      assert hs == hs[..k] + [hs[k]];
    }
  }

  lemma {:induction false} MergedImports(hs: seq<Header>, id: Id)
    ensures id in MergeEach(hs).imports <==> Needed(hs, id)
    decreases |hs|
  {
    if hs != [] {
      var k := |hs| - 1;
      MergedImports(hs[..k], id);
      NeededStep(hs[..k], hs[k], id);
      assert hs == hs[..k] + [hs[k]];
    }
  }

  predicate Needed(hs: seq<Header>, id: Id) {
    exists i :: 0 <= i < |hs| && id in hs[i].imports
  }

  lemma NeededStep(hs: seq<Header>, h: Header, id: Id)
    ensures Needed(hs + [h], id) <==> Needed(hs, id) || id in h.imports
  {
    var all := hs + [h];
    assert all[|hs|] == h && forall i | 0 <= i < |hs| :: all[i] == hs[i];
    if Needed(hs, id) {
      var i :| 0 <= i < |hs| && id in hs[i].imports;
      assert id in all[i].imports;
    }
  }

  /** Everything a header needs from the others is there. */
  ghost predicate ImportsProvided(hs: seq<Header>) {
    forall id | Needed(hs, id) && id.0 in OBLIGATIONS :: Provided(hs, id)
  }

  ghost predicate ExportsDisjoint(hs: seq<Header>) {
    forall id :: !ExportedTwice(hs, id)
  }

  /** The object that provides the unit is not the one the reference was compiled against. */
  ghost predicate Stale(hs: seq<Header>, ref: InterfaceRef) {
    exists i :: 0 <= i < |hs| && hs[i].unit == ref.unit && hs[i].objectHash != ref.objectHash
  }

  ghost predicate InterfacesCurrent(hs: seq<Header>) {
    forall h | h in hs :: forall ref | ref in h.interfaces :: !Stale(hs, ref)
  }

  lemma {:induction false} HashOfUnit(hs: seq<Header>, i: nat)
    requires UnitsDistinct(hs) && i < |hs|
    ensures hs[i].unit in HashOf(hs) && HashOf(hs)[hs[i].unit] == hs[i].objectHash
    decreases |hs|
  {
    var k := |hs| - 1;
    if i < k { HashOfUnit(hs[..k], i); }
  }

  lemma {:induction false} HashOfIsThere(hs: seq<Header>, unit: string) returns (i: nat)
    requires unit in HashOf(hs)
    ensures i < |hs| && hs[i].unit == unit
    decreases |hs|
  {
    var k := |hs| - 1;
    if hs[k].unit == unit { i := k; } else { i := HashOfIsThere(hs[..k], unit); }
  }

  lemma StaleIff(hs: seq<Header>, ref: InterfaceRef)
    requires UnitsDistinct(hs)
    ensures Agrees(HashOf(hs), ref) <==> !Stale(hs, ref)
  {
    if ref.unit in HashOf(hs) {
      var i := HashOfIsThere(hs, ref.unit);
      HashOfUnit(hs, i);
    }
    forall i | 0 <= i < |hs| && hs[i].unit == ref.unit
      ensures ref.unit in HashOf(hs) && HashOf(hs)[ref.unit] == hs[i].objectHash
    {
      HashOfUnit(hs, i);
    }
  }

  lemma {:induction false} RepeatedAt(hs: seq<Header>) returns (i: nat)
    requires Repeated(hs).Some?
    ensures i + 1 < |hs| && Neighbours(hs, i, Repeated(hs).value)
    decreases |hs|
  {
    if hs[0].unit == hs[1].unit {
      i := 0;
    } else {
      i := RepeatedAt(hs[1..]);
      i := i + 1;
    }
  }

  lemma {:induction false} NeighboursRepeat(hs: seq<Header>, i: nat)
    requires i + 1 < |hs| && hs[i].unit == hs[i + 1].unit
    ensures Repeated(hs).Some?
    decreases |hs|
  {
    if i > 0 { NeighboursRepeat(hs[1..], i - 1); }
  }

  lemma DistinctIff(hs: seq<Header>)
    requires Sorted(hs)
    ensures Repeated(hs).None? <==> UnitsDistinct(hs)
  {
    if Repeated(hs).Some? { var i := RepeatedAt(hs); }
    if i, j :| 0 <= i < j < |hs| && hs[i].unit == hs[j].unit {
      assert UnitLe(hs[i], hs[i + 1]);
      if i + 1 < j {
        assert UnitLe(hs[i + 1], hs[j]);
        Sorting.LeAntisymmetric(hs[i].unit, hs[i + 1].unit);
      }
      NeighboursRepeat(hs, i);
    }
  }

  lemma OrderedIsSorted(headers: seq<Header>)
    ensures Sorted(Ordered(headers))
  {
    UnitLeTotal();
    Sorting.SortSorts(headers, UnitLe);
  }

  // ----- what a refusal names -----

  /** Two neighbours of one unit, as the refusal names them. */
  predicate Neighbours(hs: seq<Header>, i: nat, shared: Shared) {
    i + 1 < |hs| && hs[i].unit == hs[i + 1].unit &&
    shared == Shared(hs[i].unit, hs[i].objectHash, hs[i + 1].objectHash)
  }

  /** The order in which ids are gone through: by namespace, then by name. */
  ghost predicate Sooner(namespaces: seq<Namespace>, x: Id, y: Id) {
    || (x.0 == y.0 && Sorting.Le(x.1, y.1))
    || exists i, j :: 0 <= i < j < |namespaces| && namespaces[i] == x.0 && namespaces[j] == y.0
  }

  lemma WithNamespaceAt(ns: Namespace, names: seq<string>, k: nat)
    requires k < |WithNamespace(ns, names)|
    ensures |WithNamespace(ns, names)| == |names| && WithNamespace(ns, names)[k] == (ns, names[k])
  {
    if k > 0 { WithNamespaceAt(ns, names[1..], k - 1); }
  }

  lemma {:induction false} WithNamespaceLength(ns: Namespace, names: seq<string>)
    ensures |WithNamespace(ns, names)| == |names|
  {
    if names != [] { WithNamespaceLength(ns, names[1..]); }
  }

  lemma SoonerLater(namespaces: seq<Namespace>, x: Id, y: Id)
    requires namespaces != [] && Sooner(namespaces[1..], x, y)
    ensures Sooner(namespaces, x, y)
  {
    if !(x.0 == y.0 && Sorting.Le(x.1, y.1)) {
      var rest := namespaces[1..];
      var i, j :| 0 <= i < j < |rest| && rest[i] == x.0 && rest[j] == y.0;
      assert namespaces[i + 1] == x.0 && namespaces[j + 1] == y.0;
    }
  }

  ghost predicate AllSooner(namespaces: seq<Namespace>, ids: seq<Id>) {
    forall i, j | 0 <= i < j < |ids| :: Sooner(namespaces, ids[i], ids[j])
  }

  lemma NamespaceInOrder(namespaces: seq<Namespace>, ns: Namespace, names: seq<string>)
    requires Sorting.Sorted(names, Sorting.Le)
    ensures AllSooner(namespaces, WithNamespace(ns, names))
  {
    WithNamespaceLength(ns, names);
    forall i, j | 0 <= i < j < |names|
      ensures Sooner(namespaces, WithNamespace(ns, names)[i], WithNamespace(ns, names)[j])
    {
      WithNamespaceAt(ns, names, i);
      WithNamespaceAt(ns, names, j);
    }
  }

  lemma AcrossNamespaces(namespaces: seq<Namespace>, x: Id, y: Id)
    requires namespaces != [] && x.0 == namespaces[0] && y.0 in namespaces[1..]
    ensures Sooner(namespaces, x, y)
  {
    var m :| 0 <= m < |namespaces[1..]| && namespaces[1..][m] == y.0;
    assert namespaces[0] == x.0 && namespaces[m + 1] == y.0;
  }

  /** Two listings, one after the other. */
  lemma JoinedInOrder(namespaces: seq<Namespace>, head: seq<Id>, rest: seq<Id>)
    requires namespaces != [] && AllSooner(namespaces, head) && AllSooner(namespaces[1..], rest)
    requires (forall id | id in head :: id.0 == namespaces[0]) && forall id | id in rest :: id.0 in namespaces[1..]
    ensures AllSooner(namespaces, head + rest)
  {
    var all, n := head + rest, |head|;
    forall i, j | 0 <= i < j < |all| ensures Sooner(namespaces, all[i], all[j]) {
      if i >= n {
        SoonerLater(namespaces, rest[i - n], rest[j - n]);
      } else if j >= n {
        assert head[i] in head && rest[j - n] in rest;
        AcrossNamespaces(namespaces, head[i], rest[j - n]);
      }
    }
  }

  lemma {:induction false} ListedInOrder(keys: set<Id>, namespaces: seq<Namespace>)
    ensures AllSooner(namespaces, Listed(keys, namespaces))
    decreases |namespaces|
  {
    if namespaces != [] {
      var ns, rest := namespaces[0], namespaces[1..];
      var names := Sorting.Keys(NamesOf(keys, ns));
      ListedInOrder(keys, rest);
      Sorting.KeysAscend(NamesOf(keys, ns));
      NamespaceInOrder(namespaces, ns, names);
      JoinedInOrder(namespaces, WithNamespace(ns, names), Listed(keys, rest));
    }
  }

  /** What no export meets. */
  ghost predicate Missing(hs: seq<Header>, id: Id) {
    Needed(hs, id) && id.0 in OBLIGATIONS && !Provided(hs, id)
  }

  ghost predicate SoonestTwice(hs: seq<Header>, id: Id) {
    ExportedTwice(hs, id) && forall other | ExportedTwice(hs, other) :: other == id || Sooner(ALL, id, other)
  }

  ghost predicate SoonestMissing(hs: seq<Header>, id: Id) {
    Missing(hs, id) && forall other | Missing(hs, other) :: other == id || Sooner(OBLIGATIONS, id, other)
  }

  ghost predicate StaleIn(hs: seq<Header>, i: nat, unit: string, ref: InterfaceRef) {
    && i < |hs| && unit == hs[i].unit && ref in hs[i].interfaces && Stale(hs, ref)
    && forall j | 0 <= j < i :: forall r | r in hs[j].interfaces :: !Stale(hs, r)
  }

  /** A refusal shows its reason: the first of its kind, when nothing of an earlier kind is
      there. */
  ghost predicate Explains(r: Linked, hs: seq<Header>) {
    match r
    case Merged(m) => Merges(m, hs)
    case DuplicateUnit(shared) => exists i :: 0 <= i < |hs| && Neighbours(hs, i, shared)
    case DuplicateId(id) =>
      UnitsDistinct(hs) && SoonestTwice(hs, id)
    case UnresolvedImport(id) =>
      UnitsDistinct(hs) && ExportsDisjoint(hs) && SoonestMissing(hs, id)
    case InterfaceMismatch(unit, ref) =>
      && UnitsDistinct(hs) && ExportsDisjoint(hs) && ImportsProvided(hs)
      && exists i :: 0 <= i < |hs| && StaleIn(hs, i, unit, ref)
    case RuleBroken(rule) =>
      && UnitsDistinct(hs) && ExportsDisjoint(hs) && ImportsProvided(hs) && InterfacesCurrent(hs)
      && rule == SummaryRule(MergeHeadersOf(hs), Complete) && rule != Passed
  }

  lemma ExportsAreTwice(hs: seq<Header>, id: Id)
    ensures ExportedTwice(hs, id) <==>
            id in MergeHeadersOf(hs).exports && |MergeHeadersOf(hs).exports[id]| >= 2
  {
    MergedExports(hs, id);
    if ExportedTwice(hs, id) {
      var i, j :| 0 <= i < j < |hs| && id in hs[i].exports && id in hs[j].exports;
    }
  }

  lemma {:induction false} FirstDuplicateAt(exports: map<Id, seq<string>>, ids: seq<Id>) returns (k: nat)
    requires (forall id | id in ids :: id in exports) && FirstDuplicate(exports, ids).Some?
    ensures k < |ids| && FirstDuplicate(exports, ids) == Some(ids[k]) && |exports[ids[k]]| >= 2
    ensures forall j | 0 <= j < k :: |exports[ids[j]]| < 2
  {
    if |exports[ids[0]]| >= 2 {
      k := 0;
    } else {
      var rest := ids[1..];
      k := FirstDuplicateAt(exports, rest);
      assert forall j | 0 < j <= k :: ids[j] == rest[j - 1];
      k := k + 1;
    }
  }

  lemma {:induction false} FirstUnresolvedAt(exports: set<Id>, ids: seq<Id>) returns (k: nat)
    requires FirstUnresolved(exports, ids).Some?
    ensures k < |ids| && FirstUnresolved(exports, ids) == Some(ids[k]) && ids[k] !in exports
    ensures forall j | 0 <= j < k :: ids[j] in exports
  {
    if ids[0] !in exports {
      k := 0;
    } else {
      var rest := ids[1..];
      k := FirstUnresolvedAt(exports, rest);
      assert forall j | 0 < j <= k :: ids[j] == rest[j - 1];
      k := k + 1;
    }
  }

  lemma {:induction false} FirstStaleIsStale(linked: map<string, string>, refs: seq<InterfaceRef>)
    requires FirstStale(linked, refs).Some?
    ensures FirstStale(linked, refs).value in refs && !Agrees(linked, FirstStale(linked, refs).value)
  {
    if Agrees(linked, refs[0]) { FirstStaleIsStale(linked, refs[1..]); }
  }

  predicate NoneStale(linked: map<string, string>, h: Header) {
    forall ref | ref in h.interfaces :: Agrees(linked, ref)
  }

  lemma {:induction false} FirstMismatchAt(linked: map<string, string>, hs: seq<Header>) returns (k: nat)
    requires FirstMismatch(linked, hs).Some?
    ensures k < |hs| && var (unit, ref) := FirstMismatch(linked, hs).value;
                        unit == hs[k].unit && ref in hs[k].interfaces && !Agrees(linked, ref)
    ensures forall j | 0 <= j < k :: NoneStale(linked, hs[j])
  {
    if FirstStale(linked, hs[0].interfaces).Some? {
      FirstStaleIsStale(linked, hs[0].interfaces);
      k := 0;
    } else {
      var rest := hs[1..];
      k := FirstMismatchAt(linked, rest);
      assert forall j | 0 < j <= k :: hs[j] == rest[j - 1];
      k := k + 1;
    }
  }

  /** In a listing, what comes later is not sooner. */
  lemma FirstListed(keys: set<Id>, namespaces: seq<Namespace>, k: nat, other: Id)
    requires k < |Listed(keys, namespaces)| && other in Listed(keys, namespaces)
    requires other !in Listed(keys, namespaces)[..k]
    ensures other == Listed(keys, namespaces)[k] || Sooner(namespaces, Listed(keys, namespaces)[k], other)
  {
    var ids := Listed(keys, namespaces);
    var j :| 0 <= j < |ids| && ids[j] == other;
    ListedInOrder(keys, namespaces);
    assert j >= k;
  }

  lemma ExplainDuplicate(hs: seq<Header>, id: Id, other: Id)
    requires var m := MergeHeadersOf(hs); FirstDuplicate(m.exports, Listed(m.exports.Keys, ALL)) == Some(id)
    ensures ExportedTwice(hs, id)
    ensures ExportedTwice(hs, other) ==> other == id || Sooner(ALL, id, other)
  {
    var m := MergeHeadersOf(hs);
    var ids := Listed(m.exports.Keys, ALL);
    var k := FirstDuplicateAt(m.exports, ids);
    ExportsAreTwice(hs, id);
    ExportsAreTwice(hs, other);
    if ExportedTwice(hs, other) {
      EveryNamespace(other.0);
      FirstListed(m.exports.Keys, ALL, k, other);
    }
  }

  lemma MissingIff(hs: seq<Header>, id: Id)
    ensures Missing(hs, id) <==>
            id in MergeHeadersOf(hs).imports && id.0 in OBLIGATIONS && id !in MergeHeadersOf(hs).exports
  {
    MergedExports(hs, id);
    MergedImports(hs, id);
  }

  lemma ExplainMissing(hs: seq<Header>, id: Id, other: Id)
    requires var m := MergeHeadersOf(hs);
             FirstUnresolved(m.exports.Keys, Listed(m.imports.Keys, OBLIGATIONS)) == Some(id)
    ensures Missing(hs, id) && (Missing(hs, other) ==> other == id || Sooner(OBLIGATIONS, id, other))
  {
    var m := MergeHeadersOf(hs);
    var ids := Listed(m.imports.Keys, OBLIGATIONS);
    var k := FirstUnresolvedAt(m.exports.Keys, ids);
    MissingIff(hs, id);
    MissingIff(hs, other);
    assert id in ids;
    if Missing(hs, other) { FirstListed(m.imports.Keys, OBLIGATIONS, k, other); }
  }

  lemma ExplainStale(hs: seq<Header>, unit: string, ref: InterfaceRef) returns (i: nat)
    requires UnitsDistinct(hs) && FirstMismatch(HashOf(hs), hs) == Some((unit, ref))
    ensures StaleIn(hs, i, unit, ref)
  {
    i := FirstMismatchAt(HashOf(hs), hs);
    StaleIff(hs, ref);
    forall j, r | 0 <= j < i && r in hs[j].interfaces ensures !Stale(hs, r) {
      assert NoneStale(HashOf(hs), hs[j]);
      StaleIff(hs, r);
    }
  }

  lemma MergedMerges(hs: seq<Header>)
    ensures Merges(MergeHeadersOf(hs), hs)
  {
    EachGathers(hs);
    OrderingMerges(MergeEach(hs), hs);
  }

  /** The reason of each refusal, as it is looked for. */
  ghost predicate Reason(r: Linked, hs: seq<Header>, m: Summary, duplicate: Option<Id>, missing: Option<Id>,
                         stale: Option<(string, InterfaceRef)>) {
    match r
    case Merged(summary) => duplicate.None? && missing.None? && stale.None? && summary == m
    case DuplicateUnit(shared) => Repeated(hs) == Some(shared)
    case DuplicateId(id) => duplicate == Some(id)
    case UnresolvedImport(id) => duplicate.None? && missing == Some(id)
    case InterfaceMismatch(unit, ref) => duplicate.None? && missing.None? && stale == Some((unit, ref))
    case RuleBroken(rule) =>
      duplicate.None? && missing.None? && stale.None? && rule == SummaryRule(m, Complete) && rule != Passed
  }

  lemma LinkReason(r: Linked, hs: seq<Header>, m: Summary, duplicate: Option<Id>, missing: Option<Id>,
                   stale: Option<(string, InterfaceRef)>)
    requires r == Verdict(Repeated(hs), duplicate, missing, stale, m)
    ensures Reason(r, hs, m, duplicate, missing, stale)
    ensures r.DuplicateUnit? <==> Repeated(hs).Some?
  {
  }

  lemma ExplainedBy(r: Linked, hs: seq<Header>, m: Summary, duplicate: Option<Id>, missing: Option<Id>,
                    stale: Option<(string, InterfaceRef)>)
    requires m == MergeHeadersOf(hs) && Merges(m, hs) && Reason(r, hs, m, duplicate, missing, stale)
    requires r.DuplicateUnit? || UnitsDistinct(hs)
    requires duplicate.None? <==> ExportsDisjoint(hs)
    requires missing.None? <==> ImportsProvided(hs)
    requires UnitsDistinct(hs) ==> (stale.None? <==> InterfacesCurrent(hs))
    requires duplicate.Some? ==> SoonestTwice(hs, duplicate.value)
    requires missing.Some? ==> SoonestMissing(hs, missing.value)
    requires UnitsDistinct(hs) && stale.Some? ==>
               exists i :: 0 <= i < |hs| && StaleIn(hs, i, stale.value.0, stale.value.1)
    requires r.DuplicateUnit? ==> exists i :: 0 <= i < |hs| && Neighbours(hs, i, r.shared)
    ensures Explains(r, hs)
  {
  }

  lemma LinkExplained(hs: seq<Header>)
    requires Sorted(hs)
    ensures Explains(LinkOrdered(hs), hs)
  {
    var m := MergeHeadersOf(hs);
    var duplicate := FirstDuplicate(m.exports, Listed(m.exports.Keys, ALL));
    var missing := FirstUnresolved(m.exports.Keys, Listed(m.imports.Keys, OBLIGATIONS));
    var stale := FirstMismatch(HashOf(hs), hs);
    MergedMerges(hs);
    LinkReason(LinkOrdered(hs), hs, m, duplicate, missing, stale);
    DistinctIff(hs);
    NoDuplicateIds(hs);
    AllImportsAnswered(hs);
    CurrentIff(hs);
    if duplicate.Some? { DuplicateExplained(hs, duplicate.value); }
    if missing.Some? { MissingExplained(hs, missing.value); }
    if UnitsDistinct(hs) && stale.Some? { var i := ExplainStale(hs, stale.value.0, stale.value.1); }
    if Repeated(hs).Some? { var i := RepeatedAt(hs); }
    ExplainedBy(LinkOrdered(hs), hs, m, duplicate, missing, stale);
  }

  lemma DuplicateExplained(hs: seq<Header>, id: Id)
    requires var m := MergeHeadersOf(hs); FirstDuplicate(m.exports, Listed(m.exports.Keys, ALL)) == Some(id)
    ensures SoonestTwice(hs, id)
  {
    ExplainDuplicate(hs, id, id);
    forall other | ExportedTwice(hs, other) ensures other == id || Sooner(ALL, id, other) {
      ExplainDuplicate(hs, id, other);
    }
  }

  lemma MissingExplained(hs: seq<Header>, id: Id)
    requires var m := MergeHeadersOf(hs);
             FirstUnresolved(m.exports.Keys, Listed(m.imports.Keys, OBLIGATIONS)) == Some(id)
    ensures SoonestMissing(hs, id)
  {
    ExplainMissing(hs, id, id);
    forall other | Missing(hs, other) ensures other == id || Sooner(OBLIGATIONS, id, other) {
      ExplainMissing(hs, id, other);
    }
  }

  lemma CurrentIff(hs: seq<Header>)
    ensures UnitsDistinct(hs) ==> (FirstMismatch(HashOf(hs), hs).None? <==> InterfacesCurrent(hs))
  {
    if UnitsDistinct(hs) {
      forall r ensures Agrees(HashOf(hs), r) <==> !Stale(hs, r) { StaleIff(hs, r); }
    }
  }

  lemma NoDuplicateIds(hs: seq<Header>)
    ensures var m := MergeHeadersOf(hs); FirstDuplicate(m.exports, Listed(m.exports.Keys, ALL)).None? <==>
            ExportsDisjoint(hs)
  {
    var m := MergeHeadersOf(hs);
    forall id ensures id in m.exports ==> (|m.exports[id]| < 2 <==> !ExportedTwice(hs, id)) {
      MergedExports(hs, id);
    }
    forall id ensures ExportedTwice(hs, id) ==> id in m.exports {
      MergedExports(hs, id);
      if ExportedTwice(hs, id) {
        var i, j :| 0 <= i < j < |hs| && id in hs[i].exports && id in hs[j].exports;
      }
    }
    forall id | id in m.exports ensures id in Listed(m.exports.Keys, ALL) {
      EveryNamespace(id.0);
    }
  }

  lemma EveryNamespace(ns: Namespace)
    ensures ns in ALL
  {
  }

  lemma AllImportsAnswered(hs: seq<Header>)
    ensures var m := MergeHeadersOf(hs);
            FirstUnresolved(m.exports.Keys, Listed(m.imports.Keys, OBLIGATIONS)).None? <==> ImportsProvided(hs)
  {
    var m := MergeHeadersOf(hs);
    forall id ensures id in m.exports <==> Provided(hs, id) { MergedExports(hs, id); }
    forall id ensures id in m.imports <==> Needed(hs, id) { MergedImports(hs, id); }
  }

  lemma LinkedMeans(hs: seq<Header>)
    ensures var m := MergeHeadersOf(hs);
            LinkOrdered(hs).Merged? <==>
            && Repeated(hs).None?
            && FirstDuplicate(m.exports, Listed(m.exports.Keys, ALL)).None?
            && FirstUnresolved(m.exports.Keys, Listed(m.imports.Keys, OBLIGATIONS)).None?
            && FirstMismatch(HashOf(hs), hs).None?
            && SummaryOk(m, Complete)
    ensures LinkOrdered(hs).Merged? ==> LinkOrdered(hs).summary == MergeHeadersOf(hs)
  {
    var m := MergeHeadersOf(hs);
    SummaryRulePasses(m, Complete);
    VerdictMeans(Repeated(hs), FirstDuplicate(m.exports, Listed(m.exports.Keys, ALL)),
                 FirstUnresolved(m.exports.Keys, Listed(m.imports.Keys, OBLIGATIONS)),
                 FirstMismatch(HashOf(hs), hs), m);
  }

  /** A link succeeds exactly when no unit is claimed twice, no id is exported twice,
      every obligation is met by some export, every interface it was compiled against is
      the one linked, and the merged summary keeps the rules. */
  lemma LinkSucceedsIff(hs: seq<Header>)
    requires Sorted(hs)
    ensures LinkOrdered(hs).Merged? <==>
            UnitsDistinct(hs) && ExportsDisjoint(hs) && ImportsProvided(hs) && InterfacesCurrent(hs) &&
                SummaryOk(MergeHeadersOf(hs), Complete)
    ensures LinkOrdered(hs).Merged? ==> LinkOrdered(hs).summary == MergeHeadersOf(hs)
  {
    LinkedMeans(hs);
    DistinctIff(hs);
    CurrentIff(hs);
    NoDuplicateIds(hs);
    AllImportsAnswered(hs);
  }

  /** After the duplicate-id check the unique-export backstop can only fire on an id that is
      both a facet and a binding. */
  lemma BackstopOnlySharedIds(hs: seq<Header>)
    requires ExportsDisjoint(hs)
    ensures ExportsUnique(MergeHeadersOf(hs)) <==>
            forall name :: !(Provided(hs, (Bindings, name)) && Provided(hs, (FacetIds, name)))
  {
    var m := MergeHeadersOf(hs);
    forall id ensures (id in m.exports <==> Provided(hs, id)) && (id in m.exports ==> |m.exports[id]| < 2) {
      MergedExports(hs, id);
    }
  }
}
