/** What the headers of a link declare together (compiler/src/link.rs `merge_headers`). */
module HeaderMerge {
  import opened Summaries
  import Sorting

  // ----- one header at a time -----

  function Declare(exports: map<Id, seq<string>>, ids: set<Id>, unit: string): map<Id, seq<string>> {
    map id | id in exports.Keys + ids ::
      (if id in exports then exports[id] else []) + (if id in ids then [unit] else [])
  }

  function Import(imports: map<Id, set<string>>, ids: set<Id>, unit: string): map<Id, set<string>> {
    map id | id in imports.Keys + ids ::
      (if id in imports then imports[id] else {}) + (if id in ids then {unit} else {})
  }

  /** Keys already there keep their value. */
  function FirstWins<V>(into: map<string, V>, from: map<string, V>): map<string, V> {
    from + into
  }

  function MergeOne(m: Summary, h: Header): Summary {
    Summary(m.units + {h.unit}, Declare(m.exports, h.exports, h.unit), Import(m.imports, h.imports, h.unit),
            FirstWins(m.facetDomains, h.facetDomains), m.openFacets + h.openFacets,
            FirstWins(m.catalogueEntries, h.catalogueEntries), FirstWins(m.bindingLinks, h.bindingLinks),
            m.requirements + h.requirements, m.clauses + h.clauses, m.selectors + h.selectors)
  }

  function MergeEach(hs: seq<Header>): Summary {
    if hs == [] then EMPTY else MergeOne(MergeEach(hs[..|hs| - 1]), hs[|hs| - 1])
  }

  predicate SlotLe(a: RequirementLink, b: RequirementLink) {
    if a.component == b.component then Sorting.Le(a.slot, b.slot) else Sorting.Le(a.component, b.component)
  }

  predicate IdLe(a: Clause, b: Clause) {
    Sorting.Le(a.id, b.id)
  }

  function MergeHeadersOf(ordered: seq<Header>): Summary {
    var m := MergeEach(ordered);
    m.(requirements := Sorting.Sort(m.requirements, SlotLe), clauses := Sorting.Sort(m.clauses, IdLe))
  }

  // ----- all headers at once -----

  /** How often an element occurs in all the lists. */
  function Times<T(==)>(parts: seq<seq<T>>, x: T): nat {
    if parts == [] then 0 else multiset(parts[0])[x] + Times(parts[1..], x)
  }

  /** The first map to have the key. */
  predicate FirstAt<V>(parts: seq<map<string, V>>, i: nat, key: string) {
    i < |parts| && key in parts[i] && forall j | 0 <= j < i :: key !in parts[j]
  }

  /** Every key of every map, with the value of the first map to have it. */
  ghost predicate FirstOf<V>(parts: seq<map<string, V>>, merged: map<string, V>) {
    && (forall i, key | 0 <= i < |parts| && key in parts[i] :: key in merged)
    && forall key | key in merged :: exists i: nat :: FirstAt(parts, i, key) && merged[key] == parts[i][key]
  }

  /** The units of the headers that export the id, in the order of the headers. */
  function Exporters(hs: seq<Header>, id: Id): seq<string> {
    Sorting.Joined(seq(|hs|, i requires 0 <= i < |hs| => if id in hs[i].exports then [hs[i].unit] else []))
  }

  function Importers(hs: seq<Header>, id: Id): set<string> {
    set i | 0 <= i < |hs| && id in hs[i].imports :: hs[i].unit
  }

  function Requirements(hs: seq<Header>): seq<seq<RequirementLink>> {
    seq(|hs|, i requires 0 <= i < |hs| => hs[i].requirements)
  }

  function ClauseLists(hs: seq<Header>): seq<seq<Clause>> {
    seq(|hs|, i requires 0 <= i < |hs| => hs[i].clauses)
  }

  function SelectorLists(hs: seq<Header>): seq<seq<Clause>> {
    seq(|hs|, i requires 0 <= i < |hs| => hs[i].selectors)
  }

  function Domains(hs: seq<Header>): seq<map<string, seq<string>>> {
    seq(|hs|, i requires 0 <= i < |hs| => hs[i].facetDomains)
  }

  function Entries(hs: seq<Header>): seq<map<string, seq<string>>> {
    seq(|hs|, i requires 0 <= i < |hs| => hs[i].catalogueEntries)
  }

  function Links(hs: seq<Header>): seq<map<string, BindingLink>> {
    seq(|hs|, i requires 0 <= i < |hs| => hs[i].bindingLinks)
  }

  /** What a link knows of who exports and imports what. */
  ghost predicate NamesMerged(m: Summary, hs: seq<Header>) {
    && m.units == (set i | 0 <= i < |hs| :: hs[i].unit)
    && (forall id :: id in m.exports <==> Exporters(hs, id) != [])
    && (forall id | id in m.exports :: m.exports[id] == Exporters(hs, id))
    && (forall id :: id in m.imports <==> Importers(hs, id) != {})
    && forall id | id in m.imports :: m.imports[id] == Importers(hs, id)
  }

  /** Of two headers that declare one facet, catalogue or binding the first counts. */
  ghost predicate DeclarationsMerged(m: Summary, hs: seq<Header>) {
    && (forall f :: f in m.openFacets <==> exists i :: 0 <= i < |hs| && f in hs[i].openFacets)
    && FirstOf(Domains(hs), m.facetDomains)
    && FirstOf(Entries(hs), m.catalogueEntries)
    && FirstOf(Links(hs), m.bindingLinks)
  }

  /** Everything authored, as often as it is authored: requirements by component and slot,
      clauses by id, and what these do not tell apart, as well as selectors, as the headers come. */
  ghost predicate ListsMerged(m: Summary, hs: seq<Header>) {
    && (forall r :: multiset(m.requirements)[r] == Times(Requirements(hs), r))
    && Sorting.Sorted(m.requirements, SlotLe)
    && (forall r ::
          Sorting.Alike(m.requirements, r, SlotLe) == Sorting.Alike(Sorting.Joined(Requirements(hs)), r, SlotLe))
    && (forall c :: multiset(m.clauses)[c] == Times(ClauseLists(hs), c))
    && Sorting.Sorted(m.clauses, IdLe)
    && (forall c :: Sorting.Alike(m.clauses, c, IdLe) == Sorting.Alike(Sorting.Joined(ClauseLists(hs)), c, IdLe))
    && m.selectors == Sorting.Joined(SelectorLists(hs))
  }

  ghost predicate Merges(m: Summary, hs: seq<Header>) {
    NamesMerged(m, hs) && DeclarationsMerged(m, hs) && ListsMerged(m, hs)
  }

  // ----- the two agree -----

  lemma {:induction false} JoinedTimes<T>(parts: seq<seq<T>>, x: T)
    ensures multiset(Sorting.Joined(parts))[x] == Times(parts, x)
  {
    if parts != [] { JoinedTimes(parts[1..], x); }
  }

  lemma FirstOfLast<V>(parts: seq<map<string, V>>, p: map<string, V>, merged: map<string, V>)
    requires FirstOf(parts, merged)
    ensures FirstOf(parts + [p], FirstWins(merged, p))
  {
    var all, now := parts + [p], FirstWins(merged, p);
    forall key | key in now ensures exists i: nat :: FirstAt(all, i, key) && now[key] == all[i][key] {
      if key in merged {
        var i: nat :| FirstAt(parts, i, key) && merged[key] == parts[i][key];
        assert FirstAt(all, i, key);
      } else {
        assert FirstAt(all, |parts|, key);
      }
    }
  }

  /** The fold before its lists are put in order. */
  ghost predicate Gathers(m: Summary, hs: seq<Header>) {
    && NamesMerged(m, hs) && DeclarationsMerged(m, hs)
    && m.requirements == Sorting.Joined(Requirements(hs))
    && m.clauses == Sorting.Joined(ClauseLists(hs))
    && m.selectors == Sorting.Joined(SelectorLists(hs))
  }

  lemma NamesStep(m: Summary, hs: seq<Header>, h: Header)
    requires NamesMerged(m, hs)
    ensures NamesMerged(MergeOne(m, h), hs + [h])
  {
    var all, now := hs + [h], MergeOne(m, h);
    assert all[|hs|] == h && forall i | 0 <= i < |hs| :: all[i] == hs[i];
    forall id
      ensures id in now.exports <==> Exporters(all, id) != []
      ensures id in now.exports ==> now.exports[id] == Exporters(all, id)
    {
      ExportersStep(hs, h, id);
    }
    forall id
      ensures id in now.imports <==> Importers(all, id) != {}
      ensures id in now.imports ==> now.imports[id] == Importers(all, id)
    {
      ImportersStep(hs, h, id);
    }
    assert now.units == (set i | 0 <= i < |all| :: all[i].unit) by {
      forall u | u in now.units ensures u in (set i | 0 <= i < |all| :: all[i].unit) {
        if u in m.units {
          var i :| 0 <= i < |hs| && hs[i].unit == u;
          assert all[i].unit == u;
        } else {
          assert all[|hs|].unit == u;
        }
      }
    }
  }

  lemma ExportersStep(hs: seq<Header>, h: Header, id: Id)
    ensures Exporters(hs + [h], id) == Exporters(hs, id) + if id in h.exports then [h.unit] else []
  {
    var all := hs + [h];
    var parts := seq(|hs|, i requires 0 <= i < |hs| => if id in hs[i].exports then [hs[i].unit] else []);
    assert seq(|all|, i requires 0 <= i < |all| => if id in all[i].exports then [all[i].unit] else []) ==
           parts + [if id in h.exports then [h.unit] else []];
    Sorting.JoinedLast(parts, if id in h.exports then [h.unit] else []);
  }

  lemma ImportersStep(hs: seq<Header>, h: Header, id: Id)
    ensures Importers(hs + [h], id) == Importers(hs, id) + if id in h.imports then {h.unit} else {}
  {
    var all := hs + [h];
    assert all[|hs|] == h && forall i | 0 <= i < |hs| :: all[i] == hs[i];
    forall u | u in Importers(hs, id) ensures u in Importers(all, id) {
      var i :| 0 <= i < |hs| && id in hs[i].imports && hs[i].unit == u;
      assert all[i].unit == u;
    }
    if id in h.imports { assert all[|hs|].unit in Importers(all, id); }
  }

  lemma OpenStep(m: Summary, hs: seq<Header>, h: Header, f: string)
    requires f in m.openFacets <==> exists i :: 0 <= i < |hs| && f in hs[i].openFacets
    ensures f in m.openFacets + h.openFacets <==> exists i :: 0 <= i < |hs + [h]| && f in (hs + [h])[i].openFacets
  {
    var all := hs + [h];
    assert all[|hs|] == h;
    if f in m.openFacets {
      var i :| 0 <= i < |hs| && f in hs[i].openFacets;
      assert f in all[i].openFacets;
    }
  }

  lemma DeclarationsStep(m: Summary, hs: seq<Header>, h: Header)
    requires DeclarationsMerged(m, hs)
    ensures DeclarationsMerged(MergeOne(m, h), hs + [h])
  {
    var all, now := hs + [h], MergeOne(m, h);
    assert all[|hs|] == h && forall i | 0 <= i < |hs| :: all[i] == hs[i];
    forall f ensures f in now.openFacets <==> exists i :: 0 <= i < |all| && f in all[i].openFacets {
      OpenStep(m, hs, h, f);
    }
    assert Domains(all) == Domains(hs) + [h.facetDomains];
    FirstOfLast(Domains(hs), h.facetDomains, m.facetDomains);
    assert Entries(all) == Entries(hs) + [h.catalogueEntries];
    FirstOfLast(Entries(hs), h.catalogueEntries, m.catalogueEntries);
    assert Links(all) == Links(hs) + [h.bindingLinks];
    FirstOfLast(Links(hs), h.bindingLinks, m.bindingLinks);
  }

  lemma GathersStep(m: Summary, hs: seq<Header>, h: Header)
    requires Gathers(m, hs)
    ensures Gathers(MergeOne(m, h), hs + [h])
  {
    NamesStep(m, hs, h);
    DeclarationsStep(m, hs, h);
    var all := hs + [h];
    assert Requirements(all) == Requirements(hs) + [h.requirements];
    Sorting.JoinedLast(Requirements(hs), h.requirements);
    assert ClauseLists(all) == ClauseLists(hs) + [h.clauses];
    Sorting.JoinedLast(ClauseLists(hs), h.clauses);
    assert SelectorLists(all) == SelectorLists(hs) + [h.selectors];
    Sorting.JoinedLast(SelectorLists(hs), h.selectors);
  }

  lemma {:induction false} EachGathers(hs: seq<Header>)
    ensures Gathers(MergeEach(hs), hs)
  {
    if hs != [] {
      var k := |hs| - 1;
      EachGathers(hs[..k]);
      GathersStep(MergeEach(hs[..k]), hs[..k], hs[k]);
      assert hs == hs[..k] + [hs[k]];
    }
  }

  lemma SlotLeTotal()
    ensures Sorting.TotalPreorder(SlotLe)
  {
    forall x, y ensures SlotLe(x, y) || SlotLe(y, x) {
      Sorting.LeTotal(x.component, y.component);
      Sorting.LeTotal(x.slot, y.slot);
    }
    forall x, y, z | SlotLe(x, y) && SlotLe(y, z) ensures SlotLe(x, z) { SlotLeTransitive(x, y, z); }
  }

  lemma SlotLeTransitive(x: RequirementLink, y: RequirementLink, z: RequirementLink)
    requires SlotLe(x, y) && SlotLe(y, z)
    ensures SlotLe(x, z)
  {
    if x.component == y.component == z.component {
      Sorting.LeTransitive(x.slot, y.slot, z.slot);
    } else if x.component != y.component && y.component != z.component {
      Sorting.LeTransitive(x.component, y.component, z.component);
      if x.component == z.component { Sorting.LeAntisymmetric(x.component, y.component); }
    }
  }

  lemma IdLeTotal()
    ensures Sorting.TotalPreorder(IdLe)
  {
    forall x, y ensures IdLe(x, y) || IdLe(y, x) { Sorting.LeTotal(x.id, y.id); }
    forall x, y, z | IdLe(x, y) && IdLe(y, z) ensures IdLe(x, z) { Sorting.LeTransitive(x.id, y.id, z.id); }
  }

  lemma OrderingMerges(m: Summary, hs: seq<Header>)
    requires Gathers(m, hs)
    ensures Merges(m.(requirements := Sorting.Sort(m.requirements, SlotLe),
                      clauses := Sorting.Sort(m.clauses, IdLe)), hs)
  {
    SlotLeTotal();
    Sorting.SortSorts(m.requirements, SlotLe);
    IdLeTotal();
    Sorting.SortSorts(m.clauses, IdLe);
    forall r: RequirementLink
      ensures multiset(m.requirements)[r] == Times(Requirements(hs), r)
      ensures Sorting.Alike(Sorting.Sort(m.requirements, SlotLe), r, SlotLe) ==
              Sorting.Alike(m.requirements, r, SlotLe)
    {
      JoinedTimes(Requirements(hs), r);
      Sorting.SortStable(m.requirements, r, SlotLe);
    }
    forall c: Clause
      ensures multiset(m.clauses)[c] == Times(ClauseLists(hs), c)
      ensures Sorting.Alike(Sorting.Sort(m.clauses, IdLe), c, IdLe) == Sorting.Alike(m.clauses, c, IdLe)
    {
      JoinedTimes(ClauseLists(hs), c);
      Sorting.SortStable(m.clauses, c, IdLe);
    }
  }

  /** The merge is the union of what the headers declare. */
  method MergeHeaders(ordered: seq<Header>) returns (m: Summary)
    ensures m == MergeHeadersOf(ordered)
    ensures Merges(m, ordered)
  {
    m := EMPTY;
    for k := 0 to |ordered|
      invariant m == MergeEach(ordered[..k])
    {
      assert ordered[..k + 1][..k] == ordered[..k];
      m := MergeOne(m, ordered[k]);
    }
    assert ordered[..|ordered|] == ordered;
    EachGathers(ordered);
    OrderingMerges(m, ordered);
    m := m.(requirements := Sorting.Sort(m.requirements, SlotLe), clauses := Sorting.Sort(m.clauses, IdLe));
  }
}
