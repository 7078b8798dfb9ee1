/** What a linker knows of the linked units (compiler/src/interface_summary.rs,
    compiler/src/object.rs). */
module Summaries {
  import opened Options

  datatype Namespace = Definitions | Components | Artifacts | FacetIds | Bindings | Catalogues | Constraints

  /** An id of a namespace. */
  type Id = (Namespace, string)

  datatype BindingLink = BindingLink(
    catalogue: string, fallback: Option<string>, deriveSource: Option<string>,
    derivePairs: seq<(string, string)>, deriveSourceCount: nat)

  datatype RequirementLink = RequirementLink(
    component: string, slot: string, binding: string, accepts: Option<seq<string>>, condition: Option<string>)

  datatype Clause = Clause(id: string, condition: string)

  datatype InterfaceRef = InterfaceRef(unit: string, objectHash: string)

  datatype Header = Header(
    unit: string, exports: set<Id>, imports: set<Id>,
    facetDomains: map<string, seq<string>>, openFacets: set<string>, catalogueEntries: map<string, seq<string>>,
    bindingLinks: map<string, BindingLink>, requirements: seq<RequirementLink>,
    clauses: seq<Clause>, selectors: seq<Clause>, interfaces: seq<InterfaceRef>, objectHash: string)

  /** The merged summary: who exports and who imports each id, and everything the
      headers declare. */
  datatype Summary = Summary(
    units: set<string>, exports: map<Id, seq<string>>, imports: map<Id, set<string>>,
    facetDomains: map<string, seq<string>>, openFacets: set<string>, catalogueEntries: map<string, seq<string>>,
    bindingLinks: map<string, BindingLink>, requirements: seq<RequirementLink>,
    clauses: seq<Clause>, selectors: seq<Clause>)

  const EMPTY := Summary({}, map[], map[], map[], {}, map[], map[], [], [], [])

  function Lookup<K, V>(m: map<K, V>, k: K): Option<V> {
    if k in m then Some(m[k]) else None
  }

  /** The value domain of a declared facet or binding; a facet comes first. */
  function DeclaredDomain(m: Summary, name: string): Option<seq<string>> {
    if name in m.facetDomains then Some(m.facetDomains[name])
    else if name in m.bindingLinks then Lookup(m.catalogueEntries, m.bindingLinks[name].catalogue)
    else None
  }
}
