/** The synthesized clause texts of a constraint model
    (compiler/src/compiler_core.rs, `ccm_clauses` to `facet_ne_predicate`). */
module ClauseSynthesis {
  import opened Conditions
  import opened ConditionText
  import opened FacetComparison
  import opened FacetRules
  import Sorting

  // ----- symbol introduction -----

  function Introduction(s: Symbol): string {
    Spell(s.0, Eq, s.1) + " || " + Spell(s.0, NotEq, s.1)
  }

  function Introductions(ss: seq<Symbol>): (texts: seq<string>)
    ensures |texts| == |ss| && forall i | 0 <= i < |ss| :: texts[i] == Introduction(ss[i])
  {
    seq(|ss|, i requires 0 <= i < |ss| => Introduction(ss[i]))
  }

  lemma IntroductionsAppend(ss: seq<Symbol>, s: Symbol)
    ensures Introductions(ss + [s]) == Introductions(ss) + [Introduction(s)]
  {
  }

  lemma IntroductionsJoin(ss: seq<Symbol>, ts: seq<Symbol>)
    ensures Introductions(ss + ts) == Introductions(ss) + Introductions(ts)
  {
  }

  /** The symbols of a list of leaves, in order. */
  function SymbolList(ls: seq<Expr>): seq<Symbol> {
    if ls == [] then []
    else
      var init, l := SymbolList(ls[..|ls| - 1]), ls[|ls| - 1];
      if l.Predicate? then init + [(l.tag, l.literal)] else init
  }

  lemma {:induction false} SymbolListMeans(ls: seq<Expr>)
    ensures forall s :: s in SymbolList(ls) <==> s in (set l | l in ls && l.Predicate? :: (l.tag, l.literal))
  {
    if ls != [] {
      var init, l := ls[..|ls| - 1], ls[|ls| - 1];
      SymbolListMeans(init);
      assert ls == init + [l];
    }
  }

  function SelectorSymbols(e: Expr): seq<Symbol> {
    FirstSeen(SymbolList(LeafList(e)))
  }

  /** A selector introduces exactly the symbols it names. */
  lemma SelectorSymbolsMean(e: Expr)
    ensures forall s :: s in SelectorSymbols(e) <==> s in SymbolsOf(e)
  {
    SymbolListMeans(LeafList(e));
    assert forall l :: l in LeafList(e) <==> l in Leaves(e);
  }

  /** The symbol of a predicate, nothing for a comparison. */
  function LeafSymbol(l: Expr): seq<Symbol> {
    if l.Predicate? then [(l.tag, l.literal)] else []
  }

  function LeafSymbols(ls: seq<Expr>): seq<seq<Symbol>> {
    seq(|ls|, i requires 0 <= i < |ls| => LeafSymbol(ls[i]))
  }

  lemma {:induction false} SymbolListIs(ls: seq<Expr>)
    ensures SymbolList(ls) == Sorting.Joined(LeafSymbols(ls))
  {
    if ls != [] {
      var k := |ls| - 1;
      SymbolListIs(ls[..k]);
      Sorting.JoinedAppend(LeafSymbols(ls), LeafSymbols(ls[..k]), LeafSymbol(ls[k]));
    }
  }

  /** A selector's symbols come in the order of their first predicates. */
  lemma SelectorSymbolsInOrder(e: Expr)
    ensures InFirstOrder(Sorting.Joined(LeafSymbols(LeafList(e))), SelectorSymbols(e))
  {
    SymbolListIs(LeafList(e));
    FirstSeenInOrder(SymbolList(LeafList(e)));
  }

  lemma SymbolListStep(ls: seq<Expr>, k: nat)
    requires k < |ls|
    ensures SymbolList(ls[..k + 1]) ==
            if ls[k].Predicate? then SymbolList(ls[..k]) + [(ls[k].tag, ls[k].literal)] else SymbolList(ls[..k])
  {
    assert ls[..k + 1][..k] == ls[..k];
  }

  lemma FirstSeenStep<T(!new)>(values: seq<T>, x: T)
    ensures FirstSeen(values + [x]) == if x in FirstSeen(values) then FirstSeen(values) else FirstSeen(values) + [x]
  {
  }

  method SynthesizeSelectorSymbols(e: Expr) returns (out: seq<string>)
    ensures out == Introductions(SelectorSymbols(e))
    ensures InFirstOrder(Sorting.Joined(LeafSymbols(LeafList(e))), SelectorSymbols(e))
  {
    SelectorSymbolsInOrder(e);
    out := [];
    var seen: set<Symbol> := {};
    var leaves := LeafList(e);
    ghost var symbols: seq<Symbol> := [];
    for k := 0 to |leaves|
      invariant symbols == FirstSeen(SymbolList(leaves[..k])) && out == Introductions(symbols)
      invariant forall s :: s in seen <==> s in symbols
    {
      SymbolListStep(leaves, k);
      if leaves[k].Predicate? {
        var s := (leaves[k].tag, leaves[k].literal);
        FirstSeenStep(SymbolList(leaves[..k]), s);
        if s !in seen {
          seen := seen + {s};
          out := out + [Introduction(s)];
          IntroductionsAppend(symbols, s);
          symbols := symbols + [s];
        }
      }
    }
    assert leaves[..|leaves|] == leaves;
  }

  /** The symbols each parseable selector introduces, selector by selector. */
  function SelectorTexts(selectors: seq<string>): seq<string> {
    if selectors == [] then []
    else
      var init := SelectorTexts(selectors[..|selectors| - 1]);
      match ParseCondition(Trim(selectors[|selectors| - 1]))
      case Fail => init
      case Got(e, _) => init + Introductions(SelectorSymbols(e))
  }

  /** What one selector introduces. */
  function IntroducedBy(selector: string): seq<string> {
    match ParseCondition(Trim(selector))
    case Fail => []
    case Got(e, _) => Introductions(SelectorSymbols(e))
  }

  function IntroducedByEach(selectors: seq<string>): seq<seq<string>> {
    seq(|selectors|, i requires 0 <= i < |selectors| => IntroducedBy(selectors[i]))
  }

  lemma SelectorTextsStep(selectors: seq<string>)
    requires selectors != []
    ensures SelectorTexts(selectors) ==
            SelectorTexts(selectors[..|selectors| - 1]) + IntroducedBy(selectors[|selectors| - 1])
  {
  }

  lemma {:induction false} SelectorTextsAre(selectors: seq<string>)
    ensures SelectorTexts(selectors) == Sorting.Joined(IntroducedByEach(selectors))
  {
    if selectors != [] {
      var k := |selectors| - 1;
      SelectorTextsAre(selectors[..k]);
      SelectorTextsStep(selectors);
      Sorting.JoinedAppend(IntroducedByEach(selectors), IntroducedByEach(selectors[..k]), IntroducedBy(selectors[k]));
    }
  }

  /** Every declared symbol, facet by facet in name order, values in declared order. */
  function DeclaredList(ids: seq<string>, facets: Facets): (ss: seq<Symbol>)
    requires forall f | f in ids :: f in facets
    ensures forall s :: s in ss <==> s.0 in ids && s.1 in facets[s.0].values
  {
    if ids == [] then []
    else
      var k := |ids| - 1;
      assert ids == ids[..k] + [ids[k]];
      DeclaredList(ids[..k], facets) + OfFacet(ids[k], facets[ids[k]].values)
  }

  function OfFacet(f: string, values: seq<string>): (ss: seq<Symbol>)
    ensures forall s :: s in ss <==> s.0 == f && s.1 in values
  {
    if values == [] then []
    else
      var k := |values| - 1;
      assert values == values[..k] + [values[k]];
      OfFacet(f, values[..k]) + [(f, values[k])]
  }

  /** What one facet introduces: its values as declared. */
  function DeclaredBy(f: string, values: seq<string>): (texts: seq<string>)
  {
    seq(|values|, j requires 0 <= j < |values| => Introduction((f, values[j])))
  }

  function DeclaredByEach(ids: seq<string>, facets: Facets): seq<seq<string>>
    requires forall f | f in ids :: f in facets
  {
    seq(|ids|, i requires 0 <= i < |ids| => DeclaredBy(ids[i], facets[ids[i]].values))
  }

  lemma {:induction false} OfFacetAt(f: string, values: seq<string>)
    ensures |OfFacet(f, values)| == |values| && forall j | 0 <= j < |values| :: OfFacet(f, values)[j] == (f, values[j])
    decreases |values|
  {
    if values != [] { OfFacetAt(f, values[..|values| - 1]); }
  }

  lemma FacetDeclares(f: string, values: seq<string>)
    ensures Introductions(OfFacet(f, values)) == DeclaredBy(f, values)
  {
    OfFacetAt(f, values);
  }

  lemma {:induction false} DeclaredAre(ids: seq<string>, facets: Facets)
    requires forall f | f in ids :: f in facets
    ensures Introductions(DeclaredList(ids, facets)) == Sorting.Joined(DeclaredByEach(ids, facets))
    decreases |ids|
  {
    if ids != [] {
      var k := |ids| - 1;
      var f, values := ids[k], facets[ids[k]].values;
      DeclaredAre(ids[..k], facets);
      FacetDeclares(f, values);
      DeclaredListStep(ids, facets, k);
      assert ids[..k + 1] == ids;
      Sorting.JoinedAppend(DeclaredByEach(ids, facets), DeclaredByEach(ids[..k], facets), DeclaredBy(f, values));
    }
  }

  /** What the selectors introduce, each text once where it is first met, and then what the
      facets declare, by name. */
  ghost predicate InClauseOrder(clauses: seq<string>, selectors: seq<string>, facets: Facets) {
    exists n :: 0 <= n <= |clauses| && InFirstOrder(Sorting.Joined(IntroducedByEach(selectors)), clauses[..n]) &&
                clauses[n..] == Sorting.Joined(DeclaredByEach(Sorting.Keys(facets.Keys), facets))
  }

  lemma ClausesInOrder(selectors: seq<string>, facets: Facets)
    ensures InClauseOrder(Clauses(selectors, facets), selectors, facets)
  {
    var texts := FirstSeen(SelectorTexts(selectors));
    SelectorTextsAre(selectors);
    FirstSeenInOrder(SelectorTexts(selectors));
    DeclaredAre(Sorting.Keys(facets.Keys), facets);
    var clauses := Clauses(selectors, facets);
    assert clauses[..|texts|] == texts && clauses[|texts|..] == Introductions(DeclaredList(Sorting.Keys(facets.Keys),
                                                                                           facets));
  }

  function Clauses(selectors: seq<string>, facets: Facets): seq<string> {
    FirstSeen(SelectorTexts(selectors)) + Introductions(DeclaredList(Sorting.Keys(facets.Keys), facets))
  }

  lemma OfFacetStep(f: string, values: seq<string>, j: nat)
    requires j < |values|
    ensures OfFacet(f, values[..j + 1]) == OfFacet(f, values[..j]) + [(f, values[j])]
  {
    assert values[..j + 1][..j] == values[..j];
  }

  method IntroduceValues(f: string, values: seq<string>) returns (out: seq<string>)
    ensures out == Introductions(OfFacet(f, values))
  {
    out := [];
    for j := 0 to |values|
      invariant out == Introductions(OfFacet(f, values[..j]))
    {
      OfFacetStep(f, values, j);
      IntroductionsAppend(OfFacet(f, values[..j]), (f, values[j]));
      out := out + [Introduction((f, values[j]))];
    }
    assert values[..|values|] == values;
  }

  lemma DeclaredListStep(ids: seq<string>, facets: Facets, i: nat)
    requires i < |ids| && forall f | f in ids :: f in facets
    ensures Introductions(DeclaredList(ids[..i + 1], facets)) ==
            Introductions(DeclaredList(ids[..i], facets)) + Introductions(OfFacet(ids[i], facets[ids[i]].values))
  {
    assert ids[..i + 1][..i] == ids[..i];
    IntroductionsJoin(DeclaredList(ids[..i], facets), OfFacet(ids[i], facets[ids[i]].values));
  }

  method SynthesizeFacetClauses(facets: Facets) returns (out: seq<string>)
    ensures out == Introductions(DeclaredList(Sorting.Keys(facets.Keys), facets))
  {
    var ids := Sorting.Keys(facets.Keys);
    out := [];
    for i := 0 to |ids|
      invariant out == Introductions(DeclaredList(ids[..i], facets))
    {
      assert ids[i] in facets.Keys;
      var introduced := IntroduceValues(ids[i], facets[ids[i]].values);
      DeclaredListStep(ids, facets, i);
      out := out + introduced;
    }
    assert ids[..|ids|] == ids;
  }

  lemma UnseenStep(done: seq<string>, texts: seq<string>, k: nat)
    requires k < |texts|
    ensures FirstSeen(done + texts[..k + 1]) ==
            if texts[k] in FirstSeen(done + texts[..k]) then FirstSeen(done + texts[..k])
            else FirstSeen(done + texts[..k]) + [texts[k]]
  {
    assert done + texts[..k + 1] == done + texts[..k] + [texts[k]];
    FirstSeenStep(done + texts[..k], texts[k]);
  }

  /** Append the texts not seen yet. */
  method AppendUnseen(seen: set<string>, clauses: seq<string>, texts: seq<string>, ghost done: seq<string>)
    returns (seen': set<string>, clauses': seq<string>)
    requires clauses == FirstSeen(done) && forall c :: c in seen <==> c in clauses
    ensures clauses' == FirstSeen(done + texts) && forall c :: c in seen' <==> c in clauses'
  {
    seen', clauses' := seen, clauses;
    assert done + texts[..0] == done;
    for k := 0 to |texts|
      invariant clauses' == FirstSeen(done + texts[..k]) && forall c :: c in seen' <==> c in clauses'
    {
      UnseenStep(done, texts, k);
      if texts[k] !in seen' {
        seen' := seen' + {texts[k]};
        clauses' := clauses' + [texts[k]];
      }
    }
    assert texts[..|texts|] == texts;
  }

  method CcmClauses(selectors: seq<string>, facets: Facets) returns (clauses: seq<string>)
    ensures clauses == Clauses(selectors, facets)
    ensures InClauseOrder(clauses, selectors, facets)
  {
    var seen: set<string> := {};
    clauses := [];
    for k := 0 to |selectors|
      invariant clauses == FirstSeen(SelectorTexts(selectors[..k]))
      invariant forall c :: c in seen <==> c in clauses
    {
      assert selectors[..k + 1][..k] == selectors[..k];
      var trimmed := Trim(selectors[k]);
      if trimmed == [] {
        continue;
      }
      match ParseCondition(trimmed) {
        case Fail => continue;
        case Got(e, _) =>
          var texts := SynthesizeSelectorSymbols(e);
          seen, clauses := AppendUnseen(seen, clauses, texts, SelectorTexts(selectors[..k]));
      }
    }
    assert selectors[..|selectors|] == selectors;
    var declared := SynthesizeFacetClauses(facets);
    clauses := clauses + declared;
    ClausesInOrder(selectors, facets);
  }

  // ----- cardinality -----

  function RowPairs(i: nat, upTo: nat): (ps: seq<(nat, nat)>)
    requires i < upTo
    ensures forall p :: p in ps <==> p.0 == i && i < p.1 < upTo
  {
    if upTo == i + 1 then [] else RowPairs(i, upTo - 1) + [(i, upTo - 1)]
  }

  /** Every pair of positions, row by row. */
  function PairsBelow(rows: nat, n: nat): (ps: seq<(nat, nat)>)
    requires rows <= n
    ensures forall p :: p in ps <==> p.0 < rows && p.0 < p.1 < n
  {
    if rows == 0 then [] else PairsBelow(rows - 1, n) + RowPairs(rows - 1, n)
  }

  predicate PairsIn(ps: seq<(nat, nat)>, n: nat) {
    forall p | p in ps :: p.0 < n && p.1 < n
  }

  function MutexText(f: string, values: seq<string>, p: (nat, nat)): string
    requires p.0 < |values| && p.1 < |values|
  {
    Spell(f, NotEq, values[p.0]) + " || " + Spell(f, NotEq, values[p.1])
  }

  function MutexTexts(f: string, values: seq<string>, ps: seq<(nat, nat)>): (texts: seq<string>)
    requires PairsIn(ps, |values|)
    ensures |texts| == |ps| && forall k | 0 <= k < |ps| :: texts[k] == MutexText(f, values, ps[k])
  {
    seq(|ps|, k requires 0 <= k < |ps| => MutexText(f, values, ps[k]))
  }

  lemma MutexTextsAppend(f: string, values: seq<string>, ps: seq<(nat, nat)>, p: (nat, nat))
    requires PairsIn(ps, |values|) && p.0 < |values| && p.1 < |values|
    ensures PairsIn(ps + [p], |values|)
    ensures MutexTexts(f, values, ps + [p]) == MutexTexts(f, values, ps) + [MutexText(f, values, p)]
  {
  }

  function JoinEqualities(f: string, values: seq<string>): string
    requires values != []
  {
    var k := |values| - 1;
    if k == 0 then Spell(f, Eq, values[0]) else JoinEqualities(f, values[..k]) + ", " + Spell(f, Eq, values[k])
  }

  function CardinalityTexts(f: string, facet: Facet): seq<string> {
    if facet.open then MutexTexts(f, facet.values, PairsBelow(|facet.values|, |facet.values|))
    else if facet.values == [] then []
    else if |facet.values| == 1 then [Spell(f, Eq, facet.values[0])]
    else ["exactly_one_of(" + JoinEqualities(f, facet.values) + ")"]
  }

  function AllCardinality(ids: seq<string>, facets: Facets): seq<string>
    requires forall f | f in ids :: f in facets
  {
    if ids == [] then []
    else
      var k := |ids| - 1;
      AllCardinality(ids[..k], facets) + CardinalityTexts(ids[k], facets[ids[k]])
  }

  lemma MutexTextsJoin(f: string, values: seq<string>, ps: seq<(nat, nat)>, qs: seq<(nat, nat)>)
    requires PairsIn(ps, |values|) && PairsIn(qs, |values|)
    ensures PairsIn(ps + qs, |values|)
    ensures MutexTexts(f, values, ps + qs) == MutexTexts(f, values, ps) + MutexTexts(f, values, qs)
  {
  }

  method MutexRow(f: string, values: seq<string>, i: nat) returns (out: seq<string>)
    requires i < |values|
    ensures out == MutexTexts(f, values, RowPairs(i, |values|))
  {
    out := [];
    for j := i + 1 to |values|
      invariant out == MutexTexts(f, values, RowPairs(i, j))
    {
      MutexTextsAppend(f, values, RowPairs(i, j), (i, j));
      out := out + [MutexText(f, values, (i, j))];
    }
  }

  method SynthesizeMutexes(f: string, values: seq<string>) returns (out: seq<string>)
    ensures out == MutexTexts(f, values, PairsBelow(|values|, |values|))
  {
    out := [];
    for i := 0 to |values|
      invariant out == MutexTexts(f, values, PairsBelow(i, |values|))
    {
      var row := MutexRow(f, values, i);
      MutexTextsJoin(f, values, PairsBelow(i, |values|), RowPairs(i, |values|));
      out := out + row;
    }
  }

  method Equalities(f: string, values: seq<string>) returns (args: string)
    requires values != []
    ensures args == JoinEqualities(f, values)
  {
    args := Spell(f, Eq, values[0]);
    for j := 1 to |values|
      invariant args == JoinEqualities(f, values[..j])
    {
      assert values[..j + 1][..j] == values[..j];
      args := args + ", " + Spell(f, Eq, values[j]);
    }
    assert values[..|values|] == values;
  }

  method FacetCardinality(f: string, facet: Facet) returns (out: seq<string>)
    ensures out == CardinalityTexts(f, facet)
  {
    out := [];
    if facet.open {
      out := SynthesizeMutexes(f, facet.values);
    } else if |facet.values| == 1 {
      out := [Spell(f, Eq, facet.values[0])];
    } else if |facet.values| >= 2 {
      var args := Equalities(f, facet.values);
      out := ["exactly_one_of(" + args + ")"];
    }
  }

  lemma AllCardinalityStep(ids: seq<string>, facets: Facets, i: nat)
    requires i < |ids| && forall f | f in ids :: f in facets
    ensures AllCardinality(ids[..i + 1], facets) ==
            AllCardinality(ids[..i], facets) + CardinalityTexts(ids[i], facets[ids[i]])
  {
    assert ids[..i + 1][..i] == ids[..i];
  }

  method SynthesizeCardinality(facets: Facets) returns (out: seq<string>)
    ensures out == AllCardinality(Sorting.Keys(facets.Keys), facets)
  {
    var ids := Sorting.Keys(facets.Keys);
    out := [];
    for i := 0 to |ids|
      invariant out == AllCardinality(ids[..i], facets)
    {
      assert ids[i] in facets.Keys;
      var texts := FacetCardinality(ids[i], facets[ids[i]]);
      AllCardinalityStep(ids, facets, i);
      out := out + texts;
    }
    assert ids[..|ids|] == ids;
  }
}
