/** The constraint model of a linked package and the root it folds to
    (compiler/src/compiler_core.rs `condition_model_from_summary`,
    compiler/src/ccm_emitter.rs `parse_condition_model`). */
module ConstraintModel {
  import opened Conditions
  import opened Options
  import opened ConditionText
  import opened FacetComparison
  import opened FacetRules
  import opened ClauseSynthesis
  import opened SynthesizedText
  import Identifiers
  import ConditionRoundTrip
  import ParserExtension
  import Sorting

  datatype Model = Model(clauses: seq<string>, constraints: seq<(string, string)>, cardinality: seq<string>,
      domains: Domains)

  datatype ParsedModel = Root(exprs: seq<Expr>) | Refused(text: string)

  function ModelOf(selectors: seq<string>, constraints: seq<(string, string)>, facets: Facets): Model {
    Model(Clauses(selectors, facets), constraints, AllCardinality(Sorting.Keys(facets.Keys), facets), DomainsOf(facets))
  }

  method BuildConditionModel(selectors: seq<string>, constraints: seq<(string, string)>, facets: Facets)
      returns (m: Model)
    ensures m == ModelOf(selectors, constraints, facets)
  {
    var clauses := CcmClauses(selectors, facets);
    var cardinality := SynthesizeCardinality(facets);
    m := Model(clauses, constraints, cardinality, DomainsOf(facets));
  }

  function ConditionTexts(constraints: seq<(string, string)>): (texts: seq<string>)
    ensures |texts| == |constraints| && forall i | 0 <= i < |texts| :: texts[i] == constraints[i].1
  {
    seq(|constraints|, i requires 0 <= i < |constraints| => constraints[i].1)
  }

  /** The fold order: symbol-introducing clauses, constraints, cardinality. */
  function Texts(m: Model): seq<string> {
    m.clauses + ConditionTexts(m.constraints) + m.cardinality
  }

  predicate Readable(t: string, d: Domains) {
    ParseCondition(t).Got? && Expand(ParseCondition(t).value, d).Expanded?
  }

  function Read(t: string, d: Domains): Expr
    requires Readable(t, d)
  {
    Expand(ParseCondition(t).value, d).e
  }

  /** The conjuncts of the root, text by text. */
  predicate IsRoot(exprs: seq<Expr>, m: Model) {
    && |exprs| == |Texts(m)|
    && forall i | 0 <= i < |exprs| :: Readable(Texts(m)[i], m.domains) && exprs[i] == Read(Texts(m)[i], m.domains)
  }

  predicate Reads(e: Expr, t: string, d: Domains) {
    Readable(t, d) && e == Read(t, d)
  }

  /** Where each text stands in the fold: a constraint's position is its place in the roster. */
  ghost predicate InFoldOrder(exprs: seq<Expr>, m: Model) {
    var n, c := |m.clauses|, |m.constraints|;
    && |exprs| == n + c + |m.cardinality|
    && (forall i | 0 <= i < n :: Reads(exprs[i], m.clauses[i], m.domains))
    && (forall i | n <= i < n + c :: Reads(exprs[i], m.constraints[i - n].1, m.domains))
    && forall i | n + c <= i < |exprs| :: Reads(exprs[i], m.cardinality[i - n - c], m.domains)
  }

  lemma RootInFoldOrder(exprs: seq<Expr>, m: Model)
    requires IsRoot(exprs, m)
    ensures InFoldOrder(exprs, m)
  {
    var n, c := |m.clauses|, |m.constraints|;
    forall i | 0 <= i < |exprs| ensures Reads(exprs[i], Texts(m)[i], m.domains) { }
    assert forall i | 0 <= i < n :: Texts(m)[i] == m.clauses[i];
    assert forall i | n <= i < n + c :: Texts(m)[i] == m.constraints[i - n].1;
    assert forall i | n + c <= i < |exprs| :: Texts(m)[i] == m.cardinality[i - n - c];
  }

  /** `parse_condition_model`: parse every text, then expand every comparison. */
  method ParseConditionModel(m: Model) returns (r: ParsedModel)
    ensures r.Root? <==> forall t | t in Texts(m) :: Readable(t, m.domains)
    ensures r.Root? ==> IsRoot(r.exprs, m) && InFoldOrder(r.exprs, m)
    ensures r.Refused? ==> r.text in Texts(m) && !Readable(r.text, m.domains)
  {
    var texts := Texts(m);
    var parsed: seq<Expr> := [];
    for i := 0 to |texts|
      invariant |parsed| == i && forall k | 0 <= k < i :: ParseCondition(texts[k]) == Got(parsed[k], [])
    {
      match ParseCondition(texts[i]) {
        case Fail =>
          assert texts[i] in texts;
          return Refused(texts[i]);
        case Got(e, _) => parsed := parsed + [e];
      }
    }
    var exprs: seq<Expr> := [];
    for i := 0 to |texts|
      invariant |exprs| == i
      invariant forall k | 0 <= k < i :: Readable(texts[k], m.domains) && exprs[k] == Read(texts[k], m.domains)
    {
      match Expand(parsed[i], m.domains) {
        case Undeclared(_) =>
          assert texts[i] in texts;
          return Refused(texts[i]);
        case Expanded(e) => exprs := exprs + [e];
      }
    }
    RootInFoldOrder(exprs, m);
    return Root(exprs);
  }

  // ----- what validation guarantees -----

  /** Facets whose clauses can be written down. */
  predicate Usable(facets: Facets) {
    forall f | f in facets :: IsTag(f) && Unquoted(facets[f].values) && facets[f].values != [] &&
        Sorting.NoRepeats(facets[f].values)
  }

  predicate NoneReserved(facets: Facets) {
    "true" !in facets && "false" !in facets
  }

  /** Validated facets are usable exactly when none is named like a Boolean literal. */
  lemma ValidatedIsUsable(facets: Facets)
    requires FacetsOk(facets)
    ensures Usable(facets) <==> NoneReserved(facets)
  {
    forall f | f in facets
      ensures IsIdent(f) && Unquoted(facets[f].values) && facets[f].values != [] &&
              Sorting.NoRepeats(facets[f].values)
    {
      assert FacetOk(f, facets[f]);
      Identifiers.SnakeIdIsIdent(f);
    }
  }

  /** Every constraint parses, names declared facets and stays in closed domains. */
  predicate ConstraintsOk(constraints: seq<(string, string)>, facets: Facets) {
    forall c | c in constraints :: ParseCondition(c.1).Got? && OperandsOk(ParseCondition(c.1).value, facets)
  }

  /** The white space around a text. */
  function Before(t: string): string {
    t[..|t| - |TrimStart(t)|]
  }

  function After(t: string): string {
    TrimStart(t)[|Trim(t)|..]
  }

  predicate AllSpace(s: string) {
    forall c | c in s :: IsSpace(c)
  }

  /** The white space around a text is white space to the grammar as well. */
  predicate PlainlyPadded(t: string) {
    (forall c | c in Before(t) :: IsWs(c)) && forall c | c in After(t) :: IsWs(c)
  }

  lemma {:induction false} TrimStartParts(t: string)
    ensures t == Before(t) + TrimStart(t) && AllSpace(Before(t))
  {
    if t != [] && IsSpace(t[0]) {
      TrimStartParts(t[1..]);
      assert Before(t) == [t[0]] + Before(t[1..]);
    }
  }

  lemma {:induction false} TrimEndParts(t: string)
    ensures t == TrimEnd(t) + t[|TrimEnd(t)|..] && AllSpace(t[|TrimEnd(t)|..])
  {
    if t != [] && IsSpace(t[|t| - 1]) {
      var u := t[..|t| - 1];
      TrimEndParts(u);
      assert t[|TrimEnd(t)|..] == u[|TrimEnd(u)|..] + [t[|t| - 1]];
      assert t == u + [t[|t| - 1]];
    }
  }

  lemma {:induction false} SkipsWithin(s: string)
    ensures forall c | c in SkipWs(s) :: c in s
  {
    if s != [] && IsWs(s[0]) { SkipsWithin(s[1..]); }
  }

  lemma SpaceAfter(c: string, s: string)
    requires ParseCondition(c).Got? && AllSpace(s)
    ensures ParseCondition(c + s) == if forall x | x in s :: IsWs(x) then ParseCondition(c) else Fail
  {
    if s == [] {
      assert c + s == c;
    } else {
      SkipsWithin(s);
      assert s[0] in s;
      if SkipWs(s) != [] { assert SkipWs(s)[0] in s; }
      ParserExtension.TrailingSpace(c, s);
    }
  }

  lemma SpaceBefore(s: string, c: string)
    requires AllSpace(s)
    ensures ParseCondition(s + c) == if forall x | x in s :: IsWs(x) then ParseCondition(c) else Fail
  {
    if forall x | x in s :: IsWs(x) {
      ParserExtension.LeadingSpace(s, c);
    } else {
      ParserExtension.AllSkipped(s);
      ParserExtension.SkipWsExtends(s, c);
      SkipsWithin(s);
      assert SkipWs(s)[0] in s;
      ParserExtension.ForeignStart(s + c);
    }
  }

  /** A text whose trimmed form parses, parses itself exactly when it is plainly padded. */
  lemma UntrimmedReads(t: string)
    requires ParseCondition(Trim(t)).Got?
    ensures ParseCondition(t) == if PlainlyPadded(t) then ParseCondition(Trim(t)) else Fail
  {
    TrimStartParts(t);
    TrimEndParts(TrimStart(t));
    SpaceAfter(Trim(t), After(t));
    SpaceBefore(Before(t), TrimStart(t));
  }

  /** Validation trims a constraint before parsing it; the emitter and resolve do not. */
  lemma ValidatedConstraintsOk(constraints: seq<(string, string)>, facets: Facets)
    requires forall c | c in constraints :: CheckText(c.0, c.1, facets, Complete) == Accepted
    ensures ConstraintsOk(constraints, facets) <==> forall c | c in constraints :: PlainlyPadded(c.1)
  {
    forall c | c in constraints
      ensures (ParseCondition(c.1).Got? && OperandsOk(ParseCondition(c.1).value, facets)) == PlainlyPadded(c.1)
    {
      CompleteScopeMeans(c.0, c.1, facets);
      UntrimmedReads(c.1);
    }
  }

  /** White space the trim removes but the grammar does not know passes validation and is
      then refused by every later reader. */
  lemma PaddedTextSlipsThrough(id: string, facets: Facets)
    ensures CheckText(id, ['\U{0B}'] + Print(Bool(true), OrStrength), facets, Complete) == Accepted
    ensures ParseCondition(['\U{0B}'] + Print(Bool(true), OrStrength)).Fail?
  {
    var t := Print(Bool(true), OrStrength);
    var text := ['\U{0B}'] + t;
    assert text[1..] == t && TrimStart(t) == t && TrimStart(text) == t && TrimEnd(t) == t;
    ConditionRoundTrip.SerializeThenParse(Bool(true));
    assert LeafList(Bool(true)) == [];
    UntrimmedReads(text);
    assert Before(text)[0] == '\U{0B}' && '\U{0B}' in Before(text);
  }

  lemma ConstraintReadable(text: string, facets: Facets)
    requires ParseCondition(text).Got? && OperandsOk(ParseCondition(text).value, facets)
    ensures Readable(text, DomainsOf(facets)) && Faithful(Read(text, DomainsOf(facets)), ParseCondition(text).value,
            DomainsOf(facets))
  {
    var e := ParseCondition(text).value;
    forall l | l in Leaves(e) && l.FacetCompare? ensures l.lhs in DomainsOf(facets) && l.rhs in DomainsOf(facets) {
      assert LeafViolation(l, facets) == Satisfied;
    }
    ExpandIsFaithful(e, DomainsOf(facets));
  }

  // ----- the clause channel -----

  /** The pairs named by the selectors that parse. */
  function SelectorPairs(selectors: seq<string>): set<Symbol> {
    if selectors == [] then {}
    else
      var k := |selectors| - 1;
      var r := ParseCondition(Trim(selectors[k]));
      SelectorPairs(selectors[..k]) + if r.Got? then SymbolsOf(r.value) else {}
  }

  /** Each text introduces one of the pairs, and each pair is introduced. */
  ghost predicate Introduces(texts: seq<string>, pairs: set<Symbol>) {
    && (forall t | t in texts :: exists s :: s in pairs && t == Introduction(s))
    && forall s | s in pairs :: Introduction(s) in texts
  }

  lemma IntroducesSeq(ss: seq<Symbol>, pairs: set<Symbol>)
    requires forall s :: s in ss <==> s in pairs
    ensures Introduces(Introductions(ss), pairs)
  {
    var texts := Introductions(ss);
    forall t | t in texts ensures exists s :: s in pairs && t == Introduction(s) {
      var i :| 0 <= i < |texts| && texts[i] == t;
      assert ss[i] in pairs;
    }
    forall s | s in pairs ensures Introduction(s) in texts {
      var i :| 0 <= i < |ss| && ss[i] == s;
      assert texts[i] == Introduction(s);
    }
  }

  lemma IntroducesJoin(a: seq<string>, p: set<Symbol>, b: seq<string>, q: set<Symbol>)
    requires Introduces(a, p) && Introduces(b, q)
    ensures Introduces(a + b, p + q)
  {
    forall t | t in a + b ensures exists s :: s in p + q && t == Introduction(s) {
      if t in a {
        var s :| s in p && t == Introduction(s);
        assert s in p + q;
      } else {
        var s :| s in q && t == Introduction(s);
        assert s in p + q;
      }
    }
  }

  lemma {:induction false} SelectorTextsIntroduce(selectors: seq<string>)
    ensures Introduces(SelectorTexts(selectors), SelectorPairs(selectors))
    ensures forall s | s in SelectorPairs(selectors) :: Writable(s)
    decreases |selectors|
  {
    if selectors != [] {
      var k := |selectors| - 1;
      SelectorTextsIntroduce(selectors[..k]);
      var r := ParseCondition(Trim(selectors[k]));
      if r.Got? {
        SelectorSymbolsMean(r.value);
        IntroducesSeq(SelectorSymbols(r.value), SymbolsOf(r.value));
        IntroducesJoin(SelectorTexts(selectors[..k]), SelectorPairs(selectors[..k]),
                       Introductions(SelectorSymbols(r.value)), SymbolsOf(r.value));
        SpellableLeaves(r.value);
      } else {
        assert SelectorPairs(selectors) == SelectorPairs(selectors[..k]);
      }
    }
  }

  /** The symbol universe the clause channel contributes. */
  function Universe(selectors: seq<string>, facets: Facets): set<Symbol> {
    SelectorPairs(selectors) + DeclaredSymbols(DomainsOf(facets))
  }

  lemma ClausesIntroduce(selectors: seq<string>, facets: Facets)
    ensures Introduces(Clauses(selectors, facets), Universe(selectors, facets))
  {
    SelectorTextsIntroduce(selectors);
    var own := FirstSeen(SelectorTexts(selectors));
    assert Introduces(own, SelectorPairs(selectors));
    var ss := DeclaredList(Sorting.Keys(facets.Keys), facets);
    var declared := DeclaredSymbols(DomainsOf(facets));
    forall s ensures s in ss <==> s in declared {
    }
    IntroducesSeq(ss, declared);
    IntroducesJoin(own, SelectorPairs(selectors), Introductions(ss), declared);
  }

  lemma UniverseWritable(selectors: seq<string>, facets: Facets)
    requires Usable(facets)
    ensures forall s | s in Universe(selectors, facets) :: Writable(s)
  {
    SelectorTextsIntroduce(selectors);
    forall s | s in DeclaredSymbols(DomainsOf(facets)) ensures Writable(s) {
      assert s.0 in facets && s.1 in facets[s.0].values;
    }
  }

  lemma IntroductionReads(s: Symbol, d: Domains)
    requires Writable(s)
    ensures Readable(Introduction(s), d) && Read(Introduction(s), d) == Tautology(s)
  {
    IntroductionParses(s);
    var e := Tautology(s);
    assert Expand(e.left, d) == Expanded(e.left) && Expand(e.right, d) == Expanded(e.right);
  }

  /** Selectors assert nothing: every clause is read as a tautology, whatever the
      selector texts say, and the symbols read are exactly the pairs named by the
      selectors that parse together with every declared value. */
  lemma SelectorsAssertNothing(selectors: seq<string>, facets: Facets, on: set<Symbol>)
    requires Usable(facets)
    ensures forall t | t in Clauses(selectors, facets) ::
              Readable(t, DomainsOf(facets)) && Eval(Read(t, DomainsOf(facets)), Symbols(on))
    ensures forall t | t in Clauses(selectors, facets) ::
              Readable(t, DomainsOf(facets)) && SymbolsOf(Read(t, DomainsOf(facets))) <= Universe(selectors, facets)
    ensures forall s | s in Universe(selectors, facets) ::
              exists t :: t in Clauses(selectors, facets) && Readable(t, DomainsOf(facets)) &&
                  SymbolsOf(Read(t, DomainsOf(facets))) == {s}
  {
    var d := DomainsOf(facets);
    ClausesIntroduce(selectors, facets);
    UniverseWritable(selectors, facets);
    forall t | t in Clauses(selectors, facets)
      ensures Readable(t, d) && Eval(Read(t, d), Symbols(on)) && SymbolsOf(Read(t, d)) <= Universe(selectors, facets)
    {
      var s :| s in Universe(selectors, facets) && t == Introduction(s);
      IntroductionReads(s, d);
      TautologyHolds(s, Symbols(on));
    }
    forall s | s in Universe(selectors, facets)
      ensures Introduction(s) in Clauses(selectors, facets) && Readable(Introduction(s), d) &&
              SymbolsOf(Read(Introduction(s), d)) == {s}
    {
      IntroductionReads(s, d);
      TautologyHolds(s, Symbols(on));
    }
  }

  // ----- the cardinality channel -----

  predicate TextHolds(t: string, d: Domains, on: set<Symbol>) {
    Readable(t, d) && Eval(Read(t, d), Symbols(on))
  }

  lemma ComparisonFreeReads(t: string, e: Expr, d: Domains)
    requires ReadsAs(t, e)
    ensures Readable(t, d) && forall on :: Eval(Read(t, d), Symbols(on)) == Eval(e, Symbols(on))
    ensures forall s | s in SymbolsOf(Read(t, d)) :: s in SymbolsOf(e) || s in DeclaredSymbols(d)
  {
    ExpandIsFaithful(e, d);
    forall on ensures Eval(Read(t, d), Symbols(on)) == Eval(e, Symbols(on)) {
      LeavesDecide(e, Declared(d, on), Symbols(on));
    }
  }

  lemma FacetCardinalityHolds(f: string, facet: Facet, d: Domains, on: set<Symbol>)
    requires IsTag(f) && Unquoted(facet.values) && facet.values != [] && Sorting.NoRepeats(facet.values)
    ensures forall t | t in CardinalityTexts(f, facet) :: Readable(t, d)
    ensures (forall t | t in CardinalityTexts(f, facet) :: TextHolds(t, d, on)) == CardinalityHolds(f, facet, on)
  {
    var texts, es := CardinalityTexts(f, facet), CardinalityExprs(f, facet);
    forall k | 0 <= k < |texts|
      ensures |es| == |texts| && Readable(texts[k], d) && TextHolds(texts[k], d, on) == Eval(es[k], Symbols(on))
    {
      CardinalityReads(f, facet, k);
      ComparisonFreeReads(texts[k], es[k], d);
    }
    SameCount(f, facet);
    CardinalityMeans(f, facet, on);
    if AllHold(es, Symbols(on)) {
      forall t | t in texts ensures TextHolds(t, d, on) {
        var k :| 0 <= k < |texts| && texts[k] == t;
        assert es[k] in es;
      }
    }
    if forall t | t in texts :: TextHolds(t, d, on) {
      forall e | e in es ensures Eval(e, Symbols(on)) {
        var k :| 0 <= k < |es| && es[k] == e;
        assert texts[k] in texts;
      }
    }
  }

  lemma SameCount(f: string, facet: Facet)
    ensures |CardinalityTexts(f, facet)| == |CardinalityExprs(f, facet)|
  {
  }

  /** The cardinality texts of a list of facets are readable and say the facets are one-hot. */
  ghost predicate SayOneHot(texts: seq<string>, ids: seq<string>, facets: Facets, on: set<Symbol>)
    requires forall f | f in ids :: f in facets
  {
    && (forall t | t in texts :: Readable(t, DomainsOf(facets)))
    && ((forall t | t in texts :: TextHolds(t, DomainsOf(facets), on)) == forall f | f in ids ::
        CardinalityHolds(f, facets[f], on))
  }

  lemma FacetSays(f: string, facets: Facets, on: set<Symbol>)
    requires Usable(facets) && f in facets
    ensures SayOneHot(CardinalityTexts(f, facets[f]), [f], facets, on)
  {
    FacetCardinalityHolds(f, facets[f], DomainsOf(facets), on);
  }

  lemma {:induction false} CardinalityFrom(ids: seq<string>, facets: Facets, t: string) returns (f: string)
    requires (forall f | f in ids :: f in facets) && t in AllCardinality(ids, facets)
    ensures f in ids && t in CardinalityTexts(f, facets[f])
    decreases |ids|
  {
    var k := |ids| - 1;
    if t in CardinalityTexts(ids[k], facets[ids[k]]) {
      f := ids[k];
    } else {
      f := CardinalityFrom(ids[..k], facets, t);
    }
  }

  lemma {:induction false} CardinalityInto(ids: seq<string>, facets: Facets, f: string, t: string)
    requires (forall f | f in ids :: f in facets) && f in ids && t in CardinalityTexts(f, facets[f])
    ensures t in AllCardinality(ids, facets)
    decreases |ids|
  {
    var k := |ids| - 1;
    if f != ids[k] {
      InPrefix(ids, f);
      CardinalityInto(ids[..k], facets, f, t);
    }
    JoinHolds(AllCardinality(ids[..k], facets), CardinalityTexts(ids[k], facets[ids[k]]), t);
  }

  lemma InPrefix(ids: seq<string>, f: string)
    requires f in ids && f != ids[|ids| - 1]
    ensures f in ids[..|ids| - 1]
  {
  }

  lemma JoinHolds(a: seq<string>, b: seq<string>, t: string)
    ensures t in a + b <==> t in a || t in b
  {
  }

  lemma AllCardinalityHolds(ids: seq<string>, facets: Facets, on: set<Symbol>)
    requires Usable(facets) && forall f | f in ids :: f in facets
    ensures SayOneHot(AllCardinality(ids, facets), ids, facets, on)
  {
    var texts, d := AllCardinality(ids, facets), DomainsOf(facets);
    forall t | t in texts
      ensures Readable(t, d) && ((forall f | f in ids :: CardinalityHolds(f, facets[f], on)) ==> TextHolds(t, d, on))
    {
      var f := CardinalityFrom(ids, facets, t);
      FacetSays(f, facets, on);
    }
    if forall t | t in texts :: TextHolds(t, d, on) {
      forall f | f in ids ensures CardinalityHolds(f, facets[f], on) {
        forall t | t in CardinalityTexts(f, facets[f]) ensures TextHolds(t, d, on) {
          CardinalityInto(ids, facets, f, t);
        }
        FacetSays(f, facets, on);
      }
    }
  }

  // ----- the root -----

  ghost predicate OneHot(facets: Facets, on: set<Symbol>) {
    forall f | f in facets :: CardinalityHolds(f, facets[f], on)
  }

  ghost predicate PolicyHolds(constraints: seq<(string, string)>, facets: Facets, on: set<Symbol>) {
    forall c | c in constraints :: PolicyTextHolds(c.1, facets, on)
  }

  predicate PolicyTextHolds(text: string, facets: Facets, on: set<Symbol>) {
    ParseCondition(text).Got? && Eval(ParseCondition(text).value, Declared(DomainsOf(facets), on))
  }

  /** Every constraint parses and compares declared facets only. */
  predicate ConstraintsReadable(constraints: seq<(string, string)>, facets: Facets) {
    forall c | c in constraints :: Readable(c.1, DomainsOf(facets))
  }

  lemma OkIsReadable(constraints: seq<(string, string)>, facets: Facets)
    requires ConstraintsOk(constraints, facets)
    ensures ConstraintsReadable(constraints, facets)
  {
    forall c | c in constraints ensures Readable(c.1, DomainsOf(facets)) { ConstraintReadable(c.1, facets); }
  }

  lemma TextsReadable(constraints: seq<(string, string)>, facets: Facets)
    ensures ConstraintsReadable(constraints, facets) <==>
            forall t | t in ConditionTexts(constraints) :: Readable(t, DomainsOf(facets))
  {
    var texts := ConditionTexts(constraints);
    if forall t | t in texts :: Readable(t, DomainsOf(facets)) {
      forall c | c in constraints ensures Readable(c.1, DomainsOf(facets)) {
        var i :| 0 <= i < |constraints| && constraints[i] == c;
        assert texts[i] in texts;
      }
    }
    if ConstraintsReadable(constraints, facets) {
      forall t | t in texts ensures Readable(t, DomainsOf(facets)) {
        var i :| 0 <= i < |texts| && texts[i] == t;
        assert constraints[i] in constraints;
      }
    }
  }

  lemma PolicyTexts(constraints: seq<(string, string)>, facets: Facets, on: set<Symbol>)
    requires ConstraintsReadable(constraints, facets)
    ensures (forall t | t in ConditionTexts(constraints) :: TextHolds(t, DomainsOf(facets), on)) ==
            PolicyHolds(constraints, facets, on)
  {
    var texts, d := ConditionTexts(constraints), DomainsOf(facets);
    forall i | 0 <= i < |texts| ensures TextHolds(texts[i], d, on) == PolicyTextHolds(constraints[i].1, facets, on) {
      assert constraints[i] in constraints;
      ExpandIsFaithful(ParseCondition(texts[i]).value, d);
    }
    if forall t | t in texts :: TextHolds(t, d, on) {
      forall c | c in constraints ensures PolicyTextHolds(c.1, facets, on) {
        var i :| 0 <= i < |constraints| && constraints[i] == c;
        assert texts[i] in texts;
      }
    }
    if PolicyHolds(constraints, facets, on) {
      forall i | 0 <= i < |texts| ensures TextHolds(texts[i], d, on) {
        assert constraints[i] in constraints;
      }
    }
  }

  /** A model of usable facets is refused for its constraints or not at all. */
  lemma UsableModelReadableIff(selectors: seq<string>, constraints: seq<(string, string)>, facets: Facets)
    requires Usable(facets)
    ensures (forall t | t in Texts(ModelOf(selectors, constraints, facets)) :: Readable(t, DomainsOf(facets))) <==>
            ConstraintsReadable(constraints, facets)
  {
    SelectorsAssertNothing(selectors, facets, {});
    AllCardinalityHolds(Sorting.Keys(facets.Keys), facets, {});
    TextsReadable(constraints, facets);
  }

  /** Validation lets a facet be named `true` or `false`; the model is then refused. Otherwise
      it is refused only for a constraint that cannot be read. */
  lemma ModelReadableIff(selectors: seq<string>, constraints: seq<(string, string)>, facets: Facets)
    requires FacetsOk(facets)
    ensures (forall t | t in Texts(ModelOf(selectors, constraints, facets)) :: Readable(t, DomainsOf(facets))) <==>
            NoneReserved(facets) && ConstraintsReadable(constraints, facets)
  {
    ValidatedIsUsable(facets);
    if NoneReserved(facets) {
      UsableModelReadableIff(selectors, constraints, facets);
    } else {
      var f :| f in facets && (f == "true" || f == "false");
      assert FacetOk(f, facets[f]);
      var s := (f, facets[f].values[0]);
      assert s in DeclaredSymbols(DomainsOf(facets));
      ClausesIntroduce(selectors, facets);
      assert Introduction(s) in Texts(ModelOf(selectors, constraints, facets));
      ReservedIntroductionFails(s);
    }
  }

  method FirstUnreadable(f: string, values: seq<string>) returns (j: nat)
    ensures j <= |values| && forall k | 0 <= k < j :: ParseCondition(Introduction((f, values[k]))).Got?
    ensures j < |values| ==> ParseCondition(Introduction((f, values[j]))).Fail?
  {
    j := 0;
    while j < |values|
      invariant j <= |values| && forall k | 0 <= k < j :: ParseCondition(Introduction((f, values[k]))).Got?
    {
      if ParseCondition(Introduction((f, values[j]))).Fail? { return; }
      j := j + 1;
    }
  }

  /** `unrepresentable_facet_symbol`: the first declared pair whose introduction does not
      parse. For validated facets it fires exactly on the reserved names. */
  method UnrepresentableFacetSymbol(domains: Domains) returns (r: Option<Symbol>)
    ensures r.None? <==> forall s | s in DeclaredSymbols(domains) :: ParseCondition(Introduction(s)).Got?
    ensures r.Some? ==> IsFirstFault(r.value, domains)
  {
    var ids := Sorting.Keys(domains.Keys);
    for i := 0 to |ids|
      invariant forall k | 0 <= k < i :: AllIntroduced(ids[k], domains)
    {
      assert ids[i] in domains.Keys;
      var j := FirstUnreadable(ids[i], domains[ids[i]]);
      if j < |domains[ids[i]]| {
        FaultAt(domains, ids, i, j);
        return Some((ids[i], domains[ids[i]][j]));
      }
      assert AllIntroduced(ids[i], domains);
    }
    forall s | s in DeclaredSymbols(domains) ensures ParseCondition(Introduction(s)).Got? {
      assert s.0 in ids && AllIntroduced(s.0, domains);
    }
    return None;
  }

  /** The pair's introduction does not parse, and every earlier pair's does: those of lesser
      facets, and those of its facet declared before it. */
  ghost predicate IsFirstFault(s: Symbol, domains: Domains) {
    && s in DeclaredSymbols(domains) && ParseCondition(Introduction(s)).Fail?
    && (forall f | f in domains && f != s.0 && Sorting.Le(f, s.0) :: AllIntroduced(f, domains))
    && exists j :: 0 <= j < |domains[s.0]| && domains[s.0][j] == s.1 &&
                   forall k | 0 <= k < j :: ParseCondition(Introduction((s.0, domains[s.0][k]))).Got?
  }

  lemma FaultAt(domains: Domains, ids: seq<string>, i: nat, j: nat)
    requires ids == Sorting.Keys(domains.Keys) && i < |ids| && ids[i] in domains && j < |domains[ids[i]]|
    requires forall k | 0 <= k < i :: AllIntroduced(ids[k], domains)
    requires forall k | 0 <= k < j :: ParseCondition(Introduction((ids[i], domains[ids[i]][k]))).Got?
    requires ParseCondition(Introduction((ids[i], domains[ids[i]][j]))).Fail?
    ensures IsFirstFault((ids[i], domains[ids[i]][j]), domains)
  {
    Sorting.KeysAscend(domains.Keys);
    forall f | f in domains && f != ids[i] && Sorting.Le(f, ids[i]) ensures AllIntroduced(f, domains) {
      assert f in ids;
      var k :| 0 <= k < |ids| && ids[k] == f;
      if i < k { Sorting.LeAntisymmetric(f, ids[i]); }
    }
    assert domains[ids[i]][j] in domains[ids[i]];
  }

  ghost predicate AllIntroduced(f: string, domains: Domains) {
    f in domains && forall v | v in domains[f] :: ParseCondition(Introduction((f, v))).Got?
  }

  lemma BackstopFiresOnReserved(facets: Facets)
    requires FacetsOk(facets)
    ensures (forall s | s in DeclaredSymbols(DomainsOf(facets)) :: ParseCondition(Introduction(s)).Got?) <==>
            NoneReserved(facets)
  {
    ValidatedIsUsable(facets);
    if NoneReserved(facets) {
      UniverseWritable([], facets);
      forall s | s in DeclaredSymbols(DomainsOf(facets)) ensures ParseCondition(Introduction(s)).Got? {
        IntroductionParses(s);
      }
    } else {
      var f :| f in facets && (f == "true" || f == "false");
      assert FacetOk(f, facets[f]);
      var s := (f, facets[f].values[0]);
      assert s in DeclaredSymbols(DomainsOf(facets));
      ReservedIntroductionFails(s);
    }
  }

  lemma RootIsTexts(exprs: seq<Expr>, m: Model, on: set<Symbol>)
    requires IsRoot(exprs, m)
    ensures AllHold(exprs, Symbols(on)) <==> forall t | t in Texts(m) :: TextHolds(t, m.domains, on)
  {
    var texts := Texts(m);
    if AllHold(exprs, Symbols(on)) {
      forall t | t in texts ensures TextHolds(t, m.domains, on) {
        var i :| 0 <= i < |texts| && texts[i] == t;
        assert exprs[i] in exprs;
      }
    }
    if forall t | t in texts :: TextHolds(t, m.domains, on) {
      forall e | e in exprs ensures Eval(e, Symbols(on)) {
        var i :| 0 <= i < |exprs| && exprs[i] == e;
        assert texts[i] in texts;
      }
    }
  }

  lemma RootIsReadable(exprs: seq<Expr>, m: Model)
    requires IsRoot(exprs, m)
    ensures forall t | t in Texts(m) :: Readable(t, m.domains)
  {
    var texts := Texts(m);
    forall t | t in texts ensures Readable(t, m.domains) {
      var i :| 0 <= i < |texts| && texts[i] == t;
    }
  }

  /** The root says two things and no more: each facet's symbols are one-hot, and the
      constraints hold over the declared symbols. */
  lemma RootMeans(selectors: seq<string>, constraints: seq<(string, string)>, facets: Facets, exprs: seq<Expr>,
                  on: set<Symbol>)
    requires Usable(facets) && IsRoot(exprs, ModelOf(selectors, constraints, facets))
    ensures AllHold(exprs, Symbols(on)) <==> OneHot(facets, on) && PolicyHolds(constraints, facets, on)
  {
    var m, ids := ModelOf(selectors, constraints, facets), Sorting.Keys(facets.Keys);
    RootIsTexts(exprs, m, on);
    RootIsReadable(exprs, m);
    UsableModelReadableIff(selectors, constraints, facets);
    SelectorsAssertNothing(selectors, facets, on);
    PolicyTexts(constraints, facets, on);
    AllCardinalityHolds(ids, facets, on);
    assert forall f | f in facets :: f in ids;
  }
}
