/** The root conjuncts lowered from `derive` tables and `accepts` lists
    (compiler/src/lowering.rs `lowered_root_conjuncts_from_summary`). */
module Lowering {
  import opened Conditions
  import opened ConditionText
  import opened ConditionRoundTrip
  import opened FacetComparison
  import opened FacetRules
  import opened ClauseSynthesis
  import opened SynthesizedText
  import opened ConstraintModel
  import opened Options
  import opened Summaries
  import opened SelectionEval
  import Agreement
  import ParserExtension
  import Identifiers
  import Sorting

  function DeriveId(binding: string, source: string, value: string): string {
    "derive:" + binding + ":" + source + "=" + value
  }

  function AcceptsId(component: string, slot: string): string {
    "accepts:" + component + "." + slot
  }

  function DeriveText(source: string, value: string, binding: string, entry: string): string {
    Spell(source, NotEq, value) + " || " + Spell(binding, Eq, entry)
  }

  function AcceptsText(binding: string, accepts: seq<string>): string
    requires accepts != []
  {
    if |accepts| == 1 then Spell(binding, Eq, accepts[0]) else "any_of(" + JoinEqualities(binding, accepts) + ")"
  }

  function Guarded(condition: Option<string>, conjunct: string): string {
    if condition.Some? && Trim(condition.value) != [] then "!(" + Trim(condition.value) + ") || " + conjunct
        else conjunct
  }

  // ----- the walk -----

  function DeriveOne(id: string, source: string, pairs: seq<(string, string)>): seq<(string, string)> {
    if pairs == [] then []
    else
      var k := |pairs| - 1;
      DeriveOne(id, source, pairs[..k]) + [(DeriveId(id, source, pairs[k].0),
          DeriveText(source, pairs[k].0, id, pairs[k].1))]
  }

  function DeriveAll(ids: seq<string>, links: map<string, BindingLink>): seq<(string, string)>
    requires forall b | b in ids :: b in links
  {
    if ids == [] then []
    else
      var k := |ids| - 1;
      var link := links[ids[k]];
      DeriveAll(ids[..k], links) + if link.deriveSource.Some?
          then DeriveOne(ids[k], link.deriveSource.value, link.derivePairs) else []
  }

  predicate Contributes(r: RequirementLink) {
    r.accepts.Some? && r.accepts.value != []
  }

  function AcceptsAll(rs: seq<RequirementLink>): seq<(string, string)> {
    if rs == [] then []
    else
      var k := |rs| - 1;
      var r := rs[k];
      AcceptsAll(rs[..k]) +
        if Contributes(r) then [(AcceptsId(r.component, r.slot),
            Guarded(r.condition, AcceptsText(r.binding, r.accepts.value)))] else []
  }

  function Lowered(m: Summary): seq<(string, string)> {
    DeriveAll(Sorting.Keys(m.bindingLinks.Keys), m.bindingLinks) + AcceptsAll(m.requirements)
  }

  method DerivePairs(id: string, source: string, pairs: seq<(string, string)>) returns (out: seq<(string, string)>)
    ensures out == DeriveOne(id, source, pairs)
  {
    out := [];
    for k := 0 to |pairs|
      invariant out == DeriveOne(id, source, pairs[..k])
    {
      assert pairs[..k + 1][..k] == pairs[..k];
      out := out + [(DeriveId(id, source, pairs[k].0), DeriveText(source, pairs[k].0, id, pairs[k].1))];
    }
    assert pairs[..|pairs|] == pairs;
  }

  method DeriveConjuncts(links: map<string, BindingLink>) returns (out: seq<(string, string)>)
    ensures out == DeriveAll(Sorting.Keys(links.Keys), links)
  {
    out := [];
    var ids := Sorting.Keys(links.Keys);
    for k := 0 to |ids|
      invariant out == DeriveAll(ids[..k], links)
    {
      assert ids[k] in links.Keys && ids[..k + 1][..k] == ids[..k];
      var link := links[ids[k]];
      if link.deriveSource.None? { continue; }
      var more := DerivePairs(ids[k], link.deriveSource.value, link.derivePairs);
      out := out + more;
    }
    assert ids[..|ids|] == ids;
  }

  /** The conjuncts of one derive table, under their attribution ids. */
  function TableConjuncts(b: string, link: BindingLink): seq<(string, string)> {
    if link.deriveSource.None? then []
    else
      seq(|link.derivePairs|, k requires 0 <= k < |link.derivePairs| =>
        var p := link.derivePairs[k];
        ("derive:" + b + ":" + link.deriveSource.value + "=" + p.0, DeriveText(link.deriveSource.value, p.0, b, p.1)))
  }

  function TableConjunctsEach(ids: seq<string>, links: map<string, BindingLink>): seq<seq<(string, string)>>
    requires forall b | b in ids :: b in links
  {
    seq(|ids|, i requires 0 <= i < |ids| => TableConjuncts(ids[i], links[ids[i]]))
  }

  /** The conjunct of one requirement, if it restricts anything. */
  function SlotConjuncts(r: RequirementLink): seq<(string, string)> {
    if r.accepts.None? || r.accepts.value == [] then []
    else [("accepts:" + r.component + "." + r.slot, Guarded(r.condition, AcceptsText(r.binding, r.accepts.value)))]
  }

  function SlotConjunctsEach(rs: seq<RequirementLink>): seq<seq<(string, string)>> {
    seq(|rs|, i requires 0 <= i < |rs| => SlotConjuncts(rs[i]))
  }

  lemma {:induction false} DeriveOneAt(id: string, source: string, pairs: seq<(string, string)>)
    ensures |DeriveOne(id, source, pairs)| == |pairs|
    ensures forall k | 0 <= k < |pairs| ::
              DeriveOne(id, source, pairs)[k] ==
              ("derive:" + id + ":" + source + "=" + pairs[k].0, DeriveText(source, pairs[k].0, id, pairs[k].1))
    decreases |pairs|
  {
    if pairs != [] { DeriveOneAt(id, source, pairs[..|pairs| - 1]); }
  }

  lemma TableIs(b: string, link: BindingLink)
    requires link.deriveSource.Some?
    ensures DeriveOne(b, link.deriveSource.value, link.derivePairs) == TableConjuncts(b, link)
  {
    DeriveOneAt(b, link.deriveSource.value, link.derivePairs);
  }

  lemma DeriveAllStep(ids: seq<string>, links: map<string, BindingLink>)
    requires ids != [] && forall b | b in ids :: b in links
    ensures var k := |ids| - 1;
            DeriveAll(ids, links) == DeriveAll(ids[..k], links) + TableConjuncts(ids[k], links[ids[k]])
  {
    var link := links[ids[|ids| - 1]];
    if link.deriveSource.Some? { TableIs(ids[|ids| - 1], link); }
  }

  lemma {:induction false} DeriveAllIs(ids: seq<string>, links: map<string, BindingLink>)
    requires forall b | b in ids :: b in links
    ensures DeriveAll(ids, links) == Sorting.Joined(TableConjunctsEach(ids, links))
    decreases |ids|
  {
    if ids != [] {
      var k := |ids| - 1;
      var link := links[ids[k]];
      DeriveAllIs(ids[..k], links);
      DeriveAllStep(ids, links);
      Sorting.JoinedAppend(TableConjunctsEach(ids, links), TableConjunctsEach(ids[..k], links),
                           TableConjuncts(ids[k], link));
    }
  }

  lemma AcceptsAllStep(rs: seq<RequirementLink>)
    requires rs != []
    ensures AcceptsAll(rs) == AcceptsAll(rs[..|rs| - 1]) + SlotConjuncts(rs[|rs| - 1])
  {
  }

  lemma {:induction false} AcceptsAllIs(rs: seq<RequirementLink>)
    ensures AcceptsAll(rs) == Sorting.Joined(SlotConjunctsEach(rs))
    decreases |rs|
  {
    if rs != [] {
      var k := |rs| - 1;
      AcceptsAllIs(rs[..k]);
      AcceptsAllStep(rs);
      Sorting.JoinedAppend(SlotConjunctsEach(rs), SlotConjunctsEach(rs[..k]), SlotConjuncts(rs[k]));
    }
  }

  // ----- attribution ids -----

  lemma ColonIsForeign(x: string)
    requires ':' in x
    ensures !Identifiers.Matches(Identifiers.SNAKE_ID, x)
  {
    if Identifiers.Matches(Identifiers.SNAKE_ID, x) { Identifiers.SnakeIdIsIdent(x); }
  }

  /** Both prefixes are reserved: an attribution id is no authored constraint id, and the two
      kinds differ. */
  lemma AttributionReserved(b: string, source: string, value: string, component: string, slot: string)
    ensures !Identifiers.Matches(Identifiers.SNAKE_ID, DeriveId(b, source, value))
    ensures !Identifiers.Matches(Identifiers.SNAKE_ID, AcceptsId(component, slot))
    ensures DeriveId(b, source, value) != AcceptsId(component, slot)
  {
    var x, y := DeriveId(b, source, value), AcceptsId(component, slot);
    assert x[6] == ':' && y[7] == ':' && x[0] == 'd' && y[0] == 'a';
    ColonIsForeign(x);
    ColonIsForeign(y);
  }

  /** What stands before the first separator is fixed by the whole. */
  lemma {:induction false} SplitOnce(s: string, t: string, s': string, t': string, c: char)
    requires c !in s && c !in s' && s + [c] + t == s' + [c] + t'
    ensures s == s' && t == t'
  {
    var whole, whole' := s + [c] + t, s' + [c] + t';
    assert whole[|s|] == c && whole[|s'|] == c;
    assert forall i | 0 <= i < |s| :: whole[i] == s[i] && s[i] in s;
    assert forall i | 0 <= i < |s'| :: whole'[i] == s'[i] && s'[i] in s';
    assert |s| == |s'|;
    assert whole[..|s|] == s && whole'[..|s'|] == s';
    assert whole[|s| + 1..] == t && whole'[|s'| + 1..] == t';
  }

  /** Of names without the separators, an attribution id tells which conjunct it stands for. */
  lemma AttributionTells(b: string, source: string, value: string, b': string, source': string, value': string)
    requires ':' !in b + b' && '=' !in source + source' && DeriveId(b, source, value) == DeriveId(b', source', value')
    ensures b == b' && source == source' && value == value'
  {
    var x, x' := DeriveId(b, source, value), DeriveId(b', source', value');
    assert x[7..] == b + [':'] + (source + ['='] + value) && x'[7..] == b' + [':'] + (source' + ['='] + value');
    SplitOnce(b, source + ['='] + value, b', source' + ['='] + value', ':');
    SplitOnce(source, value, source', value', '=');
  }

  lemma SlotAttributionTells(component: string, slot: string, component': string, slot': string)
    requires '.' !in component + component' && AcceptsId(component, slot) == AcceptsId(component', slot')
    ensures component == component' && slot == slot'
  {
    var x, x' := AcceptsId(component, slot), AcceptsId(component', slot');
    assert x[8..] == component + ['.'] + slot && x'[8..] == component' + ['.'] + slot';
    SplitOnce(component, slot, component', slot', '.');
  }

  method LoweredRootConjuncts(m: Summary) returns (out: seq<(string, string)>)
    ensures out == Lowered(m)
    ensures out == Sorting.Joined(TableConjunctsEach(Sorting.Keys(m.bindingLinks.Keys), m.bindingLinks)) +
                   Sorting.Joined(SlotConjunctsEach(m.requirements))
  {
    DeriveAllIs(Sorting.Keys(m.bindingLinks.Keys), m.bindingLinks);
    AcceptsAllIs(m.requirements);
    out := DeriveConjuncts(m.bindingLinks);
    var accepts: seq<(string, string)> := [];
    for k := 0 to |m.requirements|
      invariant accepts == AcceptsAll(m.requirements[..k])
    {
      var r := m.requirements[k];
      assert m.requirements[..k + 1][..k] == m.requirements[..k];
      if Contributes(r) {
        accepts := accepts + [(AcceptsId(r.component, r.slot),
            Guarded(r.condition, AcceptsText(r.binding, r.accepts.value)))];
      }
    }
    assert m.requirements[..|m.requirements|] == m.requirements;
    out := out + accepts;
  }

  // ----- what one conjunct reads as -----

  function AcceptsExpr(binding: string, accepts: seq<string>): Expr
    requires accepts != []
  {
    if |accepts| == 1 then Predicate(binding, Eq, accepts[0]) else AnyOf(Equals(binding, accepts))
  }

  lemma AcceptsReads(binding: string, accepts: seq<string>)
    requires IsTag(binding) && accepts != [] && Unquoted(accepts)
    ensures ParseUnary(AcceptsText(binding, accepts)) == Got(AcceptsExpr(binding, accepts), [])
  {
    if |accepts| == 1 {
      SpellText(binding, Eq, accepts[0], []);
      assert Spell(binding, Eq, accepts[0]) + [] == Spell(binding, Eq, accepts[0]);
    } else {
      var es := Equals(binding, accepts);
      JoinedArgs(binding, accepts);
      EqualsPrintable(binding, accepts);
      CallText("any_of", es, []);
      CallPrint("any_of", es);
      var t := AcceptsText(binding, accepts);
      assert "any_of(" == "any_of" + ['('];
      assert t == "any_of" + ['('] + PrintArgs(es) + [')'];
      assert t + [] == t;
    }
  }

  lemma NegatedGroup(c: string, rest: string)
    requires ParseCondition(c).Got?
    ensures ParseUnary("!(" + c + ")" + rest) == Got(Not(ParseCondition(c).value), rest)
  {
    var u := "(" + c + ")" + rest;
    var t := "!(" + c + ")" + rest;
    ParserExtension.Parenthesized(c, rest);
    assert t == ['!'] + u && t[1..] == u && u[0] == '(';
    assert SkipWs(t) == t;
  }

  /** A guard never lets the condition's text reach into the rest of the conjunct. */
  lemma GuardedReads(c: string, conjunct: string, x: Expr)
    requires ParseCondition(c).Got? && ParseUnary(conjunct) == Got(x, [])
    ensures ParseCondition("!(" + c + ") || " + conjunct) == Got(Or(Not(ParseCondition(c).value), x), [])
  {
    var tail := [' ', '|', '|', ' '] + conjunct;
    var a := "!(" + c + ")";
    NegatedGroup(c, tail);
    OrPairStep(a, Not(ParseCondition(c).value), conjunct, x);
    assert "!(" + c + ") || " + conjunct == a + tail;
  }

  // ----- what the conjuncts mean under a selection -----

  lemma AcceptsHolds(binding: string, accepts: seq<string>, sel: Selection)
    requires accepts != [] && binding in sel
    ensures Eval(AcceptsExpr(binding, accepts), Bound(sel)) <==> sel[binding] in accepts
  {
  }

  /** The component is included: it has no condition, a blank one, or one that holds. */
  predicate IncludedBy(condition: Option<string>, sel: Selection) {
    condition.Some? && Trim(condition.value) != [] ==>
      ParseCondition(Trim(condition.value)).Got? && Eval(ParseCondition(Trim(condition.value)).value, Bound(sel))
  }

  /** A requirement the lowering can write down, under a selection that covers it. */
  predicate Lowerable(r: RequirementLink, sel: Selection)
    requires Contributes(r)
  {
    && IsTag(r.binding) && Unquoted(r.accepts.value) && r.binding in sel
    && (r.condition.Some? && Trim(r.condition.value) != [] ==>
          ParseCondition(Trim(r.condition.value)).Got? &&
              TagsOf(ParseCondition(Trim(r.condition.value)).value) <= sel.Keys)
  }

  /** An `accepts` conjunct is met exactly when, if the component is included, its binding
      takes one of the accepted entries. */
  lemma AcceptsConjunctMeans(r: RequirementLink, sel: Selection)
    requires Contributes(r) && Lowerable(r, sel)
    ensures var p := ParseCondition(Guarded(r.condition, AcceptsText(r.binding, r.accepts.value)));
            p.Got? && (NotContradicted(p.value, sel) <==>
                (IncludedBy(r.condition, sel) ==> sel[r.binding] in r.accepts.value))
  {
    var conjunct, x := AcceptsText(r.binding, r.accepts.value), AcceptsExpr(r.binding, r.accepts.value);
    AcceptsReads(r.binding, r.accepts.value);
    AcceptsHolds(r.binding, r.accepts.value, sel);
    AcceptsTags(r.binding, r.accepts.value);
    if r.condition.Some? && Trim(r.condition.value) != [] {
      var c := Trim(r.condition.value);
      var e := ParseCondition(c).value;
      GuardedReads(c, conjunct, x);
      GuardTags(e, x);
      assert Eval(Or(Not(e), x), Bound(sel)) == (!Eval(e, Bound(sel)) || Eval(x, Bound(sel)));
      TotalSelectionDecides(Or(Not(e), x), sel);
    } else {
      AloneStep(conjunct, x);
      TotalSelectionDecides(x, sel);
    }
  }

  lemma AcceptsTags(binding: string, accepts: seq<string>)
    requires accepts != []
    ensures TagsOf(AcceptsExpr(binding, accepts)) == {binding} && ComparisonFree(AcceptsExpr(binding, accepts))
  {
    var x := AcceptsExpr(binding, accepts);
    forall l | l in Leaves(x) ensures l.Predicate? && l.tag == binding {
      if |accepts| > 1 {
        var es := Equals(binding, accepts);
        var i :| 0 <= i < |es| && l in Leaves(es[i]);
      }
    }
    var first := Predicate(binding, Eq, accepts[0]);
    assert first in Leaves(x) by {
      if |accepts| > 1 { assert Leaves(Equals(binding, accepts)[0]) <= LeavesOfEach(Equals(binding, accepts)); }
    }
    assert first.tag in TagsOf(x);
  }

  lemma GuardTags(e: Expr, x: Expr)
    ensures TagsOf(Or(Not(e), x)) == TagsOf(e) + TagsOf(x) && Leaves(Or(Not(e), x)) == Leaves(e) + Leaves(x)
  {
    var g := Or(Not(e), x);
    assert Leaves(Not(e)) == Leaves(e);
    assert Leaves(g) == Leaves(e) + Leaves(x);
    forall t | t in TagsOf(g) ensures t in TagsOf(e) + TagsOf(x) {
      var l :| l in Leaves(g) && ((l.Predicate? && l.tag == t) || (l.FacetCompare? && (l.lhs == t || l.rhs == t)));
    }
    TagsWithin(g, e);
    TagsWithin(g, x);
  }

  /** A `derive` conjunct is met exactly when the source value, if taken, brings its entry. */
  lemma DeriveConjunctMeans(source: string, value: string, binding: string, entry: string, sel: Selection)
    requires IsTag(source) && IsTag(binding) && QuoteFor(value) !in value && QuoteFor(entry) !in entry
    requires source in sel && binding in sel
    ensures var p := ParseCondition(DeriveText(source, value, binding, entry));
            p.Got? && (NotContradicted(p.value, sel) <==> (sel[source] == value ==> sel[binding] == entry))
  {
    SpelledOr(source, NotEq, value, binding, Eq, entry);
    var e := Or(Predicate(source, NotEq, value), Predicate(binding, Eq, entry));
    assert Leaves(e) == {e.left, e.right};
    TotalSelectionDecides(e, sel);
  }

  // ----- the whole list -----

  ghost predicate DerivesHold(m: Summary, sel: Selection) {
    forall b, p | b in m.bindingLinks && m.bindingLinks[b].deriveSource.Some? && p in m.bindingLinks[b].derivePairs ::
      DerivedHolds(b, m.bindingLinks[b].deriveSource.value, p, sel)
  }

  predicate DerivedHolds(b: string, source: string, p: (string, string), sel: Selection) {
    source in sel && b in sel && (sel[source] == p.0 ==> sel[b] == p.1)
  }

  ghost predicate AcceptsHold(rs: seq<RequirementLink>, sel: Selection) {
    forall r | r in rs && Contributes(r) :: AcceptsHoldsFor(r, sel)
  }

  predicate AcceptsHoldsFor(r: RequirementLink, sel: Selection)
    requires Contributes(r)
  {
    r.binding in sel && (IncludedBy(r.condition, sel) ==> sel[r.binding] in r.accepts.value)
  }

  lemma AcceptsHoldStep(rs: seq<RequirementLink>, r: RequirementLink, sel: Selection)
    ensures AcceptsHold(rs + [r], sel) <==> AcceptsHold(rs, sel) && (Contributes(r) ==> AcceptsHoldsFor(r, sel))
  {
  }

  /** Everything the lowering writes is writable, and the selection covers it. */
  ghost predicate LowerableAll(m: Summary, sel: Selection) {
    DerivesLowerable(m, sel) && forall r | r in m.requirements && Contributes(r) :: Lowerable(r, sel)
  }

  ghost predicate DerivesLowerable(m: Summary, sel: Selection) {
    forall b, p | b in m.bindingLinks && m.bindingLinks[b].deriveSource.Some? && p in m.bindingLinks[b].derivePairs ::
      DeriveLowerable(b, m.bindingLinks[b].deriveSource.value, p, sel)
  }

  predicate DeriveLowerable(b: string, source: string, p: (string, string), sel: Selection) {
    IsTag(source) && IsTag(b) && QuoteFor(p.0) !in p.0 && QuoteFor(p.1) !in p.1 && source in sel && b in sel
  }

  predicate Met(c: (string, string), sel: Selection) {
    ParseCondition(c.1).Got? && NotContradicted(ParseCondition(c.1).value, sel)
  }

  lemma {:induction false} DeriveOneMeans(b: string, source: string, pairs: seq<(string, string)>, sel: Selection)
    requires forall p | p in pairs :: DeriveLowerable(b, source, p, sel)
    ensures (forall c | c in DeriveOne(b, source, pairs) :: Met(c, sel)) <==>
            forall p | p in pairs :: DerivedHolds(b, source, p, sel)
    decreases |pairs|
  {
    if pairs != [] {
      var k := |pairs| - 1;
      var p := pairs[k];
      assert pairs == pairs[..k] + [p];
      DeriveOneMeans(b, source, pairs[..k], sel);
      assert p in pairs && DeriveLowerable(b, source, p, sel);
      DeriveConjunctMeans(source, p.0, b, p.1, sel);
      var last := (DeriveId(b, source, p.0), DeriveText(source, p.0, b, p.1));
      assert Met(last, sel) == DerivedHolds(b, source, p, sel);
      assert DeriveOne(b, source, pairs) == DeriveOne(b, source, pairs[..k]) + [last];
    }
  }

  ghost predicate DerivesHoldFor(b: string, link: BindingLink, sel: Selection) {
    link.deriveSource.Some? ==> forall p | p in link.derivePairs :: DerivedHolds(b, link.deriveSource.value, p, sel)
  }

  lemma {:induction false} DeriveAllMeans(ids: seq<string>, m: Summary, sel: Selection)
    requires (forall b | b in ids :: b in m.bindingLinks) && DerivesLowerable(m, sel)
    ensures (forall c | c in DeriveAll(ids, m.bindingLinks) :: Met(c, sel)) <==>
            forall b | b in ids :: DerivesHoldFor(b, m.bindingLinks[b], sel)
    decreases |ids|
  {
    if ids != [] {
      var k := |ids| - 1;
      var b, link := ids[k], m.bindingLinks[ids[k]];
      assert ids == ids[..k] + [b];
      DeriveAllMeans(ids[..k], m, sel);
      if link.deriveSource.Some? { DeriveOneMeans(b, link.deriveSource.value, link.derivePairs, sel); }
    }
  }

  lemma {:induction false} AcceptsAllMeans(rs: seq<RequirementLink>, sel: Selection)
    requires forall r | r in rs && Contributes(r) :: Lowerable(r, sel)
    ensures (forall c | c in AcceptsAll(rs) :: Met(c, sel)) <==> AcceptsHold(rs, sel)
    decreases |rs|
  {
    if rs != [] {
      var k := |rs| - 1;
      var r := rs[k];
      assert rs == rs[..k] + [r];
      AcceptsAllMeans(rs[..k], sel);
      AcceptsHoldStep(rs[..k], r, sel);
      if Contributes(r) {
        assert r in rs && Lowerable(r, sel);
        AcceptsConjunctMeans(r, sel);
        var last := (AcceptsId(r.component, r.slot), Guarded(r.condition, AcceptsText(r.binding, r.accepts.value)));
        assert Met(last, sel) == AcceptsHoldsFor(r, sel);
        assert AcceptsAll(rs) == AcceptsAll(rs[..k]) + [last];
      } else {
        assert AcceptsAll(rs) == AcceptsAll(rs[..k]) + [];
      }
    }
  }

  /** A resolve accepts a selection, as far as the lowered conjuncts go, exactly when
      every derive table is followed and every included component gets an entry it
      accepts. */
  lemma LoweredMeans(m: Summary, sel: Selection)
    requires LowerableAll(m, sel)
    ensures Agreement.Resolves(sel, Lowered(m)) <==> DerivesHold(m, sel) && AcceptsHold(m.requirements, sel)
  {
    var ids := Sorting.Keys(m.bindingLinks.Keys);
    DeriveAllMeans(ids, m, sel);
    AcceptsAllMeans(m.requirements, sel);
    assert Agreement.Resolves(sel, Lowered(m)) <==> forall c | c in Lowered(m) :: Met(c, sel);
    assert DerivesHold(m, sel) <==> forall b | b in ids :: DerivesHoldFor(b, m.bindingLinks[b], sel);
  }

  /** The emitter can read a guarded conjunct exactly when the guard compares declared
      facets only; nothing before it checks this of a component's condition. */
  lemma GuardReadableIff(c: string, binding: string, accepts: seq<string>, d: Domains)
    requires ParseCondition(c).Got? && IsTag(binding) && accepts != [] && Unquoted(accepts)
    ensures Readable("!(" + c + ") || " + AcceptsText(binding, accepts), d) <==>
            ComparandsDeclared(ParseCondition(c).value, d)
  {
    var e, x := ParseCondition(c).value, AcceptsExpr(binding, accepts);
    AcceptsReads(binding, accepts);
    GuardedReads(c, AcceptsText(binding, accepts), x);
    GuardTags(e, x);
    AcceptsTags(binding, accepts);
    ExpandIsFaithful(Or(Not(e), x), d);
  }
}
