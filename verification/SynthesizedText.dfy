/** What the synthesized clause texts parse to, and what they then mean. */
module SynthesizedText {
  import opened Conditions
  import opened Options
  import opened ConditionText
  import opened ConditionRoundTrip
  import opened FacetComparison
  import opened FacetRules
  import opened ClauseSynthesis
  import Sorting

  /** A symbol the grammar can write down. */
  predicate Writable(s: Symbol) {
    IsTag(s.0) && QuoteFor(s.1) !in s.1
  }

  function Tautology(s: Symbol): Expr {
    Or(Predicate(s.0, Eq, s.1), Predicate(s.0, NotEq, s.1))
  }

  lemma IntroductionParses(s: Symbol)
    requires Writable(s)
    ensures ParseCondition(Introduction(s)) == Got(Tautology(s), [])
  {
    SpelledOr(s.0, Eq, s.1, s.0, NotEq, s.1);
  }

  /** A facet named like a Boolean literal cannot be introduced. */
  lemma ReservedIntroductionFails(s: Symbol)
    requires s.0 == "true" || s.0 == "false"
    ensures ParseCondition(Introduction(s)) == Fail
  {
    var q := [QuoteFor(s.1)];
    var y := "==" + ([' '] + q + s.1 + q + " || " + Spell(s.0, NotEq, s.1));
    assert Spell(s.0, Eq, s.1) == s.0 + ([' '] + ("==" + ([' '] + q + s.1 + q)));
    assert Introduction(s) == s.0 + ([' '] + y);
    BooleanTagFails(s.0, y);
  }

  lemma TautologyHolds(s: Symbol, w: World)
    requires !w.Bound?
    ensures Eval(Tautology(s), w) && SymbolsOf(Tautology(s)) == {s} && ComparisonFree(Tautology(s))
  {
    var e := Tautology(s);
    assert Eval(e.left, w) == !Eval(e.right, w);
    assert Leaves(e) == {e.left, e.right};
    assert SymbolsOf(e) == {s} by {
      assert forall x | x in SymbolsOf(e) :: x == s;
      assert e.left in Leaves(e) && (e.left.tag, e.left.literal) == s;
    }
  }

  /** Every name and literal of a parsed expression can be written down again. */
  lemma {:induction false} SpellableLeaves(e: Expr)
    requires Spellable(e)
    ensures forall l | l in Leaves(e) && l.Predicate? :: Writable((l.tag, l.literal))
    decreases e, 1
  {
    match e
    case Bool(_) =>
    case Predicate(_, _, _) =>
    case FacetCompare(_, _, _) =>
    case Not(x) => SpellableLeaves(x);
    case And(x, y) => SpellableLeaves(x); SpellableLeaves(y);
    case Or(x, y) => SpellableLeaves(x); SpellableLeaves(y);
    case AnyOf(es) => SpellableLeavesEach(es);
    case AllOf(es) => SpellableLeavesEach(es);
    case ExactlyOneOf(es) => SpellableLeavesEach(es);
  }

  lemma {:induction false} SpellableLeavesEach(es: seq<Expr>)
    requires SpellableEach(es)
    ensures forall l | l in LeavesOfEach(es) && l.Predicate? :: Writable((l.tag, l.literal))
    decreases es, 0
  {
    if es != [] {
      SpellableLeaves(es[0]);
      SpellableLeavesEach(es[1..]);
    }
  }

  // ----- cardinality texts -----

  function Equals(f: string, values: seq<string>): (es: seq<Expr>)
    ensures |es| == |values| && forall i | 0 <= i < |values| :: es[i] == Predicate(f, Eq, values[i])
  {
    seq(|values|, i requires 0 <= i < |values| => Predicate(f, Eq, values[i]))
  }

  lemma {:induction false} PrintArgsAppend(es: seq<Expr>, e: Expr)
    requires es != []
    ensures PrintArgs(es + [e]) == PrintArgs(es) + ", " + Print(e, OrStrength)
    decreases |es|
  {
    var all := es + [e];
    if |es| == 1 {
      assert all[1..] == [e] && all[0] == es[0];
    } else {
      PrintArgsAppend(es[1..], e);
      assert all[1..] == es[1..] + [e] && all[0] == es[0];
      var a, b, c := Print(es[0], OrStrength), PrintArgs(es[1..]), Print(e, OrStrength);
      assert a + ", " + (b + ", " + c) == a + ", " + b + ", " + c;
    }
  }

  predicate Unquoted(values: seq<string>) {
    forall v | v in values :: '\'' !in v
  }

  lemma {:induction false} JoinedArgs(f: string, values: seq<string>)
    requires values != [] && Unquoted(values)
    ensures JoinEqualities(f, values) == PrintArgs(Equals(f, values))
    decreases |values|
  {
    var k := |values| - 1;
    PrintIsSpell(f, Eq, values[k], OrStrength);
    if k > 0 {
      JoinedArgs(f, values[..k]);
      PrintArgsAppend(Equals(f, values[..k]), Predicate(f, Eq, values[k]));
      assert Equals(f, values) == Equals(f, values[..k]) + [Predicate(f, Eq, values[k])];
    }
  }

  lemma {:induction false} EqualsPrintable(f: string, values: seq<string>)
    requires IsTag(f) && Unquoted(values)
    ensures PrintableEach(Equals(f, values)) && NormalEach(Equals(f, values)) == Equals(f, values)
    decreases |values|
  {
    if values != [] {
      EqualsPrintable(f, values[1..]);
      assert Equals(f, values)[1..] == Equals(f, values[1..]);
    }
  }

  lemma ExactlyOneParses(f: string, values: seq<string>)
    requires IsTag(f) && Unquoted(values) && |values| >= 2
    ensures ParseCondition("exactly_one_of(" + JoinEqualities(f, values) + ")") ==
            Got(ExactlyOneOf(Equals(f, values)), [])
  {
    var e := ExactlyOneOf(Equals(f, values));
    JoinedArgs(f, values);
    EqualsPrintable(f, values);
    SerializeThenParse(e);
  }

  /** At most one declared value holds and, of a closed facet, at least one. */
  predicate CardinalityHolds(f: string, facet: Facet, on: set<Symbol>) {
    && (facet.open || exists v :: v in facet.values && (f, v) in on)
    && forall u, v | u in facet.values && v in facet.values && (f, u) in on && (f, v) in on :: u == v
  }

  /** The symbols of a value list, as bits. */
  predicate BitsOf(f: string, values: seq<string>, on: set<Symbol>, bs: seq<bool>) {
    |bs| == |values| && forall i | 0 <= i < |values| :: bs[i] == ((f, values[i]) in on)
  }

  lemma OneHotIsCardinality(f: string, values: seq<string>, on: set<Symbol>, bs: seq<bool>)
    requires Sorting.NoRepeats(values) && BitsOf(f, values, on, bs)
    ensures (CountTrue(bs) == 1) == CardinalityHolds(f, Facet(values, None, false), on)
  {
    CountTrueIsExactlyOne(bs);
    if exists v :: v in values && (f, v) in on {
      var v :| v in values && (f, v) in on;
      var i :| 0 <= i < |values| && values[i] == v;
      assert bs[i];
    }
    if true in bs {
      var i :| 0 <= i < |bs| && bs[i];
      assert values[i] in values && (f, values[i]) in on;
    }
  }

  lemma EqualsHold(f: string, values: seq<string>, on: set<Symbol>)
    requires Sorting.NoRepeats(values)
    ensures Eval(ExactlyOneOf(Equals(f, values)), Symbols(on)) == CardinalityHolds(f, Facet(values, None, false), on)
  {
    EqualsBits(f, values, on);
    OneHotIsCardinality(f, values, on, EvalEach(Equals(f, values), Symbols(on)));
  }

  lemma EqualsBits(f: string, values: seq<string>, on: set<Symbol>)
    ensures BitsOf(f, values, on, EvalEach(Equals(f, values), Symbols(on)))
  {
  }

  /** What one cardinality text must parse to. */
  predicate ReadsAs(text: string, e: Expr) {
    ParseCondition(text) == Got(e, []) && ComparisonFree(e)
  }

  function MutexExpr(f: string, u: string, v: string): Expr {
    Or(Predicate(f, NotEq, u), Predicate(f, NotEq, v))
  }

  lemma MutexReads(f: string, values: seq<string>, p: (nat, nat))
    requires IsTag(f) && Unquoted(values) && p.0 < |values| && p.1 < |values|
    ensures ReadsAs(MutexText(f, values, p), MutexExpr(f, values[p.0], values[p.1]))
    ensures SymbolsOf(MutexExpr(f, values[p.0], values[p.1])) <= set v | v in values :: (f, v)
  {
    var u, v := values[p.0], values[p.1];
    SpelledOr(f, NotEq, u, f, NotEq, v);
    var e := MutexExpr(f, u, v);
    assert Leaves(e) == {e.left, e.right};
  }

  function MutexExprs(f: string, values: seq<string>, ps: seq<(nat, nat)>): (es: seq<Expr>)
    requires PairsIn(ps, |values|)
    ensures |es| == |ps|
    ensures forall k | 0 <= k < |ps| ::
              ps[k].0 < |values| && ps[k].1 < |values| && es[k] == MutexExpr(f, values[ps[k].0], values[ps[k].1])
  {
    if ps == [] then []
    else
      var k := |ps| - 1;
      assert ps[k] in ps;
      MutexExprs(f, values, ps[..k]) + [MutexExpr(f, values[ps[k].0], values[ps[k].1])]
  }

  /** The expressions one facet's cardinality texts stand for. */
  function CardinalityExprs(f: string, facet: Facet): seq<Expr> {
    var n := |facet.values|;
    if facet.open then MutexExprs(f, facet.values, PairsBelow(n, n))
    else if n == 0 then []
    else if n == 1 then [Predicate(f, Eq, facet.values[0])]
    else [ExactlyOneOf(Equals(f, facet.values))]
  }

  lemma ExactlyOneReads(f: string, values: seq<string>)
    requires IsTag(f) && Unquoted(values) && |values| >= 2
    ensures ReadsAs("exactly_one_of(" + JoinEqualities(f, values) + ")", ExactlyOneOf(Equals(f, values)))
    ensures SymbolsOf(ExactlyOneOf(Equals(f, values))) <= set v | v in values :: (f, v)
  {
    ExactlyOneParses(f, values);
    ExactlyOneNames(f, values);
  }

  lemma ExactlyOneNames(f: string, values: seq<string>)
    ensures ComparisonFree(ExactlyOneOf(Equals(f, values)))
    ensures SymbolsOf(ExactlyOneOf(Equals(f, values))) <= set v | v in values :: (f, v)
  {
  }

  lemma OneReads(f: string, v: string)
    requires IsTag(f) && '\'' !in v
    ensures ReadsAs(Spell(f, Eq, v), Predicate(f, Eq, v)) && SymbolsOf(Predicate(f, Eq, v)) == {(f, v)}
  {
    SpelledAlone(f, Eq, v);
    var e := Predicate(f, Eq, v);
    assert Leaves(e) == {e};
  }

  lemma CardinalityReads(f: string, facet: Facet, k: nat)
    requires IsTag(f) && Unquoted(facet.values) && k < |CardinalityTexts(f, facet)|
    ensures |CardinalityExprs(f, facet)| == |CardinalityTexts(f, facet)|
    ensures ReadsAs(CardinalityTexts(f, facet)[k], CardinalityExprs(f, facet)[k])
    ensures SymbolsOf(CardinalityExprs(f, facet)[k]) <= set v | v in facet.values :: (f, v)
  {
    var n := |facet.values|;
    if facet.open {
      var ps := PairsBelow(n, n);
      assert ps[k] in ps;
      MutexReads(f, facet.values, ps[k]);
    } else if n == 1 {
      OneReads(f, facet.values[0]);
    } else {
      ExactlyOneReads(f, facet.values);
    }
  }

  /** The cardinality conjuncts of a facet hold exactly when its symbols are one-hot
      (closed) or at most one-hot (open). */
  lemma CardinalityMeans(f: string, facet: Facet, on: set<Symbol>)
    requires facet.values != [] && Sorting.NoRepeats(facet.values)
    ensures AllHold(CardinalityExprs(f, facet), Symbols(on)) == CardinalityHolds(f, facet, on)
  {
    var es, n := CardinalityExprs(f, facet), |facet.values|;
    if facet.open {
      MutexesMean(f, facet, on);
    } else if n == 1 {
      assert es[0] in es;
    } else {
      EqualsHold(f, facet.values, on);
      assert es[0] in es;
      assert AllHold(es, Symbols(on)) == Eval(es[0], Symbols(on));
      assert CardinalityHolds(f, facet, on) == CardinalityHolds(f, Facet(facet.values, None, false), on);
    }
  }

  lemma MutexMeans(f: string, u: string, v: string, on: set<Symbol>)
    ensures Eval(MutexExpr(f, u, v), Symbols(on)) == !((f, u) in on && (f, v) in on)
  {
  }

  lemma MutexesMean(f: string, facet: Facet, on: set<Symbol>)
    requires facet.open && Sorting.NoRepeats(facet.values)
    ensures AllHold(CardinalityExprs(f, facet), Symbols(on)) == CardinalityHolds(f, facet, on)
  {
    var values := facet.values;
    var ps := PairsBelow(|values|, |values|);
    var es := MutexExprs(f, values, ps);
    if AllHold(es, Symbols(on)) {
      forall i, j | 0 <= i < j < |values| ensures !((f, values[i]) in on && (f, values[j]) in on) {
        assert (i, j) in ps;
        var k :| 0 <= k < |ps| && ps[k] == (i, j);
        MutexMeans(f, values[i], values[j], on);
        assert es[k] in es;
      }
    }
    if CardinalityHolds(f, facet, on) {
      forall k | 0 <= k < |es| ensures Eval(es[k], Symbols(on)) {
        assert ps[k] in ps;
        MutexMeans(f, values[ps[k].0], values[ps[k].1], on);
        assert values[ps[k].0] != values[ps[k].1];
      }
    }
  }
}
