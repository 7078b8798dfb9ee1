/** The truth-table implication engine (compiler/src/conditions/implication.rs). */
module Implication {
  import opened Conditions
  import opened ConditionText
  import opened Graphs
  import opened Options
  import Sorting

  // ----- sentinels -----

  function Digit(d: nat): char
    requires d < 10
  {
    ['0', '1', '2', '3', '4', '5', '6', '7', '8', '9'][d]
  }

  function Decimal(n: nat): (s: string)
    ensures s != []
  {
    if n < 10 then [Digit(n)] else Decimal(n / 10) + [Digit(n % 10)]
  }

  lemma {:induction false} DecimalDistinct(m: nat, n: nat)
    requires m != n
    ensures Decimal(m) != Decimal(n)
  {
    var s, t := Decimal(m), Decimal(n);
    assert s[|s| - 1] == Digit(m % 10) && t[|t| - 1] == Digit(n % 10);
    if m >= 10 && n >= 10 && m % 10 == n % 10 {
      assert m / 10 != n / 10;
      DecimalDistinct(m / 10, n / 10);
      assert s[..|s| - 1] == Decimal(m / 10) && t[..|t| - 1] == Decimal(n / 10);
    }
  }

  const BASE := "__other__"

  function Candidate(counter: nat): string {
    BASE + Decimal(counter)
  }

  lemma CandidateDistinct(m: nat, n: nat)
    requires m != n
    ensures Candidate(m) != Candidate(n)
  {
    DecimalDistinct(m, n);
    assert Candidate(m)[|BASE|..] == Decimal(m) && Candidate(n)[|BASE|..] == Decimal(n);
  }

  /** The first counter from `counter` on whose candidate is not taken. */
  function FreshCounter(values: set<string>, counter: nat): (k: nat)
    ensures k >= counter && Candidate(k) !in values
    ensures forall j | counter <= j < k :: Candidate(j) in values
    decreases values
  {
    if Candidate(counter) !in values then counter
    else
      var k := FreshCounter(values - {Candidate(counter)}, counter + 1);
      CandidateDistinct(k, counter);
      k
  }

  function Sentinel(values: set<string>): (s: string)
    ensures s !in values
  {
    if BASE !in values then BASE else Candidate(FreshCounter(values, 1))
  }

  method UniqueSentinel(values: seq<string>) returns (s: string)
    ensures s == Sentinel(set v | v in values)
  {
    ghost var taken := set v | v in values;
    if BASE !in values {
      return BASE;
    }
    var counter := 1;
    while Candidate(counter) in values
      invariant 1 <= counter <= FreshCounter(taken, 1)
      decreases FreshCounter(taken, 1) - counter
    {
      counter := counter + 1;
    }
    s := Candidate(counter);
  }

  // ----- the table -----

  type TagValues = map<string, set<string>>

  function Get(tv: TagValues, t: string): set<string> {
    if t in tv then tv[t] else {}
  }

  function LiteralsOf(leaves: set<Expr>, t: string): set<string> {
    set l | l in leaves && l.Predicate? && l.tag == t :: l.literal
  }

  function PredicateTags(leaves: set<Expr>): set<string> {
    set l | l in leaves && l.Predicate? :: l.tag
  }

  function Comparisons(leaves: set<Expr>): set<Edge> {
    set l | l in leaves && l.FacetCompare? :: (l.lhs, l.rhs)
  }

  function Ends(es: set<Edge>): set<string> {
    (set e | e in es :: e.0) + (set e | e in es :: e.1)
  }

  /** The literals any facet linked to `t` by comparisons is held against. */
  ghost function Shared(leaves: set<Expr>, t: string): set<string> {
    set l | l in leaves && l.Predicate? && Linked(Comparisons(leaves), l.tag, t) :: l.literal
  }

  /** The named values, one sentinel for "some other value" and, for a compared facet,
      a second one. */
  function TableDomain(values: set<string>, compared: bool): set<string> {
    var first := Sentinel(values);
    values + {first} + if compared then {Sentinel(values + {first})} else {}
  }

  type Columns = map<string, set<string>>

  ghost function ColumnsOf(leaves: set<Expr>): Columns {
    map t | t in TagsIn(leaves) :: TableDomain(Shared(leaves, t), t in Ends(Comparisons(leaves)))
  }

  function TagsIn(leaves: set<Expr>): set<string> {
    PredicateTags(leaves) + Ends(Comparisons(leaves))
  }

  predicate Fits(sel: Selection, columns: Columns) {
    sel.Keys == columns.Keys && forall t | t in columns :: sel[t] in columns[t]
  }

  function BothLeaves(a: Expr, b: Expr): set<Expr> {
    Leaves(a) + Leaves(b)
  }

  /** A row of the table. */
  ghost predicate IsRow(a: Expr, b: Expr, sel: Selection) {
    Fits(sel, ColumnsOf(BothLeaves(a, b)))
  }

  /** `a` implies `b` under one selection. */
  predicate ImpliesAt(a: Expr, b: Expr, sel: Selection) {
    Eval(a, Bound(sel)) ==> Eval(b, Bound(sel))
  }

  ghost predicate TableImplies(a: Expr, b: Expr) {
    forall sel | IsRow(a, b, sel) :: ImpliesAt(a, b, sel)
  }

  /** The real thing: under every value of every facet the two expressions name. */
  ghost predicate Implies(a: Expr, b: Expr) {
    forall sel: Selection | TagsIn(BothLeaves(a, b)) <= sel.Keys :: ImpliesAt(a, b, sel)
  }

  // ----- building the domains -----

  function Elems(ls: seq<Expr>): set<Expr> {
    set l | l in ls
  }

  lemma ElemsStep(ls: seq<Expr>, k: nat)
    requires k < |ls|
    ensures Elems(ls[..k + 1]) == Elems(ls[..k]) + {ls[k]}
  {
  }

  /** What one more leaf does to the map. */
  function Insert(tv: TagValues, l: Expr): TagValues {
    if l.Predicate? then tv[l.tag := Get(tv, l.tag) + {l.literal}] else tv
  }

  ghost predicate Collected(tv: TagValues, leaves: set<Expr>, tv': TagValues) {
    && tv'.Keys == tv.Keys + PredicateTags(leaves)
    && forall t :: Get(tv', t) == Get(tv, t) + LiteralsOf(leaves, t)
  }

  lemma CollectStep(tv: TagValues, before: set<Expr>, tv': TagValues, l: Expr)
    requires Collected(tv, before, tv')
    ensures Collected(tv, before + {l}, Insert(tv', l))
  {
    LiteralsStep(before, l);
  }

  method CollectAtomValues(e: Expr, tv: TagValues) returns (tv': TagValues)
    ensures Collected(tv, Leaves(e), tv')
  {
    tv' := tv;
    var leaves := LeafList(e);
    assert Collected(tv, Elems(leaves[..0]), tv');
    for k := 0 to |leaves|
      invariant Collected(tv, Elems(leaves[..k]), tv')
    {
      ElemsStep(leaves, k);
      CollectStep(tv, Elems(leaves[..k]), tv', leaves[k]);
      if leaves[k].Predicate? {
        tv' := tv'[leaves[k].tag := Get(tv', leaves[k].tag) + {leaves[k].literal}];
      }
    }
    assert leaves[..|leaves|] == leaves && Elems(leaves) == Leaves(e);
  }

  lemma LiteralsStep(before: set<Expr>, l: Expr)
    ensures forall t :: LiteralsOf(before + {l}, t) == LiteralsOf(before, t) + if l.Predicate? &&
            l.tag == t then {l.literal} else {}
    ensures PredicateTags(before + {l}) == PredicateTags(before) + if l.Predicate? then {l.tag} else {}
  {
  }

  method CollectComparisons(e: Expr, pairs: seq<Edge>) returns (pairs': seq<Edge>)
    ensures EdgeSet(pairs') == EdgeSet(pairs) + Comparisons(Leaves(e))
  {
    pairs' := pairs;
    var leaves := LeafList(e);
    assert Comparisons(Elems(leaves[..0])) == {};
    for k := 0 to |leaves|
      invariant EdgeSet(pairs') == EdgeSet(pairs) + Comparisons(Elems(leaves[..k]))
    {
      ElemsStep(leaves, k);
      ComparisonsStep(Elems(leaves[..k]), leaves[k]);
      if leaves[k].FacetCompare? {
        ghost var was := pairs';
        pairs' := pairs' + [(leaves[k].lhs, leaves[k].rhs)];
        assert EdgeSet(pairs') == EdgeSet(was) + {(leaves[k].lhs, leaves[k].rhs)};
      }
    }
    assert leaves[..|leaves|] == leaves && Elems(leaves) == Leaves(e);
  }

  lemma ComparisonsStep(before: set<Expr>, l: Expr)
    ensures Comparisons(before + {l}) == Comparisons(before) + if l.FacetCompare? then {(l.lhs, l.rhs)} else {}
  {
  }

  /** Nothing but values of linked facets has been added. */
  ghost predicate Reached(es: set<Edge>, tv: TagValues, t: string, v: string) {
    exists u :: Linked(es, u, t) && v in Get(tv, u)
  }

  ghost predicate Grown(es: set<Edge>, tv: TagValues, tv': TagValues) {
    && (forall t :: Get(tv, t) <= Get(tv', t))
    && forall t, v | v in Get(tv', t) :: Reached(es, tv, t, v)
  }

  lemma EndsStep(pairs: seq<Edge>, k: nat)
    requires k < |pairs|
    ensures Ends(EdgeSet(pairs[..k + 1])) == Ends(EdgeSet(pairs[..k])) + {pairs[k].0, pairs[k].1}
  {
  }

  lemma EnterKeeps(tv: TagValues, t: string)
    ensures forall u :: Get(tv[t := Get(tv, t)], u) == Get(tv, u)
  {
  }

  method EnterPairs(pairs: seq<Edge>, tv: TagValues) returns (tv': TagValues, compared: set<string>)
    ensures tv'.Keys == tv.Keys + Ends(EdgeSet(pairs)) && compared == Ends(EdgeSet(pairs))
    ensures forall t :: Get(tv', t) == Get(tv, t)
  {
    tv', compared := tv, {};
    for k := 0 to |pairs|
      invariant compared == Ends(EdgeSet(pairs[..k])) && tv'.Keys == tv.Keys + compared
      invariant forall t :: Get(tv', t) == Get(tv, t)
    {
      var (l, r) := pairs[k];
      EndsStep(pairs, k);
      EnterKeeps(tv', l);
      tv' := tv'[l := Get(tv', l)];
      EnterKeeps(tv', r);
      tv' := tv'[r := Get(tv', r)];
      compared := compared + {l, r};
    }
    assert pairs[..|pairs|] == pairs;
  }

  /** Every `(facet, value)` entry of the map. */
  function Entries(tv: TagValues): set<(string, string)> {
    set t, v | t in tv && v in tv[t] :: (t, v)
  }

  function AllEntries(tv: TagValues): set<(string, string)> {
    set t, u, v | t in tv && u in tv && v in tv[u] :: (t, v)
  }

  lemma MergeStep(es: set<Edge>, tv0: TagValues, tv: TagValues, l: string, r: string)
    requires Grown(es, tv0, tv) && Adjacent(es, l, r) && l in tv && r in tv
    ensures var union := tv[l] + tv[r];
            Grown(es, tv0, tv[l := union][r := union])
  {
    var union := tv[l] + tv[r];
    var tv' := tv[l := union][r := union];
    forall t, v | v in Get(tv', t) ensures Reached(es, tv0, t, v) {
      if v in Get(tv, t) {
        var u :| Linked(es, u, t) && v in Get(tv0, u);
      } else {
        var other := if t == l then r else l;
        assert v in Get(tv, other);
        assert Reached(es, tv0, other, v);
        var u :| Linked(es, u, other) && v in Get(tv0, u);
        LinkedEdge(es, other, t);
        LinkedTrans(es, u, other, t);
      }
    }
  }

  /** One pass over the pairs. */
  method UnifyOnce(pairs: seq<Edge>, tv: TagValues, ghost tv0: TagValues) returns (tv': TagValues, changed: bool)
    requires Ends(EdgeSet(pairs)) <= tv.Keys && Grown(EdgeSet(pairs), tv0, tv)
    ensures tv'.Keys == tv.Keys && Grown(EdgeSet(pairs), tv0, tv')
    ensures forall t | t in tv :: tv[t] <= tv'[t]
    ensures changed ==> exists t :: t in tv && tv[t] != tv'[t]
    ensures !changed ==> forall p | p in pairs :: tv'[p.0] == tv'[p.1]
  {
    tv', changed := tv, false;
    for k := 0 to |pairs|
      invariant tv'.Keys == tv.Keys && Grown(EdgeSet(pairs), tv0, tv')
      invariant forall t | t in tv :: tv[t] <= tv'[t]
      invariant changed ==> exists t :: t in tv && tv[t] != tv'[t]
      invariant !changed ==> tv' == tv
      invariant !changed ==> forall i | 0 <= i < k ::
                  pairs[i].0 in tv && pairs[i].1 in tv && tv[pairs[i].0] == tv[pairs[i].1]
    {
      var (l, r) := pairs[k];
      assert pairs[k] in EdgeSet(pairs);
      assert l in Ends(EdgeSet(pairs)) && r in Ends(EdgeSet(pairs));
      var union := tv'[l] + tv'[r];
      ghost var was := tv';
      MergeStep(EdgeSet(pairs), tv0, tv', l, r);
      if tv'[l] != union || tv'[r] != union {
        changed := true;
        ghost var t := if tv'[l] != union then l else r;
        assert exists v :: v in union && v !in was[t];
        assert tv[t] != union;
      }
      tv' := tv'[l := union][r := union];
      assert !changed ==> tv' == was;
    }
  }

  /** Unify to a fixpoint: linked facets end up with one value set. */
  method UnifyCompared(pairs: seq<Edge>, tv: TagValues) returns (tv': TagValues, compared: set<string>)
    ensures compared == Ends(EdgeSet(pairs)) && tv'.Keys == tv.Keys + compared
    ensures Grown(EdgeSet(pairs), tv, tv')
    ensures forall p | p in pairs :: Get(tv', p.0) == Get(tv', p.1)
  {
    tv', compared := EnterPairs(pairs, tv);
    ghost var entered := tv';
    GrownStart(EdgeSet(pairs), tv, tv');
    var changed := true;
    while changed
      invariant tv'.Keys == entered.Keys && Grown(EdgeSet(pairs), tv, tv')
      invariant Entries(tv') <= AllEntries(entered)
      invariant !changed ==> forall p | p in pairs :: p.0 in tv' && p.1 in tv' && tv'[p.0] == tv'[p.1]
      decreases AllEntries(entered) - Entries(tv'), changed
    {
      ghost var was := tv';
      tv', changed := UnifyOnce(pairs, tv', tv);
      EntriesBounded(EdgeSet(pairs), tv, entered, tv');
      if changed {
        ghost var t :| t in was && was[t] != tv'[t];
        EntriesGrow(was, tv', t);
      } else {
        forall p | p in pairs ensures p.0 in tv' && p.1 in tv' && tv'[p.0] == tv'[p.1] {
          assert p in EdgeSet(pairs);
          assert p.0 in Ends(EdgeSet(pairs)) && p.1 in Ends(EdgeSet(pairs));
        }
        assert Entries(was) <= Entries(tv');
      }
    }
  }

  lemma GrownStart(es: set<Edge>, tv: TagValues, tv': TagValues)
    requires forall t :: Get(tv', t) == Get(tv, t)
    ensures Grown(es, tv, tv')
  {
    forall t, v | v in Get(tv', t) ensures Reached(es, tv, t, v) {
      LinkedRefl(es, t);
    }
  }

  lemma EntriesBounded(es: set<Edge>, tv: TagValues, entered: TagValues, tv': TagValues)
    requires Grown(es, tv, tv') && tv'.Keys == entered.Keys && forall t :: Get(entered, t) == Get(tv, t)
    ensures Entries(tv') <= AllEntries(entered)
  {
    forall e | e in Entries(tv') ensures e in AllEntries(entered) {
      assert e.1 in Get(tv', e.0);
      assert Reached(es, tv, e.0, e.1);
      var u :| Linked(es, u, e.0) && e.1 in Get(tv, u);
      assert u in entered && e.1 in entered[u];
    }
  }

  lemma EntriesGrow(was: TagValues, tv: TagValues, t: string)
    requires was.Keys == tv.Keys && (forall u | u in was :: was[u] <= tv[u]) && t in was && was[t] != tv[t]
    ensures Entries(was) <= Entries(tv) && Entries(was) != Entries(tv)
  {
    var v :| v in tv[t] && v !in was[t];
    assert (t, v) in Entries(tv) && (t, v) !in Entries(was);
  }

  // ----- the search -----

  /** A selection that continues `prefix` with a value of each remaining domain. */
  predicate Completion(sel: Selection, prefix: Selection, tags: seq<string>, domains: seq<seq<string>>)
    requires |tags| == |domains|
  {
    && sel.Keys == prefix.Keys + (set t | t in tags)
    && (forall t | t in prefix && t !in tags :: sel[t] == prefix[t])
    && forall i | 0 <= i < |tags| :: tags[i] in sel && sel[tags[i]] in domains[i]
  }

  /** Every row that continues `prefix` satisfies the implication. */
  ghost predicate AllRows(tags: seq<string>, domains: seq<seq<string>>, prefix: Selection, a: Expr, b: Expr)
    requires |tags| == |domains|
    decreases |tags|
  {
    if tags == [] then ImpliesAt(a, b, prefix)
    else forall i | 0 <= i < |domains[0]| :: RowsAt(tags, domains, prefix, a, b, i)
  }

  /** The rows that give the first facet its `i`-th value. */
  ghost predicate RowsAt(tags: seq<string>, domains: seq<seq<string>>, prefix: Selection, a: Expr, b: Expr, i: nat)
    requires |tags| == |domains| > 0 && i < |domains[0]|
    decreases |tags|, 0
  {
    AllRows(tags[1..], domains[1..], prefix[tags[0] := domains[0][i]], a, b)
  }

  /** The rows that give the first facet one value are the rows of the rest. */
  lemma RowsOf(tags: seq<string>, domains: seq<seq<string>>, prefix: Selection, value: string, sel: Selection)
    requires |tags| == |domains| > 0 && Sorting.NoRepeats(tags) && (forall t | t in tags :: t !in prefix) &&
             value in domains[0]
    ensures Completion(sel, prefix[tags[0] := value], tags[1..], domains[1..]) <==>
            Completion(sel, prefix, tags, domains) && sel[tags[0]] == value
  {
    if Completion(sel, prefix[tags[0] := value], tags[1..], domains[1..]) {
      RowExtends(tags, domains, prefix, value, sel);
    }
    if Completion(sel, prefix, tags, domains) && sel[tags[0]] == value {
      RowRestricts(tags, domains, prefix, value, sel);
    }
  }

  lemma RowExtends(tags: seq<string>, domains: seq<seq<string>>, prefix: Selection, value: string, sel: Selection)
    requires |tags| == |domains| > 0 && Sorting.NoRepeats(tags) && (forall t | t in tags :: t !in prefix) &&
             value in domains[0]
    requires Completion(sel, prefix[tags[0] := value], tags[1..], domains[1..])
    ensures Completion(sel, prefix, tags, domains) && sel[tags[0]] == value
  {
    var tag, rest := tags[0], tags[1..];
    assert tags == [tag] + rest && tag !in rest;
    forall i | 0 <= i < |tags| ensures tags[i] in sel && sel[tags[i]] in domains[i] {
      if i > 0 { assert rest[i - 1] in sel && sel[rest[i - 1]] in domains[1..][i - 1]; }
    }
  }

  lemma RowRestricts(tags: seq<string>, domains: seq<seq<string>>, prefix: Selection, value: string, sel: Selection)
    requires |tags| == |domains| > 0 && Sorting.NoRepeats(tags) && (forall t | t in tags :: t !in prefix)
    requires Completion(sel, prefix, tags, domains) && sel[tags[0]] == value
    ensures Completion(sel, prefix[tags[0] := value], tags[1..], domains[1..])
  {
  }

  /** A row that is found in the table of the first facet's value is a row of the table,
      and every row is found there. */
  lemma {:induction false} AllRowsMeans(tags: seq<string>, domains: seq<seq<string>>, prefix: Selection, a: Expr,
                                        b: Expr, sel: Selection)
    requires |tags| == |domains| && Sorting.NoRepeats(tags) && forall t | t in tags :: t !in prefix
    requires AllRows(tags, domains, prefix, a, b) && Completion(sel, prefix, tags, domains)
    ensures ImpliesAt(a, b, sel)
    decreases |tags|
  {
    if tags == [] {
      assert sel == prefix;
    } else {
      assert sel[tags[0]] in domains[0];
      var i :| 0 <= i < |domains[0]| && domains[0][i] == sel[tags[0]];
      RowsOf(tags, domains, prefix, domains[0][i], sel);
      assert RowsAt(tags, domains, prefix, a, b, i);
      AllRowsMeans(tags[1..], domains[1..], prefix[tags[0] := domains[0][i]], a, b, sel);
    }
  }

  lemma {:induction false} RefutingRow(tags: seq<string>, domains: seq<seq<string>>, prefix: Selection, a: Expr,
                                       b: Expr) returns (sel: Selection)
    requires |tags| == |domains| && Sorting.NoRepeats(tags) && forall t | t in tags :: t !in prefix
    requires !AllRows(tags, domains, prefix, a, b)
    ensures Completion(sel, prefix, tags, domains) && !ImpliesAt(a, b, sel)
    decreases |tags|
  {
    if tags == [] {
      sel := prefix;
    } else {
      var i :| 0 <= i < |domains[0]| && !RowsAt(tags, domains, prefix, a, b, i);
      sel := RefutingRow(tags[1..], domains[1..], prefix[tags[0] := domains[0][i]], a, b);
      RowsOf(tags, domains, prefix, domains[0][i], sel);
    }
  }

  /** Bind the first facet to its `k`-th value and go on with the rest. */
  method TryValue(tags: seq<string>, domains: seq<seq<string>>, before: Selection, k: nat, a: Expr, b: Expr,
                  ghost prefix: Selection)
    returns (holds: bool, after: Selection)
    requires |tags| == |domains| > 0 && Sorting.NoRepeats(tags) && (forall t | t in tags :: t !in prefix) &&
             k < |domains[0]|
    requires before - {tags[0]} == prefix
    ensures holds <==> RowsAt(tags, domains, prefix, a, b, k)
    ensures after - {tags[0]} == prefix
    decreases |tags|, 0
  {
    var bound := before[tags[0] := domains[0][k]];
    assert bound == prefix[tags[0] := domains[0][k]] && bound - {tags[0]} == prefix;
    assert forall t | t in tags[1..] :: t != tags[0];
    holds, after := HoldsForAllAssignments(tags[1..], domains[1..], bound, a, b);
  }

  /** The recursion over the Cartesian product: it stops at the first row that refutes
      the implication and leaves the assignment as it found it. */
  method HoldsForAllAssignments(tags: seq<string>, domains: seq<seq<string>>, assignments: Selection, a: Expr, b: Expr)
    returns (holds: bool, after: Selection)
    requires |tags| == |domains| && Sorting.NoRepeats(tags) && forall t | t in tags :: t !in assignments
    ensures holds <==> AllRows(tags, domains, assignments, a, b)
    ensures after == assignments
    decreases |tags|
  {
    after := assignments;
    if tags == [] {
      holds := !(Eval(a, Bound(assignments)) && !Eval(b, Bound(assignments)));
      return;
    }
    assert after - {tags[0]} == assignments;
    holds := true;
    for k := 0 to |domains[0]|
      invariant holds && after - {tags[0]} == assignments
      invariant forall i | 0 <= i < k :: RowsAt(tags, domains, assignments, a, b, i)
    {
      holds, after := TryValue(tags, domains, after, k, a, b, assignments);
      if !holds {
        after := after - {tags[0]};
        return;
      }
    }
    after := after - {tags[0]};
  }

  // ----- the engine -----

  method BuildDomains(tags: seq<string>, tv: TagValues, compared: set<string>) returns (domains: seq<seq<string>>)
    requires forall t | t in tags :: t in tv
    ensures |domains| == |tags|
    ensures forall i | 0 <= i < |tags| :: forall v :: v in domains[i] <==>
            v in TableDomain(tv[tags[i]], tags[i] in compared)
  {
    domains := [];
    for i := 0 to |tags|
      invariant |domains| == i
      invariant forall k | 0 <= k < i :: forall v :: v in domains[k] <==>
                v in TableDomain(tv[tags[k]], tags[k] in compared)
    {
      var domain := DomainFor(tv[tags[i]], tags[i] in compared);
      domains := domains + [domain];
    }
  }

  method DomainFor(values: set<string>, compared: bool) returns (domain: seq<string>)
    ensures forall v :: v in domain <==> v in TableDomain(values, compared)
  {
    domain := Sorting.Keys(values);
    assert (set v | v in domain) == values;
    var first := UniqueSentinel(domain);
    domain := domain + [first];
    if compared {
      assert (set v | v in domain) == values + {first};
      var second := UniqueSentinel(domain);
      domain := domain + [second];
    }
  }

  /** Equal along every pair, so equal along every walk. */
  lemma {:induction false} EqualAlongWalk(es: set<Edge>, tv: TagValues, p: seq<string>)
    requires Walk(es, p) && forall e | e in es :: Get(tv, e.0) == Get(tv, e.1)
    ensures Get(tv, p[0]) == Get(tv, p[|p| - 1])
    decreases |p|
  {
    if |p| > 1 {
      assert Adjacent(es, p[0], p[0 + 1]);
      forall i | 0 <= i < |p[1..]| - 1 ensures Adjacent(es, p[1..][i], p[1..][i + 1]) {
        assert Adjacent(es, p[i + 1], p[i + 1 + 1]);
      }
      EqualAlongWalk(es, tv, p[1..]);
    }
  }

  lemma ReachedIsShared(leaves: set<Expr>, u: string, t: string, v: string)
    requires v in LiteralsOf(leaves, u) && Linked(Comparisons(leaves), u, t)
    ensures v in Shared(leaves, t)
  {
  }

  lemma SharedIsReached(leaves: set<Expr>, t: string, v: string) returns (u: string)
    requires v in Shared(leaves, t)
    ensures v in LiteralsOf(leaves, u) && Linked(Comparisons(leaves), u, t)
  {
    var l :| l in leaves && l.Predicate? && Linked(Comparisons(leaves), l.tag, t) && l.literal == v;
    u := l.tag;
  }

  /** The fixpoint is the closed form: each facet ends with the literals of every facet
      it is linked to. */
  lemma FixpointIsShared(leaves: set<Expr>, tv: TagValues, tv': TagValues, t: string)
    requires forall u :: Get(tv, u) == LiteralsOf(leaves, u)
    requires Grown(Comparisons(leaves), tv, tv') &&
             forall e | e in Comparisons(leaves) :: Get(tv', e.0) == Get(tv', e.1)
    ensures Get(tv', t) == Shared(leaves, t)
  {
    var es := Comparisons(leaves);
    forall v | v in Get(tv', t) ensures v in Shared(leaves, t) {
      assert Reached(es, tv, t, v);
      var u :| Linked(es, u, t) && v in Get(tv, u);
      ReachedIsShared(leaves, u, t, v);
    }
    forall v | v in Shared(leaves, t) ensures v in Get(tv', t) {
      var u := SharedIsReached(leaves, t, v);
      var p :| WalkBetween(es, p, u, t);
      EqualAlongWalk(es, tv', p);
      assert v in Get(tv, u) && Get(tv, u) <= Get(tv', u);
    }
  }

  lemma TagsJoin(x: set<Expr>, y: set<Expr>)
    ensures PredicateTags(x) + PredicateTags(y) == PredicateTags(x + y)
    ensures Comparisons(x) + Comparisons(y) == Comparisons(x + y)
  {
  }

  /** The tags and domains of the search are the columns of the table. */
  ghost predicate IsTable(columns: Columns, tags: seq<string>, domains: seq<seq<string>>) {
    && |tags| == |domains|
    && (forall t :: t in tags <==> t in columns)
    && forall i | 0 <= i < |tags| :: tags[i] in columns && forall v :: v in domains[i] <==> v in columns[tags[i]]
  }

  lemma RowsOfTable(columns: Columns, tags: seq<string>, domains: seq<seq<string>>, sel: Selection)
    requires IsTable(columns, tags, domains)
    ensures Completion(sel, map[], tags, domains) <==> Fits(sel, columns)
  {
  }

  lemma BothCollected(x: set<Expr>, y: set<Expr>, first: TagValues, tv: TagValues)
    requires Collected(map[], x, first) && Collected(first, y, tv)
    ensures forall t :: Get(tv, t) == LiteralsOf(x + y, t)
  {
  }

  method CollectBoth(a: Expr, b: Expr) returns (tv: TagValues, pairs: seq<Edge>)
    ensures tv.Keys == PredicateTags(BothLeaves(a, b)) && EdgeSet(pairs) == Comparisons(BothLeaves(a, b))
    ensures forall t :: Get(tv, t) == LiteralsOf(BothLeaves(a, b), t)
  {
    var first := CollectAtomValues(a, map[]);
    tv := CollectAtomValues(b, first);
    pairs := CollectComparisons(a, []);
    pairs := CollectComparisons(b, pairs);
    TagsJoin(Leaves(a), Leaves(b));
    BothCollected(Leaves(a), Leaves(b), first, tv);
  }

  method PrepareValues(a: Expr, b: Expr) returns (tv: TagValues, compared: set<string>)
    ensures tv.Keys == TagsIn(BothLeaves(a, b)) && compared == Ends(Comparisons(BothLeaves(a, b)))
    ensures forall t | t in tv :: tv[t] == Shared(BothLeaves(a, b), t)
  {
    var collected, pairs := CollectBoth(a, b);
    tv, compared := UnifyCompared(pairs, collected);
    PairsAreComparisons(pairs, Comparisons(BothLeaves(a, b)), tv);
    forall t | t in tv ensures tv[t] == Shared(BothLeaves(a, b), t) {
      FixpointIsShared(BothLeaves(a, b), collected, tv, t);
    }
  }

  lemma PairsAreComparisons(pairs: seq<Edge>, es: set<Edge>, tv: TagValues)
    requires EdgeSet(pairs) == es && forall p | p in pairs :: Get(tv, p.0) == Get(tv, p.1)
    ensures forall e | e in es :: Get(tv, e.0) == Get(tv, e.1)
  {
  }

  method PrepareTable(a: Expr, b: Expr) returns (tags: seq<string>, domains: seq<seq<string>>)
    ensures IsTable(ColumnsOf(BothLeaves(a, b)), tags, domains) && Sorting.NoRepeats(tags)
  {
    var tv, compared := PrepareValues(a, b);
    tags := Sorting.Keys(tv.Keys);
    Sorting.KeysAscend(tv.Keys);
    domains := BuildDomains(tags, tv, compared);
    forall i | 0 <= i < |tags| ensures tags[i] in tv {
      assert tags[i] in tags;
    }
  }

  /** `condition_expr_implies` decides the table. */
  method ConditionExprImplies(a: Expr, b: Expr) returns (r: bool)
    ensures r <==> TableImplies(a, b)
  {
    var tags, domains := PrepareTable(a, b);
    var after;
    r, after := HoldsForAllAssignments(tags, domains, map[], a, b);
    if r {
      forall sel | IsRow(a, b, sel) ensures ImpliesAt(a, b, sel) {
        RowsOfTable(ColumnsOf(BothLeaves(a, b)), tags, domains, sel);
        AllRowsMeans(tags, domains, map[], a, b, sel);
      }
    } else {
      ghost var sel := RefutingRow(tags, domains, map[], a, b);
      RowsOfTable(ColumnsOf(BothLeaves(a, b)), tags, domains, sel);
    }
  }

  datatype Verdict = Decided(implies: bool) | ConditionFails(text: string)

  /** `condition_implies_typed`: an absent condition is `true`; an absent consequent is
      implied without looking at the antecedent. */
  ghost function ImpliesTexts(a: Option<string>, b: Option<string>): Verdict {
    match b
    case None => Decided(true)
    case Some(bt) =>
      match ParseCondition(bt)
      case Fail => ConditionFails(bt)
      case Got(be, _) =>
        match a
        case None => Decided(TableImplies(Bool(true), be))
        case Some(at) =>
          match ParseCondition(at)
          case Fail => ConditionFails(at)
          case Got(ae, _) => Decided(TableImplies(ae, be))
  }

  method ConditionImpliesTyped(a: Option<string>, b: Option<string>) returns (v: Verdict)
    ensures v == ImpliesTexts(a, b)
  {
    if b.None? {
      return Decided(true);
    }
    var parsed := ParseCondition(b.value);
    if parsed.Fail? {
      return ConditionFails(b.value);
    }
    var antecedent := Bool(true);
    if a.Some? {
      var other := ParseCondition(a.value);
      if other.Fail? {
        return ConditionFails(a.value);
      }
      antecedent := other.value;
    }
    var r := ConditionExprImplies(antecedent, parsed.value);
    return Decided(r);
  }
}
