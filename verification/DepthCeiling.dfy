/** The depth ceiling depends on the names, not on the graph alone. */
module DepthCeiling {
  import opened DepthFirst
  import Sorting

  function AllFinished(order: seq<string>): map<string, Mark> {
    map n | n in order :: Finished
  }

  lemma {:induction false} FinishedAreSkipped(g: Graph, w: Walker, ns: seq<string>)
    requires |w.stack| <= MAX_CHAIN_DEPTH && forall n | n in ns :: n in w.marks && w.marks[n] == Finished
    ensures VisitEach(g, w, ns) == Fine(w)
  {
    if ns != [] {
      assert Visit(g, w, ns[0]) == Fine(w);
      FinishedAreSkipped(g, w, ns[1..]);
    }
  }

  lemma ReadyNodeFinishes(g: Graph, order: seq<string>, n: string)
    requires n !in order && n !in g.missing && forall m | m in Next(g, n) :: m in order
    ensures Visit(g, Walker(AllFinished(order), []), n) == Fine(Walker(AllFinished(order + [n]), []))
  {
    var w := Walker(AllFinished(order), []);
    var inside := Walker(w.marks[n := Visiting], w.stack + [n]);
    forall m | m in Next(g, n) ensures m in inside.marks && inside.marks[m] == Finished {
      assert m != n;
    }
    FinishedAreSkipped(g, inside, Next(g, n));
    assert inside.marks[n := Finished] == AllFinished(order + [n]);
    assert inside.stack[..|inside.stack| - 1] == [];
  }

  lemma EachStep(g: Graph, w: Walker, ns: seq<string>)
    requires |w.stack| <= MAX_CHAIN_DEPTH && ns != []
    ensures VisitEach(g, w, ns) == (var r := Visit(g, w, ns[0]); if r.Fine? then VisitEach(g, r.walker, ns[1..]) else r)
  {
  }

  lemma EachStepTo(g: Graph, w: Walker, n: string, rest: seq<string>, w': Walker)
    requires |w.stack| <= MAX_CHAIN_DEPTH && Visit(g, w, n) == Fine(w')
    ensures VisitEach(g, w, [n] + rest) == VisitEach(g, w', rest)
  {
  }

  function Settling(order: seq<string>): Walker {
    Walker(AllFinished(order), [])
  }

  lemma SettledAt(g: Graph, order: seq<string>, k: nat)
    requires Settled(g, order) && k < |order|
    ensures order[k] !in order[..k] && order[k] !in g.missing && forall m | m in Next(g, order[k]) :: m in order[..k]
  {
  }

  lemma TailStep(g: Graph, before: seq<string>, n: string, rest: seq<string>)
    requires n !in before && n !in g.missing && forall m | m in Next(g, n) :: m in before
    ensures VisitEach(g, Settling(before), [n] + rest) == VisitEach(g, Settling(before + [n]), rest)
  {
    ReadyNodeFinishes(g, before, n);
    EachStepTo(g, Settling(before), n, rest, Settling(before + [n]));
  }

  /** When the names sort so that every node comes after its successors, the walk never
      goes down and the graph is accepted whatever its depth. */
  lemma {:induction false} TailFirstIsAccepted(g: Graph, order: seq<string>, k: nat)
    requires Settled(g, order) && k <= |order|
    ensures VisitEach(g, Settling(order[..k]), order[k..]).Fine?
    decreases |order| - k
  {
    if k < |order| {
      SettledAt(g, order, k);
      TailStep(g, order[..k], order[k], order[k + 1..]);
      assert order[..k] + [order[k]] == order[..k + 1] && [order[k]] + order[k + 1..] == order[k..];
      TailFirstIsAccepted(g, order, k + 1);
    }
  }

  function OnStack(p: seq<string>): map<string, Mark> {
    map n | n in p :: Visiting
  }

  /** A chain walked from its head is refused as soon as it is longer than the ceiling. */
  lemma {:induction false} HeadFirstIsRefused(g: Graph, p: seq<string>, k: nat)
    requires k <= MAX_CHAIN_DEPTH < |p| && Sorting.NoRepeats(p)
    requires forall i | 0 <= i < MAX_CHAIN_DEPTH :: p[i] !in g.missing && Next(g, p[i]) == [p[i + 1]]
    ensures Visit(g, Walker(OnStack(p[..k]), p[..k]), p[k]) == TooDeep(p[MAX_CHAIN_DEPTH])
    decreases MAX_CHAIN_DEPTH - k
  {
    var w := Walker(OnStack(p[..k]), p[..k]);
    assert p[k] !in p[..k];
    if k < MAX_CHAIN_DEPTH {
      HeadFirstIsRefused(g, p, k + 1);
      assert p[..k] + [p[k]] == p[..k + 1];
      assert w.marks[p[k] := Visiting] == OnStack(p[..k + 1]);
      OnlyChild(g, w, p[k], p[k + 1]);
    }
  }

  lemma OnlyChild(g: Graph, w: Walker, n: string, m: string)
    requires n !in w.marks && n !in g.missing && Next(g, n) == [m] && |w.stack| < MAX_CHAIN_DEPTH
    requires Visit(g, Entered(w, n), m).TooDeep?
    ensures Visit(g, w, n) == Visit(g, Entered(w, n), m)
  {
    EachStep(g, Entered(w, n), [m]);
  }

  lemma StartsEmpty(ns: seq<string>)
    ensures Settling(ns[..0]) == Walker(map[], []) == Walker(OnStack(ns[..0]), ns[..0]) && ns[0..] == ns
  {
  }

  lemma SettledRootsAccepted(g: Graph)
    requires Settled(g, Roots(g))
    ensures Check(g, Roots(g)).Fine?
  {
    var order := Roots(g);
    TailFirstIsAccepted(g, order, 0);
    StartsEmpty(order);
  }

  // ----- one chain, named two ways -----

  function Name(k: nat): (s: string)
    ensures |s| == k + 1
  {
    if k == 0 then "a" else Name(k - 1) + "a"
  }

  function Names(n: nat): (ns: seq<string>)
    ensures |ns| == n && forall i | 0 <= i < n :: ns[i] == Name(i)
  {
    seq(n, i requires 0 <= i < n => Name(i))
  }

  /** `Name(i)` points at its predecessor. */
  function TailChain(n: nat): Graph {
    Graph(map s | s in Names(n) :: if |s| == 1 then [] else [Name(|s| - 2)], map[])
  }

  /** `Name(i)` points at its successor. */
  function HeadChain(n: nat): Graph {
    Graph(map s | s in Names(n) :: if |s| == n then [] else [Name(|s|)], map[])
  }

  lemma {:induction false} NamesAscend(i: nat, j: nat)
    requires i <= j
    ensures Sorting.Le(Name(i), Name(j)) && Name(i) <= Name(j)
    decreases j
  {
    if i == j {
      Sorting.LeTotal(Name(i), Name(j));
    } else {
      NamesAscend(i, j - 1);
      PrefixIsLe(Name(j - 1), Name(j));
      Sorting.LeTransitive(Name(i), Name(j - 1), Name(j));
    }
  }

  lemma {:induction false} PrefixIsLe(s: string, t: string)
    requires s <= t
    ensures Sorting.Le(s, t)
  {
    if s != [] {
      PrefixIsLe(s[1..], t[1..]);
    }
  }

  lemma NamesAreKeys(n: nat, keys: set<string>)
    requires forall s :: s in keys <==> s in Names(n)
    ensures Sorting.Keys(keys) == Names(n)
  {
    var ns := Names(n);
    forall i, j | 0 <= i < j < |ns| ensures Sorting.Le(ns[i], ns[j]) && ns[i] != ns[j] {
      NamesAscend(i, j);
      assert |ns[i]| != |ns[j]|;
    }
    Sorting.KeysAscend(keys);
    Sorting.AscendingUnique(Sorting.Keys(keys), ns);
  }

  lemma NamesDiffer(n: nat)
    ensures Sorting.NoRepeats(Names(n))
  {
  }

  /** The two chains are one graph read from either end: so the ceiling is not a property
      of the graph, since over the ceiling the one is accepted and the other refused. */
  lemma ChainLinks(n: nat, i: nat)
    requires i < n
    ensures Next(TailChain(n), Name(i)) == if i == 0 then [] else [Name(i - 1)]
    ensures Next(HeadChain(n), Name(i)) == if i + 1 == n then [] else [Name(i + 1)]
  {
    assert Names(n)[i] in Names(n);
  }

  lemma TailChainAccepted(n: nat)
    ensures Check(TailChain(n), Roots(TailChain(n))).Fine?
  {
    var t, ns := TailChain(n), Names(n);
    NamesAreKeys(n, t.edges.Keys);
    NamesDiffer(n);
    forall i | 0 <= i < n ensures forall m | m in Next(t, ns[i]) :: m in ns[..i] {
      ChainLinks(n, i);
      if i > 0 { assert ns[..i][i - 1] == Name(i - 1); }
    }
    SettledRootsAccepted(t);
  }

  lemma HeadChainRefused(n: nat)
    requires n > MAX_CHAIN_DEPTH
    ensures Check(HeadChain(n), Roots(HeadChain(n))) == TooDeep(Names(n)[MAX_CHAIN_DEPTH])
  {
    var h, ns := HeadChain(n), Names(n);
    NamesAreKeys(n, h.edges.Keys);
    NamesDiffer(n);
    forall i | 0 <= i < MAX_CHAIN_DEPTH ensures Next(h, ns[i]) == [ns[i + 1]] {
      ChainLinks(n, i);
    }
    HeadFirstIsRefused(h, ns, 0);
    StartsEmpty(ns);
    EachStep(h, Walker(OnStack(ns[..0]), ns[..0]), ns);
  }
}
