/** The node store of the in-crate BDD builder (compiler/src/ccm_emitter/bdd.rs)
    as a mathematical object: what a reference denotes, and why a reduced,
    ordered store holds at most one reference per Boolean function. */
module Bdd {

  const FALSE_REF: nat := 0
  const TRUE_REF: nat := 1

  datatype Node = Node(varIndex: nat, low: nat, high: nat)

  /** The variables assigned true. */
  type Valuation = set<nat>

  predicate IsRef(ns: seq<Node>, r: nat) {
    r < |ns| + 2
  }

  /** `r` is a terminal or tests a variable at or below level `k`. */
  predicate AtLevel(ns: seq<Node>, r: nat, k: nat)
    requires IsRef(ns, r)
  {
    r < 2 || k <= ns[r - 2].varIndex
  }

  predicate NodeOk(ns: seq<Node>, i: nat)
    requires i < |ns|
  {
    var n := ns[i];
    && n.low < i + 2 && n.high < i + 2 && n.low != n.high
    && AtLevel(ns, n.low, n.varIndex + 1)
    && AtLevel(ns, n.high, n.varIndex + 1)
  }

  /** Reduced and ordered: children come first, levels increase downwards, no
      node is redundant and no two nodes are equal. */
  ghost predicate WellFormed(ns: seq<Node>) {
    && (forall i | 0 <= i < |ns| :: NodeOk(ns, i))
    && (forall i, j | 0 <= i < j < |ns| :: ns[i] != ns[j])
  }

  /** The Boolean function a reference denotes. */
  ghost predicate Sat(ns: seq<Node>, r: nat, v: Valuation)
    requires WellFormed(ns) && IsRef(ns, r)
    decreases r
  {
    if r < 2 then r == TRUE_REF
    else
      var n := ns[r - 2];
      assert NodeOk(ns, r - 2);
      Sat(ns, if n.varIndex in v then n.high else n.low, v)
  }

  /** Two references, possibly of different stores, denote one function. */
  ghost predicate Same(ns: seq<Node>, a: nat, ms: seq<Node>, b: nat)
    requires WellFormed(ns) && IsRef(ns, a)
    requires WellFormed(ms) && IsRef(ms, b)
  {
    forall v: Valuation :: Sat(ns, a, v) == Sat(ms, b, v)
  }

  lemma {:induction false} SatOfExtension(ns: seq<Node>, ms: seq<Node>, r: nat, v: Valuation)
    requires WellFormed(ns) && WellFormed(ms) && ns <= ms && IsRef(ns, r)
    ensures Sat(ns, r, v) == Sat(ms, r, v)
    decreases r
  {
    if r >= 2 {
      assert NodeOk(ns, r - 2);
      var n := ns[r - 2];
      SatOfExtension(ns, ms, if n.varIndex in v then n.high else n.low, v);
    }
  }

  /** A function does not read a variable above the level of its reference. */
  lemma {:induction false} SatIgnoresAbove(ns: seq<Node>, r: nat, k: nat, v: Valuation, w: Valuation)
    requires WellFormed(ns) && IsRef(ns, r) && AtLevel(ns, r, k)
    requires forall x: nat | k <= x :: x in v <==> x in w
    ensures Sat(ns, r, v) == Sat(ns, r, w)
    decreases r
  {
    if r >= 2 {
      assert NodeOk(ns, r - 2);
      var n := ns[r - 2];
      SatIgnoresAbove(ns, if n.varIndex in v then n.high else n.low, k, v, w);
    }
  }

  /** Fixing the top variable of a node reads one child. */
  lemma CofactorSat(ns: seq<Node>, r: nat, v: Valuation)
    requires WellFormed(ns) && IsRef(ns, r) && r >= 2
    ensures NodeOk(ns, r - 2)
    ensures Sat(ns, r, v + {ns[r - 2].varIndex}) == Sat(ns, ns[r - 2].high, v)
    ensures Sat(ns, r, v - {ns[r - 2].varIndex}) == Sat(ns, ns[r - 2].low, v)
  {
    assert NodeOk(ns, r - 2);
    var n := ns[r - 2];
    SatIgnoresAbove(ns, n.high, n.varIndex + 1, v + {n.varIndex}, v);
    SatIgnoresAbove(ns, n.low, n.varIndex + 1, v - {n.varIndex}, v);
  }

  function Max(a: nat, b: nat): nat {
    if a < b then b else a
  }

  /** When two stores agree on a function, they agree on its top variable and on
      both children, or it is the same terminal. The engine of canonicity. */
  lemma {:induction false} SameShape(ns: seq<Node>, a: nat, ms: seq<Node>, b: nat)
    requires WellFormed(ns) && IsRef(ns, a)
    requires WellFormed(ms) && IsRef(ms, b)
    requires Same(ns, a, ms, b)
    ensures a < 2 || b < 2 ==> a == b
    ensures a >= 2 && b >= 2 ==>
              var n, m := ns[a - 2], ms[b - 2];
              && NodeOk(ns, a - 2) && NodeOk(ms, b - 2)
              && n.varIndex == m.varIndex
              && Same(ns, n.low, ms, m.low) && Same(ns, n.high, ms, m.high)
    decreases Max(a, b), 1
  {
    if a < 2 && b < 2 {
      assert Sat(ns, a, {}) == Sat(ms, b, {});
    } else if a >= 2 && AtLevel(ms, b, ns[a - 2].varIndex + 1) {
      NodeDiffersFromBelow(ns, a, ms, b);
    } else if b >= 2 && AtLevel(ns, a, ms[b - 2].varIndex + 1) {
      assert Same(ms, b, ns, a);
      NodeDiffersFromBelow(ms, b, ns, a);
    } else {
      var n, m, x := ns[a - 2], ms[b - 2], ns[a - 2].varIndex;
      assert NodeOk(ns, a - 2) && NodeOk(ms, b - 2);
      forall v: Valuation
        ensures Sat(ns, n.low, v) == Sat(ms, m.low, v) && Sat(ns, n.high, v) == Sat(ms, m.high, v)
      {
        CofactorSat(ns, a, v);
        CofactorSat(ms, b, v);
        assert Sat(ns, a, v + {x}) == Sat(ms, b, v + {x});
        assert Sat(ns, a, v - {x}) == Sat(ms, b, v - {x});
      }
    }
  }

  /** A node cannot denote a function that ignores its variable. */
  lemma {:induction false} NodeDiffersFromBelow(ns: seq<Node>, a: nat, ms: seq<Node>, b: nat)
    requires WellFormed(ns) && IsRef(ns, a) && a >= 2
    requires WellFormed(ms) && IsRef(ms, b) && AtLevel(ms, b, ns[a - 2].varIndex + 1)
    ensures !Same(ns, a, ms, b)
    decreases Max(a, b), 0
  {
    var n := ns[a - 2];
    assert NodeOk(ns, a - 2);
    if forall v: Valuation :: Sat(ns, n.low, v) == Sat(ns, n.high, v) {
      Canonical(ns, n.low, n.high);
    } else {
      var v: Valuation :| Sat(ns, n.low, v) != Sat(ns, n.high, v);
      CofactorSat(ns, a, v);
      SatIgnoresAbove(ms, b, n.varIndex + 1, v + {n.varIndex}, v - {n.varIndex});
      assert Sat(ms, b, v + {n.varIndex}) == Sat(ms, b, v - {n.varIndex});
    }
  }

  /** ROBDD canonicity: within one store, equal functions are equal references. */
  lemma {:induction false} Canonical(ns: seq<Node>, a: nat, b: nat)
    requires WellFormed(ns) && IsRef(ns, a) && IsRef(ns, b)
    requires Same(ns, a, ns, b)
    ensures a == b
    decreases Max(a, b), 2
  {
    SameShape(ns, a, ns, b);
    if a >= 2 && b >= 2 {
      var n, m := ns[a - 2], ns[b - 2];
      Canonical(ns, n.low, m.low);
      Canonical(ns, n.high, m.high);
      assert n == m;
    }
  }
}
