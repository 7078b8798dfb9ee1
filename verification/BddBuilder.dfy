/** The in-crate BDD builder (compiler/src/ccm_emitter/bdd.rs): hash-consed nodes,
    three apply memos that may be dropped at any moment, and a live memo cap. */
module Builder {
  import opened Bdd
  import opened Options

  const DEFAULT_MEMO_CAP: nat := 0x10_0000
  const MEMO_CAP_FLOOR: nat := 4096
  const U32_MAX: nat := 0xFFFF_FFFF
  const U64_MAX: nat := 0xFFFF_FFFF_FFFF_FFFF

  predicate Gate(isAnd: bool, x: bool, y: bool) {
    if isAnd then x && y else x || y
  }

  ghost predicate GateAt(ns: seq<Node>, isAnd: bool, a: nat, b: nat, r: nat, v: Valuation)
    requires WellFormed(ns) && IsRef(ns, a) && IsRef(ns, b) && IsRef(ns, r)
  {
    Sat(ns, r, v) == Gate(isAnd, Sat(ns, a, v), Sat(ns, b, v))
  }

  /** `r` tests no variable above the top variable of `a`. */
  predicate NoHigher(ns: seq<Node>, r: nat, a: nat)
    requires IsRef(ns, a) && IsRef(ns, r)
  {
    r < 2 || (a >= 2 && ns[a - 2].varIndex <= ns[r - 2].varIndex)
  }

  /** `r` is the conjunction (disjunction) of `a` and `b`, no higher than both. */
  ghost predicate IsGate(ns: seq<Node>, isAnd: bool, a: nat, b: nat, r: nat)
    requires WellFormed(ns)
  {
    && IsRef(ns, a) && IsRef(ns, b) && IsRef(ns, r)
    && (NoHigher(ns, r, a) || NoHigher(ns, r, b))
    && (forall v: Valuation :: GateAt(ns, isAnd, a, b, r, v))
  }

  ghost predicate NegationAt(ns: seq<Node>, a: nat, r: nat, v: Valuation)
    requires WellFormed(ns) && IsRef(ns, a) && IsRef(ns, r)
  {
    Sat(ns, r, v) == !Sat(ns, a, v)
  }

  ghost predicate IsNegation(ns: seq<Node>, a: nat, r: nat)
    requires WellFormed(ns)
  {
    && IsRef(ns, a) && IsRef(ns, r) && NoHigher(ns, r, a)
    && (forall v: Valuation :: NegationAt(ns, a, r, v))
  }

  ghost predicate ChoiceAt(ns: seq<Node>, x: nat, low: nat, high: nat, r: nat, v: Valuation)
    requires WellFormed(ns) && IsRef(ns, low) && IsRef(ns, high) && IsRef(ns, r)
  {
    Sat(ns, r, v) == Sat(ns, if x in v then high else low, v)
  }

  /** `r` is `if x then high else low`, at the level of `x` or below. */
  ghost predicate IsChoice(ns: seq<Node>, x: nat, low: nat, high: nat, r: nat)
    requires WellFormed(ns)
  {
    && IsRef(ns, low) && IsRef(ns, high) && IsRef(ns, r) && AtLevel(ns, r, x)
    && (forall v: Valuation :: ChoiceAt(ns, x, low, high, r, v))
  }

  ghost predicate GateMemoSound(ns: seq<Node>, isAnd: bool, memo: map<(nat, nat), nat>)
    requires WellFormed(ns)
  {
    forall p | p in memo :: IsGate(ns, isAnd, p.0, p.1, memo[p])
  }

  ghost predicate NotMemoSound(ns: seq<Node>, memo: map<nat, nat>)
    requires WellFormed(ns)
  {
    forall a | a in memo :: IsNegation(ns, a, memo[a])
  }

  /** The unique table is exactly the inverse of the node arena. */
  ghost predicate UniqueExact(ns: seq<Node>, unique: map<Node, nat>) {
    && (forall n | n in unique :: 2 <= unique[n] < |ns| + 2 && ns[unique[n] - 2] == n)
    && (forall i | 0 <= i < |ns| :: ns[i] in unique)
  }

  lemma GateOfExtension(ns: seq<Node>, ms: seq<Node>, isAnd: bool, a: nat, b: nat, r: nat)
    requires WellFormed(ns) && WellFormed(ms) && ns <= ms && IsGate(ns, isAnd, a, b, r)
    ensures IsGate(ms, isAnd, a, b, r)
  {
    forall v: Valuation
      ensures GateAt(ms, isAnd, a, b, r, v)
    {
      assert GateAt(ns, isAnd, a, b, r, v);
      SatOfExtension(ns, ms, a, v);
      SatOfExtension(ns, ms, b, v);
      SatOfExtension(ns, ms, r, v);
    }
  }

  lemma GateSwap(ns: seq<Node>, isAnd: bool, a: nat, b: nat, r: nat)
    requires WellFormed(ns) && IsGate(ns, isAnd, a, b, r)
    ensures IsGate(ns, isAnd, b, a, r)
  {
    forall v: Valuation
      ensures GateAt(ns, isAnd, b, a, r, v)
    {
      assert GateAt(ns, isAnd, a, b, r, v);
    }
  }

  lemma GateLevel(ns: seq<Node>, ms: seq<Node>, isAnd: bool, a: nat, b: nat, r: nat, k: nat)
    requires WellFormed(ns) && WellFormed(ms) && ns <= ms && IsGate(ms, isAnd, a, b, r)
    requires IsRef(ns, a) && IsRef(ns, b) && AtLevel(ns, a, k) && AtLevel(ns, b, k)
    ensures AtLevel(ms, r, k)
  {
  }

  lemma TerminalGate(ns: seq<Node>, isAnd: bool, a: nat, b: nat)
    requires WellFormed(ns) && a < 2 && b < 2
    ensures IsGate(ns, isAnd, a, b, if Gate(isAnd, a == TRUE_REF, b == TRUE_REF) then TRUE_REF else FALSE_REF)
  {
  }

  lemma NodeIsChoice(ns: seq<Node>, r: nat)
    requires WellFormed(ns) && 2 <= r < |ns| + 2
    ensures IsChoice(ns, ns[r - 2].varIndex, ns[r - 2].low, ns[r - 2].high, r)
  {
    assert NodeOk(ns, r - 2);
  }

  lemma NegationOfExtension(ns: seq<Node>, ms: seq<Node>, a: nat, r: nat)
    requires WellFormed(ns) && WellFormed(ms) && ns <= ms && IsNegation(ns, a, r)
    ensures IsNegation(ms, a, r)
  {
    forall v: Valuation
      ensures NegationAt(ms, a, r, v)
    {
      assert NegationAt(ns, a, r, v);
      SatOfExtension(ns, ms, a, v);
      SatOfExtension(ns, ms, r, v);
    }
  }

  lemma MemosOfExtension(ns: seq<Node>, ms: seq<Node>, nots: map<nat, nat>,
                         ands: map<(nat, nat), nat>, ors: map<(nat, nat), nat>)
    requires WellFormed(ns) && WellFormed(ms) && ns <= ms
    requires NotMemoSound(ns, nots) && GateMemoSound(ns, true, ands) && GateMemoSound(ns, false, ors)
    ensures NotMemoSound(ms, nots) && GateMemoSound(ms, true, ands) && GateMemoSound(ms, false, ors)
  {
    forall a | a in nots ensures IsNegation(ms, a, nots[a]) { NegationOfExtension(ns, ms, a, nots[a]); }
    forall p | p in ands
      ensures IsGate(ms, true, p.0, p.1, ands[p]) { GateOfExtension(ns, ms, true, p.0, p.1, ands[p]); }
    forall p | p in ors
      ensures IsGate(ms, false, p.0, p.1, ors[p]) { GateOfExtension(ns, ms, false, p.0, p.1, ors[p]); }
  }

  /** Appending a node that is not yet present keeps the store reduced and ordered. */
  lemma AppendKeepsWellFormed(ns: seq<Node>, n: Node)
    requires WellFormed(ns) && n !in ns
    requires IsRef(ns, n.low) && IsRef(ns, n.high) && n.low != n.high
    requires AtLevel(ns, n.low, n.varIndex + 1) && AtLevel(ns, n.high, n.varIndex + 1)
    ensures WellFormed(ns + [n])
  {
    var ms := ns + [n];
    forall i | 0 <= i < |ms|
      ensures NodeOk(ms, i)
    {
      if i < |ns| { assert NodeOk(ns, i); }
    }
  }

  /** The two restrictions of a reference to a variable at or above its level. */
  function Cofactor(ns: seq<Node>, a: nat, x: nat): (c: (nat, nat))
    requires IsRef(ns, a)
  {
    if a >= 2 && ns[a - 2].varIndex == x then (ns[a - 2].low, ns[a - 2].high) else (a, a)
  }

  lemma CofactorSplits(ns: seq<Node>, a: nat, x: nat)
    requires WellFormed(ns) && IsRef(ns, a) && AtLevel(ns, a, x)
    ensures var (low, high) := Cofactor(ns, a, x);
            && IsChoice(ns, x, low, high, a)
            && low <= a && high <= a && (!AtLevel(ns, a, x + 1) ==> low < a && high < a)
            && AtLevel(ns, low, x + 1) && AtLevel(ns, high, x + 1)
  {
    if a >= 2 { assert NodeOk(ns, a - 2); }
  }

  /** Shannon expansion: choosing between the gates of the cofactors is the gate. */
  lemma ShannonGate(ns: seq<Node>, isAnd: bool, a: nat, b: nat, x: nat, low: nat, high: nat, r: nat)
    requires WellFormed(ns) && IsRef(ns, a) && IsRef(ns, b)
    requires AtLevel(ns, a, x) && AtLevel(ns, b, x) && IsChoice(ns, x, low, high, r)
    requires !(AtLevel(ns, a, x + 1) && AtLevel(ns, b, x + 1))
    requires IsGate(ns, isAnd, Cofactor(ns, a, x).0, Cofactor(ns, b, x).0, low)
    requires IsGate(ns, isAnd, Cofactor(ns, a, x).1, Cofactor(ns, b, x).1, high)
    ensures IsGate(ns, isAnd, a, b, r)
  {
    var (aLow, aHigh) := Cofactor(ns, a, x);
    var (bLow, bHigh) := Cofactor(ns, b, x);
    CofactorSplits(ns, a, x);
    CofactorSplits(ns, b, x);
    forall v: Valuation
      ensures GateAt(ns, isAnd, a, b, r, v)
    {
      assert ChoiceAt(ns, x, aLow, aHigh, a, v) && ChoiceAt(ns, x, bLow, bHigh, b, v);
      assert ChoiceAt(ns, x, low, high, r, v);
      assert GateAt(ns, isAnd, aLow, bLow, low, v) && GateAt(ns, isAnd, aHigh, bHigh, high, v);
    }
  }

  lemma ShannonNegation(ns: seq<Node>, a: nat, low: nat, high: nat, r: nat)
    requires WellFormed(ns) && IsRef(ns, a) && a >= 2
    requires IsChoice(ns, ns[a - 2].varIndex, low, high, r)
    requires IsNegation(ns, ns[a - 2].low, low) && IsNegation(ns, ns[a - 2].high, high)
    ensures IsNegation(ns, a, r)
  {
    var n := ns[a - 2];
    CofactorSplits(ns, a, n.varIndex);
    forall v: Valuation
      ensures NegationAt(ns, a, r, v)
    {
      assert ChoiceAt(ns, n.varIndex, low, high, r, v) && ChoiceAt(ns, n.varIndex, n.low, n.high, a, v);
      assert NegationAt(ns, n.low, low, v) && NegationAt(ns, n.high, high, v);
    }
  }

  class BddBuilder {
    var nodes: seq<Node>
    var unique: map<Node, nat>
    var notMemo: map<nat, nat>
    var andMemo: map<(nat, nat), nat>
    var orMemo: map<(nat, nat), nat>
    var memoCap: nat
    var shrinkCount: nat
    const initialMemoCap: nat
    const rssBudgetKib: Option<nat>

    ghost predicate Valid()
      reads this
    {
      && WellFormed(nodes)
      && UniqueExact(nodes, unique)
      && NotMemoSound(nodes, notMemo)
      && GateMemoSound(nodes, true, andMemo)
      && GateMemoSound(nodes, false, orMemo)
      && 1 <= memoCap <= initialMemoCap
      && (shrinkCount > 0 <==> memoCap < initialMemoCap)
    }

    constructor (cap: nat, budget: Option<nat>)
      ensures Valid() && nodes == []
      ensures memoCap == initialMemoCap == Max(cap, 1) && rssBudgetKib == budget
    {
      nodes, unique := [], map[];
      notMemo, andMemo, orMemo := map[], map[], map[];
      memoCap, initialMemoCap, shrinkCount := Max(cap, 1), Max(cap, 1), 0;
      rssBudgetKib := budget;
    }

    /** Drops every memo; with a budget and a sample over 85% of it, halves the cap. */
    method ClearMemos(sampledRssKib: Option<nat>)
      requires Valid()
      modifies this
      ensures Valid() && nodes == old(nodes) && unique == old(unique)
      ensures notMemo == map[] && andMemo == map[] && orMemo == map[]
      ensures memoCap <= old(memoCap) && (old(memoCap) >= MEMO_CAP_FLOOR ==> memoCap >= MEMO_CAP_FLOOR)
      ensures rssBudgetKib.None? ==> memoCap == old(memoCap)
    {
      notMemo, andMemo, orMemo := map[], map[], map[];
      if rssBudgetKib.Some? && memoCap > MEMO_CAP_FLOOR && sampledRssKib.Some? {
        var scaled := rssBudgetKib.value * 85;
        var trigger := (if scaled > U64_MAX then U64_MAX else scaled) / 100;
        if sampledRssKib.value > trigger {
          memoCap := Max(memoCap / 2, MEMO_CAP_FLOOR);
          shrinkCount := if shrinkCount == U32_MAX then U32_MAX else shrinkCount + 1;
        }
      }
    }

    method MkNode(varIndex: nat, low: nat, high: nat) returns (r: nat)
      requires Valid()
      requires IsRef(nodes, low) && IsRef(nodes, high)
      requires AtLevel(nodes, low, varIndex + 1) && AtLevel(nodes, high, varIndex + 1)
      modifies this`nodes, this`unique
      ensures Valid() && old(nodes) <= nodes
      ensures IsChoice(nodes, varIndex, low, high, r)
    {
      if low == high {
        return low;
      }
      var key := Node(varIndex, low, high);
      if key in unique {
        NodeIsChoice(nodes, unique[key]);
        return unique[key];
      }
      r := |nodes| + 2;
      AppendKeepsWellFormed(nodes, key);
      MemosOfExtension(nodes, nodes + [key], notMemo, andMemo, orMemo);
      unique := unique[key := r];
      nodes := nodes + [key];
      NodeIsChoice(nodes, r);
    }

    method Var(varIndex: nat) returns (r: nat)
      requires Valid()
      modifies this`nodes, this`unique
      ensures Valid() && old(nodes) <= nodes && IsRef(nodes, r)
      ensures forall v: Valuation :: Sat(nodes, r, v) <==> varIndex in v
    {
      r := MkNode(varIndex, FALSE_REF, TRUE_REF);
      forall v: Valuation
        ensures Sat(nodes, r, v) <==> varIndex in v
      {
        assert ChoiceAt(nodes, varIndex, FALSE_REF, TRUE_REF, r, v);
      }
    }

    method Not(a: nat) returns (r: nat)
      requires Valid() && IsRef(nodes, a)
      modifies this
      ensures Valid() && old(nodes) <= nodes && IsNegation(nodes, a, r)
      decreases a, 1
    {
      if a < 2 {
        return 1 - a;
      }
      if a in notMemo {
        return notMemo[a];
      }
      r := NotNode(a);
      if |notMemo| >= memoCap {
        notMemo := map[];
      }
      notMemo := notMemo[a := r];
    }

    method NotNode(a: nat) returns (r: nat)
      requires Valid() && IsRef(nodes, a) && a >= 2
      modifies this
      ensures Valid() && old(nodes) <= nodes && IsNegation(nodes, a, r)
      decreases a, 0
    {
      assert NodeOk(nodes, a - 2);
      var n := nodes[a - 2];
      var low := Not(n.low);
      ghost var first := nodes;
      var high := Not(n.high);
      NegationOfExtension(first, nodes, n.low, low);
      r := JoinNegations(a, low, high);
    }

    method JoinNegations(a: nat, low: nat, high: nat) returns (r: nat)
      requires Valid() && IsRef(nodes, a) && a >= 2
      requires IsNegation(nodes, nodes[a - 2].low, low) && IsNegation(nodes, nodes[a - 2].high, high)
      modifies this`nodes, this`unique
      ensures Valid() && old(nodes) <= nodes && IsNegation(nodes, a, r)
    {
      assert NodeOk(nodes, a - 2);
      var n := nodes[a - 2];
      ghost var was := nodes;
      r := MkNode(n.varIndex, low, high);
      NegationOfExtension(was, nodes, n.low, low);
      NegationOfExtension(was, nodes, n.high, high);
      ShannonNegation(nodes, a, low, high, r);
    }

    method And(a0: nat, b0: nat) returns (r: nat)
      requires Valid() && IsRef(nodes, a0) && IsRef(nodes, b0)
      modifies this
      ensures Valid() && old(nodes) <= nodes && IsGate(nodes, true, a0, b0, r)
      decreases a0 + b0, 2
    {
      var (a, b) := if a0 <= b0 then (a0, b0) else (b0, a0);
      if (a, b) in andMemo {
        r := andMemo[(a, b)];
        GateSwap(nodes, true, a, b, r);
        return;
      }
      r := Apply(a, b, true);
      GateSwap(nodes, true, a, b, r);
      if |andMemo| >= memoCap {
        andMemo := map[];
      }
      andMemo := andMemo[(a, b) := r];
    }

    method Or(a0: nat, b0: nat) returns (r: nat)
      requires Valid() && IsRef(nodes, a0) && IsRef(nodes, b0)
      modifies this
      ensures Valid() && old(nodes) <= nodes && IsGate(nodes, false, a0, b0, r)
      decreases a0 + b0, 2
    {
      var (a, b) := if a0 <= b0 then (a0, b0) else (b0, a0);
      if (a, b) in orMemo {
        r := orMemo[(a, b)];
        GateSwap(nodes, false, a, b, r);
        return;
      }
      r := Apply(a, b, false);
      GateSwap(nodes, false, a, b, r);
      if |orMemo| >= memoCap {
        orMemo := map[];
      }
      orMemo := orMemo[(a, b) := r];
    }

    method Combine(a: nat, b: nat, isAnd: bool) returns (r: nat)
      requires Valid() && IsRef(nodes, a) && IsRef(nodes, b)
      modifies this
      ensures Valid() && old(nodes) <= nodes && IsGate(nodes, isAnd, a, b, r)
      decreases a + b, 3
    {
      if isAnd {
        r := And(a, b);
      } else {
        r := Or(a, b);
      }
    }

    method Apply(a: nat, b: nat, isAnd: bool) returns (r: nat)
      requires Valid() && IsRef(nodes, a) && IsRef(nodes, b)
      modifies this
      ensures Valid() && old(nodes) <= nodes && IsGate(nodes, isAnd, a, b, r)
      decreases a + b, 1
    {
      if a < 2 && b < 2 {
        TerminalGate(nodes, isAnd, a, b);
        return if Gate(isAnd, a == TRUE_REF, b == TRUE_REF) then TRUE_REF else FALSE_REF;
      }
      var top := if a < 2 then nodes[b - 2].varIndex
                 else if b < 2 || nodes[a - 2].varIndex < nodes[b - 2].varIndex then nodes[a - 2].varIndex
                 else nodes[b - 2].varIndex;
      r := ApplyAt(a, b, top, isAnd);
    }

    method ApplyAt(a: nat, b: nat, top: nat, isAnd: bool) returns (r: nat)
      requires Valid() && IsRef(nodes, a) && IsRef(nodes, b)
      requires AtLevel(nodes, a, top) && AtLevel(nodes, b, top)
      requires !(AtLevel(nodes, a, top + 1) && AtLevel(nodes, b, top + 1))
      modifies this
      ensures Valid() && old(nodes) <= nodes && IsGate(nodes, isAnd, a, b, r)
      decreases a + b, 0
    {
      var (aLow, aHigh) := Cofactor(nodes, a, top);
      var (bLow, bHigh) := Cofactor(nodes, b, top);
      CofactorSplits(nodes, a, top);
      CofactorSplits(nodes, b, top);
      var low := Combine(aLow, bLow, isAnd);
      label L:
      var high := Combine(aHigh, bHigh, isAnd);
      GateOfExtension(old@L(nodes), nodes, isAnd, aLow, bLow, low);
      GateLevel(old(nodes), nodes, isAnd, aLow, bLow, low, top + 1);
      GateLevel(old(nodes), nodes, isAnd, aHigh, bHigh, high, top + 1);
      label M:
      r := MkNode(top, low, high);
      GateOfExtension(old@M(nodes), nodes, isAnd, aLow, bLow, low);
      GateOfExtension(old@M(nodes), nodes, isAnd, aHigh, bHigh, high);
      assert Cofactor(nodes, a, top) == (aLow, aHigh) && Cofactor(nodes, b, top) == (bLow, bHigh);
      ShannonGate(nodes, isAnd, a, b, top, low, high, r);
    }
  }
}
