/** The node order of `ccm.bdd.bin` (compiler/src/ccm_emitter/bdd.rs, `ordered_nodes`
    and `serialize`): the file is a canonical form of the root's function. */
module BddFile {
  import opened Bdd
  import Sorting

  /** The non-terminal references a root reads. */
  ghost function Reach(ns: seq<Node>, r: nat): (s: set<nat>)
    requires WellFormed(ns) && IsRef(ns, r)
    ensures forall q | q in s :: 2 <= q <= r
    decreases r
  {
    if r < 2 then {}
    else
      assert NodeOk(ns, r - 2);
      {r} + Reach(ns, ns[r - 2].low) + Reach(ns, ns[r - 2].high)
  }

  /** File order: deeper variables first, then by the children's own positions. */
  predicate Before(x: Node, y: Node) {
    || x.varIndex > y.varIndex
    || (x.varIndex == y.varIndex && (x.low < y.low || (x.low == y.low && x.high < y.high)))
  }

  /** What a serialized node table is: reduced, in file order, and all of it used. */
  ghost predicate FileForm(ns: seq<Node>, root: nat) {
    && WellFormed(ns) && IsRef(ns, root)
    && (forall i, j | 0 <= i < j < |ns| :: Before(ns[i], ns[j]))
    && (forall r | 2 <= r < |ns| + 2 :: r in Reach(ns, root))
  }

  /** A function read below one root is read below every root of the same function. */
  lemma {:induction false} SharedBelow(ns: seq<Node>, a: nat, ms: seq<Node>, b: nat, r: nat) returns (s: nat)
    requires WellFormed(ns) && IsRef(ns, a) && WellFormed(ms) && IsRef(ms, b)
    requires Same(ns, a, ms, b) && r in Reach(ns, a)
    ensures IsRef(ms, s) && s in Reach(ms, b) && Same(ns, r, ms, s)
    decreases a
  {
    SameShape(ns, a, ms, b);
    var n, m := ns[a - 2], ms[b - 2];
    if r == a {
      s := b;
    } else if r in Reach(ns, n.low) {
      s := SharedBelow(ns, n.low, ms, m.low, r);
    } else {
      s := SharedBelow(ns, n.high, ms, m.high, r);
    }
  }

  lemma PrefixSat(ns: seq<Node>, ms: seq<Node>, k: nat, r: nat)
    requires WellFormed(ns) && WellFormed(ms)
    requires k <= |ns| && k <= |ms| && ns[..k] == ms[..k] && r < k + 2
    ensures Same(ns, r, ms, r)
  {
    var ps := ns[..k];
    forall i | 0 <= i < |ps| ensures NodeOk(ps, i) { assert NodeOk(ns, i); }
    forall v: Valuation ensures Sat(ns, r, v) == Sat(ms, r, v) {
      SatOfExtension(ps, ns, r, v);
      SatOfExtension(ps, ms, r, v);
    }
  }

  lemma NextNodeShared(ns: seq<Node>, a: nat, ms: seq<Node>, b: nat, k: nat) returns (j: nat)
    requires FileForm(ns, a) && FileForm(ms, b) && Same(ns, a, ms, b)
    requires k < |ns| && k <= |ms| && ns[..k] == ms[..k]
    ensures k <= j < |ms| && ms[j] == ns[k]
  {
    var s := SharedBelow(ns, a, ms, b, k + 2);
    SameShape(ns, k + 2, ms, s);
    j := s - 2;
    if j < k {
      PrefixSat(ns, ms, k, s);
      Canonical(ns, k + 2, s);
    }
    var n, m := ns[k], ms[j];
    assert NodeOk(ns, k);
    PrefixSat(ns, ms, k, n.low);
    PrefixSat(ns, ms, k, n.high);
    Canonical(ms, n.low, m.low);
    Canonical(ms, n.high, m.high);
  }

  lemma {:induction false} SharedPrefix(ns: seq<Node>, a: nat, ms: seq<Node>, b: nat, k: nat)
    requires FileForm(ns, a) && FileForm(ms, b) && Same(ns, a, ms, b) && k <= |ns|
    ensures k <= |ms| && ns[..k] == ms[..k]
  {
    if k > 0 {
      SharedPrefix(ns, a, ms, b, k - 1);
      var j := NextNodeShared(ns, a, ms, b, k - 1);
      assert Same(ms, b, ns, a);
      var i := NextNodeShared(ms, b, ns, a, k - 1);
      assert ns[k - 1] == ms[k - 1];
      assert ns[..k] == ns[..k - 1] + [ns[k - 1]] && ms[..k] == ms[..k - 1] + [ms[k - 1]];
    }
  }

  /** Two serialized tables of one function are the same table with the same root. */
  lemma FileIsCanonical(ns: seq<Node>, a: nat, ms: seq<Node>, b: nat)
    requires FileForm(ns, a) && FileForm(ms, b) && Same(ns, a, ms, b)
    ensures ns == ms && a == b
  {
    assert Same(ms, b, ns, a);
    SharedPrefix(ns, a, ms, b, |ns|);
    SharedPrefix(ms, b, ns, a, |ms|);
    assert ns == ms;
    Canonical(ns, a, b);
  }

  // ----- producing the table -----

  /** `id` is recorded under its own variable. */
  predicate Recorded(ns: seq<Node>, levels: map<nat, seq<nat>>, id: nat) {
    2 <= id < |ns| + 2 && ns[id - 2].varIndex in levels && id in levels[ns[id - 2].varIndex]
  }

  ghost function Ids(ns: seq<Node>, levels: map<nat, seq<nat>>): set<nat> {
    set id | 2 <= id < |ns| + 2 && Recorded(ns, levels, id)
  }

  /** Levels hold distinct nodes of their variable. */
  predicate LevelAt(ns: seq<Node>, x: nat, ids: seq<nat>) {
    Sorting.NoRepeats(ids) && forall id | id in ids :: 2 <= id < |ns| + 2 && ns[id - 2].varIndex == x
  }

  predicate Levelled(ns: seq<Node>, levels: map<nat, seq<nat>>) {
    forall x | x in levels :: LevelAt(ns, x, levels[x])
  }

  /** With a node they hold all it reads. */
  ghost predicate ReachClosed(ns: seq<Node>, levels: map<nat, seq<nat>>)
    requires WellFormed(ns)
  {
    forall id | id in Ids(ns, levels) :: Reach(ns, id) <= Ids(ns, levels)
  }

  ghost predicate LevelsOk(ns: seq<Node>, levels: map<nat, seq<nat>>)
    requires WellFormed(ns)
  {
    Levelled(ns, levels) && ReachClosed(ns, levels)
  }

  function Record(levels: map<nat, seq<nat>>, x: nat, id: nat): map<nat, seq<nat>> {
    levels[x := (if x in levels then levels[x] else []) + [id]]
  }

  lemma RecordedIds(ns: seq<Node>, levels: map<nat, seq<nat>>, id: nat)
    requires 2 <= id < |ns| + 2
    ensures Ids(ns, Record(levels, ns[id - 2].varIndex, id)) == Ids(ns, levels) + {id}
  {
  }

  lemma RecordedReach(ns: seq<Node>, levels: map<nat, seq<nat>>, id: nat)
    requires WellFormed(ns) && 2 <= id < |ns| + 2 && ReachClosed(ns, levels)
    requires Reach(ns, id) <= Ids(ns, levels) + {id}
    ensures ReachClosed(ns, Record(levels, ns[id - 2].varIndex, id))
  {
    RecordedIds(ns, levels, id);
  }

  lemma RecordLevelled(ns: seq<Node>, levels: map<nat, seq<nat>>, id: nat)
    requires 2 <= id < |ns| + 2 && Levelled(ns, levels) && !Recorded(ns, levels, id)
    ensures Levelled(ns, Record(levels, ns[id - 2].varIndex, id))
  {
    var x := ns[id - 2].varIndex;
    var ids := if x in levels then levels[x] else [];
    assert LevelAt(ns, x, ids) && id !in ids;
    assert LevelAt(ns, x, ids + [id]);
  }

  lemma RecordKeepsLevels(ns: seq<Node>, levels: map<nat, seq<nat>>, id: nat)
    requires WellFormed(ns) && 2 <= id < |ns| + 2 && LevelsOk(ns, levels)
    requires id !in Ids(ns, levels) && Reach(ns, id) <= Ids(ns, levels) + {id}
    ensures LevelsOk(ns, Record(levels, ns[id - 2].varIndex, id))
  {
    RecordedReach(ns, levels, id);
    RecordLevelled(ns, levels, id);
  }

  method CollectReachable(ns: seq<Node>, node: nat, levels: map<nat, seq<nat>>) returns (out: map<nat, seq<nat>>)
    requires WellFormed(ns) && IsRef(ns, node) && LevelsOk(ns, levels)
    ensures LevelsOk(ns, out)
    ensures Ids(ns, out) == Ids(ns, levels) + Reach(ns, node)
    decreases node
  {
    out := levels;
    if node < 2 {
      return;
    }
    assert NodeOk(ns, node - 2);
    var n := ns[node - 2];
    if n.varIndex in out && node in out[n.varIndex] {
      assert node in Ids(ns, levels);
      return;
    }
    out := CollectReachable(ns, n.low, out);
    out := CollectReachable(ns, n.high, out);
    RecordKeepsLevels(ns, out, node);
    RecordedIds(ns, out, node);
    out := Record(out, n.varIndex, node);
  }

  predicate Mapped(remap: map<nat, nat>, r: nat) {
    r < 2 || r in remap
  }

  function ChildId(remap: map<nat, nat>, r: nat): nat
    requires Mapped(remap, r)
  {
    if r < 2 then r else remap[r]
  }

  /** Both children have been given a position: what the source `expect`s. */
  predicate ChildrenMapped(ns: seq<Node>, remap: map<nat, nat>, id: nat) {
    2 <= id < |ns| + 2 && Mapped(remap, ns[id - 2].low) && Mapped(remap, ns[id - 2].high)
  }

  function NodeFor(ns: seq<Node>, remap: map<nat, nat>, id: nat): Node
    requires ChildrenMapped(ns, remap, id)
  {
    var n := ns[id - 2];
    Node(n.varIndex, ChildId(remap, n.low), ChildId(remap, n.high))
  }

  /** The sort key of a node within its level. */
  predicate KeyLe(ns: seq<Node>, remap: map<nat, nat>, p: nat, q: nat) {
    !ChildrenMapped(ns, remap, p) || (ChildrenMapped(ns, remap, q) &&
      var x, y := NodeFor(ns, remap, p), NodeFor(ns, remap, q);
      x.low < y.low || (x.low == y.low && x.high <= y.high))
  }

  /** `order[k]` is the node written at position `k`, with its children's positions. */
  ghost predicate Placed(ns: seq<Node>, arr: seq<Node>, remap: map<nat, nat>, order: seq<nat>) {
    && |order| == |arr|
    && (forall k | 0 <= k < |order| :: PlacedAt(ns, arr, remap, order[k], k))
    && (forall id | id in remap :: 2 <= remap[id] < |arr| + 2 && order[remap[id] - 2] == id)
  }

  ghost predicate PlacedAt(ns: seq<Node>, arr: seq<Node>, remap: map<nat, nat>, id: nat, k: nat)
    requires k < |arr|
  {
    && id in remap && remap[id] == k + 2
    && ChildrenMapped(ns, remap, id) && arr[k] == NodeFor(ns, remap, id)
    && arr[k].low < k + 2 && arr[k].high < k + 2
  }

  ghost predicate InOrder(arr: seq<Node>) {
    forall i, j | 0 <= i < j < |arr| :: Before(arr[i], arr[j])
  }

  /** Distinct children get distinct positions. */
  lemma ChildIdInjective(ns: seq<Node>, arr: seq<Node>, remap: map<nat, nat>, order: seq<nat>, p: nat, q: nat)
    requires Placed(ns, arr, remap, order) && Mapped(remap, p) && Mapped(remap, q)
    ensures p != q ==> ChildId(remap, p) != ChildId(remap, q)
  {
  }

  lemma PlacedChildLevel(ns: seq<Node>, arr: seq<Node>, remap: map<nat, nat>, order: seq<nat>, r: nat, x: nat)
    requires Placed(ns, arr, remap, order) && Mapped(remap, r) && IsRef(ns, r) && AtLevel(ns, r, x)
    ensures IsRef(arr, ChildId(remap, r)) && AtLevel(arr, ChildId(remap, r), x)
  {
    if r >= 2 { assert PlacedAt(ns, arr, remap, r, remap[r] - 2); }
  }

  lemma PlacedWellFormed(ns: seq<Node>, arr: seq<Node>, remap: map<nat, nat>, order: seq<nat>)
    requires WellFormed(ns) && Placed(ns, arr, remap, order) && InOrder(arr)
    ensures WellFormed(arr)
  {
    forall k | 0 <= k < |arr|
      ensures NodeOk(arr, k)
    {
      assert PlacedAt(ns, arr, remap, order[k], k);
      var n := ns[order[k] - 2];
      assert NodeOk(ns, order[k] - 2);
      ChildIdInjective(ns, arr, remap, order, n.low, n.high);
      PlacedChildLevel(ns, arr, remap, order, n.low, n.varIndex + 1);
      PlacedChildLevel(ns, arr, remap, order, n.high, n.varIndex + 1);
    }
  }

  lemma {:induction false} PlacedSat(ns: seq<Node>, arr: seq<Node>, remap: map<nat, nat>, order: seq<nat>, r: nat,
                                     v: Valuation)
    requires WellFormed(ns) && WellFormed(arr) && Placed(ns, arr, remap, order) && IsRef(ns, r) && Mapped(remap, r)
    ensures IsRef(arr, ChildId(remap, r)) && Sat(arr, ChildId(remap, r), v) == Sat(ns, r, v)
    decreases r
  {
    if r >= 2 {
      assert PlacedAt(ns, arr, remap, r, remap[r] - 2);
      assert NodeOk(ns, r - 2);
      PlacedSat(ns, arr, remap, order, if ns[r - 2].varIndex in v then ns[r - 2].high else ns[r - 2].low, v);
    }
  }

  lemma {:induction false} PlacedReach(ns: seq<Node>, arr: seq<Node>, remap: map<nat, nat>, order: seq<nat>, r: nat,
                                       id: nat)
    requires WellFormed(ns) && WellFormed(arr) && Placed(ns, arr, remap, order) && IsRef(ns, r) && Mapped(remap, r)
    requires id in Reach(ns, r)
    ensures IsRef(arr, ChildId(remap, r)) && id in remap && remap[id] in Reach(arr, ChildId(remap, r))
    decreases r
  {
    assert PlacedAt(ns, arr, remap, r, remap[r] - 2);
    assert NodeOk(ns, r - 2);
    var n := ns[r - 2];
    if id != r {
      if id in Reach(ns, n.low) {
        PlacedReach(ns, arr, remap, order, n.low, id);
      } else {
        PlacedReach(ns, arr, remap, order, n.high, id);
      }
    }
  }

  lemma PlacedIsSame(ns: seq<Node>, arr: seq<Node>, remap: map<nat, nat>, order: seq<nat>, root: nat)
    requires WellFormed(ns) && 2 <= root < |ns| + 2 && WellFormed(arr) && Placed(ns, arr, remap, order) && root in remap
    ensures IsRef(arr, remap[root]) && Same(ns, root, arr, remap[root])
  {
    PlacedSat(ns, arr, remap, order, root, {});
    forall v: Valuation ensures Sat(ns, root, v) == Sat(arr, remap[root], v) {
      PlacedSat(ns, arr, remap, order, root, v);
    }
  }

  lemma PlacedPosition(ns: seq<Node>, arr: seq<Node>, remap: map<nat, nat>, order: seq<nat>, r: nat) returns (id: nat)
    requires Placed(ns, arr, remap, order) && 2 <= r < |arr| + 2
    ensures id in remap && remap[id] == r
  {
    id := order[r - 2];
    assert PlacedAt(ns, arr, remap, id, r - 2);
  }

  lemma PlacedIsFile(ns: seq<Node>, arr: seq<Node>, remap: map<nat, nat>, order: seq<nat>, root: nat)
    requires WellFormed(ns) && 2 <= root < |ns| + 2
    requires Placed(ns, arr, remap, order) && InOrder(arr) && remap.Keys == Reach(ns, root)
    ensures FileForm(arr, remap[root]) && Same(ns, root, arr, remap[root])
  {
    PlacedWellFormed(ns, arr, remap, order);
    PlacedIsSame(ns, arr, remap, order, root);
    forall r | 2 <= r < |arr| + 2 ensures r in Reach(arr, remap[root]) {
      var id := PlacedPosition(ns, arr, remap, order, r);
      PlacedReach(ns, arr, remap, order, root, id);
    }
  }

  lemma KeyLeTotal(ns: seq<Node>, remap: map<nat, nat>)
    ensures Sorting.TotalPreorder((p: nat, q: nat) => KeyLe(ns, remap, p, q))
  {
  }

  lemma PlaceNode(ns: seq<Node>, arr: seq<Node>, remap: map<nat, nat>, order: seq<nat>, id: nat)
    requires Placed(ns, arr, remap, order) && id !in remap && ChildrenMapped(ns, remap, id)
    ensures Placed(ns, arr + [NodeFor(ns, remap, id)], remap[id := |arr| + 2], order + [id])
  {
    var arr', remap', order' := arr + [NodeFor(ns, remap, id)], remap[id := |arr| + 2], order + [id];
    forall k | 0 <= k < |order'|
      ensures PlacedAt(ns, arr', remap', order'[k], k)
    {
      if k < |order| { assert PlacedAt(ns, arr, remap, order[k], k); }
    }
  }

  /** Two nodes of one level sort strictly: they differ in some child. */
  lemma LevelStrict(ns: seq<Node>, arr: seq<Node>, remap: map<nat, nat>, order: seq<nat>, p: nat, q: nat)
    requires WellFormed(ns) && Placed(ns, arr, remap, order)
    requires ChildrenMapped(ns, remap, p) && ChildrenMapped(ns, remap, q)
    requires p != q && ns[p - 2].varIndex == ns[q - 2].varIndex && KeyLe(ns, remap, p, q)
    ensures Before(NodeFor(ns, remap, p), NodeFor(ns, remap, q))
  {
    ChildIdInjective(ns, arr, remap, order, ns[p - 2].low, ns[q - 2].low);
    ChildIdInjective(ns, arr, remap, order, ns[p - 2].high, ns[q - 2].high);
    assert ns[p - 2] != ns[q - 2];
  }

  lemma SortLevel(ids: seq<nat>, ns: seq<Node>, remap: map<nat, nat>)
    requires Sorting.NoRepeats(ids)
    ensures var le := (p: nat, q: nat) => KeyLe(ns, remap, p, q);
            var sorted := Sorting.Sort(ids, le);
            && Sorting.NoRepeats(sorted) && Sorting.Sorted(sorted, le)
            && (forall id :: id in sorted <==> id in ids)
  {
    var le := (p: nat, q: nat) => KeyLe(ns, remap, p, q);
    KeyLeTotal(ns, remap);
    Sorting.SortSorts(ids, le);
    var sorted := Sorting.Sort(ids, le);
    Sorting.NoRepeatsCounts(ids);
    Sorting.NoRepeatsCounts(sorted);
    assert forall id :: id in sorted <==> id in multiset(sorted);
    assert forall id :: id in ids <==> id in multiset(ids);
  }

  /** The first `k` nodes of a level have been appended to the deeper levels. */
  ghost predicate LevelWritten(ns: seq<Node>, sorted: seq<nat>, k: nat, arr0: seq<Node>, remap0: map<nat, nat>,
                               arr: seq<Node>, remap: map<nat, nat>)
    requires k <= |sorted| && forall id | id in sorted :: ChildrenMapped(ns, remap0, id)
  {
    && |arr| == |arr0| + k && arr0 <= arr
    && (forall j | 0 <= j < k :: arr[|arr0| + j] == NodeFor(ns, remap0, sorted[j]))
    && (forall id | id in remap0 :: id in remap && remap[id] == remap0[id])
    && (forall id :: id in remap <==> id in remap0 || id in sorted[..k])
  }

  lemma WriteNext(ns: seq<Node>, sorted: seq<nat>, k: nat, arr0: seq<Node>, remap0: map<nat, nat>,
                  arr: seq<Node>, remap: map<nat, nat>)
    requires k < |sorted| && Sorting.NoRepeats(sorted)
    requires forall id | id in sorted :: ChildrenMapped(ns, remap0, id) && id !in remap0
    requires LevelWritten(ns, sorted, k, arr0, remap0, arr, remap)
    ensures ChildrenMapped(ns, remap, sorted[k]) && sorted[k] !in remap
    ensures NodeFor(ns, remap, sorted[k]) == NodeFor(ns, remap0, sorted[k])
    ensures LevelWritten(ns, sorted, k + 1, arr0, remap0,
                         arr + [NodeFor(ns, remap, sorted[k])], remap[sorted[k] := |arr| + 2])
  {
    assert sorted[..k + 1] == sorted[..k] + [sorted[k]];
  }

  lemma NextInOrder(ns: seq<Node>, sorted: seq<nat>, k: nat, arr0: seq<Node>, remap0: map<nat, nat>, order0: seq<nat>,
                    arr: seq<Node>, remap: map<nat, nat>, x: nat)
    requires WellFormed(ns) && Placed(ns, arr0, remap0, order0) && k < |sorted| && Sorting.NoRepeats(sorted)
    requires Sorting.Sorted(sorted, (p: nat, q: nat) => KeyLe(ns, remap0, p, q))
    requires forall id | id in sorted :: ChildrenMapped(ns, remap0, id) && id !in remap0 && ns[id - 2].varIndex == x
    requires forall n | n in arr0 :: n.varIndex > x
    requires LevelWritten(ns, sorted, k, arr0, remap0, arr, remap) && InOrder(arr)
    ensures InOrder(arr + [NodeFor(ns, remap0, sorted[k])])
  {
    var id := sorted[k];
    forall i | 0 <= i < |arr|
      ensures Before(arr[i], NodeFor(ns, remap0, id))
    {
      if i < |arr0| {
        assert arr[i] in arr0;
      } else {
        LevelStrict(ns, arr0, remap0, order0, sorted[i - |arr0|], id);
      }
    }
  }

  lemma LevelVariables(ns: seq<Node>, sorted: seq<nat>, arr0: seq<Node>, remap0: map<nat, nat>,
                       arr: seq<Node>, remap: map<nat, nat>, x: nat)
    requires forall id | id in sorted :: ChildrenMapped(ns, remap0, id) && ns[id - 2].varIndex == x
    requires forall n | n in arr0 :: n.varIndex > x
    requires LevelWritten(ns, sorted, |sorted|, arr0, remap0, arr, remap)
    ensures forall n | n in arr :: n.varIndex >= x
    ensures forall id :: id in remap <==> id in remap0 || id in sorted
  {
    assert sorted[..|sorted|] == sorted;
    forall i | 0 <= i < |arr|
      ensures arr[i].varIndex >= x
    {
      if i < |arr0| {
        assert arr[i] in arr0;
      } else {
        var j := i - |arr0|;
        assert arr[|arr0| + j] == NodeFor(ns, remap0, sorted[j]) && sorted[j] in sorted;
      }
    }
  }

  /** Writes one level: its nodes in child-position order, after every deeper level. */
  method PlaceLevel(ns: seq<Node>, ids: seq<nat>, ghost x: nat, arr0: seq<Node>, remap0: map<nat, nat>,
                    ghost order0: seq<nat>)
    returns (arr: seq<Node>, remap: map<nat, nat>, ghost order: seq<nat>)
    requires WellFormed(ns) && Placed(ns, arr0, remap0, order0) && InOrder(arr0) && Sorting.NoRepeats(ids)
    requires forall id | id in ids :: ChildrenMapped(ns, remap0, id) && id !in remap0 && ns[id - 2].varIndex == x
    requires forall n | n in arr0 :: n.varIndex > x
    ensures Placed(ns, arr, remap, order) && InOrder(arr)
    ensures forall id :: id in remap <==> id in remap0 || id in ids
    ensures forall n | n in arr :: n.varIndex >= x
  {
    SortLevel(ids, ns, remap0);
    var sorted := Sorting.Sort(ids, (p: nat, q: nat) => KeyLe(ns, remap0, p, q));
    arr, remap, order := arr0, remap0, order0;
    for k := 0 to |sorted|
      invariant Placed(ns, arr, remap, order) && InOrder(arr)
      invariant LevelWritten(ns, sorted, k, arr0, remap0, arr, remap)
    {
      WriteNext(ns, sorted, k, arr0, remap0, arr, remap);
      NextInOrder(ns, sorted, k, arr0, remap0, order0, arr, remap, x);
      PlaceNode(ns, arr, remap, order, sorted[k]);
      arr, remap, order := arr + [NodeFor(ns, remap, sorted[k])], remap[sorted[k] := |arr| + 2], order + [sorted[k]];
    }
    LevelVariables(ns, sorted, arr0, remap0, arr, remap, x);
  }

  lemma GreatestExists(s: set<nat>)
    requires s != {}
    ensures exists x :: x in s && forall y | y in s :: y <= x
  {
    var x :| x in s;
    var rest := s - {x};
    if rest != {} {
      GreatestExists(rest);
      var m :| m in rest && forall y | y in rest :: y <= m;
      var top := Max(x, m);
      assert top in s && forall y | y in s :: y == x || y in rest;
    } else {
      assert s == {x};
    }
  }

  lemma AboveAll(s: set<nat>) returns (c: nat)
    ensures forall y | y in s :: y < c
  {
    c := 0;
    if s != {} {
      GreatestExists(s);
      var x :| x in s && forall y | y in s :: y <= x;
      c := x + 1;
    }
  }

  /** The children of a level are terminals or belong to deeper levels. */
  lemma ChildrenBelow(ns: seq<Node>, levels: map<nat, seq<nat>>, x: nat, remap: map<nat, nat>, rest: set<nat>)
    requires WellFormed(ns) && LevelsOk(ns, levels) && x in levels && x in rest && forall y | y in rest :: y <= x
    requires forall id :: id in remap <==> id in Ids(ns, levels) && ns[id - 2].varIndex !in rest
    ensures forall id | id in levels[x] :: ChildrenMapped(ns, remap, id) && id !in remap && ns[id - 2].varIndex == x
  {
    forall id | id in levels[x]
      ensures ChildrenMapped(ns, remap, id) && id !in remap
    {
      assert id in Ids(ns, levels);
      assert NodeOk(ns, id - 2);
      assert Reach(ns, id) <= Ids(ns, levels);
      var n := ns[id - 2];
      if n.low >= 2 { assert n.low in Reach(ns, n.low); }
      if n.high >= 2 { assert n.high in Reach(ns, n.high); }
    }
  }

  lemma LevelTaken(ns: seq<Node>, levels: map<nat, seq<nat>>, x: nat, remap: map<nat, nat>, remap': map<nat, nat>,
                   rest: set<nat>)
    requires WellFormed(ns) && LevelsOk(ns, levels) && x in levels && x in rest
    requires forall id :: id in remap <==> id in Ids(ns, levels) && ns[id - 2].varIndex !in rest
    requires forall id :: id in remap' <==> id in remap || id in levels[x]
    ensures forall id :: id in remap' <==> id in Ids(ns, levels) && ns[id - 2].varIndex !in rest - {x}
  {
    forall id
      ensures id in levels[x] <==> id in Ids(ns, levels) && ns[id - 2].varIndex == x
    {
      if id in levels[x] { assert Recorded(ns, levels, id); }
    }
  }

  /** The levels outside `rest` are written, and everything written is at `ceiling` or deeper. */
  ghost predicate WrittenDownTo(ns: seq<Node>, levels: map<nat, seq<nat>>, rest: set<nat>, ceiling: nat,
                                arr: seq<Node>, remap: map<nat, nat>, order: seq<nat>) {
    && rest <= levels.Keys && (forall y | y in rest :: y < ceiling)
    && Placed(ns, arr, remap, order) && InOrder(arr) && (forall n | n in arr :: n.varIndex >= ceiling)
    && (forall id :: id in remap <==> id in Ids(ns, levels) && ns[id - 2].varIndex !in rest)
  }

  method TakeLevel(ns: seq<Node>, levels: map<nat, seq<nat>>, rest: set<nat>, ghost ceiling: nat,
                   arr0: seq<Node>, remap0: map<nat, nat>, ghost order0: seq<nat>)
    returns (x: nat, arr: seq<Node>, remap: map<nat, nat>, ghost order: seq<nat>)
    requires WellFormed(ns) && LevelsOk(ns, levels) && rest != {}
    requires WrittenDownTo(ns, levels, rest, ceiling, arr0, remap0, order0)
    ensures x in rest && WrittenDownTo(ns, levels, rest - {x}, x, arr, remap, order)
  {
    GreatestExists(rest);
    x :| x in rest && forall y | y in rest :: y <= x;
    ChildrenBelow(ns, levels, x, remap0, rest);
    arr, remap, order := PlaceLevel(ns, levels[x], x, arr0, remap0, order0);
    LevelTaken(ns, levels, x, remap0, remap, rest);
  }

  method WriteLevels(ns: seq<Node>, levels: map<nat, seq<nat>>)
    returns (arr: seq<Node>, remap: map<nat, nat>, ghost order: seq<nat>)
    requires WellFormed(ns) && LevelsOk(ns, levels)
    ensures Placed(ns, arr, remap, order) && InOrder(arr) && remap.Keys == Ids(ns, levels)
  {
    arr, remap, order := [], map[], [];
    var rest := levels.Keys;
    ghost var ceiling := AboveAll(rest);
    while rest != {}
      invariant WrittenDownTo(ns, levels, rest, ceiling, arr, remap, order)
      decreases |rest|
    {
      var x;
      x, arr, remap, order := TakeLevel(ns, levels, rest, ceiling, arr, remap, order);
      rest, ceiling := rest - {x}, x;
    }
  }

  /** `ordered_nodes`: the reachable nodes, renumbered level by level from the deepest. */
  method OrderedNodes(ns: seq<Node>, root: nat) returns (arr: seq<Node>, rootId: nat)
    requires WellFormed(ns) && IsRef(ns, root)
    ensures FileForm(arr, rootId) && Same(ns, root, arr, rootId)
  {
    if root < 2 {
      return [], root;
    }
    var levels := CollectReachable(ns, root, map[]);
    assert Ids(ns, map[]) == {};
    var remap;
    ghost var order;
    arr, remap, order := WriteLevels(ns, levels);
    assert root in Reach(ns, root);
    PlacedIsFile(ns, arr, remap, order, root);
    rootId := remap[root];
  }

  // ----- the bytes -----

  const TERMINAL_VAR_INDEX: nat := 0xFFFF_FFFF
  const TERMINAL_FALSE: nat := 0xFFFF_FFFF
  const TERMINAL_TRUE: nat := 0xFFFF_FFFE
  const MAGIC: seq<nat> := [67, 67, 77, 66]
  const VERSION: nat := 1

  /** The low `k` bytes, least significant first. */
  function LittleEndian(n: nat, k: nat): (bytes: seq<nat>)
    ensures |bytes| == k
  {
    if k == 0 then [] else [n % 256] + LittleEndian(n / 256, k - 1)
  }

  function Le32(n: nat): (bytes: seq<nat>)
    ensures |bytes| == 4
  {
    LittleEndian(n, 4)
  }

  function Record16(n: Node): (bytes: seq<nat>)
    ensures |bytes| == 16
  {
    Le32(n.varIndex) + Le32(n.low) + Le32(n.high) + [0, 0, 0, 0]
  }

  function Body(arr: seq<Node>): (bytes: seq<nat>)
    ensures |bytes| == 16 * |arr|
  {
    if arr == [] then [] else Body(arr[..|arr| - 1]) + Record16(arr[|arr| - 1])
  }

  function RootCode(root: nat): nat {
    if root == FALSE_REF then TERMINAL_FALSE else if root == TRUE_REF then TERMINAL_TRUE else root
  }

  function Header(nodeCount: nat, root: nat, varCount: nat): (bytes: seq<nat>)
    ensures |bytes| == 24
  {
    MAGIC + [VERSION, 0, 0, 0] + Le32(varCount) + Le32(nodeCount) + Le32(1) + Le32(RootCode(root))
  }

  function Terminals(): (bytes: seq<nat>)
    ensures |bytes| == 32
  {
    Record16(Node(TERMINAL_VAR_INDEX, TERMINAL_FALSE, TERMINAL_FALSE))
    + Record16(Node(TERMINAL_VAR_INDEX, TERMINAL_TRUE, TERMINAL_TRUE))
  }

  function FileBytes(arr: seq<Node>, root: nat, varCount: nat): seq<nat> {
    Header(|arr| + 2, root, varCount) + Terminals() + Body(arr)
  }

  /** The bytes are the file of some table in file form with the function of `root`. */
  ghost predicate Serializes(bytes: seq<nat>, ns: seq<Node>, root: nat, varCount: nat)
    requires WellFormed(ns) && IsRef(ns, root)
  {
    exists arr: seq<Node>, id: nat :: FileForm(arr, id) && Same(ns, root, arr, id) &&
        bytes == FileBytes(arr, id, varCount)
  }

  method WriteTable(nodes: seq<Node>, id: nat, varCount: nat) returns (bytes: seq<nat>)
    ensures bytes == FileBytes(nodes, id, varCount)
  {
    var head := Header(|nodes| + 2, id, varCount) + Terminals();
    bytes := head;
    for i := 0 to |nodes|
      invariant bytes == head + Body(nodes[..i])
    {
      BodyStep(nodes, i);
      bytes := bytes + Record16(nodes[i]);
    }
    assert nodes[..|nodes|] == nodes;
  }

  method Serialize(ns: seq<Node>, root: nat, varCount: nat) returns (bytes: seq<nat>)
    requires WellFormed(ns) && IsRef(ns, root)
    ensures Serializes(bytes, ns, root, varCount)
    ensures IdsFit(bytes) && Fits32(varCount) && ReadsBelow(ns, root, varCount) ==>
              forall vars: set<nat> :: FileValue(bytes, vars) == Sat(ns, root, vars)
  {
    var nodes, id := OrderedNodes(ns, root);
    bytes := WriteTable(nodes, id, varCount);
    ReadsEverywhere(bytes, ns, root, varCount);
  }

  lemma ReadsEverywhere(bytes: seq<nat>, ns: seq<Node>, root: nat, varCount: nat)
    requires WellFormed(ns) && IsRef(ns, root) && Serializes(bytes, ns, root, varCount)
    ensures IdsFit(bytes) && Fits32(varCount) && ReadsBelow(ns, root, varCount) ==>
              forall vars: set<nat> :: FileValue(bytes, vars) == Sat(ns, root, vars)
  {
    if IdsFit(bytes) && Fits32(varCount) && ReadsBelow(ns, root, varCount) {
      forall vars: set<nat> ensures FileValue(bytes, vars) == Sat(ns, root, vars) {
        SerializedReads(bytes, ns, root, varCount, vars);
      }
    }
  }

  lemma BodyStep(nodes: seq<Node>, i: nat)
    requires i < |nodes|
    ensures Body(nodes[..i + 1]) == Body(nodes[..i]) + Record16(nodes[i])
  {
    assert nodes[..i + 1][..i] == nodes[..i];
  }

  predicate Fits32(n: nat) {
    n < 0x1_0000_0000
  }

  function Pow256(k: nat): nat {
    if k == 0 then 1 else 256 * Pow256(k - 1)
  }

  lemma {:induction false} LittleEndianInjective(m: nat, n: nat, k: nat)
    requires m < Pow256(k) && n < Pow256(k) && LittleEndian(m, k) == LittleEndian(n, k)
    ensures m == n
  {
    if k > 0 {
      assert LittleEndian(m, k)[0] == m % 256 && LittleEndian(n, k)[0] == n % 256;
      assert LittleEndian(m, k)[1..] == LittleEndian(m / 256, k - 1);
      assert LittleEndian(n, k)[1..] == LittleEndian(n / 256, k - 1);
      LittleEndianInjective(m / 256, n / 256, k - 1);
    }
  }

  lemma Le32Injective(m: nat, n: nat)
    requires Fits32(m) && Fits32(n) && Le32(m) == Le32(n)
    ensures m == n
  {
    assert Pow256(2) == 0x1_0000 && Pow256(4) == 256 * 256 * Pow256(2);
    LittleEndianInjective(m, n, 4);
  }

  lemma Record16Injective(x: Node, y: Node)
    requires Fits32(x.varIndex) && Fits32(x.low) && Fits32(x.high)
    requires Fits32(y.varIndex) && Fits32(y.low) && Fits32(y.high)
    requires Record16(x) == Record16(y)
    ensures x == y
  {
    assert Record16(x)[..4] == Le32(x.varIndex) && Record16(y)[..4] == Le32(y.varIndex);
    assert Record16(x)[4..8] == Le32(x.low) && Record16(y)[4..8] == Le32(y.low);
    assert Record16(x)[8..12] == Le32(x.high) && Record16(y)[8..12] == Le32(y.high);
    Le32Injective(x.varIndex, y.varIndex);
    Le32Injective(x.low, y.low);
    Le32Injective(x.high, y.high);
  }

  ghost predicate TableFits(arr: seq<Node>) {
    && |arr| + 2 < TERMINAL_TRUE
    && forall n | n in arr :: NodeFits(n)
  }

  lemma {:induction false} BodyInjective(xs: seq<Node>, ys: seq<Node>)
    requires |xs| == |ys| && Body(xs) == Body(ys)
    requires forall n | n in xs + ys :: Fits32(n.varIndex) && Fits32(n.low) && Fits32(n.high)
    ensures xs == ys
  {
    if xs != [] {
      var k := |xs| - 1;
      assert Body(xs)[..16 * k] == Body(xs[..k]) && Body(xs)[16 * k..] == Record16(xs[k]);
      assert Body(ys)[..16 * k] == Body(ys[..k]) && Body(ys)[16 * k..] == Record16(ys[k]);
      assert xs[k] in xs + ys && ys[k] in xs + ys;
      forall n | n in xs[..k] + ys[..k] ensures n in xs + ys { }
      Record16Injective(xs[k], ys[k]);
      BodyInjective(xs[..k], ys[..k]);
      assert xs == xs[..k] + [xs[k]] && ys == ys[..k] + [ys[k]];
    }
  }

  /** Where the parts of a file lie. */
  lemma FileParts(xs: seq<Node>, a: nat, varCount: nat)
    ensures |FileBytes(xs, a, varCount)| == 56 + 16 * |xs|
    ensures FileBytes(xs, a, varCount)[12..16] == Le32(|xs| + 2)
    ensures FileBytes(xs, a, varCount)[20..24] == Le32(RootCode(a))
    ensures FileBytes(xs, a, varCount)[56..] == Body(xs)
  {
    var head := Header(|xs| + 2, a, varCount);
    HeaderParts(|xs| + 2, a, varCount);
    assert FileBytes(xs, a, varCount) == head + (Terminals() + Body(xs));
    assert FileBytes(xs, a, varCount)[..24] == head;
    assert FileBytes(xs, a, varCount)[12..16] == head[12..16] && FileBytes(xs, a, varCount)[20..24] == head[20..24];
  }

  lemma HeaderParts(nodeCount: nat, root: nat, varCount: nat)
    ensures Header(nodeCount, root, varCount)[..8] == [67, 67, 77, 66, 1, 0, 0, 0]
    ensures Header(nodeCount, root, varCount)[8..12] == Le32(varCount)
    ensures Header(nodeCount, root, varCount)[12..16] == Le32(nodeCount)
    ensures Header(nodeCount, root, varCount)[16..20] == Le32(1)
    ensures Header(nodeCount, root, varCount)[20..24] == Le32(RootCode(root))
  {
    var a, b, c := MAGIC + [VERSION, 0, 0, 0], Le32(varCount) + Le32(nodeCount), Le32(1) + Le32(RootCode(root));
    assert Header(nodeCount, root, varCount) == a + b + c;
    assert b[..4] == Le32(varCount) && b[4..] == Le32(nodeCount);
    assert c[..4] == Le32(1) && c[4..] == Le32(RootCode(root));
  }

  /** Equal files are equal tables with equal roots. */
  lemma FileBytesInjective(xs: seq<Node>, a: nat, ys: seq<Node>, b: nat, varCount: nat)
    requires TableFits(xs) && TableFits(ys) && IsRef(xs, a) && IsRef(ys, b)
    requires FileBytes(xs, a, varCount) == FileBytes(ys, b, varCount)
    ensures xs == ys && a == b
  {
    FileParts(xs, a, varCount);
    FileParts(ys, b, varCount);
    Le32Injective(|xs| + 2, |ys| + 2);
    Le32Injective(RootCode(a), RootCode(b));
    BodyInjective(xs, ys);
  }

  /** `ccm.bdd.bin` is a canonical form: two roots, of any two builders, serialize
      to the same bytes exactly when they are the same Boolean function. */
  lemma BytesDecideTheFunction(ns: seq<Node>, a: nat, ms: seq<Node>, b: nat,
                               xs: seq<Node>, x: nat, ys: seq<Node>, y: nat, varCount: nat)
    requires WellFormed(ns) && IsRef(ns, a) && WellFormed(ms) && IsRef(ms, b)
    requires FileForm(xs, x) && Same(ns, a, xs, x) && FileForm(ys, y) && Same(ms, b, ys, y)
    requires TableFits(xs) && TableFits(ys)
    ensures FileBytes(xs, x, varCount) == FileBytes(ys, y, varCount) <==> Same(ns, a, ms, b)
  {
    if Same(ns, a, ms, b) {
      assert Same(xs, x, ys, y);
      FileIsCanonical(xs, x, ys, y);
    }
    if FileBytes(xs, x, varCount) == FileBytes(ys, y, varCount) {
      FileBytesInjective(xs, x, ys, y, varCount);
    }
  }

  // ----- reading the bytes -----

  /** The little-endian word at an offset. */
  function Word(bytes: seq<nat>, at: nat): nat
    requires at + 4 <= |bytes|
  {
    bytes[at] + 0x100 * bytes[at + 1] + 0x1_0000 * bytes[at + 2] + 0x100_0000 * bytes[at + 3]
  }

  predicate IsCode(id: nat) {
    id == 0xFFFF_FFFF || id == 0xFFFF_FFFE
  }

  /** What the bytes say of a node id: two codes for the constants, and otherwise a record of
      16 bytes from offset 24 that holds a variable and whom to follow when it is off or on. */
  function RawValue(bytes: seq<nat>, id: nat, vars: set<nat>): bool
    decreases if IsCode(id) then 0 else id + 1
  {
    if id == 0xFFFF_FFFF then false
    else if id == 0xFFFF_FFFE then true
    else if |bytes| < 40 + 16 * id then false
    else
      var next := Word(bytes, if Word(bytes, 24 + 16 * id) in vars then 32 + 16 * id else 28 + 16 * id);
      (IsCode(next) || next < id) && RawValue(bytes, next, vars)
  }

  /** The value of the file: that of the root its header names. */
  function FileValue(bytes: seq<nat>, vars: set<nat>): bool {
    |bytes| >= 24 && RawValue(bytes, Word(bytes, 20), vars)
  }

  /** Every id of a file this long is below the two codes. */
  predicate IdsFit(bytes: seq<nat>) {
    |bytes| < 24 + 16 * 0xFFFF_FFFE
  }

  lemma Le32Word(n: nat)
    requires Fits32(n)
    ensures Word(Le32(n), 0) == n
  {
    var a, b := n / 256, n / 256 / 256;
    var c := b / 256;
    assert Le32(n) == [n % 256] + LittleEndian(a, 3);
    assert LittleEndian(a, 3) == [a % 256] + LittleEndian(b, 2);
    assert LittleEndian(b, 2) == [b % 256] + LittleEndian(c, 1);
    assert LittleEndian(c, 1) == [c % 256] + LittleEndian(c / 256, 0);
    assert n == n % 256 + 256 * a && a == a % 256 + 256 * b && b == b % 256 + 256 * c;
    assert c < 256;
  }

  lemma WordOf(bytes: seq<nat>, at: nat, n: nat)
    requires Fits32(n) && at + 4 <= |bytes| && bytes[at..at + 4] == Le32(n)
    ensures Word(bytes, at) == n
  {
    Le32Word(n);
    var part := bytes[at..at + 4];
    assert part[0] == bytes[at] && part[1] == bytes[at + 1] && part[2] == bytes[at + 2] && part[3] == bytes[at + 3];
  }

  predicate NodeFits(n: Node) {
    Fits32(n.varIndex) && Fits32(n.low) && Fits32(n.high)
  }

  lemma SliceWithin(bytes: seq<nat>, at: nat, i: nat)
    requires at + 16 <= |bytes| && i + 4 <= 16
    ensures bytes[at..at + 16][i..i + 4] == bytes[at + i..at + i + 4]
  {
    var part := bytes[at..at + 16];
    assert forall k | 0 <= k < 16 :: part[k] == bytes[at + k];
    var x, y := part[i..i + 4], bytes[at + i..at + i + 4];
    assert x[0] == y[0] && x[1] == y[1] && x[2] == y[2] && x[3] == y[3];
  }

  /** The words of a record, wherever it lies. */
  lemma RecordWords(bytes: seq<nat>, at: nat, n: Node)
    requires NodeFits(n) && at + 16 <= |bytes| && bytes[at..at + 16] == Record16(n)
    ensures Word(bytes, at) == n.varIndex && Word(bytes, at + 4) == n.low && Word(bytes, at + 8) == n.high
    ensures bytes[at + 12] == bytes[at + 13] == bytes[at + 14] == bytes[at + 15] == 0
  {
    var part := bytes[at..at + 16];
    SliceWithin(bytes, at, 0);
    SliceWithin(bytes, at, 4);
    SliceWithin(bytes, at, 8);
    assert part[0..4] == Le32(n.varIndex) && part[4..8] == Le32(n.low) && part[8..12] == Le32(n.high);
    WordOf(bytes, at, n.varIndex);
    WordOf(bytes, at + 4, n.low);
    WordOf(bytes, at + 8, n.high);
    assert part[12] == part[13] == part[14] == part[15] == 0;
  }

  lemma {:induction false} BodyAt(arr: seq<Node>, k: nat)
    requires k < |arr|
    ensures Body(arr)[16 * k..16 * k + 16] == Record16(arr[k])
  {
    var n := |arr| - 1;
    if k < n {
      BodyAt(arr[..n], k);
      assert Body(arr)[16 * k..16 * k + 16] == Body(arr[..n])[16 * k..16 * k + 16];
    }
  }

  /** The record of every id. */
  function RecordOf(arr: seq<Node>, id: nat): Node
    requires IsRef(arr, id)
  {
    if id == 0 then Node(0xFFFF_FFFF, 0xFFFF_FFFF, 0xFFFF_FFFF)
    else if id == 1 then Node(0xFFFF_FFFF, 0xFFFF_FFFE, 0xFFFF_FFFE)
    else arr[id - 2]
  }

  lemma SliceOfMiddle(a: seq<nat>, b: seq<nat>, c: seq<nat>, i: nat, n: nat)
    requires i + n <= |b|
    ensures (a + b + c)[|a| + i..|a| + i + n] == b[i..i + n]
  {
  }

  lemma SliceOfEnd(a: seq<nat>, b: seq<nat>, c: seq<nat>, i: nat, n: nat)
    requires i + n <= |c|
    ensures (a + b + c)[|a| + |b| + i..|a| + |b| + i + n] == c[i..i + n]
  {
  }

  lemma RecordLies(arr: seq<Node>, root: nat, varCount: nat, id: nat)
    requires IsRef(arr, id)
    ensures |FileBytes(arr, root, varCount)| == 56 + 16 * |arr|
    ensures FileBytes(arr, root, varCount)[24 + 16 * id..40 + 16 * id] == Record16(RecordOf(arr, id))
  {
    var head, two, body := Header(|arr| + 2, root, varCount), Terminals(), Body(arr);
    if id < 2 {
      TerminalsAt(id);
      Among(head, two, body, id);
    } else {
      BodyAt(arr, id - 2);
      Among(head, two, body, id);
    }
  }

  /** Where the record of an id lies, whatever the records hold. */
  lemma Among(head: seq<nat>, two: seq<nat>, body: seq<nat>, id: nat)
    requires |head| == 24 && |two| == 32 && 16 * id <= 16 + |body|
    ensures (head + two + body)[24 + 16 * id..40 + 16 * id] ==
            if id < 2 then two[16 * id..16 * id + 16] else body[16 * (id - 2)..16 * (id - 2) + 16]
  {
    if id < 2 { SliceOfMiddle(head, two, body, 16 * id, 16); } else { SliceOfEnd(head, two, body, 16 * (id - 2), 16); }
  }

  lemma TerminalsAt(id: nat)
    requires id < 2
    ensures Terminals()[16 * id..16 * id + 16] == Record16(RecordOf([], id))
  {
  }

  lemma RecordReads(arr: seq<Node>, root: nat, varCount: nat, id: nat)
    requires IsRef(arr, id) && TableFits(arr)
    ensures |FileBytes(arr, root, varCount)| == 56 + 16 * |arr|
    ensures var bytes, n, at := FileBytes(arr, root, varCount), RecordOf(arr, id), 24 + 16 * id;
            && Word(bytes, at) == n.varIndex && Word(bytes, at + 4) == n.low && Word(bytes, at + 8) == n.high
            && bytes[at + 12] == bytes[at + 13] == bytes[at + 14] == bytes[at + 15] == 0
  {
    RecordLies(arr, root, varCount, id);
    assert id >= 2 ==> arr[id - 2] in arr;
    RecordWords(FileBytes(arr, root, varCount), 24 + 16 * id, RecordOf(arr, id));
  }

  lemma {:induction false} RawValueIsSat(arr: seq<Node>, root: nat, varCount: nat, id: nat, vars: set<nat>)
    requires WellFormed(arr) && IsRef(arr, id) && TableFits(arr)
    ensures RawValue(FileBytes(arr, root, varCount), id, vars) == Sat(arr, id, vars)
    decreases id
  {
    RecordReads(arr, root, varCount, id);
    if id >= 2 {
      assert NodeOk(arr, id - 2);
      var n := arr[id - 2];
      RawValueIsSat(arr, root, varCount, if n.varIndex in vars then n.high else n.low, vars);
    }
  }

  lemma WordOfHead(bytes: seq<nat>, head: seq<nat>, at: nat, n: nat)
    requires head <= bytes && at + 4 <= |head| && Fits32(n) && head[at..at + 4] == Le32(n)
    ensures Word(bytes, at) == n
  {
    assert bytes[at..at + 4] == head[at..at + 4];
    WordOf(bytes, at, n);
  }

  /** The header, word by word. */
  lemma HeaderReads(arr: seq<Node>, root: nat, varCount: nat)
    requires TableFits(arr) && IsRef(arr, root) && Fits32(varCount)
    ensures var bytes := FileBytes(arr, root, varCount);
            && |bytes| == 24 + 16 * (|arr| + 2)
            && bytes[..8] == [67, 67, 77, 66, 1, 0, 0, 0]
            && Word(bytes, 8) == varCount && Word(bytes, 12) == |arr| + 2 && Word(bytes, 16) == 1
            && Word(bytes, 20) == if root == 0 then 0xFFFF_FFFF else if root == 1 then 0xFFFF_FFFE else root
  {
    var bytes, head := FileBytes(arr, root, varCount), Header(|arr| + 2, root, varCount);
    assert bytes == head + (Terminals() + Body(arr));
    HeaderParts(|arr| + 2, root, varCount);
    assert head <= bytes && bytes[..8] == head[..8];
    WordOfHead(bytes, head, 8, varCount);
    WordOfHead(bytes, head, 12, |arr| + 2);
    WordOfHead(bytes, head, 16, 1);
    WordOfHead(bytes, head, 20, RootCode(root));
  }

  lemma FileValueIsSat(arr: seq<Node>, root: nat, varCount: nat, vars: set<nat>)
    requires WellFormed(arr) && IsRef(arr, root) && TableFits(arr) && Fits32(varCount)
    ensures FileValue(FileBytes(arr, root, varCount), vars) == Sat(arr, root, vars)
  {
    HeaderReads(arr, root, varCount);
    RawValueIsSat(arr, root, varCount, root, vars);
  }

  // ----- only the variables a function depends on are written -----

  predicate AgreeBelow(v: Valuation, w: Valuation, n: nat) {
    forall x: nat | x < n :: x in v <==> x in w
  }

  /** The function reads no variable from `n` on. */
  ghost predicate ReadsBelow(ns: seq<Node>, r: nat, n: nat)
    requires WellFormed(ns) && IsRef(ns, r)
  {
    forall v: Valuation, w: Valuation | AgreeBelow(v, w, n) :: Sat(ns, r, v) == Sat(ns, r, w)
  }

  /** A node cannot test a variable its function does not read. */
  lemma TestedBelow(ns: seq<Node>, r: nat, n: nat)
    requires WellFormed(ns) && IsRef(ns, r) && r >= 2 && ReadsBelow(ns, r, n)
    ensures ns[r - 2].varIndex < n
    ensures NodeOk(ns, r - 2) && ReadsBelow(ns, ns[r - 2].low, n) && ReadsBelow(ns, ns[r - 2].high, n)
  {
    assert NodeOk(ns, r - 2);
    var m := ns[r - 2];
    if m.varIndex >= n {
      forall v: Valuation ensures Sat(ns, m.low, v) == Sat(ns, m.high, v) {
        CofactorSat(ns, r, v);
        assert AgreeBelow(v + {m.varIndex}, v - {m.varIndex}, n);
      }
      Canonical(ns, m.low, m.high);
    }
    forall v: Valuation, w: Valuation | AgreeBelow(v, w, n)
      ensures Sat(ns, m.low, v) == Sat(ns, m.low, w) && Sat(ns, m.high, v) == Sat(ns, m.high, w)
    {
      CofactorSat(ns, r, v);
      CofactorSat(ns, r, w);
      assert AgreeBelow(v + {m.varIndex}, w + {m.varIndex}, n);
      assert AgreeBelow(v - {m.varIndex}, w - {m.varIndex}, n);
    }
  }

  lemma {:induction false} ReachedBelow(ns: seq<Node>, r: nat, n: nat, q: nat)
    requires WellFormed(ns) && IsRef(ns, r) && ReadsBelow(ns, r, n) && q in Reach(ns, r)
    ensures ns[q - 2].varIndex < n
    decreases r
  {
    TestedBelow(ns, r, n);
    var m := ns[r - 2];
    if q in Reach(ns, m.low) {
      ReachedBelow(ns, m.low, n, q);
    } else if q in Reach(ns, m.high) {
      ReachedBelow(ns, m.high, n, q);
    }
  }

  lemma ReadsBelowSame(ns: seq<Node>, r: nat, ms: seq<Node>, q: nat, n: nat)
    requires WellFormed(ns) && IsRef(ns, r) && WellFormed(ms) && IsRef(ms, q) && Same(ns, r, ms, q)
    requires ReadsBelow(ns, r, n)
    ensures ReadsBelow(ms, q, n)
  {
    forall v: Valuation, w: Valuation | AgreeBelow(v, w, n) ensures Sat(ms, q, v) == Sat(ms, q, w) {
      assert Sat(ns, r, v) == Sat(ms, q, v) && Sat(ns, r, w) == Sat(ms, q, w);
    }
  }

  /** A table in file form tests declared variables only, and fits its fields. */
  lemma FormFits(arr: seq<Node>, root: nat, varCount: nat)
    requires FileForm(arr, root) && ReadsBelow(arr, root, varCount) && Fits32(varCount) && |arr| + 2 < 0xFFFF_FFFE
    ensures TableFits(arr) && forall n | n in arr :: n.varIndex < varCount
  {
    forall n | n in arr ensures n.varIndex < varCount && NodeFits(n) {
      var k :| 0 <= k < |arr| && arr[k] == n;
      assert NodeOk(arr, k);
      assert k + 2 in Reach(arr, root);
      ReachedBelow(arr, root, varCount, k + 2);
    }
  }

  /** Every file `serialize` writes within 32 bits reads back as the function of its root. */
  lemma SerializedReads(bytes: seq<nat>, ns: seq<Node>, root: nat, varCount: nat, vars: set<nat>)
    requires WellFormed(ns) && IsRef(ns, root) && Serializes(bytes, ns, root, varCount)
    requires IdsFit(bytes) && Fits32(varCount) && ReadsBelow(ns, root, varCount)
    ensures FileValue(bytes, vars) == Sat(ns, root, vars)
  {
    var arr: seq<Node>, id: nat :|
      FileForm(arr, id) && Same(ns, root, arr, id) && bytes == FileBytes(arr, id, varCount);
    FileParts(arr, id, varCount);
    ReadsBelowSame(ns, root, arr, id, varCount);
    FormFits(arr, id, varCount);
    FileValueIsSat(arr, id, varCount, vars);
  }
}
