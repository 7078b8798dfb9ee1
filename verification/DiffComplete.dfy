/** What an empty diff says about the two payloads themselves (cfx/src/diff.rs). On payloads of
    the documented shape it leaves open only which root holds which component, for the reported
    paths carry no root. */
module DiffComplete {
  import opened Diff
  import Sorting

  // ----- the shape of a payload -----

  predicate NoNulls(v: Value) {
    v.Object? && forall key | key in v.fields :: v.fields[key] != Null
  }

  /** A container: absent, or an object with at least one entry, each in shape. */
  predicate ShapedEntries(level: Level, v: Value)
    decreases Rank(level), 1
  {
    v == Null || (v.Object? && v.fields != map[] && forall key | key in v.fields :: ShapedItem(level, v.fields[key]))
  }

  predicate ShapedItem(level: Level, v: Value)
    decreases Rank(level), 0
  {
    && NoNulls(v)
    && match level
       case Param => true
       case Slot => Child(v, FIELDS) == Null || (NoNulls(Child(v, FIELDS)) && Child(v, FIELDS) != Object(map[]))
       case Component => ShapedEntries(Param, Child(v, PARAMS)) && ShapedEntries(Slot, Child(v, REQUIRES))
  }

  predicate ShapedRoot(v: Value) {
    NoNulls(v) && ShapedEntries(Component, Child(v, COMPONENTS))
  }

  function ComponentsOf(v: Value, root: string): Value {
    Child(Child(v, root), COMPONENTS)
  }

  /** Every level is an object, with no null and no empty container, and where two roots hold
      one component they hold the same. */
  predicate Shaped(v: Value) {
    && v.Object? && (forall root | root in v.fields :: ShapedRoot(v.fields[root]))
    && forall r, s | r in v.fields && s in v.fields :: CopiesAgree(v, r, s)
  }

  predicate CopiesAgree(v: Value, r: string, s: string) {
    forall id | id in KeysOf(ComponentsOf(v, r)) && id in KeysOf(ComponentsOf(v, s)) ::
      Child(ComponentsOf(v, r), id) == Child(ComponentsOf(v, s), id)
  }

  /** The two payloads have the same roots, and each root holds the same component ids. */
  predicate SamePlaces(b: Value, h: Value) {
    KeysOf(b) == KeysOf(h) && forall root | root in KeysOf(b) ::
        KeysOf(ComponentsOf(b, root)) == KeysOf(ComponentsOf(h, root))
  }

  // ----- a view of a shaped item determines it -----

  lemma SameFields(b: Value, h: Value)
    requires b.Object? && h.Object? && NoNulls(b) && NoNulls(h) && forall key :: Child(b, key) == Child(h, key)
    ensures b == h
  {
    forall key | key in b.fields.Keys + h.fields.Keys
      ensures key in b.fields && key in h.fields && b.fields[key] == h.fields[key]
    {
      assert Child(b, key) == Child(h, key);
    }
    MapsEqual(b.fields, h.fields);
  }

  lemma SeenDetermines(b: Value, h: Value, skip: set<string>, key: string)
    requires Seen(b, skip) == Seen(h, skip) && key !in skip
    ensures Child(b, key) == Child(h, key)
  {
    SeenChild(b, skip, key);
    SeenChild(h, skip, key);
  }

  lemma AllSeen(b: Value, h: Value)
    requires NoNulls(b) && NoNulls(h) && Seen(b, {}) == Seen(h, {})
    ensures b == h
  {
    forall key ensures Child(b, key) == Child(h, key) { SeenDetermines(b, h, {}, key); }
    SameFields(b, h);
  }

  lemma EmptyOrNull(b: Value, h: Value)
    requires b == Null || (NoNulls(b) && b != Object(map[]))
    requires h == Null || (NoNulls(h) && h != Object(map[]))
    requires Seen(b, {}) == Seen(h, {})
    ensures b == h
  {
    if b.Object? && h.Object? {
      AllSeen(b, h);
    } else if b.Object? {
      var key :| key in b.fields;
      SeenDetermines(b, h, {}, key);
    } else if h.Object? {
      var key :| key in h.fields;
      SeenDetermines(b, h, {}, key);
    }
  }

  lemma {:induction false} ItemDetermined(level: Level, b: Value, h: Value)
    requires ShapedItem(level, b) && ShapedItem(level, h) && ItemViewOf(level, b) == ItemViewOf(level, h)
    ensures b == h
    decreases Rank(level), 0
  {
    match level
    case Param => AllSeen(b, h);
    case Slot =>
      EmptyOrNull(Child(b, FIELDS), Child(h, FIELDS));
      forall key ensures Child(b, key) == Child(h, key) {
        if key != FIELDS { SeenDetermines(b, h, {FIELDS}, key); }
      }
      SameFields(b, h);
    case Component =>
      EntriesDetermined(Param, Child(b, PARAMS), Child(h, PARAMS));
      EntriesDetermined(Slot, Child(b, REQUIRES), Child(h, REQUIRES));
      forall key ensures Child(b, key) == Child(h, key) {
        if key != PARAMS && key != REQUIRES { SeenDetermines(b, h, {PARAMS, REQUIRES}, key); }
      }
      SameFields(b, h);
  }

  lemma {:induction false} EntriesDetermined(level: Level, b: Value, h: Value)
    requires ShapedEntries(level, b) && ShapedEntries(level, h) && EntriesView(level, b) == EntriesView(level, h)
    ensures b == h
    decreases Rank(level), 1
  {
    EntriesViewAt(level, b);
    EntriesViewAt(level, h);
    assert KeysOf(b) == KeysOf(h);
    if b.Object? && h.Object? {
      forall key | key in b.fields ensures b.fields[key] == h.fields[key] {
        ItemDetermined(level, b.fields[key], h.fields[key]);
      }
      MapsEqual(b.fields, h.fields);
    }
  }

  // ----- merged components -----

  /** The copies of `id` all are `x`. */
  predicate AllCopies(v: Value, roots: seq<string>, id: string, x: Value) {
    forall r | r in roots :: id in KeysOf(ComponentsOf(v, r)) ==> Child(ComponentsOf(v, r), id) == x
  }

  /** A component some root holds is in the merge, as the copy they all hold. */
  lemma {:induction false} MergedCopy(v: Value, roots: seq<string>, k: nat, id: string, x: Value)
    requires k < |roots| && id in KeysOf(ComponentsOf(v, roots[k])) && AllCopies(v, roots, id, x)
    ensures id in MergedFrom(v, roots) && MergedFrom(v, roots)[id] == x
    decreases |roots|
  {
    var last := |roots| - 1;
    assert roots[last] in roots;
    if id !in KeysOf(ComponentsOf(v, roots[last])) {
      assert forall r | r in roots[..last] :: r in roots;
      MergedCopy(v, roots[..last], k, id, x);
    }
  }

  lemma ComponentDetermined(b: Value, h: Value, root: string, id: string)
    requires Shaped(b) && Shaped(h) && root in b.fields && root in h.fields
    requires id in KeysOf(ComponentsOf(b, root)) && id in KeysOf(ComponentsOf(h, root))
    requires EntriesView(Component, MergedComponents(b)) == EntriesView(Component, MergedComponents(h))
    ensures Child(ComponentsOf(b, root), id) == Child(ComponentsOf(h, root), id)
  {
    var x, y := Child(ComponentsOf(b, root), id), Child(ComponentsOf(h, root), id);
    MergedAt(b, root, id);
    MergedAt(h, root, id);
    EntriesViewAt(Component, MergedComponents(b));
    EntriesViewAt(Component, MergedComponents(h));
    assert ShapedRoot(b.fields[root]) && ShapedRoot(h.fields[root]);
    ItemDetermined(Component, x, y);
  }

  lemma MergedAt(v: Value, root: string, id: string)
    requires Shaped(v) && root in v.fields && id in KeysOf(ComponentsOf(v, root))
    ensures id in KeysOf(MergedComponents(v)) && Child(MergedComponents(v), id) == Child(ComponentsOf(v, root), id)
  {
    var roots := UnionKeys(v, Null);
    assert root in KeysOf(v) + KeysOf(Null) && root in roots;
    var k :| 0 <= k < |roots| && roots[k] == root;
    var x := Child(ComponentsOf(v, root), id);
    forall r | r in roots && id in KeysOf(ComponentsOf(v, r)) ensures Child(ComponentsOf(v, r), id) == x {
      assert r in KeysOf(v) + KeysOf(Null);
      assert CopiesAgree(v, r, root);
    }
    MergedCopy(v, roots, k, id, x);
  }

  lemma RootDetermined(b: Value, h: Value, root: string)
    requires Shaped(b) && Shaped(h) && SamePlaces(b, h) && ViewOf(b) == ViewOf(h) && root in b.fields
    ensures root in h.fields && b.fields[root] == h.fields[root]
  {
    assert root in KeysOf(b);
    var x, y := b.fields[root], h.fields[root];
    assert ShapedRoot(x) && ShapedRoot(y);
    ViewsGiveRoot(b, h, root);
    SameComponents(b, h, root);
    forall key ensures Child(x, key) == Child(y, key) {
      if key != COMPONENTS { SeenDetermines(x, y, {COMPONENTS}, key); }
    }
    SameFields(x, y);
  }

  lemma SameComponents(b: Value, h: Value, root: string)
    requires Shaped(b) && Shaped(h) && SamePlaces(b, h) && ViewOf(b) == ViewOf(h) && root in b.fields &&
             root in h.fields
    ensures ComponentsOf(b, root) == ComponentsOf(h, root)
  {
    var x, y := ComponentsOf(b, root), ComponentsOf(h, root);
    assert ShapedRoot(b.fields[root]) && ShapedRoot(h.fields[root]);
    assert root in KeysOf(b) && KeysOf(x) == KeysOf(y);
    forall id | id in KeysOf(x) ensures Child(x, id) == Child(y, id) { ComponentDetermined(b, h, root, id); }
    SameContainer(x, y);
  }

  lemma SameContainer(x: Value, y: Value)
    requires ShapedEntries(Component, x) && ShapedEntries(Component, y)
    requires KeysOf(x) == KeysOf(y) && forall id | id in KeysOf(x) :: Child(x, id) == Child(y, id)
    ensures x == y
  {
    if x.Object? && y.Object? {
      assert forall id | id in x.fields :: Child(x, id) == x.fields[id] && Child(y, id) == y.fields[id];
      MapsEqual(x.fields, y.fields);
    }
  }

  /** On shaped payloads nothing is reported and every component stays where it is exactly when
      the payloads are equal. */
  lemma EmptyAndInPlaceIffEqual(b: Value, h: Value)
    requires Shaped(b) && Shaped(h)
    ensures DiffOf(b, h) == [] && SamePlaces(b, h) <==> b == h
  {
    EmptyIffViewsAgree(b, h);
    if ViewOf(b) == ViewOf(h) && SamePlaces(b, h) {
      forall root | root in b.fields.Keys + h.fields.Keys
        ensures root in b.fields && root in h.fields && b.fields[root] == h.fields[root]
      {
        assert root in KeysOf(b) && root in KeysOf(h);
        RootDetermined(b, h, root);
      }
      MapsEqual(b.fields, h.fields);
    }
  }

  // ----- the differences that stay unseen -----

  /** A root that holds the given components. */
  function Holder(components: map<string, Value>): Value {
    Object(map[COMPONENTS := Object(components)])
  }

  function TwoRoots(r: string, s: string, x: map<string, Value>, y: map<string, Value>): Value {
    Object(map[r := Holder(x), s := Holder(y)])
  }

  lemma TwoRootsView(r: string, s: string, x: map<string, Value>, y: map<string, Value>)
    requires r != s && Sorting.Le(r, s)
    ensures ViewOf(TwoRoots(r, s, x, y)) == View(map[], EntriesView(Component, Object(x + y)))
  {
    var v := TwoRoots(r, s, x, y);
    TwoKeys(v, r, s);
    MergedTwo(v, r, s, x, y);
    forall root, key ensures (root, key) !in RootsView(v) {
      RootSeen(v, root, key);
    }
    assert RootsView(v) == map[];
  }

  lemma TwoKeys(v: Value, r: string, s: string)
    requires r != s && Sorting.Le(r, s) && KeysOf(v) == {r, s}
    ensures UnionKeys(v, Null) == [r, s]
  {
    assert KeysOf(v) + KeysOf(Null) == {r, s};
    assert Sorting.Ascending([r, s]);
    Sorting.KeysAscend({r, s});
    Sorting.AscendingUnique(Sorting.Keys({r, s}), [r, s]);
  }

  lemma MergedTwo(v: Value, r: string, s: string, x: map<string, Value>, y: map<string, Value>)
    requires ComponentsOf(v, r) == Object(x) && ComponentsOf(v, s) == Object(y)
    ensures MergedFrom(v, [r, s]) == x + y
  {
    assert [r, s][..1] == [r] && [r][..0] == [];
    assert MergedFrom(v, []) == map[];
    assert MergedFrom(v, [r]) == map[] + x == x;
  }

  /** Only the merge of the two roots is looked at. */
  lemma OnlyTheMerge(r: string, s: string, x: map<string, Value>, y: map<string, Value>, x': map<string, Value>,
                     y': map<string, Value>)
    requires r != s && Sorting.Le(r, s) && x + y == x' + y'
    ensures DiffOf(TwoRoots(r, s, x, y), TwoRoots(r, s, x', y')) == []
  {
    TwoRootsView(r, s, x, y);
    TwoRootsView(r, s, x', y');
    EmptyIffViewsAgree(TwoRoots(r, s, x, y), TwoRoots(r, s, x', y'));
  }

  /** The copy an earlier root holds of a component is never looked at. */
  lemma EarlierCopyIsInvisible(r: string, s: string, id: string, x: Value, y: Value, z: Value)
    requires r != s && Sorting.Le(r, s)
    ensures DiffOf(TwoRoots(r, s, map[id := x], map[id := z]), TwoRoots(r, s, map[id := y], map[id := z])) == []
  {
    LaterWins(id, x, z);
    LaterWins(id, y, z);
    OnlyTheMerge(r, s, map[id := x], map[id := z], map[id := y], map[id := z]);
  }

  lemma LaterWins(id: string, x: Value, z: Value)
    ensures map[id := x] + map[id := z] == map[id := z]
  {
  }

  /** Nor is the root a component is held by: two components may change places. */
  lemma MovedComponentIsInvisible(r: string, s: string, x: map<string, Value>, y: map<string, Value>)
    requires r != s && Sorting.Le(r, s) && x.Keys !! y.Keys && x != y
    ensures ShapedEntries(Component, Object(x)) && ShapedEntries(Component, Object(y)) ==>
              Shaped(TwoRoots(r, s, x, y)) && Shaped(TwoRoots(r, s, y, x))
    ensures DiffOf(TwoRoots(r, s, x, y), TwoRoots(r, s, y, x)) == [] && TwoRoots(r, s, x, y) != TwoRoots(r, s, y, x)
  {
    JoinEitherWay(x, y);
    OnlyTheMerge(r, s, x, y, y, x);
    BothHold(r, s, x, y);
    BothHold(r, s, y, x);
    if ShapedEntries(Component, Object(x)) && ShapedEntries(Component, Object(y)) {
      ShapedPair(r, s, x, y);
      ShapedPair(r, s, y, x);
    }
  }

  lemma ApartAgree(v: Value, p: string, q: string)
    requires KeysOf(ComponentsOf(v, p)) !! KeysOf(ComponentsOf(v, q))
    ensures CopiesAgree(v, p, q)
  {
  }

  lemma ShapedHolder(x: map<string, Value>)
    requires ShapedEntries(Component, Object(x))
    ensures ShapedRoot(Holder(x))
  {
  }

  lemma ShapedPair(r: string, s: string, x: map<string, Value>, y: map<string, Value>)
    requires r != s && x.Keys !! y.Keys && ShapedEntries(Component, Object(x)) && ShapedEntries(Component, Object(y))
    ensures Shaped(TwoRoots(r, s, x, y))
  {
    var v := TwoRoots(r, s, x, y);
    BothHold(r, s, x, y);
    ShapedHolder(x);
    ShapedHolder(y);
    ApartAgree(v, r, s);
    ApartAgree(v, s, r);
    forall p, q | p in v.fields && q in v.fields ensures CopiesAgree(v, p, q) {
    }
  }

  lemma JoinEitherWay<K, V>(x: map<K, V>, y: map<K, V>)
    requires x.Keys !! y.Keys
    ensures x + y == y + x
  {
  }

  lemma BothHold(r: string, s: string, x: map<string, Value>, y: map<string, Value>)
    requires r != s
    ensures ComponentsOf(TwoRoots(r, s, x, y), r) == Object(x) && ComponentsOf(TwoRoots(r, s, x, y), s) == Object(y)
  {
  }
}
