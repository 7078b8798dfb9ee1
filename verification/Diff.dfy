/** The structural diff of two resolved outputs (cfx/src/diff.rs). */
module Diff {
  import opened Options
  import Sorting

  /** JSON: an object, or anything else by its canonical text. */
  datatype Value = Null | Atom(text: string) | Object(fields: map<string, Value>)

  datatype Kind = Changed | Added | Removed

  datatype Change = Change(path: string, field: Option<string>, kind: Kind, before: Option<Value>, after: Option<Value>)

  /** The three depths of the walk below the roots. */
  datatype Level = Component | Param | Slot

  // ----- reading values -----

  function KeysOf(v: Value): set<string> {
    if v.Object? then v.fields.Keys else {}
  }

  function Child(v: Value, key: string): Value {
    if v.Object? && key in v.fields then v.fields[key] else Null
  }

  function Entry(v: Value, key: string): Option<Value> {
    if v.Object? && key in v.fields then Some(v.fields[key]) else None
  }

  function UnionKeys(l: Value, r: Value): seq<string> {
    Sorting.Keys(KeysOf(l) + KeysOf(r))
  }

  // ----- the change list -----

  const VALUE_FIELD := "value"

  function TextPath(c: Change): string {
    if c.field.Some? && c.field.value != VALUE_FIELD then c.path + "." + c.field.value else c.path
  }

  /** Where a scalar difference is reported: as a field of the level, or under a path of
      its own. */
  datatype Place = FieldOf(path: string) | Under(prefix: string)

  function PlacedChange(p: Place, key: string, before: Value, after: Value): Change {
    if p.FieldOf? then Change(p.path, Some(key), Changed, Some(before), Some(after))
    else Change(p.prefix + key, None, Changed, Some(before), Some(after))
  }

  function ScalarAt(p: Place, b: Value, h: Value, key: string): seq<Change> {
    if Child(b, key) != Child(h, key) then [PlacedChange(p, key, Child(b, key), Child(h, key))] else []
  }

  /** Every key but the containers, compared as a scalar. */
  function Scalars(p: Place, b: Value, h: Value, skip: set<string>, keys: seq<string>): seq<Change> {
    if keys == [] then []
    else
      var key := keys[|keys| - 1];
      Scalars(p, b, h, skip, keys[..|keys| - 1]) + if key in skip then [] else ScalarAt(p, b, h, key)
  }

  const PARAMS := "params"
  const REQUIRES := "requires"
  const FIELDS := "fields"
  const COMPONENTS := "components"

  function Rank(level: Level): nat {
    if level == Component then 1 else 0
  }

  function Item(level: Level, path: string, b: Value, h: Value): seq<Change>
    decreases Rank(level), 0, 0
  {
    match level
    case Param => Scalars(FieldOf(path), b, h, {}, UnionKeys(b, h))
    case Slot =>
      Scalars(FieldOf(path), b, h, {FIELDS}, UnionKeys(b, h))
      + Scalars(Under(path + "."), Child(b, FIELDS), Child(h, FIELDS), {},
          UnionKeys(Child(b, FIELDS), Child(h, FIELDS)))
    case Component =>
      Scalars(FieldOf(path), b, h, {PARAMS, REQUIRES}, UnionKeys(b, h))
      + Entries(Param, path + ".param.", Child(b, PARAMS), Child(h, PARAMS),
          UnionKeys(Child(b, PARAMS), Child(h, PARAMS)))
      + Entries(Slot, path + ".requires.", Child(b, REQUIRES), Child(h, REQUIRES),
          UnionKeys(Child(b, REQUIRES), Child(h, REQUIRES)))
  }

  /** An entry added, removed or compared. */
  function EntryAt(level: Level, path: string, b: Option<Value>, h: Option<Value>): seq<Change>
    decreases Rank(level), 0, 1
  {
    match (b, h)
    case (None, Some(after)) => [Change(path, None, Added, None, Some(after))]
    case (Some(before), None) => [Change(path, None, Removed, Some(before), None)]
    case (Some(before), Some(after)) => Item(level, path, before, after)
    case (None, None) => []
  }

  function Entries(level: Level, prefix: string, b: Value, h: Value, keys: seq<string>): seq<Change>
    decreases Rank(level), 1, |keys|
  {
    if keys == [] then []
    else
      var key := keys[|keys| - 1];
      Entries(level, prefix, b, h, keys[..|keys| - 1]) + EntryAt(level, prefix + key, Entry(b, key), Entry(h, key))
  }

  function RootScalars(b: Value, h: Value, roots: seq<string>): seq<Change> {
    if roots == [] then []
    else
      var root := roots[|roots| - 1];
      RootScalars(b, h, roots[..|roots| - 1])
      + Scalars(Under(""), Child(b, root), Child(h, root), {COMPONENTS}, UnionKeys(Child(b, root), Child(h, root)))
  }

  /** Every component of every root; a later root wins. */
  function MergedFrom(output: Value, roots: seq<string>): map<string, Value> {
    if roots == [] then map[]
    else
      var components := Child(Child(output, roots[|roots| - 1]), COMPONENTS);
      MergedFrom(output, roots[..|roots| - 1]) + if components.Object? then components.fields else map[]
  }

  function MergedComponents(output: Value): Value {
    Object(MergedFrom(output, UnionKeys(output, Null)))
  }

  /** All differences, in the order they are found. */
  function Found(b: Value, h: Value): seq<Change> {
    var bc, hc := MergedComponents(b), MergedComponents(h);
    RootScalars(b, h, UnionKeys(b, h)) + Entries(Component, "component.", bc, hc, UnionKeys(bc, hc))
  }

  predicate PathLe(x: Change, y: Change) {
    Sorting.Le(TextPath(x), TextPath(y))
  }

  /** Drops a change equal to the one before it. */
  function Dedup(cs: seq<Change>): seq<Change> {
    if |cs| < 2 then cs
    else
      var init := Dedup(cs[..|cs| - 1]);
      if cs[|cs| - 1] == cs[|cs| - 2] then init else init + [cs[|cs| - 1]]
  }

  function DiffOf(b: Value, h: Value): seq<Change> {
    Dedup(Sorting.Sort(Found(b, h), PathLe))
  }

  // ----- as it is carried out -----

  lemma ScalarsStep(p: Place, b: Value, h: Value, skip: set<string>, keys: seq<string>, k: nat)
    requires k < |keys|
    ensures Scalars(p, b, h, skip, keys[..k + 1]) ==
            Scalars(p, b, h, skip, keys[..k]) + if keys[k] in skip then [] else ScalarAt(p, b, h, keys[k])
  {
    assert keys[..k + 1][..k] == keys[..k];
  }

  method DiffScalars(p: Place, b: Value, h: Value, skip: set<string>) returns (out: seq<Change>)
    ensures out == Scalars(p, b, h, skip, UnionKeys(b, h))
  {
    out := [];
    var keys := UnionKeys(b, h);
    for k := 0 to |keys|
      invariant out == Scalars(p, b, h, skip, keys[..k])
    {
      ScalarsStep(p, b, h, skip, keys, k);
      if keys[k] in skip { continue; }
      if Child(b, keys[k]) != Child(h, keys[k]) {
        out := out + [PlacedChange(p, keys[k], Child(b, keys[k]), Child(h, keys[k]))];
      }
    }
    assert keys[..|keys|] == keys;
  }

  method DiffRequirement(path: string, b: Value, h: Value) returns (out: seq<Change>)
    ensures out == Item(Slot, path, b, h)
    ensures forall c :: c in out <==> RequirementLine(c, path, b, h)
  {
    forall c ensures c in Item(Slot, path, b, h) <==> RequirementLine(c, path, b, h) {
      RequirementHolds(path, b, h, c);
    }
    out := DiffScalars(FieldOf(path), b, h, {FIELDS});
    var fields := DiffScalars(Under(path + "."), Child(b, FIELDS), Child(h, FIELDS), {});
    out := out + fields;
  }

  method DiffComponent(path: string, b: Value, h: Value) returns (out: seq<Change>)
    ensures out == Item(Component, path, b, h)
    ensures forall c :: c in out <==> ComponentLine(c, path, b, h)
    decreases 1, 0
  {
    forall c ensures c in Item(Component, path, b, h) <==> ComponentLine(c, path, b, h) {
      ComponentHolds(path, b, h, c);
    }
    out := DiffScalars(FieldOf(path), b, h, {PARAMS, REQUIRES});
    var params := DiffEntries(Param, path + ".param.", Child(b, PARAMS), Child(h, PARAMS));
    var slots := DiffEntries(Slot, path + ".requires.", Child(b, REQUIRES), Child(h, REQUIRES));
    out := out + params + slots;
  }

  method DiffItem(level: Level, path: string, b: Value, h: Value) returns (out: seq<Change>)
    ensures out == Item(level, path, b, h)
    decreases Rank(level), 1
  {
    match level {
      case Param => out := DiffScalars(FieldOf(path), b, h, {});
      case Slot => out := DiffRequirement(path, b, h);
      case Component => out := DiffComponent(path, b, h);
    }
  }

  lemma EntriesStep(level: Level, prefix: string, b: Value, h: Value, keys: seq<string>, k: nat)
    requires k < |keys|
    ensures Entries(level, prefix, b, h, keys[..k + 1]) ==
            Entries(level, prefix, b, h, keys[..k]) +
                EntryAt(level, prefix + keys[k], Entry(b, keys[k]), Entry(h, keys[k]))
  {
    assert keys[..k + 1][..k] == keys[..k];
  }

  method DiffEntry(level: Level, path: string, b: Option<Value>, h: Option<Value>) returns (out: seq<Change>)
    ensures out == EntryAt(level, path, b, h)
    decreases Rank(level), 2
  {
    if b.None? && h.Some? {
      out := [Change(path, None, Added, None, h)];
    } else if b.Some? && h.None? {
      out := [Change(path, None, Removed, b, None)];
    } else if b.Some? {
      out := DiffItem(level, path, b.value, h.value);
    } else {
      out := [];
    }
  }

  method DiffEntries(level: Level, prefix: string, b: Value, h: Value) returns (out: seq<Change>)
    ensures out == Entries(level, prefix, b, h, UnionKeys(b, h))
    decreases Rank(level), 3
  {
    out := [];
    var keys := UnionKeys(b, h);
    for k := 0 to |keys|
      invariant out == Entries(level, prefix, b, h, keys[..k])
    {
      EntriesStep(level, prefix, b, h, keys, k);
      var changes := DiffEntry(level, prefix + keys[k], Entry(b, keys[k]), Entry(h, keys[k]));
      out := out + changes;
    }
    assert keys[..|keys|] == keys;
  }

  lemma RootsStep(b: Value, h: Value, roots: seq<string>, k: nat)
    requires k < |roots|
    ensures RootScalars(b, h, roots[..k + 1]) == RootScalars(b, h, roots[..k]) +
            Scalars(Under(""), Child(b, roots[k]), Child(h, roots[k]), {COMPONENTS},
                UnionKeys(Child(b, roots[k]), Child(h, roots[k])))
  {
    assert roots[..k + 1][..k] == roots[..k];
  }

  method DiffRoots(b: Value, h: Value) returns (out: seq<Change>)
    ensures out == RootScalars(b, h, UnionKeys(b, h))
  {
    out := [];
    var roots := UnionKeys(b, h);
    for k := 0 to |roots|
      invariant out == RootScalars(b, h, roots[..k])
    {
      RootsStep(b, h, roots, k);
      var scalars := DiffScalars(Under(""), Child(b, roots[k]), Child(h, roots[k]), {COMPONENTS});
      out := out + scalars;
    }
    assert roots[..|roots|] == roots;
  }

  method MergeComponents(output: Value) returns (merged: map<string, Value>)
    ensures Object(merged) == MergedComponents(output)
    ensures forall id :: Delivers(output, id, Entry(Object(merged), id))
  {
    merged := map[];
    var roots := UnionKeys(output, Null);
    for k := 0 to |roots|
      invariant merged == MergedFrom(output, roots[..k])
    {
      assert roots[..k + 1][..k] == roots[..k];
      var components := Child(Child(output, roots[k]), COMPONENTS);
      if components.Object? {
        merged := merged + components.fields;
      }
    }
    assert roots[..|roots|] == roots;
    AllDelivered(output);
  }

  lemma AllDelivered(output: Value)
    ensures forall id :: Delivers(output, id, Entry(MergedComponents(output), id))
  {
    forall id ensures Delivers(output, id, Entry(MergedComponents(output), id)) { MergedDelivers(output, id); }
  }

  method DiffResolvedOutput(b: Value, h: Value) returns (changes: seq<Change>)
    ensures changes == DiffOf(b, h)
    ensures forall c :: c in changes <==> IsDifference(c, b, h)
    ensures forall i | 0 < i < |changes| :: changes[i - 1] != changes[i] && PathLe(changes[i - 1], changes[i])
    ensures changes == [] <==> ViewOf(b) == ViewOf(h)
  {
    forall c ensures c in DiffOf(b, h) <==> IsDifference(c, b, h) { DiffHolds(b, h, c); }
    DiffRuns(b, h);
    changes := DiffRoots(b, h);
    var before := MergeComponents(b);
    var now := MergeComponents(h);
    var components := DiffEntries(Component, "component.", Object(before), Object(now));
    changes := Dedup(Sorting.Sort(changes + components, PathLe));
    EmptyIffViewsAgree(b, h);
  }

  // ----- what the list holds -----

  /** Two values that differ, on a line of their own. */
  predicate ValueLine(c: Change, path: string, field: Option<string>, before: Value, after: Value) {
    before != after && c == Change(path, field, Changed, Some(before), Some(after))
  }

  /** An entry only one side has. */
  predicate EntryLine(c: Change, path: string, b: Option<Value>, h: Option<Value>) {
    || (b.None? && h.Some? && c == Change(path, None, Added, None, h))
    || (b.Some? && h.None? && c == Change(path, None, Removed, b, None))
  }

  ghost predicate FieldLine(c: Change, path: string, b: Value, h: Value, skip: set<string>) {
    exists key :: key !in skip && ValueLine(c, path, Some(key), Child(b, key), Child(h, key))
  }

  ghost predicate PathLine(c: Change, prefix: string, b: Value, h: Value, skip: set<string>) {
    exists key :: key !in skip && ValueLine(c, prefix + key, None, Child(b, key), Child(h, key))
  }

  /** A parameter only one side has, or one of its fields. */
  ghost predicate ParamLine(c: Change, path: string, b: Option<Value>, h: Option<Value>) {
    EntryLine(c, path, b, h) || (b.Some? && h.Some? && FieldLine(c, path, b.value, h.value, {}))
  }

  /** One of the fields of a slot, or of the entry it delivers. */
  ghost predicate RequirementLine(c: Change, path: string, b: Value, h: Value) {
    || FieldLine(c, path, b, h, {"fields"})
    || PathLine(c, path + ".", Child(b, "fields"), Child(h, "fields"), {})
  }

  ghost predicate SlotLine(c: Change, path: string, b: Option<Value>, h: Option<Value>) {
    EntryLine(c, path, b, h) || (b.Some? && h.Some? && RequirementLine(c, path, b.value, h.value))
  }

  /** One of the fields of a component, or a line of one of its parameters or slots. */
  ghost predicate ComponentLine(c: Change, path: string, b: Value, h: Value) {
    || FieldLine(c, path, b, h, {"params", "requires"})
    || (exists key :: ParamLine(c, path + ".param." + key, Entry(Child(b, "params"), key),
                                Entry(Child(h, "params"), key)))
    || (exists slot :: SlotLine(c, path + ".requires." + slot, Entry(Child(b, "requires"), slot),
                                Entry(Child(h, "requires"), slot)))
  }

  predicate HasCopy(v: Value, root: string, id: string) {
    id in KeysOf(Child(Child(v, root), "components"))
  }

  /** What is delivered for a component: its copy under the last root that has one. */
  ghost predicate Delivers(v: Value, id: string, copy: Option<Value>) {
    if copy.None? then forall root :: !HasCopy(v, root, id)
    else exists root :: DeliversFrom(v, id, root, copy.value)
  }

  ghost predicate DeliversFrom(v: Value, id: string, root: string, copy: Value) {
    && HasCopy(v, root, id) && copy == Child(Child(Child(v, root), "components"), id)
    && forall other | HasCopy(v, other, id) :: Sorting.Le(other, root)
  }

  ghost predicate DeliveredLine(c: Change, b: Value, h: Value, id: string, before: Option<Value>,
                                after: Option<Value>) {
    && Delivers(b, id, before) && Delivers(h, id, after)
    && (EntryLine(c, "component." + id, before, after) ||
        (before.Some? && after.Some? && ComponentLine(c, "component." + id, before.value, after.value)))
  }

  /** A line the report must hold, read off the two payloads. */
  ghost predicate IsDifference(c: Change, b: Value, h: Value) {
    || (exists root :: PathLine(c, "", Child(b, root), Child(h, root), {"components"}))
    || (exists id, before, after :: DeliveredLine(c, b, h, id, before, after))
  }

  lemma {:induction false} ScalarsHold(p: Place, b: Value, h: Value, skip: set<string>, keys: seq<string>, c: Change)
    ensures c in Scalars(p, b, h, skip, keys) <==>
            exists key :: key in keys && key !in skip && c in ScalarAt(p, b, h, key)
    decreases |keys|
  {
    if keys != [] {
      var k := |keys| - 1;
      ScalarsHold(p, b, h, skip, keys[..k], c);
      assert keys == keys[..k] + [keys[k]];
    }
  }

  lemma FieldsHold(path: string, b: Value, h: Value, skip: set<string>, c: Change)
    ensures c in Scalars(FieldOf(path), b, h, skip, UnionKeys(b, h)) <==> FieldLine(c, path, b, h, skip)
  {
    ScalarsHold(FieldOf(path), b, h, skip, UnionKeys(b, h), c);
    if FieldLine(c, path, b, h, skip) {
      var key :| key !in skip && ValueLine(c, path, Some(key), Child(b, key), Child(h, key));
      assert key in UnionKeys(b, h) && c in ScalarAt(FieldOf(path), b, h, key);
    }
  }

  lemma PathsHold(prefix: string, b: Value, h: Value, skip: set<string>, c: Change)
    ensures c in Scalars(Under(prefix), b, h, skip, UnionKeys(b, h)) <==> PathLine(c, prefix, b, h, skip)
  {
    ScalarsHold(Under(prefix), b, h, skip, UnionKeys(b, h), c);
    if PathLine(c, prefix, b, h, skip) {
      var key :| key !in skip && ValueLine(c, prefix + key, None, Child(b, key), Child(h, key));
      assert key in UnionKeys(b, h) && c in ScalarAt(Under(prefix), b, h, key);
    }
  }

  lemma {:induction false} EntriesHold(level: Level, prefix: string, b: Value, h: Value, keys: seq<string>, c: Change)
    ensures c in Entries(level, prefix, b, h, keys) <==>
            exists key :: key in keys && c in EntryAt(level, prefix + key, Entry(b, key), Entry(h, key))
    decreases |keys|
  {
    if keys != [] {
      var k := |keys| - 1;
      EntriesHold(level, prefix, b, h, keys[..k], c);
      assert keys == keys[..k] + [keys[k]];
    }
  }

  lemma ParamHolds(path: string, b: Option<Value>, h: Option<Value>, c: Change)
    ensures c in EntryAt(Param, path, b, h) <==> ParamLine(c, path, b, h)
  {
    if b.Some? && h.Some? { FieldsHold(path, b.value, h.value, {}, c); }
  }

  lemma RequirementHolds(path: string, b: Value, h: Value, c: Change)
    ensures c in Item(Slot, path, b, h) <==> RequirementLine(c, path, b, h)
  {
    FieldsHold(path, b, h, {FIELDS}, c);
    PathsHold(path + ".", Child(b, FIELDS), Child(h, FIELDS), {}, c);
  }

  lemma SlotHolds(path: string, b: Option<Value>, h: Option<Value>, c: Change)
    ensures c in EntryAt(Slot, path, b, h) <==> SlotLine(c, path, b, h)
  {
    if b.Some? && h.Some? { RequirementHolds(path, b.value, h.value, c); }
  }

  lemma ParamsHold(prefix: string, b: Value, h: Value, c: Change)
    ensures c in Entries(Param, prefix, b, h, UnionKeys(b, h)) <==>
            exists key :: ParamLine(c, prefix + key, Entry(b, key), Entry(h, key))
  {
    EntriesHold(Param, prefix, b, h, UnionKeys(b, h), c);
    forall key
      ensures key in UnionKeys(b, h) && c in EntryAt(Param, prefix + key, Entry(b, key), Entry(h, key)) <==>
              ParamLine(c, prefix + key, Entry(b, key), Entry(h, key))
    {
      ParamHolds(prefix + key, Entry(b, key), Entry(h, key), c);
    }
  }

  lemma SlotsHold(prefix: string, b: Value, h: Value, c: Change)
    ensures c in Entries(Slot, prefix, b, h, UnionKeys(b, h)) <==>
            exists key :: SlotLine(c, prefix + key, Entry(b, key), Entry(h, key))
  {
    EntriesHold(Slot, prefix, b, h, UnionKeys(b, h), c);
    forall key
      ensures key in UnionKeys(b, h) && c in EntryAt(Slot, prefix + key, Entry(b, key), Entry(h, key)) <==>
              SlotLine(c, prefix + key, Entry(b, key), Entry(h, key))
    {
      SlotHolds(prefix + key, Entry(b, key), Entry(h, key), c);
    }
  }

  lemma ComponentHolds(path: string, b: Value, h: Value, c: Change)
    ensures c in Item(Component, path, b, h) <==> ComponentLine(c, path, b, h)
  {
    FieldsHold(path, b, h, {PARAMS, REQUIRES}, c);
    ParamsHold(path + ".param.", Child(b, PARAMS), Child(h, PARAMS), c);
    SlotsHold(path + ".requires.", Child(b, REQUIRES), Child(h, REQUIRES), c);
  }

  lemma {:induction false} RootsHold(b: Value, h: Value, roots: seq<string>, c: Change)
    ensures c in RootScalars(b, h, roots) <==>
            exists root :: root in roots && PathLine(c, "", Child(b, root), Child(h, root), {COMPONENTS})
    decreases |roots|
  {
    if roots != [] {
      var k := |roots| - 1;
      RootsHold(b, h, roots[..k], c);
      PathsHold("", Child(b, roots[k]), Child(h, roots[k]), {COMPONENTS}, c);
      assert roots == roots[..k] + [roots[k]];
    }
  }

  lemma {:induction false} MergedLast(v: Value, roots: seq<string>, id: string) returns (i: nat)
    requires id in MergedFrom(v, roots)
    ensures i < |roots| && HasCopy(v, roots[i], id) && forall j | i < j < |roots| :: !HasCopy(v, roots[j], id)
    ensures MergedFrom(v, roots)[id] == Child(Child(Child(v, roots[i]), COMPONENTS), id)
    decreases |roots|
  {
    var k := |roots| - 1;
    if HasCopy(v, roots[k], id) {
      i := k;
    } else {
      i := MergedLast(v, roots[..k], id);
    }
  }

  lemma {:induction false} MergedHas(v: Value, roots: seq<string>, root: string, id: string)
    requires root in roots && HasCopy(v, root, id)
    ensures id in MergedFrom(v, roots)
    decreases |roots|
  {
    var k := |roots| - 1;
    assert roots == roots[..k] + [roots[k]];
    if root != roots[k] { MergedHas(v, roots[..k], root, id); }
  }

  lemma MergedDelivers(v: Value, id: string)
    ensures Delivers(v, id, Entry(MergedComponents(v), id))
  {
    var roots := UnionKeys(v, Null);
    Sorting.KeysAscend(KeysOf(v) + KeysOf(Null));
    forall root | HasCopy(v, root, id) ensures root in roots && id in MergedFrom(v, roots) {
      assert root in KeysOf(v);
      MergedHas(v, roots, root, id);
    }
    if id in MergedFrom(v, roots) {
      var i := MergedLast(v, roots, id);
      forall other | HasCopy(v, other, id) ensures Sorting.Le(other, roots[i]) {
        var j :| 0 <= j < |roots| && roots[j] == other;
        if j == i { Sorting.LeTotal(other, other); }
      }
      assert DeliversFrom(v, id, roots[i], MergedFrom(v, roots)[id]);
    }
  }

  lemma DeliversOne(v: Value, id: string, copy: Option<Value>)
    requires Delivers(v, id, copy)
    ensures copy == Entry(MergedComponents(v), id)
  {
    MergedDelivers(v, id);
    var merged := Entry(MergedComponents(v), id);
    if copy.Some? && merged.Some? {
      var r :| DeliversFrom(v, id, r, copy.value);
      var q :| DeliversFrom(v, id, q, merged.value);
      Sorting.LeAntisymmetric(q, r);
    }
  }

  predicate ComponentEntry(bc: Value, hc: Value, id: string, c: Change) {
    id in UnionKeys(bc, hc) && c in EntryAt(Component, "component." + id, Entry(bc, id), Entry(hc, id))
  }

  lemma ComponentsHold(b: Value, h: Value, c: Change)
    ensures var bc, hc := MergedComponents(b), MergedComponents(h);
            c in Entries(Component, "component.", bc, hc, UnionKeys(bc, hc)) <==>
            exists id, before, after :: DeliveredLine(c, b, h, id, before, after)
  {
    var bc, hc := MergedComponents(b), MergedComponents(h);
    EntriesHold(Component, "component.", bc, hc, UnionKeys(bc, hc), c);
    forall id
      ensures ComponentEntry(bc, hc, id, c) <==> DeliveredLine(c, b, h, id, Entry(bc, id), Entry(hc, id))
    {
      MergedDelivers(b, id);
      MergedDelivers(h, id);
      if Entry(bc, id).Some? && Entry(hc, id).Some? {
        ComponentHolds("component." + id, Entry(bc, id).value, Entry(hc, id).value, c);
      }
    }
    forall id, before, after | DeliveredLine(c, b, h, id, before, after) ensures ComponentEntry(bc, hc, id, c) {
      DeliversOne(b, id, before);
      DeliversOne(h, id, after);
    }
  }

  lemma {:induction false} DedupHolds(cs: seq<Change>, c: Change)
    ensures c in Dedup(cs) <==> c in cs
    decreases |cs|
  {
    if |cs| >= 2 {
      var k := |cs| - 1;
      DedupHolds(cs[..k], c);
      assert cs == cs[..k] + [cs[k]] && cs[k - 1] == cs[..k][k - 1];
    }
  }

  /** How many runs of equal changes start after the first and up to `i`. */
  function Turns(cs: seq<Change>, i: nat): nat
    requires i < |cs|
  {
    if i == 0 then 0 else Turns(cs, i - 1) + if cs[i] == cs[i - 1] then 0 else 1
  }

  lemma {:induction false} TurnsOfPrefix(cs: seq<Change>, k: nat, i: nat)
    requires i < k <= |cs|
    ensures Turns(cs[..k], i) == Turns(cs, i)
    decreases i
  {
    if i > 0 { TurnsOfPrefix(cs, k, i - 1); }
  }

  lemma {:induction false} DedupLength(cs: seq<Change>)
    requires cs != []
    ensures |Dedup(cs)| == Turns(cs, |cs| - 1) + 1
    decreases |cs|
  {
    if |cs| >= 2 {
      var k := |cs| - 1;
      DedupLength(cs[..k]);
      TurnsOfPrefix(cs, k, k - 1);
    }
  }

  /** One line is left of every run. */
  lemma {:induction false} DedupCollapses(cs: seq<Change>, i: nat)
    requires i < |cs|
    ensures Turns(cs, i) < |Dedup(cs)| && Dedup(cs)[Turns(cs, i)] == cs[i]
    decreases |cs|, i
  {
    var k := |cs| - 1;
    DedupLength(cs);
    if i < k {
      DedupCollapses(cs[..k], i);
      TurnsOfPrefix(cs, k, i);
    } else if k > 0 {
      DedupLength(cs[..k]);
      TurnsOfPrefix(cs, k, k - 1);
      DedupCollapses(cs[..k], k - 1);
    }
  }

  lemma {:induction false} DedupRuns(cs: seq<Change>)
    ensures cs != [] ==> Dedup(cs) != [] && Dedup(cs)[|Dedup(cs)| - 1] == cs[|cs| - 1]
    ensures forall i | 0 < i < |Dedup(cs)| :: Dedup(cs)[i - 1] != Dedup(cs)[i]
    decreases |cs|
  {
    if |cs| >= 2 { DedupRuns(cs[..|cs| - 1]); }
  }

  lemma DiffRuns(b: Value, h: Value)
    ensures var d := DiffOf(b, h);
            forall i | 0 < i < |d| :: d[i - 1] != d[i] && PathLe(d[i - 1], d[i])
  {
    DedupRuns(Sorting.Sort(Found(b, h), PathLe));
    DiffIsSorted(b, h);
  }

  /** Sorting and deduplication keep what is found. */
  lemma ListedIffFound(b: Value, h: Value, c: Change)
    ensures c in DiffOf(b, h) <==> c in Found(b, h)
  {
    var found := Found(b, h);
    var sorted := Sorting.Sort(found, PathLe);
    PathLeTotal();
    Sorting.SortSorts(found, PathLe);
    assert c in found <==> c in multiset(found);
    assert c in sorted <==> c in multiset(sorted);
    DedupHolds(sorted, c);
  }

  lemma RootLines(b: Value, h: Value, c: Change)
    ensures c in RootScalars(b, h, UnionKeys(b, h)) <==>
            exists root :: PathLine(c, "", Child(b, root), Child(h, root), {COMPONENTS})
  {
    RootsHold(b, h, UnionKeys(b, h), c);
    if root :| PathLine(c, "", Child(b, root), Child(h, root), {COMPONENTS}) {
      RootThere(b, h, root, c);
    }
  }

  lemma RootThere(b: Value, h: Value, root: string, c: Change)
    requires PathLine(c, "", Child(b, root), Child(h, root), {COMPONENTS})
    ensures root in UnionKeys(b, h)
  {
    assert Child(b, root) != Child(h, root);
  }

  /** The report holds every difference and nothing else. */
  lemma DiffHolds(b: Value, h: Value, c: Change)
    ensures c in DiffOf(b, h) <==> IsDifference(c, b, h)
  {
    ListedIffFound(b, h, c);
    RootLines(b, h, c);
    ComponentsHold(b, h, c);
  }

  // ----- completeness -----

  /** What a reader of the payload sees: scalars that are there and not null, and the
      entries below. */
  datatype ItemView = ItemView(scalars: map<string, Value>, fields: map<string, Value>,
                               params: map<string, ItemView>, slots: map<string, ItemView>)

  datatype View = View(roots: map<(string, string), Value>, components: map<string, ItemView>)

  function Seen(v: Value, skip: set<string>): map<string, Value> {
    map key | key in KeysOf(v) && key !in skip && Child(v, key) != Null :: Child(v, key)
  }

  function ItemViewOf(level: Level, v: Value): ItemView
    decreases Rank(level), 0
  {
    match level
    case Param => ItemView(Seen(v, {}), map[], map[], map[])
    case Slot => ItemView(Seen(v, {FIELDS}), Seen(Child(v, FIELDS), {}), map[], map[])
    case Component =>
      ItemView(Seen(v, {PARAMS, REQUIRES}), map[], EntriesView(Param, Child(v, PARAMS)),
          EntriesView(Slot, Child(v, REQUIRES)))
  }

  function EntriesView(level: Level, v: Value): map<string, ItemView>
    decreases Rank(level), 1
  {
    map key | key in KeysOf(v) :: ItemViewOf(level, Child(v, key))
  }

  function RootsView(v: Value): map<(string, string), Value> {
    map root, key | root in KeysOf(v) && key in Seen(Child(v, root), {COMPONENTS}) ::
        (root, key) := Child(Child(v, root), key)
  }

  function ViewOf(v: Value): View {
    View(RootsView(v), EntriesView(Component, MergedComponents(v)))
  }

  lemma {:induction false} NoScalars(p: Place, b: Value, h: Value, skip: set<string>, keys: seq<string>)
    ensures Scalars(p, b, h, skip, keys) == [] <==>
            forall key | key in keys && key !in skip :: Child(b, key) == Child(h, key)
    decreases |keys|
  {
    if keys != [] {
      var k := |keys| - 1;
      NoScalars(p, b, h, skip, keys[..k]);
      assert keys == keys[..k] + [keys[k]];
    }
  }

  lemma ScalarsEmptyIff(p: Place, b: Value, h: Value, skip: set<string>)
    ensures Scalars(p, b, h, skip, UnionKeys(b, h)) == [] <==> Seen(b, skip) == Seen(h, skip)
  {
    NoScalars(p, b, h, skip, UnionKeys(b, h));
    if Seen(b, skip) == Seen(h, skip) {
      forall key | key in UnionKeys(b, h) && key !in skip ensures Child(b, key) == Child(h, key) {
        SeenChild(b, skip, key);
        SeenChild(h, skip, key);
      }
    }
    if forall key | key in UnionKeys(b, h) && key !in skip :: Child(b, key) == Child(h, key) {
      forall key ensures key in Seen(b, skip) <==> key in Seen(h, skip) {
        assert key in KeysOf(b) || key in KeysOf(h) <==> key in UnionKeys(b, h);
      }
      assert Seen(b, skip).Keys == Seen(h, skip).Keys;
    }
  }

  lemma SeenChild(v: Value, skip: set<string>, key: string)
    requires key !in skip
    ensures key in Seen(v, skip) <==> Child(v, key) != Null
    ensures key in Seen(v, skip) ==> Seen(v, skip)[key] == Child(v, key)
  {
  }

  lemma {:induction false} NoEntries(level: Level, prefix: string, b: Value, h: Value, keys: seq<string>)
    ensures Entries(level, prefix, b, h, keys) == [] <==>
            forall key | key in keys :: EntryAt(level, prefix + key, Entry(b, key), Entry(h, key)) == []
    decreases |keys|
  {
    if keys != [] {
      var k := |keys| - 1;
      NoEntries(level, prefix, b, h, keys[..k]);
      assert keys == keys[..k] + [keys[k]];
    }
  }

  lemma {:induction false} ItemEmptyIff(level: Level, path: string, b: Value, h: Value)
    ensures Item(level, path, b, h) == [] <==> ItemViewOf(level, b) == ItemViewOf(level, h)
    decreases Rank(level), 0
  {
    match level
    case Param => ScalarsEmptyIff(FieldOf(path), b, h, {});
    case Slot =>
      ScalarsEmptyIff(FieldOf(path), b, h, {FIELDS});
      ScalarsEmptyIff(Under(path + "."), Child(b, FIELDS), Child(h, FIELDS), {});
    case Component =>
      ScalarsEmptyIff(FieldOf(path), b, h, {PARAMS, REQUIRES});
      EntriesEmptyIff(Param, path + ".param.", Child(b, PARAMS), Child(h, PARAMS));
      EntriesEmptyIff(Slot, path + ".requires.", Child(b, REQUIRES), Child(h, REQUIRES));
  }

  predicate SameEntry(level: Level, b: Value, h: Value, key: string) {
    key in KeysOf(b) && key in KeysOf(h) && ItemViewOf(level, Child(b, key)) == ItemViewOf(level, Child(h, key))
  }

  lemma {:induction false} EntriesEmptyIff(level: Level, prefix: string, b: Value, h: Value)
    ensures Entries(level, prefix, b, h, UnionKeys(b, h)) == [] <==> EntriesView(level, b) == EntriesView(level, h)
    decreases Rank(level), 1
  {
    var keys := UnionKeys(b, h);
    NoEntries(level, prefix, b, h, keys);
    forall key | key in keys
      ensures EntryAt(level, prefix + key, Entry(b, key), Entry(h, key)) == [] <==> SameEntry(level, b, h, key)
    {
      assert key in KeysOf(b) + KeysOf(h);
      if key in KeysOf(b) && key in KeysOf(h) { ItemEmptyIff(level, prefix + key, Child(b, key), Child(h, key)); }
    }
    SameEntries(level, b, h);
  }

  lemma MapsEqual<K, V>(x: map<K, V>, y: map<K, V>)
    ensures x == y <==> forall key | key in x.Keys + y.Keys :: key in x && key in y && x[key] == y[key]
  {
  }

  lemma EntriesViewAt(level: Level, v: Value)
    ensures EntriesView(level, v).Keys == KeysOf(v)
    ensures forall key | key in KeysOf(v) :: EntriesView(level, v)[key] == ItemViewOf(level, Child(v, key))
  {
  }

  lemma SameEntries(level: Level, b: Value, h: Value)
    ensures EntriesView(level, b) == EntriesView(level, h) <==>
            forall key | key in UnionKeys(b, h) :: SameEntry(level, b, h, key)
  {
    EntriesViewAt(level, b);
    EntriesViewAt(level, h);
    MapsEqual(EntriesView(level, b), EntriesView(level, h));
    assert forall key :: key in UnionKeys(b, h) <==> key in KeysOf(b) + KeysOf(h);
  }

  predicate SameRoot(b: Value, h: Value, root: string) {
    Seen(Child(b, root), {COMPONENTS}) == Seen(Child(h, root), {COMPONENTS})
  }

  lemma {:induction false} NoRootScalars(b: Value, h: Value, roots: seq<string>)
    ensures RootScalars(b, h, roots) == [] <==> forall root | root in roots :: SameRoot(b, h, root)
    decreases |roots|
  {
    if roots != [] {
      var k := |roots| - 1;
      var bc, hc := Child(b, roots[k]), Child(h, roots[k]);
      assert roots == roots[..k] + [roots[k]] && roots[..k + 1] == roots;
      NoRootScalars(b, h, roots[..k]);
      RootsStep(b, h, roots, k);
      ScalarsEmptyIff(Under(""), bc, hc, {COMPONENTS});
      JoinEmpty(RootScalars(b, h, roots[..k]), Scalars(Under(""), bc, hc, {COMPONENTS}, UnionKeys(bc, hc)));
      SameRootsStep(b, h, roots[..k], roots[k]);
    }
  }

  lemma JoinEmpty(x: seq<Change>, y: seq<Change>)
    ensures x + y == [] <==> x == [] && y == []
  {
  }

  lemma SameRootsStep(b: Value, h: Value, roots: seq<string>, root: string)
    ensures (forall r | r in roots + [root] :: SameRoot(b, h, r)) <==>
            (forall r | r in roots :: SameRoot(b, h, r)) && SameRoot(b, h, root)
  {
  }

  lemma ViewsGiveRoot(b: Value, h: Value, root: string)
    requires RootsView(b) == RootsView(h)
    ensures SameRoot(b, h, root)
  {
    var x, y := Seen(Child(b, root), {COMPONENTS}), Seen(Child(h, root), {COMPONENTS});
    forall key | key in x.Keys + y.Keys ensures key in x && key in y && x[key] == y[key] {
      RootSeen(b, root, key);
      RootSeen(h, root, key);
    }
    MapsEqual(x, y);
  }

  lemma RootsGiveView(b: Value, h: Value)
    requires forall root | root in UnionKeys(b, h) :: SameRoot(b, h, root)
    ensures RootsView(b) == RootsView(h)
  {
    var x, y := RootsView(b), RootsView(h);
    forall rk | rk in x.Keys + y.Keys ensures rk in x && rk in y && x[rk] == y[rk] {
      RootSeen(b, rk.0, rk.1);
      RootSeen(h, rk.0, rk.1);
      assert rk.0 in KeysOf(b) + KeysOf(h);
      assert rk.0 in UnionKeys(b, h) && SameRoot(b, h, rk.0);
    }
    MapsEqual(x, y);
  }

  lemma RootsEmptyIff(b: Value, h: Value)
    ensures RootScalars(b, h, UnionKeys(b, h)) == [] <==> RootsView(b) == RootsView(h)
  {
    NoRootScalars(b, h, UnionKeys(b, h));
    if RootsView(b) == RootsView(h) {
      forall root | root in UnionKeys(b, h) ensures SameRoot(b, h, root) { ViewsGiveRoot(b, h, root); }
    } else if forall root | root in UnionKeys(b, h) :: SameRoot(b, h, root) {
      RootsGiveView(b, h);
    }
  }

  lemma RootSeen(v: Value, root: string, key: string)
    ensures (root, key) in RootsView(v) <==> key in Seen(Child(v, root), {COMPONENTS})
    ensures (root, key) in RootsView(v) ==>
              root in KeysOf(v) && RootsView(v)[(root, key)] == Child(Child(v, root), key) ==
                  Seen(Child(v, root), {COMPONENTS})[key]
  {
  }

  lemma SortedEmpty(cs: seq<Change>)
    ensures Dedup(Sorting.Sort(cs, PathLe)) == [] <==> cs == []
  {
    var sorted := Sorting.Sort(cs, PathLe);
    PathLeTotal();
    Sorting.SortSorts(cs, PathLe);
    assert |sorted| == |multiset(sorted)| == |multiset(cs)| == |cs|;
    DedupEmpty(sorted);
  }

  lemma {:induction false} DedupEmpty(cs: seq<Change>)
    ensures Dedup(cs) == [] <==> cs == []
    decreases |cs|
  {
    if |cs| >= 2 { DedupEmpty(cs[..|cs| - 1]); }
  }

  lemma PathLeTotal()
    ensures Sorting.TotalPreorder(PathLe)
  {
    forall x, y ensures PathLe(x, y) || PathLe(y, x) { Sorting.LeTotal(TextPath(x), TextPath(y)); }
    forall x, y, z | PathLe(x, y) && PathLe(y, z) ensures PathLe(x, z) {
      Sorting.LeTransitive(TextPath(x), TextPath(y), TextPath(z));
    }
  }

  /** Nothing is reported exactly when the two sides look the same: the same non-null root
      scalars, the same merged components, params and slots, and the same non-null fields. */
  lemma EmptyIffViewsAgree(b: Value, h: Value)
    ensures DiffOf(b, h) == [] <==> ViewOf(b) == ViewOf(h)
  {
    SortedEmpty(Found(b, h));
    RootsEmptyIff(b, h);
    EntriesEmptyIff(Component, "component.", MergedComponents(b), MergedComponents(h));
  }

  // ----- symmetry -----

  function SwapKind(k: Kind): Kind {
    match k case Changed => Changed case Added => Removed case Removed => Added
  }

  function Swap(c: Change): Change {
    Change(c.path, c.field, SwapKind(c.kind), c.after, c.before)
  }

  function SwapAll(cs: seq<Change>): (r: seq<Change>)
    ensures |r| == |cs| && forall i | 0 <= i < |cs| :: r[i] == Swap(cs[i])
  {
    seq(|cs|, i requires 0 <= i < |cs| => Swap(cs[i]))
  }

  lemma SwapJoin(x: seq<Change>, y: seq<Change>)
    ensures SwapAll(x + y) == SwapAll(x) + SwapAll(y)
  {
  }

  lemma UnionSwaps(b: Value, h: Value)
    ensures UnionKeys(b, h) == UnionKeys(h, b)
  {
    assert KeysOf(b) + KeysOf(h) == KeysOf(h) + KeysOf(b);
  }

  lemma {:induction false} ScalarsSwap(p: Place, b: Value, h: Value, skip: set<string>, keys: seq<string>)
    ensures Scalars(p, h, b, skip, keys) == SwapAll(Scalars(p, b, h, skip, keys))
    decreases |keys|
  {
    if keys != [] {
      var k := |keys| - 1;
      ScalarsSwap(p, b, h, skip, keys[..k]);
      var last := if keys[k] in skip then [] else ScalarAt(p, b, h, keys[k]);
      var last' := if keys[k] in skip then [] else ScalarAt(p, h, b, keys[k]);
      assert last' == SwapAll(last);
      SwapJoin(Scalars(p, b, h, skip, keys[..k]), last);
    }
  }

  lemma {:induction false} ItemSwaps(level: Level, path: string, b: Value, h: Value)
    ensures Item(level, path, h, b) == SwapAll(Item(level, path, b, h))
    decreases Rank(level), 0, 0
  {
    UnionSwaps(b, h);
    var keys := UnionKeys(b, h);
    match level
    case Param => ScalarsSwap(FieldOf(path), b, h, {}, keys);
    case Slot =>
      var bf, hf := Child(b, FIELDS), Child(h, FIELDS);
      UnionSwaps(bf, hf);
      ScalarsSwap(FieldOf(path), b, h, {FIELDS}, keys);
      ScalarsSwap(Under(path + "."), bf, hf, {}, UnionKeys(bf, hf));
      SwapJoin(Scalars(FieldOf(path), b, h, {FIELDS}, keys), Scalars(Under(path + "."), bf, hf, {}, UnionKeys(bf, hf)));
    case Component =>
      var bp, hp, br, hr := Child(b, PARAMS), Child(h, PARAMS), Child(b, REQUIRES), Child(h, REQUIRES);
      UnionSwaps(bp, hp);
      UnionSwaps(br, hr);
      ScalarsSwap(FieldOf(path), b, h, {PARAMS, REQUIRES}, keys);
      EntriesSwap(Param, path + ".param.", bp, hp, UnionKeys(bp, hp));
      EntriesSwap(Slot, path + ".requires.", br, hr, UnionKeys(br, hr));
      var x, y, z := Scalars(FieldOf(path), b, h, {PARAMS, REQUIRES}, keys),
          Entries(Param, path + ".param.", bp, hp, UnionKeys(bp, hp)),
                     Entries(Slot, path + ".requires.", br, hr, UnionKeys(br, hr));
      SwapJoin(x, y);
      SwapJoin(x + y, z);
  }

  lemma {:induction false} EntriesSwap(level: Level, prefix: string, b: Value, h: Value, keys: seq<string>)
    ensures Entries(level, prefix, h, b, keys) == SwapAll(Entries(level, prefix, b, h, keys))
    decreases Rank(level), 1, |keys|
  {
    if keys != [] {
      var k := |keys| - 1;
      EntriesSwap(level, prefix, b, h, keys[..k]);
      var bv, hv := Entry(b, keys[k]), Entry(h, keys[k]);
      if bv.Some? && hv.Some? { ItemSwaps(level, prefix + keys[k], bv.value, hv.value); }
      assert EntryAt(level, prefix + keys[k], hv, bv) == SwapAll(EntryAt(level, prefix + keys[k], bv, hv));
      SwapJoin(Entries(level, prefix, b, h, keys[..k]), EntryAt(level, prefix + keys[k], bv, hv));
    }
  }

  lemma {:induction false} RootsSwap(b: Value, h: Value, roots: seq<string>)
    ensures RootScalars(h, b, roots) == SwapAll(RootScalars(b, h, roots))
    decreases |roots|
  {
    if roots != [] {
      var k := |roots| - 1;
      var bc, hc := Child(b, roots[k]), Child(h, roots[k]);
      RootsSwap(b, h, roots[..k]);
      UnionSwaps(bc, hc);
      ScalarsSwap(Under(""), bc, hc, {COMPONENTS}, UnionKeys(bc, hc));
      SwapJoin(RootScalars(b, h, roots[..k]), Scalars(Under(""), bc, hc, {COMPONENTS}, UnionKeys(bc, hc)));
    }
  }

  lemma SwapPath(x: Change, y: Change)
    ensures PathLe(Swap(x), Swap(y)) == PathLe(x, y)
  {
  }

  lemma {:induction false} InsertSwaps(c: Change, cs: seq<Change>)
    ensures Sorting.Insert(Swap(c), SwapAll(cs), PathLe) == SwapAll(Sorting.Insert(c, cs, PathLe))
    decreases |cs|
  {
    if cs != [] { SwapPath(c, cs[0]); }
    if cs == [] || PathLe(c, cs[0]) {
      SwapJoin([c], cs);
      assert SwapAll([c]) == [Swap(c)];
    } else {
      InsertSwaps(c, cs[1..]);
      assert SwapAll(cs)[1..] == SwapAll(cs[1..]);
      SwapJoin([cs[0]], Sorting.Insert(c, cs[1..], PathLe));
      assert SwapAll([cs[0]]) == [Swap(cs[0])];
    }
  }

  lemma {:induction false} SortSwaps(cs: seq<Change>)
    ensures Sorting.Sort(SwapAll(cs), PathLe) == SwapAll(Sorting.Sort(cs, PathLe))
    decreases |cs|
  {
    if cs != [] {
      SortSwaps(cs[1..]);
      assert SwapAll(cs)[1..] == SwapAll(cs[1..]);
      InsertSwaps(cs[0], Sorting.Sort(cs[1..], PathLe));
    }
  }

  lemma SwapTwice(c: Change)
    ensures Swap(Swap(c)) == c
  {
  }

  lemma {:induction false} DedupSwaps(cs: seq<Change>)
    ensures Dedup(SwapAll(cs)) == SwapAll(Dedup(cs))
    decreases |cs|
  {
    if |cs| >= 2 {
      var k := |cs| - 1;
      var swapped := SwapAll(cs);
      DedupSwaps(cs[..k]);
      assert swapped[..k] == SwapAll(cs[..k]);
      SwapTwice(cs[k]);
      SwapTwice(cs[k - 1]);
      assert swapped[k] == swapped[k - 1] <==> cs[k] == cs[k - 1];
      SwapJoin(Dedup(cs[..k]), [cs[k]]);
      assert SwapAll([cs[k]]) == [Swap(cs[k])];
    }
  }

  /** Swapping the sides gives the same list, line by line, with before and after and added
      and removed exchanged. */
  lemma DiffSwaps(b: Value, h: Value)
    ensures DiffOf(h, b) == SwapAll(DiffOf(b, h))
  {
    var bc, hc := MergedComponents(b), MergedComponents(h);
    UnionSwaps(b, h);
    UnionSwaps(bc, hc);
    RootsSwap(b, h, UnionKeys(b, h));
    EntriesSwap(Component, "component.", bc, hc, UnionKeys(bc, hc));
    SwapJoin(RootScalars(b, h, UnionKeys(b, h)), Entries(Component, "component.", bc, hc, UnionKeys(bc, hc)));
    SortSwaps(Found(b, h));
    DedupSwaps(Sorting.Sort(Found(b, h), PathLe));
  }

  // ----- order -----

  lemma {:induction false} DedupSorted(cs: seq<Change>)
    requires Sorting.Sorted(cs, PathLe)
    ensures Sorting.Sorted(Dedup(cs), PathLe) && forall c :: c in Dedup(cs) <==> c in cs
    decreases |cs|
  {
    if |cs| >= 2 {
      var k := |cs| - 1;
      assert Sorting.Sorted(cs[..k], PathLe);
      DedupSorted(cs[..k]);
      assert cs == cs[..k] + [cs[k]] && cs[k - 1] == cs[..k][k - 1];
      forall c | c in Dedup(cs[..k]) ensures PathLe(c, cs[k]) {
        var i :| 0 <= i < k && cs[i] == c;
      }
    }
  }

  lemma {:induction false} LongerIsNotLe(s: string, more: string)
    requires more != []
    ensures !Sorting.Le(s + more, s)
  {
    if s == [] {
      assert s + more == more;
    } else {
      assert (s + more)[1..] == s[1..] + more;
      LongerIsNotLe(s[1..], more);
    }
  }

  lemma DiffIsSorted(b: Value, h: Value)
    ensures Sorting.Sorted(DiffOf(b, h), PathLe)
  {
    PathLeTotal();
    Sorting.SortSorts(Found(b, h), PathLe);
    DedupSorted(Sorting.Sort(Found(b, h), PathLe));
  }

  predicate IsValueLine(c: Change) {
    c.field == Some(VALUE_FIELD)
  }

  predicate IsMetadataLine(c: Change) {
    c.field.Some? && c.field.value != VALUE_FIELD
  }

  lemma MetadataIsLater(v: Change, m: Change)
    requires v.path == m.path && IsValueLine(v) && IsMetadataLine(m)
    ensures !PathLe(m, v)
  {
    var more := "." + m.field.value;
    assert TextPath(m) == TextPath(v) + more;
    LongerIsNotLe(TextPath(v), more);
  }

  /** A level's value line comes before its metadata lines. */
  lemma ValueComesFirst(b: Value, h: Value, i: nat, j: nat)
    requires i < |DiffOf(b, h)| && j < |DiffOf(b, h)| && DiffOf(b, h)[i].path == DiffOf(b, h)[j].path
    requires IsValueLine(DiffOf(b, h)[i]) && IsMetadataLine(DiffOf(b, h)[j])
    ensures i < j
  {
    DiffIsSorted(b, h);
    MetadataIsLater(DiffOf(b, h)[i], DiffOf(b, h)[j]);
  }

  // ----- where the view stops -----

  /** A component that is not an object has nothing the walk compares: two payloads can
      differ there and report nothing. */
  lemma ShapelessComponentIsInvisible(root: string, id: string, x: Value, y: Value)
    requires !x.Object? && !y.Object?
    ensures DiffOf(Object(map[root := Object(map[COMPONENTS := Object(map[id := x])])]),
                   Object(map[root := Object(map[COMPONENTS := Object(map[id := y])])])) == []
  {
    var b := Object(map[root := Object(map[COMPONENTS := Object(map[id := x])])]);
    var h := Object(map[root := Object(map[COMPONENTS := Object(map[id := y])])]);
    OneRoot(root, id, x);
    OneRoot(root, id, y);
    assert ItemViewOf(Component, x) == ItemViewOf(Component, y) by {
      assert Seen(x, {PARAMS, REQUIRES}) == map[] == Seen(y, {PARAMS, REQUIRES});
      assert EntriesView(Param, Null) == map[] && EntriesView(Slot, Null) == map[];
    }
    EmptyIffViewsAgree(b, h);
  }

  lemma OneRoot(root: string, id: string, x: Value)
    ensures var v := Object(map[root := Object(map[COMPONENTS := Object(map[id := x])])]);
            ViewOf(v) == View(map[], map[id := ItemViewOf(Component, x)])
  {
    var inner := Object(map[COMPONENTS := Object(map[id := x])]);
    var v := Object(map[root := inner]);
    assert Child(v, root) == inner && Seen(inner, {COMPONENTS}) == map[];
    assert RootsView(v) == map[];
    var roots := UnionKeys(v, Null);
    assert forall k :: k in roots <==> k == root;
    MergedOne(v, roots, root, map[id := x]);
    assert MergedComponents(v) == Object(map[id := x]);
  }

  lemma {:induction false} MergedOne(v: Value, roots: seq<string>, root: string, components: map<string, Value>)
    requires (forall k | k in roots :: k == root) && Child(Child(v, root), COMPONENTS) == Object(components)
    ensures MergedFrom(v, roots) == if roots == [] then map[] else components
    decreases |roots|
  {
    if roots != [] {
      var k := |roots| - 1;
      assert roots[k] in roots && forall x | x in roots[..k] :: x in roots;
      MergedOne(v, roots[..k], root, components);
      assert components + components == components && map[] + components == components;
    }
  }
}
