/** Chunk ingestion (compiler/src/compiler_core.rs, `Compiler`). */
module Ingest {
  import opened LinkRules
  import opened Summaries
  import HeaderMerge
  import Link
  import Sorting

  /** An entity by its canonical form. */
  type Entity = string

  /** The seven entity maps of a chunk as one. */
  type Entities = map<Id, Entity>

  datatype Config = Config(package: string, version: string, entities: Entities)

  datatype SourceChunk = SourceChunk(sourceId: string, chunkHash: string, config: Config)

  datatype Added = Recorded | DuplicateSource | DuplicateEntity | DuplicateContent(existing: string)

  /** Content addressing: the address is a function of the entities alone. */
  type Digest = Entities -> string

  ghost predicate Injective(digest: Digest) {
    forall x, y | digest(x) == digest(y) :: x == y
  }

  // ----- what merging checks -----

  /** The id whose presence makes this one a duplicate across the shared facet id space. */
  function Twin(id: Id): Id {
    if id.0 == FacetIds then (Bindings, id.1) else if id.0 == Bindings then (FacetIds, id.1) else id
  }

  /** The chunk can be merged: none of its ids is taken, nor its twin, nor is one of its
      ids both a facet and a binding. */
  predicate Mergeable(repository: Entities, partial: Entities) {
    && (forall id | id in partial :: id !in repository && Twin(id) !in repository)
    && forall id | id in partial :: Twin(id) == id || Twin(id) !in partial
  }

  predicate TwinFree(repository: Entities) {
    forall id | id in repository :: Twin(id) == id || Twin(id) !in repository
  }

  function Part(partial: Entities, ns: Namespace): Entities {
    map id | id in partial && id.0 == ns :: partial[id]
  }

  /** The namespaces in the order they are merged. */
  const MERGE_ORDER: seq<Namespace> := [Definitions, Artifacts, Components, FacetIds, Constraints, Catalogues, Bindings]

  function PartsOf(partial: Entities, done: set<Namespace>): Entities {
    map id | id in partial && id.0 in done :: partial[id]
  }

  // ----- what a failed merge leaves -----

  predicate Clashes(repository: Entities, id: Id) {
    id in repository || Twin(id) in repository
  }

  /** Insert one after the other, stopping at the first that clashes. */
  function MergeIds(repository: Entities, partial: Entities, ids: seq<Id>): Entities
    requires forall id | id in ids :: id in partial
    decreases |ids|
  {
    if ids == [] || Clashes(repository, ids[0]) then repository
    else MergeIds(repository[ids[0] := partial[ids[0]]], partial, ids[1..])
  }

  /** An iteration order over a map's keys. */
  predicate Lists(ids: seq<Id>, keys: set<Id>) {
    Sorting.NoRepeats(ids) && (forall id | id in ids :: id in keys) && forall id | id in keys :: id in ids
  }

  ghost predicate MergedInOrder(before: Entities, partial: Entities, ns: Namespace, after: Entities) {
    exists ids :: Lists(ids, Part(partial, ns).Keys) && after == MergeIds(before, partial, ids)
  }

  /** The namespaces merged before the `k`th. */
  function Earlier(k: nat): set<Namespace>
    requires k <= |MERGE_ORDER|
  {
    set i | 0 <= i < k :: MERGE_ORDER[i]
  }

  function MergedUpTo(was: Entities, partial: Entities, k: nat): Entities
    requires k <= |MERGE_ORDER|
  {
    was + PartsOf(partial, Earlier(k))
  }

  predicate FitsAt(was: Entities, partial: Entities, k: nat)
    requires k < |MERGE_ORDER|
  {
    Fits(MergedUpTo(was, partial, k), partial, MERGE_ORDER[k])
  }

  /** The `k`th namespace is the first that does not fit. */
  predicate Misfit(was: Entities, partial: Entities, k: nat) {
    k < |MERGE_ORDER| && !FitsAt(was, partial, k) && forall i | 0 <= i < k :: FitsAt(was, partial, i)
  }

  /** With `ids` as the order of the first namespace that does not fit, `after` is left. */
  predicate LeftInOrder(was: Entities, partial: Entities, k: nat, ids: seq<Id>, after: Entities) {
    && Misfit(was, partial, k) && Lists(ids, Part(partial, MERGE_ORDER[k]).Keys)
    && after == MergeIds(MergedUpTo(was, partial, k), partial, ids)
  }

  /** A failed merge under some iteration order leaves `after`. */
  ghost predicate LeftBy(was: Entities, partial: Entities, after: Entities) {
    exists k, ids :: LeftInOrder(was, partial, k, ids, after)
  }

  // ----- states -----

  function HashesOf(chunks: seq<SourceChunk>): seq<string> {
    seq(|chunks|, i requires 0 <= i < |chunks| => chunks[i].chunkHash)
  }

  predicate Holds(repository: Entities, entities: Entities) {
    forall id | id in entities :: id in repository && repository[id] == entities[id]
  }

  /** What every run keeps, failures included: the repository holds every recorded chunk,
      no id is both a facet and a binding, and recorded chunks share no id, no source and
      no address. */
  ghost predicate Weak(repository: Entities, chunks: seq<SourceChunk>, digest: Digest) {
    && TwinFree(repository)
    && (forall i | 0 <= i < |chunks| :: Holds(repository, chunks[i].config.entities))
    && (forall i | 0 <= i < |chunks| :: chunks[i].chunkHash == digest(chunks[i].config.entities))
    && forall i, j | 0 <= i < j < |chunks| :: Apart(chunks[i], chunks[j])
  }

  predicate Apart(x: SourceChunk, y: SourceChunk) {
    && x.sourceId != y.sourceId && x.chunkHash != y.chunkHash
    && forall id | id in x.config.entities :: id !in y.config.entities
  }

  /** Nothing in the repository but recorded chunks. */
  predicate Covered(repository: Entities, chunks: seq<SourceChunk>) {
    forall id | id in repository :: exists i :: 0 <= i < |chunks| && id in chunks[i].config.entities
  }

  /** What runs of successful adds keep: the repository is the disjoint union of the
      recorded chunks. */
  ghost predicate Strong(repository: Entities, chunks: seq<SourceChunk>, digest: Digest) {
    Weak(repository, chunks, digest) && Covered(repository, chunks)
  }

  // ----- the ingester -----

  class Compiler {
    var repository: Entities
    var chunks: seq<SourceChunk>
    const digest: Digest

    constructor (digest: Digest)
      ensures this.digest == digest && repository == map[] && chunks == []
      ensures Strong(repository, chunks, digest)
    {
      this.digest := digest;
      repository, chunks := map[], [];
    }

    /** Merge one namespace, in any order, stopping at the first duplicate. */
    method MergeNamespace(partial: Entities, ns: Namespace) returns (ok: bool)
      modifies this`repository
      ensures ok <==> Fits(old(repository), partial, ns)
      ensures ok ==> repository == old(repository) + Part(partial, ns)
      ensures MergedInOrder(old(repository), partial, ns, repository)
      ensures TwinFree(old(repository)) ==> TwinFree(repository)
    {
      var rest := Part(partial, ns).Keys;
      ghost var was, done := repository, {};
      ghost var seen: seq<Id> := [];
      assert repository == Extended(was, partial, {});
      while rest != {}
        invariant Split(done, rest, Part(partial, ns).Keys) && Lists(seen, done)
        invariant repository == Extended(was, partial, done) && AllNew(was, done)
        invariant TwinFree(was) ==> TwinFree(repository)
        decreases rest
      {
        var id :| id in rest;
        if Clashes(repository, id) {
          TakenBefore(was, partial, done, id, ns);
          ghost var others := ListExists(rest - {id});
          StopsAt(was, partial, ns, seen, done, id, others, rest);
          return false;
        }
        InsertKeepsTwinFree(repository, id, partial[id]);
        ExtendStep(was, partial, done, id);
        ListsJoin(seen, done, [id], {id});
        SplitStep(done, rest, Part(partial, ns).Keys, id);
        repository := repository[id := partial[id]];
        rest, done, seen := rest - {id}, done + {id}, seen + [id];
      }
      ExtendedAll(was, partial, ns);
      MergedAll(was, partial, ns, seen);
      return true;
    }

    /** Merge every namespace. On failure what was merged before the duplicate stays. */
    method MergePartial(partial: Entities) returns (ok: bool)
      modifies this`repository
      ensures ok <==> Mergeable(old(repository), partial)
      ensures ok ==> repository == old(repository) + partial
      ensures !ok ==> LeftBy(old(repository), partial, repository)
      ensures TwinFree(old(repository)) ==> TwinFree(repository)
    {
      ghost var was := repository;
      ok := true;
      Starts(was, partial);
      for k := 0 to |MERGE_ORDER|
        invariant ok && Merging(was, partial, k, repository)
        invariant TwinFree(was) ==> TwinFree(repository)
      {
        ghost var before := repository;
        ok := MergeNamespace(partial, MERGE_ORDER[k]);
        if !ok {
          Stops(was, partial, k, before, repository);
          return;
        }
        GoesOn(was, partial, k, before);
      }
      Ends(was, partial, repository);
    }

    /** `add_parsed_chunk`. */
    method AddParsedChunk(sourceId: string, config: Config) returns (r: Added)
      requires Weak(repository, chunks, digest)
      modifies this`repository, this`chunks
      ensures Weak(repository, chunks, digest)
      ensures Holds(repository, old(repository))
      ensures r == Recorded <==>
              (forall c | c in old(chunks) :: c.sourceId != sourceId) && Mergeable(old(repository), config.entities) &&
              digest(config.entities) !in HashesOf(old(chunks))
      ensures r == Recorded ==>
              chunks == old(chunks) + [SourceChunk(sourceId, digest(config.entities), config)] &&
              repository == old(repository) + config.entities
      ensures r != Recorded ==> chunks == old(chunks)
      ensures r == DuplicateSource ==> repository == old(repository)
      ensures r == DuplicateEntity <==>
              (forall c | c in old(chunks) :: c.sourceId != sourceId) && !Mergeable(old(repository), config.entities)
      ensures r == DuplicateEntity ==> LeftBy(old(repository), config.entities, repository)
      ensures r == Recorded && old(Strong(repository, chunks, digest)) ==> Strong(repository, chunks, digest)
      ensures r.DuplicateContent? && Injective(digest) ==> config.entities == map[] && repository == old(repository)
    {
      for k := 0 to |chunks|
        invariant forall i | 0 <= i < k :: chunks[i].sourceId != sourceId
      {
        if chunks[k].sourceId == sourceId { return DuplicateSource; }
      }
      ghost var was := repository;
      var ok := MergePartial(config.entities);
      if !ok {
        LeftHolds(was, config.entities, repository);
        FailedMergeKeepsWeak(was, chunks, digest, config.entities, repository);
        return DuplicateEntity;
      }
      var chunkHash := digest(config.entities);
      for k := 0 to |chunks|
        invariant forall i | 0 <= i < k :: chunks[i].chunkHash != chunkHash
      {
        if chunks[k].chunkHash == chunkHash {
          if Injective(digest) { OnlyEmptyRepeats(was, chunks, digest, config.entities, k); }
          assert HashesOf(chunks)[k] == chunkHash;
          return DuplicateContent(chunks[k].sourceId);
        }
      }
      ghost var chunk := SourceChunk(sourceId, chunkHash, config);
      RecordKeeps(was, chunks, digest, chunk);
      chunks := chunks + [SourceChunk(sourceId, chunkHash, config)];
      r := Recorded;
    }
  }

  // ----- steps -----

  lemma InsertKeepsTwinFree(repository: Entities, id: Id, e: Entity)
    ensures TwinFree(repository) && Twin(id) !in repository ==> TwinFree(repository[id := e])
  {
  }

  function Extended(was: Entities, partial: Entities, done: set<Id>): (after: Entities)
    requires done <= partial.Keys
    ensures Fresh(was, done) ==> Holds(after, was)
  {
    was + map id | id in done :: partial[id]
  }

  predicate Fresh(was: Entities, done: set<Id>) {
    forall id | id in done :: id !in was
  }

  predicate AllNew(was: Entities, done: set<Id>) {
    forall id | id in done :: id !in was && Twin(id) !in was
  }

  lemma ExtendStep(was: Entities, partial: Entities, done: set<Id>, id: Id)
    requires done <= partial.Keys && id in partial && AllNew(was, done)
    requires id !in Extended(was, partial, done) && Twin(id) !in Extended(was, partial, done)
    ensures Extended(was, partial, done)[id := partial[id]] == Extended(was, partial, done + {id})
    ensures AllNew(was, done + {id})
  {
  }

  lemma ExtendedAll(was: Entities, partial: Entities, ns: Namespace)
    ensures Extended(was, partial, Part(partial, ns).Keys) == was + Part(partial, ns)
    ensures AllNew(was, Part(partial, ns).Keys) <==> Fits(was, partial, ns)
  {
  }

  /** Within one namespace a conflict is with what was there before. */
  lemma TakenBefore(was: Entities, partial: Entities, done: set<Id>, id: Id, ns: Namespace)
    requires id in Part(partial, ns) && id !in done && done <= Part(partial, ns).Keys
    requires Clashes(Extended(was, partial, done), id)
    ensures Clashes(was, id) && !Fits(was, partial, ns)
  {
  }

  /** Neither the id nor its twin was taken before, and its twin, if the chunk holds it,
      is not merged yet. */
  predicate Free(was: Entities, partial: Entities, done: set<Namespace>, id: Id) {
    && id !in was && Twin(id) !in was
    && (Twin(id) == id || Twin(id).0 !in done || Twin(id) !in partial)
  }

  predicate AllFree(was: Entities, partial: Entities, done: set<Namespace>) {
    forall id | id in partial && id.0 in done :: Free(was, partial, done, id)
  }

  predicate Fits(before: Entities, partial: Entities, ns: Namespace) {
    forall id | id in partial && id.0 == ns :: id !in before && Twin(id) !in before
  }

  lemma NamespaceFits(was: Entities, partial: Entities, done: set<Namespace>, ns: Namespace, before: Entities)
    requires ns !in done && before == was + PartsOf(partial, done)
    ensures Mergeable(was, partial) ==> Fits(before, partial, ns)
  {
  }

  lemma NamespaceJoins(was: Entities, partial: Entities, done: set<Namespace>, ns: Namespace)
    ensures was + PartsOf(partial, done) + Part(partial, ns) == was + PartsOf(partial, done + {ns})
  {
    var after := was + PartsOf(partial, done + {ns});
    assert after.Keys == (was + PartsOf(partial, done) + Part(partial, ns)).Keys;
  }

  lemma StaysFree(was: Entities, partial: Entities, done: set<Namespace>, ns: Namespace, id: Id)
    requires ns !in done && Fits(was + PartsOf(partial, done), partial, ns) && id in partial && id.0 in done
    requires Free(was, partial, done, id)
    ensures Free(was, partial, done + {ns}, id)
  {
  }

  lemma BecomesFree(was: Entities, partial: Entities, done: set<Namespace>, ns: Namespace, id: Id)
    requires ns !in done && Fits(was + PartsOf(partial, done), partial, ns) && id in partial && id.0 == ns
    ensures Free(was, partial, done + {ns}, id)
  {
  }

  lemma NamespaceStep(was: Entities, partial: Entities, done: set<Namespace>, ns: Namespace, before: Entities)
    requires ns !in done && before == was + PartsOf(partial, done) && AllFree(was, partial, done) &&
             Fits(before, partial, ns)
    ensures before + Part(partial, ns) == was + PartsOf(partial, done + {ns})
    ensures AllFree(was, partial, done + {ns})
  {
    NamespaceJoins(was, partial, done, ns);
    forall id | id in partial && id.0 in done + {ns} ensures Free(was, partial, done + {ns}, id) {
      if id.0 == ns { BecomesFree(was, partial, done, ns, id); } else { StaysFree(was, partial, done, ns, id); }
    }
  }

  lemma EveryNamespace(ns: Namespace)
    ensures ns in Earlier(|MERGE_ORDER|)
  {
    match ns
    case Definitions => assert MERGE_ORDER[0] == ns;
    case Artifacts => assert MERGE_ORDER[1] == ns;
    case Components => assert MERGE_ORDER[2] == ns;
    case FacetIds => assert MERGE_ORDER[3] == ns;
    case Constraints => assert MERGE_ORDER[4] == ns;
    case Catalogues => assert MERGE_ORDER[5] == ns;
    case Bindings => assert MERGE_ORDER[6] == ns;
  }

  lemma OrderDistinct(k: nat)
    requires k < |MERGE_ORDER|
    ensures MERGE_ORDER[k] !in Earlier(k) && Earlier(k + 1) == Earlier(k) + {MERGE_ORDER[k]}
  {
  }

  lemma OrderStep(was: Entities, partial: Entities, k: nat)
    requires k < |MERGE_ORDER| && AllFree(was, partial, Earlier(k)) && FitsAt(was, partial, k)
    ensures MergedUpTo(was, partial, k) + Part(partial, MERGE_ORDER[k]) == MergedUpTo(was, partial, k + 1)
    ensures AllFree(was, partial, Earlier(k + 1))
  {
    OrderDistinct(k);
    NamespaceStep(was, partial, Earlier(k), MERGE_ORDER[k], MergedUpTo(was, partial, k));
  }

  /** The first `k` namespaces are merged. */
  predicate Merging(was: Entities, partial: Entities, k: nat, repository: Entities) {
    && k <= |MERGE_ORDER| && repository == MergedUpTo(was, partial, k)
    && (forall i | 0 <= i < k :: FitsAt(was, partial, i)) && AllFree(was, partial, Earlier(k))
  }

  lemma Starts(was: Entities, partial: Entities)
    ensures Merging(was, partial, 0, was)
  {
    assert PartsOf(partial, Earlier(0)) == map[];
  }

  lemma GoesOn(was: Entities, partial: Entities, k: nat, before: Entities)
    requires k < |MERGE_ORDER| && Merging(was, partial, k, before) && Fits(before, partial, MERGE_ORDER[k])
    ensures Merging(was, partial, k + 1, before + Part(partial, MERGE_ORDER[k]))
  {
    OrderStep(was, partial, k);
  }

  lemma Stops(was: Entities, partial: Entities, k: nat, before: Entities, after: Entities)
    requires k < |MERGE_ORDER| && Merging(was, partial, k, before) && !Fits(before, partial, MERGE_ORDER[k])
    requires MergedInOrder(before, partial, MERGE_ORDER[k], after)
    ensures !Mergeable(was, partial) && LeftBy(was, partial, after)
  {
    StoppedAt(was, partial, k, after);
  }

  lemma Ends(was: Entities, partial: Entities, repository: Entities)
    requires Merging(was, partial, |MERGE_ORDER|, repository)
    ensures Mergeable(was, partial) && repository == was + partial
  {
    AllMerged(was, partial);
  }

  lemma StoppedAt(was: Entities, partial: Entities, k: nat, after: Entities)
    requires Misfit(was, partial, k) && MergedInOrder(MergedUpTo(was, partial, k), partial, MERGE_ORDER[k], after)
    ensures !Mergeable(was, partial) && LeftBy(was, partial, after)
  {
    OrderDistinct(k);
    NamespaceFits(was, partial, Earlier(k), MERGE_ORDER[k], MergedUpTo(was, partial, k));
    var ids :| Lists(ids, Part(partial, MERGE_ORDER[k]).Keys) &&
        after == MergeIds(MergedUpTo(was, partial, k), partial, ids);
    assert LeftInOrder(was, partial, k, ids, after);
  }

  lemma AllMerged(was: Entities, partial: Entities)
    requires AllFree(was, partial, Earlier(|MERGE_ORDER|))
    ensures Mergeable(was, partial) && MergedUpTo(was, partial, |MERGE_ORDER|) == was + partial
  {
    var done := Earlier(|MERGE_ORDER|);
    forall id | id in partial ensures id.0 in done && Free(was, partial, done, id) {
      EveryNamespace(id.0);
    }
    forall id | id in partial && Twin(id) in partial ensures Twin(id) == id {
      assert Free(was, partial, done, id);
      EveryNamespace(Twin(id).0);
    }
    assert PartsOf(partial, done) == partial;
  }

  // ----- iteration orders -----

  predicate Split(done: set<Id>, rest: set<Id>, all: set<Id>) {
    done !! rest && done + rest == all
  }

  lemma SplitStep(done: set<Id>, rest: set<Id>, all: set<Id>, id: Id)
    requires Split(done, rest, all) && id in rest
    ensures Split(done + {id}, rest - {id}, all)
  {
  }

  lemma {:induction false} ListExists(keys: set<Id>) returns (ids: seq<Id>)
    ensures Lists(ids, keys)
  {
    ids := [];
    if id :| id in keys {
      var rest := ListExists(keys - {id});
      ListsJoin([id], {id}, rest, keys - {id});
      ids := [id] + rest;
      assert {id} + (keys - {id}) == keys;
    }
  }

  lemma ListsJoin(xs: seq<Id>, keys: set<Id>, ys: seq<Id>, more: set<Id>)
    requires Lists(xs, keys) && Lists(ys, more) && keys !! more
    ensures Lists(xs + ys, keys + more)
  {
    Sorting.NoRepeatsJoin(xs, ys);
  }

  lemma ListedSet(ids: seq<Id>, keys: set<Id>)
    requires Lists(ids, keys)
    ensures (set id | id in ids) == keys
  {
  }

  predicate Within(ids: seq<Id>, partial: Entities, ns: Namespace) {
    forall id | id in ids :: id in partial && id.0 == ns
  }

  /** Ids that clash with nothing are all inserted, up to the first that clashes. */
  lemma {:induction false} MergedSome(was: Entities, partial: Entities, ns: Namespace, seen: seq<Id>, tail: seq<Id>)
    requires Within(seen, partial, ns) && Within(tail, partial, ns) && Within(seen + tail, partial, ns)
    requires Sorting.NoRepeats(seen) && AllNew(was, set id | id in seen) && (tail != [] ==> Clashes(was, tail[0]))
    ensures MergeIds(was, partial, seen + tail) == Extended(was, partial, set id | id in seen)
    decreases |seen|
  {
    if seen == [] {
      assert seen + tail == tail;
    } else {
      var id, rest := seen[0], seen[1..];
      var was' := was[id := partial[id]];
      assert (seen + tail)[0] == id && (seen + tail)[1..] == rest + tail;
      Sorting.NoRepeatsTail(seen);
      InsertFirst(was, partial, ns, seen);
      MergedSome(was', partial, ns, rest, tail);
    }
  }

  /** The order in which a namespace was walked up to a clash, completed to an order of all of it. */
  lemma StopsAt(was: Entities, partial: Entities, ns: Namespace, seen: seq<Id>, done: set<Id>, id: Id,
                others: seq<Id>, rest: set<Id>)
    requires Split(done, rest, Part(partial, ns).Keys) && Lists(seen, done) && AllNew(was, done)
    requires id in rest && Lists(others, rest - {id}) && Clashes(was, id)
    ensures Lists(seen + ([id] + others), Part(partial, ns).Keys)
    ensures MergeIds(was, partial, seen + ([id] + others)) == Extended(was, partial, done)
  {
    var tail := [id] + others;
    ListsJoin([id], {id}, others, rest - {id});
    assert {id} + (rest - {id}) == rest;
    ListsJoin(seen, done, tail, rest);
    ListedSet(seen, done);
    MergedSome(was, partial, ns, seen, tail);
  }

  lemma MergedAll(was: Entities, partial: Entities, ns: Namespace, seen: seq<Id>)
    requires Lists(seen, Part(partial, ns).Keys) && AllNew(was, Part(partial, ns).Keys)
    ensures MergeIds(was, partial, seen) == Extended(was, partial, Part(partial, ns).Keys)
  {
    ListedSet(seen, Part(partial, ns).Keys);
    MergedSome(was, partial, ns, seen, []);
    assert seen + [] == seen;
  }

  lemma InsertFirst(was: Entities, partial: Entities, ns: Namespace, seen: seq<Id>)
    requires seen != [] && Within(seen, partial, ns) && AllNew(was, set id | id in seen) && seen[0] !in seen[1..]
    ensures !Clashes(was, seen[0]) && AllNew(was[seen[0] := partial[seen[0]]], set id | id in seen[1..])
    ensures Extended(was[seen[0] := partial[seen[0]]], partial, set id | id in seen[1..]) ==
            Extended(was, partial, set id | id in seen)
  {
    var id, less := seen[0], (set x | x in seen[1..]);
    assert (set x | x in seen) == less + {id};
    InsertOne(was, partial, ns, id, less);
  }

  lemma InsertOne(was: Entities, partial: Entities, ns: Namespace, id: Id, less: set<Id>)
    requires id in partial && less <= partial.Keys && id !in less && AllNew(was, less + {id})
    requires id.0 == ns && forall x | x in less :: x.0 == ns
    ensures !Clashes(was, id) && AllNew(was[id := partial[id]], less)
    ensures Extended(was[id := partial[id]], partial, less) == Extended(was, partial, less + {id})
  {
    assert id in less + {id};
    forall x | x in less ensures x !in was[id := partial[id]] && Twin(x) !in was[id := partial[id]] {
      assert x in less + {id};
    }
  }

  /** The ids of the `k`th namespace that could be inserted. */
  function Insertable(was: Entities, partial: Entities, k: nat): set<Id>
    requires k < |MERGE_ORDER|
  {
    set id | id in partial && id.0 == MERGE_ORDER[k] && !Clashes(MergedUpTo(was, partial, k), id)
  }

  lemma {:induction false} SplitAtClash(repository: Entities, ids: seq<Id>, k: nat) returns (j: nat)
    requires k <= |ids| && forall i | 0 <= i < k :: !Clashes(repository, ids[i])
    ensures j <= |ids| && (forall i | 0 <= i < j :: !Clashes(repository, ids[i])) &&
            (j < |ids| ==> Clashes(repository, ids[j]))
    decreases |ids| - k
  {
    if k == |ids| || Clashes(repository, ids[k]) { j := k; } else { j := SplitAtClash(repository, ids, k + 1); }
  }

  lemma InsertedSome(before: Entities, partial: Entities, ns: Namespace, ids: seq<Id>) returns (some: set<Id>)
    requires Lists(ids, Part(partial, ns).Keys)
    ensures forall id | id in some :: id in partial && id.0 == ns && !Clashes(before, id)
    ensures MergeIds(before, partial, ids) == Extended(before, partial, some)
  {
    var j := SplitAtClash(before, ids, 0);
    var seen, tail := ids[..j], ids[j..];
    some := set id | id in seen;
    assert ids == seen + tail;
    assert Within(seen + tail, partial, ns) && Within(seen, partial, ns) && Within(tail, partial, ns) by {
      forall id | id in seen + tail ensures id in partial && id.0 == ns { assert id in ids; }
      assert forall id | id in seen :: id in seen + tail;
      assert forall id | id in tail :: id in seen + tail;
    }
    forall id | id in seen ensures !Clashes(before, id) {
      var i :| 0 <= i < j && ids[i] == id;
    }
    MergedSome(before, partial, ns, seen, tail);
  }

  /** Whatever the order, what is left is the namespaces before the first that does not fit
      and some of the ids of that one that clash with nothing. */
  lemma LeftIs(was: Entities, partial: Entities, k: nat, ids: seq<Id>, after: Entities) returns (some: set<Id>)
    requires LeftInOrder(was, partial, k, ids, after)
    ensures some <= Insertable(was, partial, k) && after == Extended(MergedUpTo(was, partial, k), partial, some)
  {
    some := InsertedSome(MergedUpTo(was, partial, k), partial, MERGE_ORDER[k], ids);
  }

  /** And every choice of these ids is left by some order. */
  lemma LeftByOrder(was: Entities, partial: Entities, k: nat, some: set<Id>)
    requires Misfit(was, partial, k) && some <= Insertable(was, partial, k)
    ensures LeftBy(was, partial, Extended(MergedUpTo(was, partial, k), partial, some))
  {
    var before, keys := MergedUpTo(was, partial, k), Part(partial, MERGE_ORDER[k]).Keys;
    assert !FitsAt(was, partial, k);
    var id :| id in partial && id.0 == MERGE_ORDER[k] && Clashes(before, id);
    assert id in keys;
    var seen := ListExists(some);
    var others := ListExists(keys - some - {id});
    assert Split(some, keys - some, keys);
    StopsAt(before, partial, MERGE_ORDER[k], seen, some, id, others, keys - some);
    assert LeftInOrder(was, partial, k, seen + ([id] + others), Extended(before, partial, some));
  }

  lemma {:induction false} FitsAreFree(was: Entities, partial: Entities, k: nat)
    requires k <= |MERGE_ORDER| && forall i | 0 <= i < k :: FitsAt(was, partial, i)
    ensures AllFree(was, partial, Earlier(k))
  {
    if k > 0 {
      FitsAreFree(was, partial, k - 1);
      assert FitsAt(was, partial, k - 1);
      OrderStep(was, partial, k - 1);
    }
  }

  lemma AllFit(was: Entities, partial: Entities)
    requires forall i | 0 <= i < |MERGE_ORDER| :: FitsAt(was, partial, i)
    ensures Mergeable(was, partial)
  {
    FitsAreFree(was, partial, |MERGE_ORDER|);
    AllMerged(was, partial);
  }

  lemma {:induction false} FirstMisfit(was: Entities, partial: Entities, i: nat) returns (k: nat)
    requires i < |MERGE_ORDER| && !FitsAt(was, partial, i)
    ensures Misfit(was, partial, k)
    decreases i
  {
    if j :| 0 <= j < i && !FitsAt(was, partial, j) {
      k := FirstMisfit(was, partial, j);
    } else {
      k := i;
    }
  }

  /** A merge can fail exactly when the chunk is not mergeable. */
  lemma FailsIff(was: Entities, partial: Entities)
    ensures (exists after :: LeftBy(was, partial, after)) <==> !Mergeable(was, partial)
  {
    if after :| LeftBy(was, partial, after) {
      var k, ids :| LeftInOrder(was, partial, k, ids, after);
      StoppedAt(was, partial, k, after);
    } else {
      if i :| 0 <= i < |MERGE_ORDER| && !FitsAt(was, partial, i) {
        var k := FirstMisfit(was, partial, i);
        LeftByOrder(was, partial, k, {});
      } else {
        AllFit(was, partial);
      }
    }
  }

  /** What was there stays as it was. */
  lemma LeftHolds(was: Entities, partial: Entities, after: Entities)
    requires LeftBy(was, partial, after)
    ensures Holds(after, was)
  {
    var k, ids :| LeftInOrder(was, partial, k, ids, after);
    FitsAreFree(was, partial, k);
    var some := LeftIs(was, partial, k, ids, after);
    forall id | id in was ensures id in after && after[id] == was[id] {
      assert id in partial && id.0 in Earlier(k) ==> Free(was, partial, Earlier(k), id);
    }
  }

  /** The weaker invariant survives a failed merge, whatever the order. */
  lemma FailedMergeKeepsWeak(was: Entities, chunks: seq<SourceChunk>, digest: Digest, partial: Entities,
                             after: Entities)
    requires Weak(was, chunks, digest) && LeftBy(was, partial, after) && TwinFree(after)
    ensures Weak(after, chunks, digest)
  {
    LeftHolds(was, partial, after);
  }

  /** Nothing would be inserted before the first clash: the chunk has nothing in the namespaces
      before it, and in its own nothing that does not clash. */
  predicate NothingToLeave(was: Entities, partial: Entities) {
    forall k | 0 <= k < |MERGE_ORDER| && Misfit(was, partial, k) :: NothingToLeaveAt(was, partial, k)
  }

  predicate NothingToLeaveAt(was: Entities, partial: Entities, k: nat)
    requires k < |MERGE_ORDER|
  {
    forall id | id in partial :: id.0 !in Earlier(k) && (id.0 == MERGE_ORDER[k] ==> Clashes(was, id))
  }

  lemma NothingLeft(was: Entities, partial: Entities, after: Entities)
    requires LeftBy(was, partial, after) && NothingToLeave(was, partial)
    ensures after == was
  {
    var k, ids :| LeftInOrder(was, partial, k, ids, after);
    assert NothingToLeaveAt(was, partial, k);
    NothingEarlier(was, partial, k);
    var some := LeftIs(was, partial, k, ids, after);
    assert some == {};
  }

  lemma SomethingLeft(was: Entities, partial: Entities, k: nat, id: Id)
    requires Misfit(was, partial, k) && id in partial
    requires id.0 in Earlier(k) || (id.0 == MERGE_ORDER[k] && !Clashes(MergedUpTo(was, partial, k), id))
    ensures exists after :: LeftBy(was, partial, after) && after != was
  {
    FitsAreFree(was, partial, k);
    var some := Insertable(was, partial, k);
    var after := Extended(MergedUpTo(was, partial, k), partial, some);
    LeftByOrder(was, partial, k, some);
    if id.0 in Earlier(k) { assert Free(was, partial, Earlier(k), id); }
    assert id in after && id !in was;
  }

  /** A failed merge leaves the repository as it was, under every iteration order, exactly when
      there is nothing to leave. */
  lemma AtomicIff(was: Entities, partial: Entities)
    ensures (forall after | LeftBy(was, partial, after) :: after == was) <==> NothingToLeave(was, partial)
  {
    if NothingToLeave(was, partial) {
      forall after | LeftBy(was, partial, after) ensures after == was { NothingLeft(was, partial, after); }
    } else {
      var k :| 0 <= k < |MERGE_ORDER| && Misfit(was, partial, k) && !NothingToLeaveAt(was, partial, k);
      if id :| id in partial && id.0 in Earlier(k) {
        SomethingLeft(was, partial, k, id);
      } else {
        NothingEarlier(was, partial, k);
        var id :| id in partial && id.0 == MERGE_ORDER[k] && !Clashes(was, id);
        SomethingLeft(was, partial, k, id);
      }
    }
  }

  lemma NothingEarlier(was: Entities, partial: Entities, k: nat)
    requires k < |MERGE_ORDER| && forall id | id in partial :: id.0 !in Earlier(k)
    ensures MergedUpTo(was, partial, k) == was
  {
    assert PartsOf(partial, Earlier(k)) == map[];
  }

  /** A chunk with a new definition and a component that is taken. */
  function StrayChunk(c: string, d: string, x: Entity, y: Entity): Entities {
    map[(Definitions, d) := x, (Components, c) := y]
  }

  /** It leaves the definition behind, whatever the order. */
  lemma StrayDefinition(was: Entities, c: string, d: string, x: Entity, y: Entity, after: Entities)
    requires (Components, c) in was && (Definitions, d) !in was && LeftBy(was, StrayChunk(c, d, x, y), after)
    ensures after == was[(Definitions, d) := x]
  {
    var partial := StrayChunk(c, d, x, y);
    var k, ids :| LeftInOrder(was, partial, k, ids, after);
    StrayMisfit(was, partial, c, d, k);
    var some := LeftIs(was, partial, k, ids, after);
    assert some == {};
  }

  /** The repository then holds more than the recorded chunks, and the definition is refused as
      a duplicate although no recorded chunk has it. */
  lemma StrayIsUnrecorded(was: Entities, chunks: seq<SourceChunk>, digest: Digest, d: string, x: Entity)
    requires Strong(was, chunks, digest) && (Definitions, d) !in was
    ensures !Covered(was[(Definitions, d) := x], chunks)
    ensures !Mergeable(was[(Definitions, d) := x], map[(Definitions, d) := x])
    ensures forall i | 0 <= i < |chunks| :: (Definitions, d) !in chunks[i].config.entities
  {
    forall i | 0 <= i < |chunks| ensures (Definitions, d) !in chunks[i].config.entities {
      assert Holds(was, chunks[i].config.entities);
    }
    assert (Definitions, d) in was[(Definitions, d) := x];
    assert (Definitions, d) in map[(Definitions, d) := x];
  }

  lemma FirstThree()
    ensures MERGE_ORDER[0] == Definitions && MERGE_ORDER[1] == Artifacts && MERGE_ORDER[2] == Components
    ensures Earlier(0) == {} && Earlier(1) == {Definitions} && Earlier(2) == {Definitions, Artifacts}
  {
    assert Earlier(1) == Earlier(0) + {MERGE_ORDER[0]} by { OrderDistinct(0); }
    assert Earlier(2) == Earlier(1) + {MERGE_ORDER[1]} by { OrderDistinct(1); }
  }

  lemma StrayUpTo(was: Entities, partial: Entities, c: string, d: string, done: set<Namespace>)
    requires partial.Keys == {(Definitions, d), (Components, c)} && Definitions in done && Components !in done
    ensures was + PartsOf(partial, done) == was[(Definitions, d) := partial[(Definitions, d)]]
  {
    assert PartsOf(partial, done) == map[(Definitions, d) := partial[(Definitions, d)]];
  }

  lemma StrayMisfit(was: Entities, partial: Entities, c: string, d: string, k: nat)
    requires partial.Keys == {(Definitions, d), (Components, c)} && (Components, c) in was && (Definitions, d) !in was
    requires Misfit(was, partial, k)
    ensures k == 2 && MergedUpTo(was, partial, k) == was[(Definitions, d) := partial[(Definitions, d)]]
    ensures Insertable(was, partial, k) == {}
  {
    FirstThree();
    StrayUpTo(was, partial, c, d, Earlier(2));
    assert FitsAt(was, partial, 0) by { assert PartsOf(partial, Earlier(0)) == map[]; }
    assert FitsAt(was, partial, 1);
    assert !FitsAt(was, partial, 2) by { assert (Components, c) in MergedUpTo(was, partial, 2); }
  }

  /** A chunk that merges and yet repeats an address holds nothing: had it an id, that id
      would have been a duplicate. */
  lemma OnlyEmptyRepeats(was: Entities, chunks: seq<SourceChunk>, digest: Digest, entities: Entities, k: nat)
    requires Weak(was, chunks, digest) && Injective(digest) && Mergeable(was, entities)
    requires k < |chunks| && chunks[k].chunkHash == digest(entities)
    ensures entities == map[]
  {
  }

  lemma RecordKeeps(was: Entities, chunks: seq<SourceChunk>, digest: Digest, chunk: SourceChunk)
    requires Weak(was, chunks, digest) && Mergeable(was, chunk.config.entities) &&
             chunk.chunkHash == digest(chunk.config.entities)
    requires forall c | c in chunks :: c.sourceId != chunk.sourceId && c.chunkHash != chunk.chunkHash
    ensures Weak(was + chunk.config.entities, chunks + [chunk], digest)
    ensures Strong(was, chunks, digest) ==> Strong(was + chunk.config.entities, chunks + [chunk], digest)
  {
    var after, all := was + chunk.config.entities, chunks + [chunk];
    MergedTwinFree(was, chunk.config.entities);
    forall i | 0 <= i < |all| ensures Holds(after, all[i].config.entities) {
      if i < |chunks| { assert Holds(was, chunks[i].config.entities); }
    }
    forall i, j | 0 <= i < j < |all| ensures Apart(all[i], all[j]) {
      if j < |chunks| {
        assert Apart(chunks[i], chunks[j]);
      } else {
        assert chunks[i] in chunks && Holds(was, chunks[i].config.entities);
      }
    }
    if Covered(was, chunks) {
      forall id | id in after ensures exists i :: 0 <= i < |all| && id in all[i].config.entities {
        if id in was {
          var i :| 0 <= i < |chunks| && id in chunks[i].config.entities;
          assert id in all[i].config.entities;
        } else {
          assert id in all[|chunks|].config.entities;
        }
      }
    }
  }

  lemma MergedTwinFree(was: Entities, entities: Entities)
    requires TwinFree(was) && Mergeable(was, entities)
    ensures TwinFree(was + entities)
  {
  }

  // ----- what the linker then sees -----

  /** A chunk as the export check sees it, under its source id. */
  function HeaderOf(c: SourceChunk): Header {
    Header(c.sourceId, c.config.entities.Keys, {}, map[], {}, map[], map[], [], [], [], [], c.chunkHash)
  }

  function HeadersOf(chunks: seq<SourceChunk>): (hs: seq<Header>)
    ensures |hs| == |chunks| && forall i | 0 <= i < |hs| :: hs[i] == HeaderOf(chunks[i])
  {
    seq(|chunks|, i requires 0 <= i < |chunks| => HeaderOf(chunks[i]))
  }

  /** After any run, successful or not, the unique-export check over the recorded chunks
      cannot fire. */
  lemma UniqueExportsCannotFire(repository: Entities, chunks: seq<SourceChunk>, digest: Digest)
    requires Weak(repository, chunks, digest)
    ensures ExportsUnique(HeaderMerge.MergeHeadersOf(HeadersOf(chunks)))
  {
    var hs := HeadersOf(chunks);
    forall id ensures !Link.ExportedTwice(hs, id) {
      forall i, j | 0 <= i < j < |hs| ensures !(id in hs[i].exports && id in hs[j].exports) {
        assert Apart(chunks[i], chunks[j]);
      }
    }
    forall name ensures !(Link.Provided(hs, (Bindings, name)) && Link.Provided(hs, (FacetIds, name))) {
      if Link.Provided(hs, (Bindings, name)) && Link.Provided(hs, (FacetIds, name)) {
        var i :| 0 <= i < |hs| && (Bindings, name) in hs[i].exports;
        var j :| 0 <= j < |hs| && (FacetIds, name) in hs[j].exports;
        BothThere(repository, chunks, i, j, name);
      }
    }
    Link.BackstopOnlySharedIds(hs);
  }

  lemma BothThere(repository: Entities, chunks: seq<SourceChunk>, i: nat, j: nat, name: string)
    requires i < |chunks| && j < |chunks| && TwinFree(repository)
    requires Holds(repository, chunks[i].config.entities) && Holds(repository, chunks[j].config.entities)
    requires (Bindings, name) in chunks[i].config.entities
    ensures (FacetIds, name) !in chunks[j].config.entities
  {
    assert (Bindings, name) in repository && Twin((Bindings, name)) == (FacetIds, name);
  }
}
