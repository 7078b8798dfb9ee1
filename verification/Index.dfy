/** The package index and its integrity check (compiler/src/ir.rs,
    compiler/src/ingest_merge.rs). */
module Index {
  import opened Ingest
  import opened Options
  import opened Summaries
  import Sorting

  const IR_FORMAT_VERSION := 4

  datatype ChunkRef = ChunkRef(chunkHash: string, sourceId: string)

  /** One chunk as written to disk. */
  datatype Chunk = Chunk(formatVersion: nat, chunkHash: string, sourceId: string, entities: Entities)

  /** Constraints are content but are not indexed. */
  predicate Indexed(id: Id) {
    id.0 != Constraints
  }

  /** The six index maps as one, from an indexed id to its chunk. */
  type Entries = m: map<Id, string> | forall id | id in m :: Indexed(id)

  datatype IrIndex = IrIndex(formatVersion: nat, chunks: seq<ChunkRef>, entries: Entries, configHash: string)

  datatype IndexInput = IndexInput(chunkHash: string, sourceId: string, exports: set<Id>)

  /** What the model identity is computed from. */
  datatype Content = Content(formatVersion: nat, chunks: seq<string>, entries: Entries)

  type ContentDigest = Content -> string

  /** A file of the chunk directory: missing and unparseable files hold nothing. */
  type Directory = map<string, Option<Chunk>>

  // ----- building -----

  function Hashes(refs: seq<ChunkRef>): (hs: seq<string>)
    ensures |hs| == |refs| && forall i | 0 <= i < |refs| :: hs[i] == refs[i].chunkHash
  {
    seq(|refs|, i requires 0 <= i < |refs| => refs[i].chunkHash)
  }

  function ContentOf(index: IrIndex): Content {
    Content(index.formatVersion, Hashes(index.chunks), index.entries)
  }

  function FromParts(refs: seq<ChunkRef>, entries: Entries, digest: ContentDigest): IrIndex {
    IrIndex(IR_FORMAT_VERSION, refs, entries, digest(Content(IR_FORMAT_VERSION, Hashes(refs), entries)))
  }

  function ComputeConfigHash(index: IrIndex, digest: ContentDigest): string {
    digest(ContentOf(index))
  }

  function RefOf(input: IndexInput): ChunkRef {
    ChunkRef(input.chunkHash, input.sourceId)
  }

  function RefsOf(inputs: seq<IndexInput>): (refs: seq<ChunkRef>)
    ensures |refs| == |inputs| && forall i | 0 <= i < |inputs| :: refs[i] == RefOf(inputs[i])
  {
    seq(|inputs|, i requires 0 <= i < |inputs| => RefOf(inputs[i]))
  }

  function Assign(ids: set<Id>, hash: string): Entries {
    map id | id in ids && Indexed(id) :: hash
  }

  /** A later chunk takes over an id an earlier one exported. */
  function EntriesOf(inputs: seq<IndexInput>): Entries {
    if inputs == [] then map[]
    else EntriesOf(inputs[..|inputs| - 1]) + Assign(inputs[|inputs| - 1].exports, inputs[|inputs| - 1].chunkHash)
  }

  predicate HashLe(a: ChunkRef, b: ChunkRef) {
    Sorting.Le(a.chunkHash, b.chunkHash)
  }

  function IndexOf(inputs: seq<IndexInput>, digest: ContentDigest): IrIndex {
    FromParts(Sorting.Sort(RefsOf(inputs), HashLe), EntriesOf(inputs), digest)
  }

  /** The last input to export an indexed id. */
  predicate LastExporter(inputs: seq<IndexInput>, i: nat, id: Id) {
    && i < |inputs| && id.0 != Constraints && id in inputs[i].exports
    && forall j | i < j < |inputs| :: id !in inputs[j].exports
  }

  /** What is built: the references by address, the entry of an id the last chunk to export it,
      and the hash over version, addresses and entries. */
  ghost predicate Builds(index: IrIndex, inputs: seq<IndexInput>, digest: ContentDigest) {
    && index.formatVersion == 4
    && multiset(index.chunks) == multiset(RefsOf(inputs)) && Sorting.Sorted(index.chunks, HashLe)
    && (forall i, id | 0 <= i < |inputs| && LastExporter(inputs, i, id) ::
          id in index.entries && index.entries[id] == inputs[i].chunkHash)
    && (forall id | id in index.entries :: exists i :: 0 <= i < |inputs| && id in inputs[i].exports)
    && index.configHash == digest(Content(4, Hashes(index.chunks), index.entries))
  }

  method BuildIndex(inputs: seq<IndexInput>, digest: ContentDigest) returns (index: IrIndex)
    ensures index == IndexOf(inputs, digest)
    ensures Builds(index, inputs, digest)
  {
    IndexBuilds(inputs, digest);
    var refs: seq<ChunkRef> := [];
    var entries: Entries := map[];
    for k := 0 to |inputs|
      invariant refs == RefsOf(inputs)[..k] && entries == EntriesOf(inputs[..k])
    {
      assert inputs[..k + 1][..k] == inputs[..k];
      refs := refs + [ChunkRef(inputs[k].chunkHash, inputs[k].sourceId)];
      entries := InsertAll(entries, inputs[k].exports, inputs[k].chunkHash);
    }
    assert inputs[..|inputs|] == inputs && RefsOf(inputs)[..|inputs|] == RefsOf(inputs);
    refs := Sorting.Sort(refs, HashLe);
    index := FromParts(refs, entries, digest);
  }

  method InsertAll(entries: Entries, ids: set<Id>, hash: string) returns (after: Entries)
    ensures after == entries + Assign(ids, hash)
  {
    after := entries;
    var rest := Assign(ids, hash).Keys;
    ghost var done: set<Id> := {};
    while rest != {}
      invariant done !! rest && done + rest == Assign(ids, hash).Keys
      invariant after == entries + Assign(done, hash)
      decreases rest
    {
      var id :| id in rest;
      AssignStep(entries, done, id, hash);
      after := after[id := hash];
      rest, done := rest - {id}, done + {id};
    }
    assert Assign(done, hash) == Assign(ids, hash);
  }

  lemma AssignStep(entries: Entries, done: set<Id>, id: Id, hash: string)
    requires Indexed(id)
    ensures (entries + Assign(done, hash))[id := hash] == entries + Assign(done + {id}, hash)
  {
  }

  // ----- verifying -----

  /** What one chunk file must be. */
  predicate FileMatches(ref: ChunkRef, dir: Directory, digest: Digest) {
    && ref.chunkHash in dir && dir[ref.chunkHash].Some?
    && var c := dir[ref.chunkHash].value;
       c.formatVersion == IR_FORMAT_VERSION && c.chunkHash == ref.chunkHash && c.sourceId == ref.sourceId &&
           digest(c.entities) == ref.chunkHash
  }

  predicate HashesDistinct(refs: seq<ChunkRef>) {
    forall i, j | 0 <= i < j < |refs| :: refs[i].chunkHash != refs[j].chunkHash
  }

  /** The chunk with that address declares the id. */
  predicate DeclaredIn(id: Id, hash: string, dir: Directory) {
    hash in dir && dir[hash].Some? && id in dir[hash].value.entities
  }

  /** An entry is there exactly for an indexed id of a listed chunk, and names it. */
  ghost predicate EntriesExact(index: IrIndex, dir: Directory) {
    forall id, hash :: (id in index.entries && index.entries[id] == hash) <==>
                       (Indexed(id) && hash in Hashes(index.chunks) && DeclaredIn(id, hash, dir))
  }

  /** Exactly the packages the check lets through. */
  ghost predicate Intact(index: IrIndex, dir: Directory, digest: Digest) {
    && HashesDistinct(index.chunks)
    && (forall ref | ref in index.chunks :: FileMatches(ref, dir, digest))
    && EntriesExact(index, dir)
  }

  datatype Integrity = Loaded(chunks: seq<Chunk>) | Corrupt

  method CheckDistinct(refs: seq<ChunkRef>) returns (ok: bool)
    ensures ok <==> HashesDistinct(refs)
  {
    var seen: set<string> := {};
    for k := 0 to |refs|
      invariant forall h :: h in seen <==> h in Hashes(refs)[..k]
      invariant HashesDistinct(refs[..k])
    {
      if refs[k].chunkHash in seen {
        var i :| 0 <= i < k && Hashes(refs)[..k][i] == refs[k].chunkHash;
        assert refs[i].chunkHash == refs[k].chunkHash;
        return false;
      }
      seen := seen + {refs[k].chunkHash};
      assert refs[..k + 1] == refs[..k] + [refs[k]];
      assert Hashes(refs)[..k + 1] == Hashes(refs)[..k] + [refs[k].chunkHash];
    }
    assert refs[..|refs|] == refs;
    return true;
  }

  /** Every entry names a listed chunk. */
  predicate EntriesKnown(index: IrIndex) {
    forall id | id in index.entries :: index.entries[id] in Hashes(index.chunks)
  }

  method CheckKnown(index: IrIndex) returns (ok: bool)
    ensures ok <==> EntriesKnown(index)
  {
    var rest := index.entries.Keys;
    while rest != {}
      invariant rest <= index.entries.Keys
      invariant forall id | id in index.entries.Keys - rest :: index.entries[id] in Hashes(index.chunks)
      decreases rest
    {
      var id :| id in rest;
      if index.entries[id] !in Hashes(index.chunks) { return false; }
      rest := rest - {id};
    }
    return true;
  }

  /** The chunk's indexed ids point at it, and what points at it is in it. */
  predicate ChunkAgrees(index: IrIndex, hash: string, entities: Entities) {
    && (forall id | id in entities && Indexed(id) :: id in index.entries && index.entries[id] == hash)
    && forall id | id in index.entries && index.entries[id] == hash :: id in entities
  }

  method CheckChunk(index: IrIndex, hash: string, entities: Entities) returns (ok: bool)
    ensures ok <==> ChunkAgrees(index, hash, entities)
  {
    var rest := set id | id in entities && Indexed(id);
    ghost var own := rest;
    while rest != {}
      invariant rest <= own
      invariant forall id | id in own - rest :: id in index.entries && index.entries[id] == hash
      decreases rest
    {
      var id :| id in rest;
      if id !in index.entries || index.entries[id] != hash { return false; }
      rest := rest - {id};
    }
    var expected := set id | id in index.entries && index.entries[id] == hash;
    ghost var all := expected;
    while expected != {}
      invariant expected <= all && forall id | id in all - expected :: id in entities
      decreases expected
    {
      var id :| id in expected;
      if id !in entities { return false; }
      expected := expected - {id};
    }
    return true;
  }

  method LoadChunk(ref: ChunkRef, dir: Directory, digest: Digest) returns (c: Option<Chunk>)
    ensures c.Some? <==> FileMatches(ref, dir, digest)
    ensures c.Some? ==> dir[ref.chunkHash] == c
  {
    if ref.chunkHash !in dir || dir[ref.chunkHash].None? { return None; }
    var chunk := dir[ref.chunkHash].value;
    if chunk.formatVersion != IR_FORMAT_VERSION { return None; }
    if chunk.chunkHash != ref.chunkHash { return None; }
    if chunk.sourceId != ref.sourceId { return None; }
    if digest(chunk.entities) != ref.chunkHash { return None; }
    return Some(chunk);
  }

  predicate RefChecks(index: IrIndex, dir: Directory, digest: Digest, ref: ChunkRef) {
    FileMatches(ref, dir, digest) && ChunkAgrees(index, ref.chunkHash, dir[ref.chunkHash].value.entities)
  }

  /** `verify_index_integrity_loading`: it accepts exactly the intact packages and returns
      their chunks in index order. */
  method VerifyIndexIntegrity(index: IrIndex, dir: Directory, digest: Digest) returns (r: Integrity)
    ensures r.Loaded? <==> Intact(index, dir, digest)
    ensures r.Loaded? ==> |r.chunks| == |index.chunks|
    ensures r.Loaded? ==> forall i | 0 <= i < |r.chunks| ::
              index.chunks[i].chunkHash in dir && dir[index.chunks[i].chunkHash] == Some(r.chunks[i])
  {
    ChecksAreExact(index, dir, digest);
    var distinct := CheckDistinct(index.chunks);
    if !distinct { return Corrupt; }
    var known := CheckKnown(index);
    if !known { return Corrupt; }
    var chunks: seq<Chunk> := [];
    for k := 0 to |index.chunks|
      invariant |chunks| == k && forall i | 0 <= i < k :: RefChecks(index, dir, digest, index.chunks[i])
      invariant forall i | 0 <= i < k ::
                  index.chunks[i].chunkHash in dir && dir[index.chunks[i].chunkHash] == Some(chunks[i])
    {
      var ref := index.chunks[k];
      assert ref in index.chunks;
      var c := LoadChunk(ref, dir, digest);
      if c.None? { return Corrupt; }
      var ok := CheckChunk(index, ref.chunkHash, c.value.entities);
      if !ok { return Corrupt; }
      chunks := chunks + [c.value];
    }
    return Loaded(chunks);
  }

  /** The separate checks add up to an exact index. */
  lemma ChecksAreExact(index: IrIndex, dir: Directory, digest: Digest)
    ensures Intact(index, dir, digest) <==>
            HashesDistinct(index.chunks) && EntriesKnown(index) &&
                forall ref | ref in index.chunks :: RefChecks(index, dir, digest, ref)
  {
    if Intact(index, dir, digest) {
      forall id | id in index.entries ensures index.entries[id] in Hashes(index.chunks) {
        assert id in index.entries && index.entries[id] == index.entries[id];
      }
      forall ref | ref in index.chunks ensures RefChecks(index, dir, digest, ref) {
        IntactChunkAgrees(index, dir, digest, ref);
      }
    }
    if EntriesKnown(index) && forall ref | ref in index.chunks :: RefChecks(index, dir, digest, ref) {
      forall id, hash
        ensures (id in index.entries && index.entries[id] == hash) <==>
                (Indexed(id) && hash in Hashes(index.chunks) && DeclaredIn(id, hash, dir))
      {
        CheckedEntry(index, dir, digest, id, hash);
      }
    }
  }

  lemma IntactChunkAgrees(index: IrIndex, dir: Directory, digest: Digest, ref: ChunkRef)
    requires Intact(index, dir, digest) && ref in index.chunks
    ensures RefChecks(index, dir, digest, ref)
  {
    var i :| 0 <= i < |index.chunks| && index.chunks[i] == ref;
    assert Hashes(index.chunks)[i] == ref.chunkHash;
    var entities := dir[ref.chunkHash].value.entities;
    forall id | id in entities && Indexed(id) ensures id in index.entries && index.entries[id] == ref.chunkHash {
      assert DeclaredIn(id, ref.chunkHash, dir);
    }
    forall id | id in index.entries && index.entries[id] == ref.chunkHash ensures id in entities {
      assert DeclaredIn(id, ref.chunkHash, dir);
    }
  }

  lemma CheckedEntry(index: IrIndex, dir: Directory, digest: Digest, id: Id, hash: string)
    requires EntriesKnown(index) && forall ref | ref in index.chunks :: RefChecks(index, dir, digest, ref)
    ensures (id in index.entries && index.entries[id] == hash) ==>
            hash in Hashes(index.chunks) && DeclaredIn(id, hash, dir)
    ensures Indexed(id) && hash in Hashes(index.chunks) && DeclaredIn(id, hash, dir) ==>
            id in index.entries && index.entries[id] == hash
  {
    if hash in Hashes(index.chunks) {
      var i :| 0 <= i < |index.chunks| && Hashes(index.chunks)[i] == hash;
      assert RefChecks(index, dir, digest, index.chunks[i]);
    }
  }

  // ----- build, then verify -----

  predicate InputsDistinct(inputs: seq<IndexInput>) {
    forall i, j | 0 <= i < j < |inputs| :: inputs[i].chunkHash != inputs[j].chunkHash
  }

  /** No indexed id is exported by two chunks. */
  predicate IndexedOnce(inputs: seq<IndexInput>) {
    forall i, j | 0 <= i < j < |inputs| :: NoneShared(inputs[i].exports, inputs[j].exports)
  }

  predicate NoneShared(x: set<Id>, y: set<Id>) {
    forall id | id in x && Indexed(id) :: id !in y
  }

  /** An entry names some exporter, and every exported id has one. */
  lemma {:induction false} EntryNamesExporter(inputs: seq<IndexInput>, id: Id) returns (i: nat)
    requires id in EntriesOf(inputs)
    ensures i < |inputs| && id in inputs[i].exports && EntriesOf(inputs)[id] == inputs[i].chunkHash
    decreases |inputs|
  {
    var k := |inputs| - 1;
    if id in inputs[k].exports {
      i := k;
    } else {
      i := EntryNamesExporter(inputs[..k], id);
    }
  }

  lemma {:induction false} LastExporterStays(inputs: seq<IndexInput>, i: nat, id: Id)
    requires LastExporter(inputs, i, id)
    ensures id in EntriesOf(inputs) && EntriesOf(inputs)[id] == inputs[i].chunkHash
    decreases |inputs|
  {
    var k := |inputs| - 1;
    if i < k {
      assert id !in inputs[k].exports;
      LastExporterStays(inputs[..k], i, id);
    }
  }

  lemma IndexBuilds(inputs: seq<IndexInput>, digest: ContentDigest)
    ensures Builds(IndexOf(inputs, digest), inputs, digest)
  {
    SortedRefsAre(inputs);
    forall i, id | 0 <= i < |inputs| && LastExporter(inputs, i, id)
      ensures id in EntriesOf(inputs) && EntriesOf(inputs)[id] == inputs[i].chunkHash
    {
      LastExporterStays(inputs, i, id);
    }
    forall id | id in EntriesOf(inputs) ensures exists i :: 0 <= i < |inputs| && id in inputs[i].exports {
      var i := EntryNamesExporter(inputs, id);
    }
  }

  lemma {:induction false} ExportedHasEntry(inputs: seq<IndexInput>, i: nat, id: Id)
    requires i < |inputs| && id in inputs[i].exports && Indexed(id)
    ensures id in EntriesOf(inputs)
    decreases |inputs|
  {
    var k := |inputs| - 1;
    if i < k { ExportedHasEntry(inputs[..k], i, id); }
  }

  lemma SameExporter(inputs: seq<IndexInput>, i: nat, j: nat, id: Id)
    requires IndexedOnce(inputs) && i < |inputs| && j < |inputs| && Indexed(id) && id in inputs[i].exports &&
             id in inputs[j].exports
    ensures i == j
  {
  }

  lemma OnlyExporter(inputs: seq<IndexInput>, i: nat, id: Id)
    requires IndexedOnce(inputs) && i < |inputs| && id in inputs[i].exports && Indexed(id)
    ensures id in EntriesOf(inputs) && EntriesOf(inputs)[id] == inputs[i].chunkHash
  {
    ExportedHasEntry(inputs, i, id);
    var j := EntryNamesExporter(inputs, id);
    SameExporter(inputs, i, j, id);
  }

  /** The directory holds every chunk under its address, with matching content. */
  predicate Emitted(inputs: seq<IndexInput>, dir: Directory, digest: Digest) {
    forall i | 0 <= i < |inputs| :: EmittedAt(inputs[i], dir, digest)
  }

  predicate EmittedAt(input: IndexInput, dir: Directory, digest: Digest) {
    FileMatches(RefOf(input), dir, digest) && dir[input.chunkHash].value.entities.Keys == input.exports
  }

  function SortedRefs(inputs: seq<IndexInput>): seq<ChunkRef> {
    Sorting.Sort(RefsOf(inputs), HashLe)
  }

  lemma HashLeTotal()
    ensures Sorting.TotalPreorder(HashLe)
  {
    forall x, y ensures HashLe(x, y) || HashLe(y, x) { Sorting.LeTotal(x.chunkHash, y.chunkHash); }
    forall x, y, z | HashLe(x, y) && HashLe(y, z)
      ensures HashLe(x, z) { Sorting.LeTransitive(x.chunkHash, y.chunkHash, z.chunkHash); }
  }

  lemma SortedRefsAre(inputs: seq<IndexInput>)
    ensures Sorting.Sorted(SortedRefs(inputs), HashLe) && multiset(SortedRefs(inputs)) == multiset(RefsOf(inputs))
    ensures forall ref :: ref in SortedRefs(inputs) <==> ref in RefsOf(inputs)
  {
    HashLeTotal();
    Sorting.SortSorts(RefsOf(inputs), HashLe);
    forall ref ensures ref in SortedRefs(inputs) <==> ref in RefsOf(inputs) {
      assert ref in SortedRefs(inputs) <==> ref in multiset(SortedRefs(inputs));
      assert ref in RefsOf(inputs) <==> ref in multiset(RefsOf(inputs));
    }
  }

  lemma {:induction false} PermutedDistinct(s: seq<ChunkRef>, t: seq<ChunkRef>)
    requires multiset(s) == multiset(t) && HashesDistinct(s)
    ensures HashesDistinct(t)
    decreases |t|
  {
    if t != [] {
      var j := Sorting.FindHead(t, s);
      var rest := s[..j] + s[j + 1..];
      assert forall i | 0 <= i < |rest| :: rest[i] == if i < j then s[i] else s[i + 1];
      PermutedDistinct(rest, t[1..]);
      forall i | 1 <= i < |t| ensures t[0].chunkHash != t[i].chunkHash {
        assert t[1..][i - 1] in multiset(t[1..]);
        assert t[i] in multiset(rest);
        var k :| 0 <= k < |rest| && rest[k] == t[i];
      }
      forall i, k | 0 <= i < k < |t| ensures t[i].chunkHash != t[k].chunkHash {
        if i > 0 { assert t[1..][i - 1].chunkHash != t[1..][k - 1].chunkHash; }
      }
    }
  }

  lemma HashesOfInputs(inputs: seq<IndexInput>, hash: string)
    ensures hash in Hashes(SortedRefs(inputs)) <==> exists i :: 0 <= i < |inputs| && inputs[i].chunkHash == hash
  {
    SortedRefsAre(inputs);
    var refs := SortedRefs(inputs);
    if hash in Hashes(refs) {
      var i :| 0 <= i < |refs| && Hashes(refs)[i] == hash;
      assert refs[i] in RefsOf(inputs);
      var k :| 0 <= k < |inputs| && RefsOf(inputs)[k] == refs[i];
      assert inputs[k].chunkHash == hash;
    }
    if exists i :: 0 <= i < |inputs| && inputs[i].chunkHash == hash {
      var i :| 0 <= i < |inputs| && inputs[i].chunkHash == hash;
      assert RefsOf(inputs)[i] in RefsOf(inputs);
      var k :| 0 <= k < |refs| && refs[k] == RefsOf(inputs)[i];
      assert Hashes(refs)[k] == hash;
    }
  }

  lemma BuiltFiles(inputs: seq<IndexInput>, dir: Directory, digest: Digest)
    requires InputsDistinct(inputs) && Emitted(inputs, dir, digest)
    ensures HashesDistinct(SortedRefs(inputs)) && forall ref | ref in SortedRefs(inputs) ::
            FileMatches(ref, dir, digest)
  {
    SortedRefsAre(inputs);
    assert HashesDistinct(RefsOf(inputs));
    PermutedDistinct(RefsOf(inputs), SortedRefs(inputs));
    forall ref | ref in SortedRefs(inputs) ensures FileMatches(ref, dir, digest) {
      var k :| 0 <= k < |inputs| && RefsOf(inputs)[k] == ref;
      assert EmittedAt(inputs[k], dir, digest);
    }
  }

  /** On matching chunk data with distinct addresses, an index that was just built passes
      the check exactly when no indexed id is exported by two chunks. */
  lemma BuildThenVerify(inputs: seq<IndexInput>, dir: Directory, digest: Digest, content: ContentDigest)
    requires InputsDistinct(inputs) && Emitted(inputs, dir, digest)
    ensures Intact(IndexOf(inputs, content), dir, digest) <==> IndexedOnce(inputs)
  {
    var index := IndexOf(inputs, content);
    BuiltFiles(inputs, dir, digest);
    if IndexedOnce(inputs) {
      forall id, hash
        ensures (id in index.entries && index.entries[id] == hash) <==>
                (Indexed(id) && hash in Hashes(index.chunks) && DeclaredIn(id, hash, dir))
      {
        BuiltEntry(inputs, dir, digest, id, hash);
      }
    } else {
      var i, j :| 0 <= i < j < |inputs| && !NoneShared(inputs[i].exports, inputs[j].exports);
      var id :| id in inputs[i].exports && Indexed(id) && id in inputs[j].exports;
      SharedEntry(inputs, dir, digest, index, i, j, id);
    }
  }

  lemma BuiltEntry(inputs: seq<IndexInput>, dir: Directory, digest: Digest, id: Id, hash: string)
    requires Emitted(inputs, dir, digest) && IndexedOnce(inputs)
    ensures (id in EntriesOf(inputs) && EntriesOf(inputs)[id] == hash) <==>
            (Indexed(id) && hash in Hashes(SortedRefs(inputs)) && DeclaredIn(id, hash, dir))
  {
    HashesOfInputs(inputs, hash);
    if id in EntriesOf(inputs) && EntriesOf(inputs)[id] == hash {
      var i := EntryNamesExporter(inputs, id);
      assert EmittedAt(inputs[i], dir, digest);
    }
    if Indexed(id) && hash in Hashes(SortedRefs(inputs)) && DeclaredIn(id, hash, dir) {
      var i :| 0 <= i < |inputs| && inputs[i].chunkHash == hash;
      assert EmittedAt(inputs[i], dir, digest);
      OnlyExporter(inputs, i, id);
    }
  }

  lemma SharedEntry(inputs: seq<IndexInput>, dir: Directory, digest: Digest, index: IrIndex, i: nat, j: nat, id: Id)
    requires InputsDistinct(inputs) && Emitted(inputs, dir, digest) && i < j < |inputs|
    requires Indexed(id) && id in inputs[i].exports && id in inputs[j].exports && index.chunks == SortedRefs(inputs)
    ensures !EntriesExact(index, dir)
  {
    HashesOfInputs(inputs, inputs[i].chunkHash);
    HashesOfInputs(inputs, inputs[j].chunkHash);
    assert EmittedAt(inputs[i], dir, digest) && EmittedAt(inputs[j], dir, digest);
    assert DeclaredIn(id, inputs[i].chunkHash, dir) && DeclaredIn(id, inputs[j].chunkHash, dir);
    assert inputs[i].chunkHash != inputs[j].chunkHash;
  }

  // ----- identity -----

  /** What an input contributes to the identity: its address and its exports, not its
      source and not its place. */
  function ContentsOf(inputs: seq<IndexInput>): set<(string, set<Id>)> {
    set i | 0 <= i < |inputs| :: (inputs[i].chunkHash, inputs[i].exports)
  }

  lemma SortedHashes(inputs: seq<IndexInput>)
    requires InputsDistinct(inputs)
    ensures Sorting.Ascending(Hashes(SortedRefs(inputs)))
  {
    SortedRefsAre(inputs);
    assert HashesDistinct(RefsOf(inputs));
    PermutedDistinct(RefsOf(inputs), SortedRefs(inputs));
    var refs, hs := SortedRefs(inputs), Hashes(SortedRefs(inputs));
    forall i, j | 0 <= i < j < |hs| ensures Sorting.Le(hs[i], hs[j]) && hs[i] != hs[j] {
      assert HashLe(refs[i], refs[j]);
    }
  }

  lemma SameHash(inputs: seq<IndexInput>, inputs': seq<IndexInput>, hash: string)
    requires ContentsOf(inputs) <= ContentsOf(inputs') && hash in Hashes(SortedRefs(inputs))
    ensures hash in Hashes(SortedRefs(inputs'))
  {
    HashesOfInputs(inputs, hash);
    HashesOfInputs(inputs', hash);
    var i :| 0 <= i < |inputs| && inputs[i].chunkHash == hash;
    assert (inputs[i].chunkHash, inputs[i].exports) in ContentsOf(inputs');
  }

  lemma SameEntry(inputs: seq<IndexInput>, inputs': seq<IndexInput>, id: Id)
    requires ContentsOf(inputs) <= ContentsOf(inputs') && IndexedOnce(inputs') && id in EntriesOf(inputs)
    ensures id in EntriesOf(inputs') && EntriesOf(inputs')[id] == EntriesOf(inputs)[id]
  {
    var i := EntryNamesExporter(inputs, id);
    assert (inputs[i].chunkHash, inputs[i].exports) in ContentsOf(inputs');
    var j :| 0 <= j < |inputs'| && (inputs'[j].chunkHash, inputs'[j].exports) ==
        (inputs[i].chunkHash, inputs[i].exports);
    OnlyExporter(inputs', j, id);
  }

  /** The model identity is a function of content: neither the order of the inputs nor any
      source id changes it, and recomputing it from the stored index gives it back. */
  lemma ModelIdentity(inputs: seq<IndexInput>, inputs': seq<IndexInput>, content: ContentDigest)
    requires InputsDistinct(inputs) && InputsDistinct(inputs') && IndexedOnce(inputs) && IndexedOnce(inputs')
    requires ContentsOf(inputs) == ContentsOf(inputs')
    ensures IndexOf(inputs, content).configHash == IndexOf(inputs', content).configHash
    ensures ComputeConfigHash(IndexOf(inputs, content), content) == IndexOf(inputs, content).configHash
  {
    SortedHashes(inputs);
    SortedHashes(inputs');
    forall hash ensures hash in Hashes(SortedRefs(inputs)) <==> hash in Hashes(SortedRefs(inputs')) {
      if hash in Hashes(SortedRefs(inputs)) { SameHash(inputs, inputs', hash); }
      if hash in Hashes(SortedRefs(inputs')) { SameHash(inputs', inputs, hash); }
    }
    Sorting.AscendingUnique(Hashes(SortedRefs(inputs)), Hashes(SortedRefs(inputs')));
    forall id
      ensures id in EntriesOf(inputs) ==> id in EntriesOf(inputs') && EntriesOf(inputs')[id] == EntriesOf(inputs)[id]
    {
      if id in EntriesOf(inputs) { SameEntry(inputs, inputs', id); }
    }
    forall id ensures id in EntriesOf(inputs') ==> id in EntriesOf(inputs) {
      if id in EntriesOf(inputs') { SameEntry(inputs', inputs, id); }
    }
    assert EntriesOf(inputs) == EntriesOf(inputs');
  }

  ghost predicate InjectiveContent(digest: ContentDigest) {
    forall c, c' | digest(c) == digest(c') :: c == c'
  }

  /** With a hash that never collides, two models share an identity exactly when they list the
      same addresses and the same entries. */
  lemma IdentityIsContent(inputs: seq<IndexInput>, inputs': seq<IndexInput>, digest: ContentDigest)
    requires InjectiveContent(digest)
    ensures var x, y := IndexOf(inputs, digest), IndexOf(inputs', digest);
            x.configHash == y.configHash <==> Hashes(x.chunks) == Hashes(y.chunks) && x.entries == y.entries
  {
    var x, y := IndexOf(inputs, digest), IndexOf(inputs', digest);
    assert x.configHash == digest(ContentOf(x)) && y.configHash == digest(ContentOf(y));
  }

  // ----- from ingest to a verified package -----

  /** `IrChunk::from_config`: what is written for a recorded chunk. Its package and version
      are not part of it. */
  function Written(c: SourceChunk): Chunk {
    Chunk(IR_FORMAT_VERSION, c.chunkHash, c.sourceId, c.config.entities)
  }

  function InputOf(c: SourceChunk): IndexInput {
    IndexInput(c.chunkHash, c.sourceId, c.config.entities.Keys)
  }

  function InputsOf(chunks: seq<SourceChunk>): (inputs: seq<IndexInput>)
    ensures |inputs| == |chunks| && forall i | 0 <= i < |chunks| :: inputs[i] == InputOf(chunks[i])
  {
    seq(|chunks|, i requires 0 <= i < |chunks| => InputOf(chunks[i]))
  }

  /** The directory holds what was written for each chunk, under its address. */
  predicate WrittenTo(chunks: seq<SourceChunk>, dir: Directory) {
    forall c | c in chunks :: c.chunkHash in dir && dir[c.chunkHash] == Some(Written(c))
  }

  /** After any run of the ingester, the address computed at ingest is the one recomputed
      from the written chunk, whatever its package, version and source; and the index
      built over the written chunks passes the integrity check. */
  lemma IngestedPackageVerifies(repository: Entities, chunks: seq<SourceChunk>, digest: Digest,
                                content: ContentDigest, dir: Directory)
    requires Weak(repository, chunks, digest) && WrittenTo(chunks, dir)
    ensures forall c | c in chunks :: digest(Written(c).entities) == c.chunkHash
    ensures Intact(IndexOf(InputsOf(chunks), content), dir, digest)
  {
    var inputs := InputsOf(chunks);
    forall i | 0 <= i < |inputs| ensures EmittedAt(inputs[i], dir, digest) {
      assert chunks[i] in chunks;
    }
    forall i, j | 0 <= i < j < |inputs|
      ensures inputs[i].chunkHash != inputs[j].chunkHash && NoneShared(inputs[i].exports, inputs[j].exports)
    {
      assert Apart(chunks[i], chunks[j]);
    }
    BuildThenVerify(inputs, dir, digest, content);
  }
}
