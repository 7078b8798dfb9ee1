/** The reader of `ccm.bdd.bin` (solver/src/ccm_format.rs `parse_bdd_bin`,
    solver/src/backend_oxidd.rs `deserialize_bdd`): what the solver makes of the file the
    compiler writes. */
module FileReader {
  import opened Bdd
  import opened BddFile
  import opened Options

  datatype FileNode = FileNode(varIndex: nat, low: nat, high: nat, flags: nat)

  datatype Payload = Payload(varCount: nat, nodeCount: nat, roots: seq<nat>, nodes: seq<FileNode>)

  datatype Fault =
    | HeaderTruncated | BadMagic | BadVersion | ReservedHeader | VarCountMismatch | NodeCountMismatch | NoRoots
    | RootsTruncated | WrongLength | ReservedFlag | NodePadding | BadFalseRecord | BadTrueRecord | StrayTerminal
    | VariableOutOfRange | Redundant | NotPostOrder | Duplicate

  datatype Parsed = Accepted(payload: Payload) | Rejected(fault: Fault)

  // ----- what the reader accepts -----

  function HeaderFault(bytes: seq<nat>, varCount: nat, nodeCount: nat): Option<Fault> {
    if |bytes| < 20 then Some(HeaderTruncated)
    else if bytes[0..4] != [67, 67, 77, 66] then Some(BadMagic)
    else if bytes[4] != 1 then Some(BadVersion)
    else if bytes[5] != 0 || bytes[6] != 0 || bytes[7] != 0 then Some(ReservedHeader)
    else if Word(bytes, 8) != varCount then Some(VarCountMismatch)
    else if Word(bytes, 12) != nodeCount then Some(NodeCountMismatch)
    else if Word(bytes, 16) < 1 then Some(NoRoots)
    else if |bytes| < 20 + 4 * Word(bytes, 16) then Some(RootsTruncated)
    else if |bytes| != 20 + 4 * Word(bytes, 16) + 16 * nodeCount then Some(WrongLength)
    else None
  }

  /** Where the node table starts. */
  function TableStart(bytes: seq<nat>): nat
    requires |bytes| >= 20
  {
    20 + 4 * Word(bytes, 16)
  }

  function RecordFault(bytes: seq<nat>, at: nat): Option<Fault>
    requires at + 16 <= |bytes|
  {
    if bytes[at + 12] > 1 then Some(ReservedFlag)
    else if bytes[at + 13] != 0 || bytes[at + 14] != 0 || bytes[at + 15] != 0 then Some(NodePadding)
    else None
  }

  function NodeAt(bytes: seq<nat>, at: nat): FileNode
    requires at + 16 <= |bytes|
  {
    FileNode(Word(bytes, at), Word(bytes, at + 4), Word(bytes, at + 8), bytes[at + 12])
  }

  predicate ChildOk(child: nat, i: nat) {
    IsCode(child) || child < i
  }

  function NodeFault(n: FileNode, i: nat, varCount: nat): Option<Fault> {
    if n.varIndex == TERMINAL_VAR_INDEX then
      if i == 0 then if n.low != TERMINAL_FALSE || n.high != TERMINAL_FALSE then Some(BadFalseRecord) else None
      else if i == 1 then if n.low != TERMINAL_TRUE || n.high != TERMINAL_TRUE then Some(BadTrueRecord) else None
      else Some(StrayTerminal)
    else if n.varIndex >= varCount then Some(VariableOutOfRange)
    else if n.low == n.high then Some(Redundant)
    else if !ChildOk(n.low, i) || !ChildOk(n.high, i) then Some(NotPostOrder)
    else None
  }

  /** Two records of one node. */
  predicate Twins(nodes: seq<FileNode>, i: nat, j: nat) {
    i < j < |nodes| && nodes[i] == nodes[j] && nodes[i].varIndex != TERMINAL_VAR_INDEX
  }

  predicate TableOk(nodes: seq<FileNode>, varCount: nat) {
    && (forall i | 0 <= i < |nodes| :: NodeFault(nodes[i], i, varCount) == None)
    && forall i, j | 0 <= i < j < |nodes| :: !Twins(nodes, i, j)
  }

  predicate RecordsOk(bytes: seq<nat>, nodeCount: nat)
    requires |bytes| >= 20 && TableStart(bytes) + 16 * nodeCount <= |bytes|
  {
    forall i | 0 <= i < nodeCount :: RecordFault(bytes, TableStart(bytes) + 16 * i) == None
  }

  function NodesOf(bytes: seq<nat>, nodeCount: nat): seq<FileNode>
    requires |bytes| >= 20 && TableStart(bytes) + 16 * nodeCount <= |bytes|
  {
    seq(nodeCount, i requires 0 <= i < nodeCount => NodeAt(bytes, TableStart(bytes) + 16 * i))
  }

  function RootsOf(bytes: seq<nat>): seq<nat>
    requires |bytes| >= 20 && TableStart(bytes) <= |bytes|
  {
    seq(Word(bytes, 16), i requires 0 <= i < Word(bytes, 16) => Word(bytes, 20 + 4 * i))
  }

  predicate FirstRecordFault(bytes: seq<nat>, nodeCount: nat, fault: Fault)
    requires |bytes| >= 20 && TableStart(bytes) + 16 * nodeCount <= |bytes|
  {
    exists i :: 0 <= i < nodeCount && RecordFault(bytes, TableStart(bytes) + 16 * i) == Some(fault) &&
                forall k | 0 <= k < i :: RecordFault(bytes, TableStart(bytes) + 16 * k) == None
  }

  /** The first record that is wrong by itself, and only then one there already is. */
  predicate FirstTableFault(nodes: seq<FileNode>, varCount: nat, fault: Fault) {
    || (exists i :: 0 <= i < |nodes| && NodeFault(nodes[i], i, varCount) == Some(fault) &&
                    forall k | 0 <= k < i :: NodeFault(nodes[k], k, varCount) == None)
    || (fault == Duplicate && forall k | 0 <= k < |nodes| :: NodeFault(nodes[k], k, varCount) == None)
  }

  /** The checks come in this order. */
  predicate Refuses(bytes: seq<nat>, varCount: nat, nodeCount: nat, fault: Fault) {
    var first := HeaderFault(bytes, varCount, nodeCount);
    if first.Some? then fault == first.value
    else if !RecordsOk(bytes, nodeCount) then FirstRecordFault(bytes, nodeCount, fault)
    else FirstTableFault(NodesOf(bytes, nodeCount), varCount, fault)
  }

  predicate Acceptable(bytes: seq<nat>, varCount: nat, nodeCount: nat) {
    HeaderFault(bytes, varCount, nodeCount) == None && RecordsOk(bytes, nodeCount) &&
    TableOk(NodesOf(bytes, nodeCount), varCount)
  }

  // ----- parse_bdd_bin -----

  method ReadRoots(bytes: seq<nat>) returns (roots: seq<nat>)
    requires |bytes| >= 20 && TableStart(bytes) <= |bytes|
    ensures roots == RootsOf(bytes)
  {
    roots := [];
    for i := 0 to Word(bytes, 16)
      invariant |roots| == i && forall k | 0 <= k < i :: roots[k] == Word(bytes, 20 + 4 * k)
    {
      roots := roots + [Word(bytes, 20 + 4 * i)];
    }
  }

  method ReadNodes(bytes: seq<nat>, nodeCount: nat) returns (nodes: seq<FileNode>, fault: Option<Fault>)
    requires |bytes| >= 20 && TableStart(bytes) + 16 * nodeCount <= |bytes|
    ensures fault.None? <==> RecordsOk(bytes, nodeCount)
    ensures fault.None? ==> nodes == NodesOf(bytes, nodeCount)
    ensures fault.Some? ==> FirstRecordFault(bytes, nodeCount, fault.value)
  {
    nodes := [];
    for i := 0 to nodeCount
      invariant |nodes| == i && forall k | 0 <= k < i :: nodes[k] == NodeAt(bytes, TableStart(bytes) + 16 * k)
      invariant forall k | 0 <= k < i :: RecordFault(bytes, TableStart(bytes) + 16 * k) == None
    {
      var at := TableStart(bytes) + 16 * i;
      fault := RecordFault(bytes, at);
      if fault.Some? { return; }
      nodes := nodes + [NodeAt(bytes, at)];
    }
    fault := None;
  }

  method CheckTable(nodes: seq<FileNode>, varCount: nat) returns (fault: Option<Fault>)
    ensures fault.None? <==> TableOk(nodes, varCount)
    ensures fault.Some? ==> FirstTableFault(nodes, varCount, fault.value)
  {
    for i := 0 to |nodes|
      invariant forall k | 0 <= k < i :: NodeFault(nodes[k], k, varCount) == None
    {
      fault := NodeFault(nodes[i], i, varCount);
      if fault.Some? { return; }
    }
    for i := 0 to |nodes|
      invariant forall k, j | 0 <= k < j < i :: !Twins(nodes, k, j)
    {
      for j := 0 to i
        invariant forall k | 0 <= k < j :: !Twins(nodes, k, i)
      {
        if nodes[j] == nodes[i] && nodes[i].varIndex != TERMINAL_VAR_INDEX {
          assert Twins(nodes, j, i);
          return Some(Duplicate);
        }
      }
    }
    fault := None;
  }

  method ParseBddBin(bytes: seq<nat>, varCount: nat, nodeCount: nat) returns (r: Parsed)
    ensures r.Accepted? <==> Acceptable(bytes, varCount, nodeCount)
    ensures r.Accepted? ==> r.payload == Payload(varCount, nodeCount, RootsOf(bytes), NodesOf(bytes, nodeCount))
    ensures r.Rejected? ==> Refuses(bytes, varCount, nodeCount, r.fault)
  {
    var fault := HeaderFault(bytes, varCount, nodeCount);
    if fault.Some? { return Rejected(fault.value); }
    var roots := ReadRoots(bytes);
    var nodes: seq<FileNode>;
    nodes, fault := ReadNodes(bytes, nodeCount);
    if fault.Some? { return Rejected(fault.value); }
    fault := CheckTable(nodes, varCount);
    if fault.Some? { return Rejected(fault.value); }
    return Accepted(Payload(varCount, nodeCount, roots, nodes));
  }

  // ----- deserialize_bdd -----

  /** The function of an id, at one setting of the variables. */
  function NodeValue(nodes: seq<FileNode>, id: nat, vars: set<nat>): bool
    decreases if IsCode(id) then 0 else id + 1
  {
    if IsCode(id) then id == TERMINAL_TRUE
    else if id >= |nodes| then false
    else if nodes[id].varIndex == TERMINAL_VAR_INDEX then id == 1
    else
      var next := if nodes[id].varIndex in vars then nodes[id].high else nodes[id].low;
      ChildOk(next, id) && NodeValue(nodes, next, vars)
  }

  /** `lookup_child`: a constant, or what was rebuilt before. */
  function LookUp(rebuilt: seq<bool>, child: nat): bool
    requires ChildOk(child, |rebuilt|)
  {
    if IsCode(child) then child == TERMINAL_TRUE else rebuilt[child]
  }

  lemma RebuildStep(nodes: seq<FileNode>, varCount: nat, rebuilt: seq<bool>, vars: set<nat>)
    requires TableOk(nodes, varCount) && |rebuilt| < |nodes| < TERMINAL_TRUE
    requires forall k | 0 <= k < |rebuilt| :: rebuilt[k] == NodeValue(nodes, k, vars)
    ensures var i, n := |rebuilt|, nodes[|rebuilt|];
            if n.varIndex == TERMINAL_VAR_INDEX then NodeValue(nodes, i, vars) == (i == 1)
            else
              && ChildOk(n.low, i) && ChildOk(n.high, i)
              && NodeValue(nodes, i, vars) == LookUp(rebuilt, if n.varIndex in vars then n.high else n.low)
  {
    assert NodeFault(nodes[|rebuilt|], |rebuilt|, varCount) == None;
  }

  /** `deserialize_bdd` at one setting of the variables: the table is rebuilt from the bottom.
      (A file holds at most one gibibyte, so no record has the number of a code.) */
  method Rebuild(nodes: seq<FileNode>, varCount: nat, root: nat, vars: set<nat>) returns (value: Option<bool>)
    requires TableOk(nodes, varCount) && |nodes| < TERMINAL_TRUE
    ensures value.Some? <==> IsCode(root) || root < |nodes|
    ensures value.Some? ==> value.value == NodeValue(nodes, root, vars)
  {
    if IsCode(root) { return Some(root == TERMINAL_TRUE); }
    var rebuilt: seq<bool> := [];
    for i := 0 to |nodes|
      invariant |rebuilt| == i && forall k | 0 <= k < i :: rebuilt[k] == NodeValue(nodes, k, vars)
    {
      var n := nodes[i];
      RebuildStep(nodes, varCount, rebuilt, vars);
      if n.varIndex == TERMINAL_VAR_INDEX {
        rebuilt := rebuilt + [i == 1];
      } else {
        rebuilt := rebuilt + [LookUp(rebuilt, if n.varIndex in vars then n.high else n.low)];
      }
    }
    return if root < |rebuilt| then Some(rebuilt[root]) else None;
  }

  // ----- what the compiler writes, the solver reads -----

  lemma AcceptedNode(bytes: seq<nat>, varCount: nat, nodeCount: nat, id: nat)
    requires Acceptable(bytes, varCount, nodeCount) && Word(bytes, 16) == 1 && id < nodeCount
    ensures 40 + 16 * id <= |bytes| == 24 + 16 * nodeCount
    ensures NodesOf(bytes, nodeCount)[id] == NodeAt(bytes, 24 + 16 * id)
    ensures NodeFault(NodesOf(bytes, nodeCount)[id], id, varCount) == None
  {
  }

  /** Of a record without fault, the child to follow is a constant or an earlier record. */
  lemma RawStep(bytes: seq<nat>, varCount: nat, id: nat, vars: set<nat>)
    requires !IsCode(id) && 40 + 16 * id <= |bytes| && NodeFault(NodeAt(bytes, 24 + 16 * id), id, varCount) == None
    ensures var n := NodeAt(bytes, 24 + 16 * id);
            var next := if n.varIndex in vars then n.high else n.low;
            && ChildOk(next, id) && RawValue(bytes, id, vars) == RawValue(bytes, next, vars)
            && (n.varIndex == TERMINAL_VAR_INDEX ==> RawValue(bytes, next, vars) == (id == 1))
  {
  }

  /** On an accepted file with one root the rebuilt function is the one the bytes say. */
  lemma {:induction false} NodeValueIsRaw(bytes: seq<nat>, varCount: nat, nodeCount: nat, id: nat, vars: set<nat>)
    requires Acceptable(bytes, varCount, nodeCount) && Word(bytes, 16) == 1 && nodeCount < TERMINAL_TRUE
    requires IsCode(id) || id < nodeCount
    ensures NodeValue(NodesOf(bytes, nodeCount), id, vars) == RawValue(bytes, id, vars)
    decreases if IsCode(id) then 0 else id + 1
  {
    if !IsCode(id) {
      AcceptedNode(bytes, varCount, nodeCount, id);
      RawStep(bytes, varCount, id, vars);
      var n := NodeAt(bytes, 24 + 16 * id);
      if n.varIndex != TERMINAL_VAR_INDEX {
        NodeValueIsRaw(bytes, varCount, nodeCount, if n.varIndex in vars then n.high else n.low, vars);
      }
    }
  }

  lemma RecordAccepted(arr: seq<Node>, root: nat, varCount: nat, id: nat)
    requires WellFormed(arr) && TableFits(arr) && IsRef(arr, root) && IsRef(arr, id) && Fits32(varCount)
    requires forall n | n in arr :: n.varIndex < varCount
    ensures |FileBytes(arr, root, varCount)| == 24 + 16 * (|arr| + 2)
    ensures var bytes, at, n := FileBytes(arr, root, varCount), 24 + 16 * id, RecordOf(arr, id);
            && RecordFault(bytes, at) == None && NodeAt(bytes, at) == FileNode(n.varIndex, n.low, n.high, 0)
            && NodeFault(NodeAt(bytes, at), id, varCount) == None
  {
    RecordReads(arr, root, varCount, id);
    if id >= 2 {
      assert NodeOk(arr, id - 2);
      assert arr[id - 2] in arr;
    }
  }

  lemma HeaderAccepted(arr: seq<Node>, root: nat, varCount: nat)
    requires TableFits(arr) && IsRef(arr, root) && Fits32(varCount)
    ensures var bytes := FileBytes(arr, root, varCount);
            && HeaderFault(bytes, varCount, |arr| + 2) == None && Word(bytes, 16) == 1
            && RootsOf(bytes) == [if root == 0 then 0xFFFF_FFFF else if root == 1 then 0xFFFF_FFFE else root]
  {
    var bytes := FileBytes(arr, root, varCount);
    HeaderReads(arr, root, varCount);
    var head := bytes[..8];
    assert head[..4] == bytes[0..4];
    assert head[4] == bytes[4] && head[5] == bytes[5] && head[6] == bytes[6] && head[7] == bytes[7];
  }

  /** The reader sees the table record by record. */
  ghost predicate Sees(nodes: seq<FileNode>, arr: seq<Node>) {
    |nodes| == |arr| + 2 &&
    forall id | 0 <= id < |nodes| ::
      nodes[id] == FileNode(RecordOf(arr, id).varIndex, RecordOf(arr, id).low, RecordOf(arr, id).high, 0)
  }

  lemma SeenApart(nodes: seq<FileNode>, arr: seq<Node>)
    requires WellFormed(arr) && Sees(nodes, arr)
    ensures forall i, j | 0 <= i < j < |nodes| :: !Twins(nodes, i, j)
  {
    forall i, j | 0 <= i < j < |nodes| ensures !Twins(nodes, i, j) {
      if i >= 2 { assert arr[i - 2] != arr[j - 2]; }
    }
  }

  /** The reader accepts every well-formed table, as it is. */
  lemma FileAccepted(arr: seq<Node>, root: nat, varCount: nat)
    requires WellFormed(arr) && TableFits(arr) && IsRef(arr, root) && Fits32(varCount)
    requires forall n | n in arr :: n.varIndex < varCount
    ensures Acceptable(FileBytes(arr, root, varCount), varCount, |arr| + 2)
    ensures Sees(NodesOf(FileBytes(arr, root, varCount), |arr| + 2), arr)
    ensures RootsOf(FileBytes(arr, root, varCount)) ==
            [if root == 0 then 0xFFFF_FFFF else if root == 1 then 0xFFFF_FFFE else root]
  {
    var bytes, count := FileBytes(arr, root, varCount), |arr| + 2;
    HeaderAccepted(arr, root, varCount);
    var nodes := NodesOf(bytes, count);
    forall id | 0 <= id < count
      ensures RecordFault(bytes, 24 + 16 * id) == None && NodeFault(nodes[id], id, varCount) == None
      ensures nodes[id] == FileNode(RecordOf(arr, id).varIndex, RecordOf(arr, id).low, RecordOf(arr, id).high, 0)
    {
      RecordAccepted(arr, root, varCount, id);
      assert nodes[id] == NodeAt(bytes, 24 + 16 * id);
    }
    SeenApart(nodes, arr);
  }

  /** The solver's reading of a file with the given number of variables. */
  ghost predicate SolverReads(bytes: seq<nat>, varCount: nat, nodeCount: nat, vars: set<nat>, value: bool) {
    && Acceptable(bytes, varCount, nodeCount)
    && |RootsOf(bytes)| == 1
    && NodeValue(NodesOf(bytes, nodeCount), RootsOf(bytes)[0], vars) == value
  }

  /** What `serialize` writes within 32 bits the solver accepts, and reads as the function of
      the root. */
  lemma SerializedAccepted(bytes: seq<nat>, ns: seq<Node>, root: nat, varCount: nat, vars: set<nat>)
      returns (nodeCount: nat)
    requires WellFormed(ns) && IsRef(ns, root) && Serializes(bytes, ns, root, varCount)
    requires IdsFit(bytes) && Fits32(varCount) && ReadsBelow(ns, root, varCount)
    ensures SolverReads(bytes, varCount, nodeCount, vars, Sat(ns, root, vars)) && |bytes| == 24 + 16 * nodeCount
  {
    var arr: seq<Node>, id: nat :|
      FileForm(arr, id) && Same(ns, root, arr, id) && bytes == FileBytes(arr, id, varCount);
    nodeCount := |arr| + 2;
    FileParts(arr, id, varCount);
    ReadsBelowSame(ns, root, arr, id, varCount);
    FormFits(arr, id, varCount);
    FileAccepted(arr, id, varCount);
    HeaderReads(arr, id, varCount);
    NodeValueIsRaw(bytes, varCount, nodeCount, Word(bytes, 20), vars);
    FileValueIsSat(arr, id, varCount, vars);
  }
}
