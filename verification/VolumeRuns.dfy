/**
  What holds over whole runs of the volume index, from its initialisation on: no corruption
  code is ever returned, the first exhaustion of the pool takes 49 live entries, and removing
  what was just inserted takes the insertion back.
 */
module VolumeRuns {
  import opened PathTrie
  import opened PathTrieCapacity
  import opened PathTrieUndo
  import opened PathKey
  import opened Sutf8
  import opened VolumeTable
  import opened VolumeRefinement

  /** Every run from the initial table is the same run on an empty map: the same replies, and in the
      end the same bindings. */
  lemma RunIsMapRun(volumeId: nat, ops: seq<Op>)
    ensures var s := InitTable(volumeId);
            && Distinct(Run(s, ops).0.entries)
            && MapRun(map[], ops, Rooms(s, ops)) == (Bindings(Run(s, ops).0.entries), Run(s, ops).1)
  {
    var s := InitTable(volumeId);
    InitInv(volumeId);
    var at := RunRefines(s, map[], ops);
    assert Bindings(s.entries) == map[];
  }

  // ----- Codes -----

  predicate CorruptionCode(st: Status) {
    st in {EntryCorrupt, NodeCorrupt, TableCorrupt}
  }

  lemma {:induction false} MapRunNeverCorrupt(m: Directory, ops: seq<Op>, rooms: seq<bool>, k: nat)
    requires |rooms| == |ops| && k < |ops|
    ensures |MapRun(m, ops, rooms).1| == |ops|
    ensures var reply := MapRun(m, ops, rooms).1[k];
            !CorruptionCode(reply.status) && reply.status != NotInitialized
            && (ops[k].VerifyOp? ==> reply.status == IntegrityOk)
    decreases |ops|
  {
    var (m1, reply) := MapStep(m, ops[0], rooms[0]);
    MapRunLength(m1, ops[1..], rooms[1..]);
    assert MapRun(m, ops, rooms).1 == [reply] + MapRun(m1, ops[1..], rooms[1..]).1;
    if k > 0 {
      MapRunNeverCorrupt(m1, ops[1..], rooms[1..], k - 1);
    }
  }

  lemma {:induction false} MapRunLength(m: Directory, ops: seq<Op>, rooms: seq<bool>)
    requires |rooms| == |ops|
    ensures |MapRun(m, ops, rooms).1| == |ops|
    decreases |ops|
  {
    if ops != [] {
      MapRunLength(MapStep(m, ops[0], rooms[0]).0, ops[1..], rooms[1..]);
    }
  }

  /** In no run from the initial table does any call return a corruption code, and every
      integrity check passes. */
  lemma NeverCorrupt(volumeId: nat, ops: seq<Op>, k: nat)
    requires k < |ops|
    ensures var reply := Run(InitTable(volumeId), ops).1[k];
            !CorruptionCode(reply.status) && (ops[k].VerifyOp? ==> reply.status == IntegrityOk)
  {
    var s := InitTable(volumeId);
    InitInv(volumeId);
    var at := RunRefines(s, map[], ops);
    MapRunNeverCorrupt(Bindings(s.entries), ops, Rooms(s, ops), k);
  }

  /** What a reply says about the map: success means that exactly one binding was added, found or
      deleted, and every other reply leaves the map as it was. */
  ghost predicate ReplyTells(m: Directory, op: Op, m2: Directory, reply: Reply) {
    match reply.status
    case InsertOk => op.InsertOp? && Added(m, op.path, op.sectorOffset, op.flags, m2)
    case RemoveOk => op.RemoveOp? && HashPath(op.path) in m && m2 == Without(m, HashPath(op.path))
    case LookupOk => op.LookupOp? && HashPath(op.path) in m && m2 == m
                     && reply.found == Hit(m[HashPath(op.path)])
    case _ => m2 == m && reply.found == Missed
  }

  ghost predicate Added(m: Directory, path: CString, sectorOffset: nat, flags: nat, m2: Directory) {
    && HashPath(path) !in m && HashPath(path) in m2
    && Describes(m2[HashPath(path)], path, sectorOffset, flags)
    && Without(m2, HashPath(path)) == m
  }

  lemma MapStepTells(m: Directory, op: Op, room: bool)
    ensures var (m2, reply) := MapStep(m, op, room); ReplyTells(m, op, m2, reply)
  {
    if op.InsertOp? && GoodLength(op.path) && IsSutf8(op.path) && HashPath(op.path) !in m {
      StoredIsAdded(m, op.path, op.sectorOffset, op.flags, HashPath(op.path));
    }
  }

  lemma StoredIsAdded(m: Directory, path: CString, sectorOffset: nat, flags: nat, h: nat)
    requires IsSutf8(path) && h == HashPath(path) && h !in m
    ensures Added(m, path, sectorOffset, flags, m[h := Stored(path, sectorOffset, flags)])
  {
    StoredDescribes(path, sectorOffset, flags);
    var m2 := m[h := Stored(path, sectorOffset, flags)];
    assert Without(m2, h).Keys == m.Keys;
  }

  /** The same for the table, through the map it stands for. */
  lemma StepTells(s: Table, at: Index, op: Op)
    requires TableInv(s, at)
    ensures Distinct(s.entries) && Distinct(Step(s, op).0.entries)
    ensures ReplyTells(Bindings(s.entries), op, Bindings(Step(s, op).0.entries), Step(s, op).1)
  {
    var at2 := StepInv(s, at, op);
    MapStepTells(Bindings(s.entries), op, Room(s, op));
  }

  /** What was just inserted is found, with everything that was given. */
  lemma InsertThenLookup(s: Table, at: Index, path: CString, sectorOffset: nat, flags: nat)
    requires TableInv(s, at) && Insert(s, path, sectorOffset, flags).1 == InsertOk
    ensures var (status, found) := Lookup(Insert(s, path, sectorOffset, flags).0, path);
            status == LookupOk && found.Hit? && Describes(found.entry, path, sectorOffset, flags)
  {
    var s2 := Insert(s, path, sectorOffset, flags).0;
    var op := InsertOp(path, sectorOffset, flags);
    StepTells(s, at, op);
    var at2 := InsertInv(s, at, path, sectorOffset, flags);
    LookupRefines(s2, at2, path);
    assert Step(s, op).0 == s2;
  }

  /** A live entry has the hash of the path. */
  ghost predicate Known(s: Table, path: CString) {
    exists e :: e in s.entries && e.occupied && e.pathHash == HashPath(path)
  }

  lemma KnownIsNamed(s: Table, at: Index, path: CString) returns (slot: nat)
    requires TableInv(s, at)
    ensures var node := WalkConst(s.trie, KeyPath(HashPath(path)));
            if Known(s, path)
            then node != NULL_NODE && s.trie.nodes[node].entry == slot < MAX_ENTRIES && s.entries[slot].occupied
            else node == NULL_NODE
  {
    slot := WalkFindsEntry(s, at, HashPath(path));
  }

  ghost predicate Encoded(path: CString) {
    exists cs :: AllValid(cs) && EncodeAll(cs) == path
  }

  lemma EncodedIsSutf8(path: CString)
    ensures IsSutf8(path) <==> Encoded(path)
  {
    if IsSutf8(path) {
      WellFormedIffEncoded(path, CountCodepoints(path).n);
    }
    if cs :| AllValid(cs) && EncodeAll(cs) == path {
      WellFormedIffEncoded(path, |cs|);
    }
  }

  /** When an insertion is refused without asking for nodes, and with which reply: by the length of the path,
      its encoding, the number of entries, and a known hash, in this order. */
  lemma InsertRefused(s: Table, at: Index, path: CString, sectorOffset: nat, flags: nat)
    requires TableInv(s, at)
    ensures var st := Insert(s, path, sectorOffset, flags).1;
            && (st == PathTooLong <==> |path| == 0 || |path| >= 128)
            && (st == InvalidSutf8 <==> 0 < |path| < 128 && !Encoded(path))
            && (st == TableFull <==> 0 < |path| < 128 && Encoded(path) && s.count >= 128)
            && (st == AlreadyExists <==> 0 < |path| < 128 && Encoded(path) && s.count < 128 && Known(s, path))
            && st in {PathTooLong, InvalidSutf8, TableFull, AlreadyExists, PoolExhausted, InsertOk}
  {
    EncodedIsSutf8(path);
    var slot := KnownIsNamed(s, at, path);
    if GoodLength(path) && IsSutf8(path) && s.count < MAX_ENTRIES && !Known(s, path) {
      WalkNamed(s.trie, at, KeyPath(HashPath(path)));
      var at2 := InsertNewInv(s, at, path, sectorOffset, flags);
    } else if Known(s, path) {
      assert s.trie.nodes[WalkConst(s.trie, KeyPath(HashPath(path)))].entry != NULL_ENTRY;
    }
  }

  /** When lookup and removal fail: by the length of the path, or because no live entry has its hash. */
  lemma NotFoundExactly(s: Table, at: Index, path: CString)
    requires TableInv(s, at)
    ensures Lookup(s, path).0 == if |path| == 0 || |path| >= 128 then PathTooLong
                                 else if Known(s, path) then LookupOk else NotFound
    ensures Remove(s, path).1 == if |path| == 0 || |path| >= 128 then PathTooLong
                                 else if Known(s, path) then RemoveOk else NotFound
  {
    var slot := KnownIsNamed(s, at, path);
  }

  // ----- The pool in every reachable table -----

  /** After any run the allocated nodes are exactly the reachable ones, each below one parent,
      the free stack holds exactly the others, and the leaves are the entries. */
  lemma ReachablePool(volumeId: nat, ops: seq<Op>) returns (at: Index)
    ensures var s := Run(InitTable(volumeId), ops).0;
            && TableInv(s, at)
            && s.trie.freeTop + s.trie.nodeCount == MAX_NODES && s.trie.nodeCount == |at|
            && (forall p: Path :: WalkConst(s.trie, p) == if p in at then at[p] else NULL_NODE)
            && (forall i: nat | i < MAX_NODES :: InTree(at, i) <==> !OnStack(s.trie, i))
            && |Layer(at.Keys, NIBBLE_COUNT)| == s.count
  {
    InitInv(volumeId);
    at := RunRefines(InitTable(volumeId), map[], ops);
    var s := Run(InitTable(volumeId), ops).0;
    forall p: Path ensures WalkConst(s.trie, p) == if p in at then at[p] else NULL_NODE {
      WalkNamed(s.trie, at, p);
    }
    forall i: nat | i < MAX_NODES ensures InTree(at, i) <==> !OnStack(s.trie, i) {
      PoolPartition(s.trie, at, i);
    }
    LeavesAreEntries(s, at);
  }

  lemma LeavesAreEntries(s: Table, at: Index)
    requires TableInv(s, at)
    ensures |Layer(at.Keys, NIBBLE_COUNT)| == s.count
  {
    var a, b := Layer(at.Keys, NIBBLE_COUNT), OccupiedSlots(s.entries);
    var f := (p: Path) requires p in at && at[p] < |s.trie.nodes| => s.trie.nodes[at[p]].entry;
    forall p | p in a ensures f.requires(p) && f(p) in b {
      assert LeafEntry(s, at, p);
    }
    forall p, q | p in a && q in a && f(p) == f(q) ensures p == q {
      assert LeafEntry(s, at, p) && LeafEntry(s, at, q);
    }
    forall i | i in b ensures exists p :: p in a && f(p) == i {
      assert SlotLeaf(s, at, i);
      var p := KeyPath(s.entries[i].pathHash);
      assert p in a && f(p) == i;
    }
    OneToOneSize(a, f, b);
  }

  // ----- Capacity -----

  /** The pool holds no garbage. */
  ghost predicate Clean(s: Table, at: Index) {
    TableInv(s, at) && Tidy(s.trie, at)
  }

  lemma GoesOnIsTidy(s: Table, at: Index)
    requires TableInv(s, at) && GoesOn(at.Keys)
    ensures Tidy(s.trie, at)
  {
    forall p | p in at ensures !Dead(s.trie.nodes[at[p]]) {
      if |p| == NIBBLE_COUNT {
        assert LeafEntry(s, at, p);
      } else {
        assert Continues(at.Keys, p);
        var n: Nibble :| p + [n] in at.Keys;
        StepDown(s.trie, at, p, n);
      }
    }
  }

  lemma CreatedGoesOn(t: Trie, at: Index, t2: Trie, at2: Index, key: Path)
    requires Shape(t, at) && Tidy(t, at) && Shape(t2, at2) && Extends(t, at, t2, at2, key)
    requires key in at2 && |key| == NIBBLE_COUNT
    ensures GoesOn(at2.Keys)
  {
    TidyGoesOn(t, at);
    forall i | 0 <= i <= |key| ensures key[..i] in at2 {
      PrefixClosed(t2, at2, key, i);
    }
    PrefixesGoOn(at.Keys, at2.Keys, key);
  }

  lemma PrefixesGoOn(K: set<Path>, K2: set<Path>, key: Path)
    requires GoesOn(K) && K <= K2 && |key| == NIBBLE_COUNT
    requires forall p | p in K2 :: p in K || p <= key
    requires forall i | 0 <= i <= |key| :: key[..i] in K2
    ensures GoesOn(K2)
  {
    forall p | p in K2 && |p| < NIBBLE_COUNT ensures Continues(K2, p) {
      if p in K {
        assert Continues(K, p);
        var n: Nibble :| p + [n] in K;
        assert p + [n] in K2;
      } else {
        assert key[..|p| + 1] == p + [key[|p|]];
      }
    }
  }

  /** An insertion that does not exhaust the pool leaves no garbage, and with no garbage and at most 48
      live entries no insertion exhausts it. */
  lemma InsertClean(s: Table, at: Index, path: CString, sectorOffset: nat, flags: nat) returns (at2: Index)
    requires Clean(s, at)
    ensures Insert(s, path, sectorOffset, flags).1 == PoolExhausted ==> s.count >= 49 && NeedsNodes(s, path)
    ensures Insert(s, path, sectorOffset, flags).1 != PoolExhausted ==>
              Clean(Insert(s, path, sectorOffset, flags).0, at2)
  {
    at2 := InsertInv(s, at, path, sectorOffset, flags);
    var (s2, st) := Insert(s, path, sectorOffset, flags);
    var key := KeyPath(HashPath(path));
    if st == InsertOk {
      WalkSucceeded(s, path, sectorOffset, flags);
      CreatedClean(s, at, key, at2);
      GoesOnIsTidy(s2, at2);
    } else if st == PoolExhausted {
      WalkNamed(s.trie, at, key);
      RoomFor49(s, at, key);
      AskedForNodes(s, path, sectorOffset, flags);
    }
  }

  lemma WalkSucceeded(s: Table, path: CString, sectorOffset: nat, flags: nat)
    requires TableTyped(s) && Insert(s, path, sectorOffset, flags).1 == InsertOk
    ensures WalkCreate(s.trie, KeyPath(HashPath(path))).1 != NULL_NODE
  {
  }

  lemma AskedForNodes(s: Table, path: CString, sectorOffset: nat, flags: nat)
    requires TableTyped(s) && Insert(s, path, sectorOffset, flags).1 == PoolExhausted
    requires WalkConst(s.trie, KeyPath(HashPath(path))) == NULL_NODE
    ensures NeedsNodes(s, path)
  {
  }

  /** The insertion gets as far as asking the pool for nodes. */
  predicate NeedsNodes(s: Table, path: CString)
    requires TableTyped(s)
  {
    GoodLength(path) && IsSutf8(path) && s.count < MAX_ENTRIES
    && WalkConst(s.trie, KeyPath(HashPath(path))) == NULL_NODE
  }

  lemma RoomFor49(s: Table, at: Index, key: Path)
    requires Clean(s, at) && |key| == NIBBLE_COUNT && WalkCreate(s.trie, key).1 == NULL_NODE
    ensures s.count >= 49
  {
    if s.count <= 48 {
      LeavesAreEntries(s, at);
      RoomForOneMore(s.trie, at, key);
      WalkCreateNeeds(s.trie, at, key);
    }
  }

  lemma CreatedClean(s: Table, at: Index, key: Path, at2: Index)
    requires Clean(s, at) && |key| == NIBBLE_COUNT && at2 == Created(s.trie, at, key)
    requires WalkCreate(s.trie, key).1 != NULL_NODE
    ensures GoesOn(at2.Keys)
  {
    var at3 := WalkCreateShape(s.trie, at, key);
    CreatedIs(s.trie, at, key, at3);
    CreatedGoesOn(s.trie, at, WalkCreate(s.trie, key).0, at2, key);
  }

  /** Every operation that does not exhaust the pool leaves no garbage. */
  lemma CleanStep(s: Table, at: Index, op: Op) returns (at2: Index)
    requires Clean(s, at)
    ensures Step(s, op).1.status == PoolExhausted ==> s.count >= 49 && op.InsertOp? && NeedsNodes(s, op.path)
    ensures Step(s, op).1.status != PoolExhausted ==> Clean(Step(s, op).0, at2)
  {
    match op
    case InsertOp(path, sectorOffset, flags) =>
      at2 := InsertClean(s, at, path, sectorOffset, flags);
    case RemoveOp(path) =>
      at2 := RemoveInv(s, at, path);
      RemoveStatus(s, path);
    case _ =>
      at2 := at;
      VerifyPasses(s, at);
  }

  lemma RemoveStatus(s: Table, path: CString)
    requires TableTyped(s)
    ensures Remove(s, path).1 != PoolExhausted
  {
  }

  lemma RunFirst(s: Table, ops: seq<Op>, s1: Table, reply: Reply)
    requires TableTyped(s) && ops != [] && (s1, reply) == Step(s, ops[0])
    ensures Run(s, ops) == (Run(s1, ops[1..]).0, [reply] + Run(s1, ops[1..]).1)
  {
  }

  /** As long as the pool has not been exhausted, there is no garbage. */
  lemma {:induction false} RunClean(s: Table, at: Index, ops: seq<Op>) returns (at2: Index)
    requires Clean(s, at) && NoneExhausted(Run(s, ops).1)
    ensures Clean(Run(s, ops).0, at2)
    decreases |ops|
  {
    at2 := at;
    if ops != [] {
      var (s1, reply) := Step(s, ops[0]);
      RunFirst(s, ops, s1, reply);
      assert Run(s, ops).1[0] == reply && Run(s, ops).1[1..] == Run(s1, ops[1..]).1;
      assert NoneExhausted(Run(s1, ops[1..]).1);
      var at1 := CleanStep(s, at, ops[0]);
      at2 := RunClean(s1, at1, ops[1..]);
    }
  }

  ghost predicate NoneExhausted(replies: seq<Reply>) {
    forall k | 0 <= k < |replies| :: replies[k].status != PoolExhausted
  }

  /** A run goes on from where its first part has ended. */
  lemma {:induction false} RunSplit(s: Table, ops: seq<Op>, k: nat)
    requires TableTyped(s) && k < |ops|
    ensures Run(s, ops).1[..k] == Run(s, ops[..k]).1
    ensures Run(s, ops).1[k] == Step(Run(s, ops[..k]).0, ops[k]).1
    ensures Run(s, ops[..k + 1]).0 == Step(Run(s, ops[..k]).0, ops[k]).0
    decreases k
  {
    var (s1, reply) := Step(s, ops[0]);
    RunFirst(s, ops, s1, reply);
    RunFirst(s, ops[..k + 1], s1, reply);
    assert ops[..k + 1][1..] == ops[1..][..k];
    if k > 0 {
      RunSplit(s1, ops[1..], k - 1);
      assert ops[..k][1..] == ops[1..][..k - 1];
      RunSplitNext(s, ops, k, s1, reply, ops[1..], ops[..k]);
    }
  }

  lemma RunSplitNext(s: Table, ops: seq<Op>, k: nat, s1: Table, reply: Reply, rest: seq<Op>, part: seq<Op>)
    requires TableTyped(s) && 0 < k < |ops| && (s1, reply) == Step(s, ops[0]) && TableTyped(s1)
    requires rest == ops[1..] && part == ops[..k] && part[1..] == rest[..k - 1]
    requires Run(s, ops) == (Run(s1, rest).0, [reply] + Run(s1, rest).1)
    requires Run(s1, rest).1[..k - 1] == Run(s1, rest[..k - 1]).1
    requires Run(s1, rest).1[k - 1] == Step(Run(s1, rest[..k - 1]).0, rest[k - 1]).1
    ensures Run(s, part).0 == Run(s1, rest[..k - 1]).0 && Run(s, ops).1[..k] == Run(s, part).1
    ensures Run(s, ops).1[k] == Step(Run(s, part).0, ops[k]).1
  {
    RunFirst(s, part, s1, reply);
    var after := Run(s1, rest).1;
    assert ([reply] + after)[..k] == [reply] + after[..k - 1];
  }

  /** If operation `k` of the run is an insertion that needs nodes, at most 48 entries are live. */
  ghost predicate RoomAt(s: Table, ops: seq<Op>, k: nat)
    requires TableTyped(s) && k < |ops|
  {
    var s1 := Run(s, ops[..k]).0;
    ops[k].InsertOp? && NeedsNodes(s1, ops[k].path) ==> s1.count <= 48
  }

  lemma FirstExhaustionFrom(s: Table, at: Index, ops: seq<Op>, k: nat, s1: Table, replies: seq<Reply>)
    requires Clean(s, at) && k < |ops| && s1 == Run(s, ops[..k]).0 && replies == Run(s, ops).1
    requires replies[k].status == PoolExhausted && NoneExhausted(replies[..k])
    ensures s1.count >= 49 && ops[k].InsertOp? && NeedsNodes(s1, ops[k].path) && !RoomAt(s, ops, k)
  {
    RunSplit(s, ops, k);
    var at1 := RunClean(s, at, ops[..k]);
    var at2 := CleanStep(s1, at1, ops[k]);
  }

  /** Capacity, for every run from the initial table: the first insertion that exhausts the pool is one
      for a new key, made with at least 49 live entries. */
  lemma FirstExhaustion(volumeId: nat, ops: seq<Op>, k: nat)
    requires k < |ops| && Run(InitTable(volumeId), ops).1[k].status == PoolExhausted
    requires NoneExhausted(Run(InitTable(volumeId), ops).1[..k])
    ensures var s := Run(InitTable(volumeId), ops[..k]).0;
            s.count >= 49 && ops[k].InsertOp? && NeedsNodes(s, ops[k].path)
  {
    var s := InitTable(volumeId);
    InitInv(volumeId);
    FirstExhaustionFrom(s, map[], ops, k, Run(s, ops[..k]).0, Run(s, ops).1);
  }

  /** So in a run in which every insertion that needs nodes starts with at most 48 live entries the pool
      is never exhausted, however many entries there are in between. */
  lemma PoolNeverExhausted(volumeId: nat, ops: seq<Op>)
    requires forall k: nat | k < |ops| :: RoomAt(InitTable(volumeId), ops, k)
    ensures NoneExhausted(Run(InitTable(volumeId), ops).1)
  {
    InitInv(volumeId);
    NeverExhaustedFrom(InitTable(volumeId), map[], ops, Run(InitTable(volumeId), ops).1);
  }

  lemma NeverExhaustedFrom(s: Table, at: Index, ops: seq<Op>, replies: seq<Reply>)
    requires Clean(s, at) && replies == Run(s, ops).1 && forall k: nat | k < |ops| :: RoomAt(s, ops, k)
    ensures NoneExhausted(replies)
  {
    if !NoneExhausted(replies) {
      var k := FirstExhausted(replies, |replies|);
      FirstExhaustionFrom(s, at, ops, k, Run(s, ops[..k]).0, replies);
      assert false;
    }
  }

  lemma {:induction false} FirstExhausted(replies: seq<Reply>, n: nat) returns (k: nat)
    requires n <= |replies| && exists j :: 0 <= j < n && replies[j].status == PoolExhausted
    ensures k < n && replies[k].status == PoolExhausted
    ensures forall j | 0 <= j < k :: replies[j].status != PoolExhausted
  {
    if exists j :: 0 <= j < n - 1 && replies[j].status == PoolExhausted {
      k := FirstExhausted(replies, n - 1);
    } else {
      k := n - 1;
    }
  }

  // ----- Taking an insertion back -----

  /** Clearing the leaf that was just linked gives back the trie as the creating walk left it. */
  lemma UnpointLeaf(t: Trie, leaf: nat, slot: nat)
    requires Typed(t) && leaf < MAX_NODES && t.nodes[leaf].entry == NULL_ENTRY
    ensures Point(Point(t, leaf, slot, 1), leaf, NULL_ENTRY, -1) == t
  {
    var t2 := Point(Point(t, leaf, slot, 1), leaf, NULL_ENTRY, -1);
    assert t2.nodes == t.nodes;
  }

  /** What an insertion that succeeds has done. */
  lemma InsertedTable(s: Table, at: Index, path: CString, sectorOffset: nat, flags: nat)
    returns (leaf: nat, slot: nat)
    requires TableInv(s, at) && Insert(s, path, sectorOffset, flags).1 == InsertOk
    ensures var key := KeyPath(HashPath(path));
            && key !in at && IsSutf8(path) && GoodLength(path)
            && leaf == WalkCreate(s.trie, key).1 < MAX_NODES && slot < MAX_ENTRIES
            && WalkCreate(s.trie, key).0.nodes[leaf].entry == NULL_ENTRY
            && s.entries[slot] == EmptyEntry()
            && Insert(s, path, sectorOffset, flags).0
               == Occupy(s, WalkCreate(s.trie, key).0, leaf, slot, NewEntry(path, sectorOffset, flags))
            && WalkConst(Insert(s, path, sectorOffset, flags).0.trie, key) == leaf
  {
    var key := KeyPath(HashPath(path));
    var at2 := InsertInv(s, at, path, sectorOffset, flags);
    var at3 := WalkCreateShape(s.trie, at, key);
    CreatedIs(s.trie, at, key, at3);
    leaf, slot := WalkCreate(s.trie, key).1, FirstFree(s.entries, 0);
    WalkNamed(Insert(s, path, sectorOffset, flags).0.trie, at2, key);
    FreeSlotIsEmpty(s, at, slot);
  }

  lemma FreeSlotIsEmpty(s: Table, at: Index, slot: nat)
    requires TableInv(s, at) && s.count < MAX_ENTRIES && slot == FirstFree(s.entries, 0)
    ensures slot < MAX_ENTRIES && s.entries[slot] == EmptyEntry()
  {
    SlotsFilled(s, at);
    assert SlotLeaf(s, at, slot);
  }

  /** Inserting an absent path and removing it again always gives back the entries and the counts;
      it gives back the pool, the order of the free stack included, exactly when the walk for the
      path did not stop at a dead end. */
  lemma InsertThenRemove(s: Table, at: Index, path: CString, sectorOffset: nat, flags: nat)
    requires TableInv(s, at) && Insert(s, path, sectorOffset, flags).1 == InsertOk
    ensures var s1 := Insert(s, path, sectorOffset, flags).0;
            var (s2, st) := Remove(s1, path);
            && st == RemoveOk
            && s2.entries == s.entries && s2.count == s.count
            && (SameTree(s.trie, s2.trie)
                <==> (s.trie.root == NULL_NODE || !Dead(s.trie.nodes[StopsAt(s.trie, KeyPath(HashPath(path)))])))
  {
    var key := KeyPath(HashPath(path));
    var leaf, slot := InsertedTable(s, at, path, sectorOffset, flags);
    var t := WalkCreate(s.trie, key).0;
    UnpointLeaf(t, leaf, slot);
    RemoveInserted(s, t, leaf, slot, path, NewEntry(path, sectorOffset, flags));
    CreateThenPrune(s.trie, at, key);
  }

  lemma RemoveInserted(s: Table, t: Trie, leaf: nat, slot: nat, path: CString, e: Entry)
    requires TableTyped(s) && s.initialized && Typed(t) && leaf < MAX_NODES && slot < MAX_ENTRIES
    requires GoodLength(path) && e.occupied && s.entries[slot] == EmptyEntry()
    requires var s1 := Occupy(s, t, leaf, slot, e); WalkConst(s1.trie, KeyPath(HashPath(path))) == leaf
    requires Point(Point(t, leaf, slot, 1), leaf, NULL_ENTRY, -1) == t
    ensures Remove(Occupy(s, t, leaf, slot, e), path)
            == (s.(trie := Prune(t, KeyPath(HashPath(path)))), RemoveOk)
  {
    var s1, key := Occupy(s, t, leaf, slot, e), KeyPath(HashPath(path));
    assert s1.trie.nodes[leaf].entry == slot && s1.entries[slot] == e;
    assert Remove(s1, path) == (Vacate(s1, key, leaf, slot), RemoveOk);
    VacateOccupied(s, t, leaf, slot, key, e);
  }

  lemma VacateOccupied(s: Table, t: Trie, leaf: nat, slot: nat, key: Path, e: Entry)
    requires TableTyped(s) && Typed(t) && leaf < MAX_NODES && slot < MAX_ENTRIES && s.entries[slot] == EmptyEntry()
    requires Point(Point(t, leaf, slot, 1), leaf, NULL_ENTRY, -1) == t
    ensures Vacate(Occupy(s, t, leaf, slot, e), key, leaf, slot) == s.(trie := Prune(t, key))
  {
    assert s.entries[slot := e][slot := EmptyEntry()] == s.entries;
  }

  /** In a garbage-free table the walk for an absent key never stops at a dead end. */
  lemma CleanInsertThenRemove(s: Table, at: Index, path: CString, sectorOffset: nat, flags: nat)
    requires Clean(s, at) && Insert(s, path, sectorOffset, flags).1 == InsertOk
    ensures var s2 := Remove(Insert(s, path, sectorOffset, flags).0, path).0;
            s2.entries == s.entries && s2.count == s.count && SameTree(s.trie, s2.trie)
  {
    var key := KeyPath(HashPath(path));
    InsertThenRemove(s, at, path, sectorOffset, flags);
    var at2 := InsertInv(s, at, path, sectorOffset, flags);
    if s.trie.root != NULL_NODE {
      var m := Stop(s.trie, at, key);
      assert !Dead(s.trie.nodes[at[key[..m]]]);
    }
  }
}
