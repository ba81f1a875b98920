/**
  The volume index refines a finite map from 44-bit path hashes to entries.
 */
module VolumeRefinement {
  import opened PathTrie
  import opened PathTrieCapacity
  import opened PathKey
  import opened Sutf8
  import opened VolumeTable

  // ----- Every operation keeps the invariant -----

  lemma PointShape(t: Trie, at: Index, p: Path, e: nat, more: int)
    requires Shape(t, at) && p in at && |p| == NIBBLE_COUNT
    ensures Shape(Point(t, at[p], e, more), at)
  {
    var t2 := Point(t, at[p], e, more);
    forall r | r in at && r != p ensures t2.nodes[at[r]] == t.nodes[at[r]] {
      NamedApart(t, at, r, p);
    }
    PointLinked(t, at, p, t2);
    forall i: nat | i < t.freeTop ensures t2.nodes[t.freeStack[i]] == Blank() {
      NamedNotFree(t, at, p, i);
    }
    assert forall r, i: nat | r in at && i < t.freeTop :: NotFree(t, at, r, i) ==> NotFree(t2, at, r, i);
  }

  lemma PointLinked(t: Trie, at: Index, p: Path, t2: Trie)
    requires Shape(t, at) && p in at && |p| == NIBBLE_COUNT && Typed(t2) && t2.root == t.root
    requires forall r | r in at && r != p :: t2.nodes[at[r]] == t.nodes[at[r]]
    requires t2.nodes[at[p]].bitmap == t.nodes[at[p]].bitmap && t2.nodes[at[p]].children == t.nodes[at[p]].children
    ensures Names(t2, at) && Linked(t2, at)
  {
    assert forall r | r in at :: HasParent(t, at, r) ==> HasParent(t2, at, r);
    assert forall r, n | r in at :: HasChild(t, at, r, n) ==> HasChild(t2, at, r, n);
  }

  /** The only new name as long as a key is the key itself. */
  lemma NewLeaf(t: Trie, at: Index, t2: Trie, at2: Index, key: Path, p: Path)
    requires |t.nodes| == |t2.nodes| == MAX_NODES && Names(t, at) && Names(t2, at2)
    requires Extends(t, at, t2, at2, key) && p in at2 && |p| == |key|
    ensures p in at || p == key
  {
  }

  lemma KeptSlot(s: Table, at: Index, s2: Table, at2: Index, i: nat)
    requires TableTyped(s) && TableTyped(s2) && Names(s.trie, at) && Names(s2.trie, at2) && i < MAX_ENTRIES
    requires SlotLeaf(s, at, i) && s2.entries[i] == s.entries[i]
    requires s.entries[i].occupied ==>
               var p := KeyPath(s.entries[i].pathHash);
               p in at ==> p in at2 && at2[p] == at[p] && s2.trie.nodes[at[p]].entry == s.trie.nodes[at[p]].entry
    ensures SlotLeaf(s2, at2, i)
  {
  }

  /** Extending the tree by nodes that are not leaves keeps the entries where they are. */
  lemma ExtendInv(s: Table, at: Index, t: Trie, at2: Index, key: Path)
    requires TableInv(s, at) && Shape(t, at2) && Extends(s.trie, at, t, at2, key)
    requires |key| == NIBBLE_COUNT && key !in at2
    ensures TableInv(s.(trie := t), at2)
  {
    var s2 := s.(trie := t);
    forall p | p in at2 && |p| == NIBBLE_COUNT ensures LeafEntry(s2, at2, p) {
      NewLeaf(s.trie, at, t, at2, key, p);
      assert LeafEntry(s, at, p);
    }
    forall i: nat | i < MAX_ENTRIES ensures SlotLeaf(s2, at2, i) {
      KeptSlot(s, at, s2, at2, i);
    }
  }

  lemma SlotsFilled(s: Table, at: Index)
    requires TableInv(s, at) && s.count < MAX_ENTRIES
    ensures FirstFree(s.entries, 0) < MAX_ENTRIES
  {
    assert (forall i | 0 <= i < |s.entries| :: s.entries[i].occupied)
           ==> OccupiedSlots(s.entries) == Slots(|s.entries|);
  }

  lemma OccupyCount(entries: seq<Entry>, i: nat, e: Entry)
    requires i < |entries| && !entries[i].occupied && e.occupied
    ensures |OccupiedSlots(entries[i := e])| == |OccupiedSlots(entries)| + 1
  {
    assert OccupiedSlots(entries[i := e]) == OccupiedSlots(entries) + {i};
  }

  lemma VacateCount(entries: seq<Entry>, i: nat)
    requires i < |entries| && entries[i].occupied
    ensures |OccupiedSlots(entries[i := EmptyEntry()])| == |OccupiedSlots(entries)| - 1
  {
    assert OccupiedSlots(entries[i := EmptyEntry()]) == OccupiedSlots(entries) - {i};
  }

  /** Linking a new leaf to a free slot. */
  lemma OccupyInv(s: Table, at: Index, t: Trie, at2: Index, slot: nat, e: Entry)
    requires TableInv(s, at) && Shape(t, at2) && EntryChecks(e) && e.occupied
    requires var key := KeyPath(e.pathHash);
             key in at2 && key !in at && Extends(s.trie, at, t, at2, key)
    requires slot < MAX_ENTRIES && !s.entries[slot].occupied
    ensures TableInv(Occupy(s, t, at2[KeyPath(e.pathHash)], slot, e), at2)
  {
    var key := KeyPath(e.pathHash);
    var s2 := Occupy(s, t, at2[key], slot, e);
    PointShape(t, at2, key, slot, 1);
    OccupyCount(s.entries, slot, e);
    forall p | p in at2 && |p| == NIBBLE_COUNT ensures LeafEntry(s2, at2, p) {
      OccupyLeaf(s, at, t, at2, slot, e, p, s2);
    }
    forall i: nat | i < MAX_ENTRIES ensures SlotLeaf(s2, at2, i) {
      OccupySlotLeaf(s, at, t, at2, slot, e, i, s2);
    }
  }

  lemma OccupyLeaf(s: Table, at: Index, t: Trie, at2: Index, slot: nat, e: Entry, p: Path, s2: Table)
    requires TableInv(s, at) && Shape(t, at2) && e.occupied
    requires var key := KeyPath(e.pathHash);
             key in at2 && key !in at && Extends(s.trie, at, t, at2, key)
    requires slot < MAX_ENTRIES && !s.entries[slot].occupied
    requires s2 == Occupy(s, t, at2[KeyPath(e.pathHash)], slot, e) && p in at2 && |p| == NIBBLE_COUNT
    ensures LeafEntry(s2, at2, p)
  {
    var key := KeyPath(e.pathHash);
    NewLeaf(s.trie, at, t, at2, key, p);
    if p != key {
      assert LeafEntry(s, at, p);
      NamedApart(t, at2, p, key);
    }
  }

  lemma OccupySlotLeaf(s: Table, at: Index, t: Trie, at2: Index, slot: nat, e: Entry, i: nat, s2: Table)
    requires TableInv(s, at) && Shape(t, at2) && EntryChecks(e) && e.occupied
    requires var key := KeyPath(e.pathHash);
             key in at2 && key !in at && Extends(s.trie, at, t, at2, key)
    requires slot < MAX_ENTRIES && !s.entries[slot].occupied
    requires s2 == Occupy(s, t, at2[KeyPath(e.pathHash)], slot, e) && Names(s2.trie, at2) && i < MAX_ENTRIES
    ensures SlotLeaf(s2, at2, i)
  {
    if i != slot {
      assert SlotLeaf(s, at, i);
      if s.entries[i].occupied { NamedApart(t, at2, KeyPath(s.entries[i].pathHash), KeyPath(e.pathHash)); }
      KeptSlot(s, at, s2, at2, i);
    }
  }

  lemma InsertInv(s: Table, at: Index, path: CString, sectorOffset: nat, flags: nat) returns (at2: Index)
    requires TableInv(s, at)
    ensures TableInv(Insert(s, path, sectorOffset, flags).0, at2)
    ensures Insert(s, path, sectorOffset, flags).1 !in {InsertOk, PoolExhausted} ==>
            at2 == at && Insert(s, path, sectorOffset, flags).0 == s
    ensures Insert(s, path, sectorOffset, flags).1 == PoolExhausted ==>
            WalkCreate(s.trie, KeyPath(HashPath(path))).1 == NULL_NODE
    ensures Insert(s, path, sectorOffset, flags).1 in {InsertOk, PoolExhausted} ==>
            KeyPath(HashPath(path)) !in at
            && at2 == Created(s.trie, at, KeyPath(HashPath(path)))
  {
    at2 := at;
    if GoodLength(path) && IsSutf8(path) && s.count < MAX_ENTRIES {
      var slot := WalkFindsEntry(s, at, HashPath(path));
      if WalkConst(s.trie, KeyPath(HashPath(path))) == NULL_NODE {
        at2 := InsertNewInv(s, at, path, sectorOffset, flags);
      }
    }
  }

  lemma InsertNewInv(s: Table, at: Index, path: CString, sectorOffset: nat, flags: nat) returns (at2: Index)
    requires TableInv(s, at) && GoodLength(path) && IsSutf8(path) && s.count < MAX_ENTRIES
    requires WalkConst(s.trie, KeyPath(HashPath(path))) == NULL_NODE && KeyPath(HashPath(path)) !in at
    ensures TableInv(Insert(s, path, sectorOffset, flags).0, at2)
    ensures Insert(s, path, sectorOffset, flags).1
            == if WalkCreate(s.trie, KeyPath(HashPath(path))).1 == NULL_NODE then PoolExhausted else InsertOk
    ensures at2 == Created(s.trie, at, KeyPath(HashPath(path)))
  {
    at2 := LinkInv(s, at, KeyPath(HashPath(path)), NewEntry(path, sectorOffset, flags));
  }

  /** Linking a new entry under a key that has none. */
  lemma LinkInv(s: Table, at: Index, key: Path, e: Entry) returns (at2: Index)
    requires TableInv(s, at) && s.count < MAX_ENTRIES && |key| == NIBBLE_COUNT && key !in at
    requires EntryChecks(e) && e.occupied && KeyPath(e.pathHash) == key
    ensures TableInv(InsertNew(s, key, e).0, at2)
    ensures InsertNew(s, key, e).1 == if WalkCreate(s.trie, key).1 == NULL_NODE then PoolExhausted else InsertOk
    ensures at2 == Created(s.trie, at, key)
  {
    at2 := WalkCreateShape(s.trie, at, key);
    CreatedIs(s.trie, at, key, at2);
    LinkedInv(s, at, key, e, at2, WalkCreate(s.trie, key).0, WalkCreate(s.trie, key).1);
  }

  lemma LinkedInv(s: Table, at: Index, key: Path, e: Entry, at2: Index, t: Trie, leaf: nat)
    requires TableInv(s, at) && s.count < MAX_ENTRIES && |key| == NIBBLE_COUNT && key !in at
    requires EntryChecks(e) && e.occupied && KeyPath(e.pathHash) == key && (t, leaf) == WalkCreate(s.trie, key)
    requires Shape(t, at2) && Extends(s.trie, at, t, at2, key)
    requires if leaf == NULL_NODE then key !in at2 else key in at2 && at2[key] == leaf
    ensures TableInv(InsertNew(s, key, e).0, at2)
    ensures InsertNew(s, key, e).1 == if leaf == NULL_NODE then PoolExhausted else InsertOk
  {
    if leaf == NULL_NODE {
      ExtendInv(s, at, t, at2, key);
    } else {
      SlotsFilled(s, at);
      OccupyInv(s, at, t, at2, FirstFree(s.entries, 0), e);
    }
  }

  /** The tree after the creating walk. */
  ghost function Created(t: Trie, at: Index, key: Path): (at2: Index)
    requires Shape(t, at) && |key| <= NIBBLE_COUNT
    ensures Shape(WalkCreate(t, key).0, at2)
  {
    assert exists at2 :: Shape(WalkCreate(t, key).0, at2) by {
      var at2 := WalkCreateShape(t, at, key);
    }
    var at2 :| Shape(WalkCreate(t, key).0, at2);
    at2
  }

  lemma CreatedIs(t: Trie, at: Index, key: Path, at2: Index)
    requires Shape(t, at) && |key| <= NIBBLE_COUNT && Shape(WalkCreate(t, key).0, at2)
    ensures at2 == Created(t, at, key)
  {
    ShapeUnique(WalkCreate(t, key).0, at2, Created(t, at, key));
  }

  /** Nothing but prefixes of `key` loses its node. */
  ghost predicate OnlyDrops(at: Index, at2: Index, key: Path) {
    (forall p | p in at2 :: p in at) && (forall p | p in at && p !in at2 :: p <= key)
  }

  lemma RemoveInv(s: Table, at: Index, path: CString) returns (at2: Index)
    requires TableInv(s, at)
    ensures TableInv(Remove(s, path).0, at2)
    ensures OnlyDrops(at, at2, KeyPath(HashPath(path)))
    ensures NothingDies(s.trie, at, Remove(s, path).0.trie, at2)
  {
    at2 := at;
    if GoodLength(path) {
      var hash := HashPath(path);
      var key := KeyPath(hash);
      var slot := WalkFindsEntry(s, at, hash);
      if WalkConst(s.trie, key) != NULL_NODE {
        at2 := VacateInv(s, at, key, slot);
      }
    }
  }

  lemma VacateInv(s: Table, at: Index, key: Path, slot: nat) returns (at2: Index)
    requires TableInv(s, at) && key in at && |key| == NIBBLE_COUNT
    requires slot == s.trie.nodes[at[key]].entry < MAX_ENTRIES && s.entries[slot].occupied
    ensures TableInv(Vacate(s, key, at[key], slot), at2) && OnlyDrops(at, at2, key)
    ensures NothingDies(s.trie, at, Vacate(s, key, at[key], slot).trie, at2)
  {
    var t := Point(s.trie, at[key], NULL_ENTRY, -1);
    PointShape(s.trie, at, key, NULL_ENTRY, -1);
    LeafIsDead(s.trie, at, key);
    forall p | p in at && p != key ensures t.nodes[at[p]] == s.trie.nodes[at[p]] {
      NamedApart(s.trie, at, p, key);
    }
    at2 := PruneShape(t, at, key);
    VacateCount(s.entries, slot);
    forall p | p in at && |p| == NIBBLE_COUNT && p != key ensures p in at2 {
      KeptLeaf(t, at, Prune(t, key), at2, key, p);
    }
    VacateEntries(s, at, key, slot, Vacate(s, key, at[key], slot), at2);
  }

  /** What is known of the state between clearing the leaf and the end of the pruning. */
  ghost predicate Vacating(s: Table, at: Index, key: Path, slot: nat, s2: Table, at2: Index) {
    && TableInv(s, at) && TableTyped(s2) && Names(s2.trie, at2)
    && key in at && |key| == NIBBLE_COUNT && key !in at2
    && slot == s.trie.nodes[at[key]].entry < MAX_ENTRIES
    && s2.entries == s.entries[slot := EmptyEntry()]
    && (forall p | p in at2 :: p in at && at2[p] == at[p])
    && (forall p | p in at && |p| == NIBBLE_COUNT && p != key :: p in at2)
    && (forall p | p in at2 && p != key :: s2.trie.nodes[at[p]].entry == s.trie.nodes[at[p]].entry)
  }

  lemma VacateEntries(s: Table, at: Index, key: Path, slot: nat, s2: Table, at2: Index)
    requires Vacating(s, at, key, slot, s2, at2)
    ensures forall p | p in at2 && |p| == NIBBLE_COUNT :: LeafEntry(s2, at2, p)
    ensures forall i: nat | i < MAX_ENTRIES :: SlotLeaf(s2, at2, i)
  {
    assert LeafEntry(s, at, key);
    forall p | p in at2 && |p| == NIBBLE_COUNT ensures LeafEntry(s2, at2, p) {
      assert LeafEntry(s, at, p);
    }
    forall i: nat | i < MAX_ENTRIES ensures SlotLeaf(s2, at2, i) {
      if i != slot {
        assert SlotLeaf(s, at, i);
        KeptSlot(s, at, s2, at2, i);
      }
    }
  }

  lemma KeptLeaf(t: Trie, at: Index, t2: Trie, at2: Index, key: Path, p: Path)
    requires |t.nodes| == |t2.nodes| == MAX_NODES && Names(t, at) && Names(t2, at2)
    requires Shrinks(t, at, t2, at2, key) && p in at && p != key && |p| == |key|
    ensures p in at2
  {
  }

  /** A node as deep as a key has no children. */
  lemma LeafIsDead(t: Trie, at: Index, key: Path)
    requires Shape(t, at) && key in at && |key| == NIBBLE_COUNT
    ensures t.nodes[at[key]].bitmap == {}
  {
    forall n ensures n !in t.nodes[at[key]].bitmap {
      StepDown(t, at, key, n);
    }
  }

  // ----- Refinement of a map -----

  type Directory = map<nat, Entry>

  ghost predicate Distinct(entries: seq<Entry>) {
    forall i, j | 0 <= i < |entries| && 0 <= j < |entries| && entries[i].occupied && entries[j].occupied
                  && entries[i].pathHash == entries[j].pathHash :: i == j
  }

  function Without(m: Directory, hash: nat): Directory {
    m - {hash}
  }

  /** The map that a table stands for. */
  ghost function Bindings(entries: seq<Entry>): Directory
    requires Distinct(entries)
  {
    map i | 0 <= i < |entries| && entries[i].occupied :: entries[i].pathHash := entries[i]
  }

  lemma InvDistinct(s: Table, at: Index)
    requires TableInv(s, at)
    ensures Distinct(s.entries)
  {
    forall i, j | 0 <= i < |s.entries| && 0 <= j < |s.entries| && s.entries[i].occupied && s.entries[j].occupied
                  && s.entries[i].pathHash == s.entries[j].pathHash ensures i == j {
      DistinctHashes(s, at, i, j);
    }
  }

  lemma BindingsSize(entries: seq<Entry>)
    requires Distinct(entries)
    ensures |Bindings(entries)| == |OccupiedSlots(entries)|
  {
    var f := i requires 0 <= i < |entries| => entries[i].pathHash;
    forall h | h in Bindings(entries).Keys ensures exists i :: i in OccupiedSlots(entries) && f(i) == h {
      var i :| 0 <= i < |entries| && entries[i].occupied && entries[i].pathHash == h;
      assert i in OccupiedSlots(entries) && f(i) == h;
    }
    OneToOneSize(OccupiedSlots(entries), f, Bindings(entries).Keys);
  }

  datatype Op =
    | InsertOp(path: CString, sectorOffset: nat, flags: nat)
    | LookupOp(path: CString)
    | RemoveOp(path: CString)
    | VerifyOp

  datatype Reply = Reply(status: Status, found: Found)

  function Step(s: Table, op: Op): (r: (Table, Reply))
    requires TableTyped(s)
    ensures TableTyped(r.0)
  {
    match op
    case InsertOp(path, sectorOffset, flags) =>
      var (s2, st) := Insert(s, path, sectorOffset, flags);
      (s2, Reply(st, Missed))
    case LookupOp(path) =>
      var (st, found) := Lookup(s, path);
      (s, Reply(st, found))
    case RemoveOp(path) =>
      var (s2, st) := Remove(s, path);
      (s2, Reply(st, Missed))
    case VerifyOp =>
      TypedIsSized(s);
      (s, Reply(Verify(s), Missed))
  }

  lemma TypedIsSized(s: Table)
    requires TableTyped(s)
    ensures Sized(s)
  {
    assert forall i | 0 <= i < MAX_NODES :: NodeTyped(s.trie.nodes[i]);
  }

  /** The entry that an insertion into the map stores. */
  function Stored(path: CString, sectorOffset: nat, flags: nat): Entry
    requires IsSutf8(path)
  {
    Entry(path := path, sectorOffset := sectorOffset, flags := flags, codepoints := CountCodepoints(path).n,
          createdEpoch := 0, modifiedEpoch := 0, pathHash := HashPath(path), occupied := true)
  }

  /** An entry that holds what an insertion was given: the path, how many characters it encodes, its
      hash, the sector offset and the flags, and no times. */
  ghost predicate Describes(e: Entry, path: CString, sectorOffset: nat, flags: nat) {
    && e.path == path && e.sectorOffset == sectorOffset && e.flags == flags
    && e.createdEpoch == 0 && e.modifiedEpoch == 0 && e.pathHash == HashPath(path) && e.occupied
    && exists cs :: AllValid(cs) && |cs| == e.codepoints && EncodeAll(cs) == path
  }

  lemma StoredDescribes(path: CString, sectorOffset: nat, flags: nat)
    requires IsSutf8(path)
    ensures Describes(Stored(path, sectorOffset, flags), path, sectorOffset, flags)
  {
    WellFormedIffEncoded(path, CountCodepoints(path).n);
  }

  /** The same operation on a plain map; `room` says whether the pool has the nodes for the path. */
  function MapStep(m: Directory, op: Op, room: bool): (Directory, Reply) {
    match op
    case InsertOp(path, sectorOffset, flags) =>
      if !GoodLength(path) then (m, Reply(PathTooLong, Missed))
      else if !IsSutf8(path) then (m, Reply(InvalidSutf8, Missed))
      else if |m| >= MAX_ENTRIES then (m, Reply(TableFull, Missed))
      else if HashPath(path) in m then (m, Reply(AlreadyExists, Missed))
      else if !room then (m, Reply(PoolExhausted, Missed))
      else (m[HashPath(path) := Stored(path, sectorOffset, flags)], Reply(InsertOk, Missed))
    case LookupOp(path) =>
      if !GoodLength(path) then (m, Reply(PathTooLong, Missed))
      else if HashPath(path) in m then (m, Reply(LookupOk, Hit(m[HashPath(path)])))
      else (m, Reply(NotFound, Missed))
    case RemoveOp(path) =>
      if !GoodLength(path) then (m, Reply(PathTooLong, Missed))
      else if HashPath(path) in m then (Without(m, HashPath(path)), Reply(RemoveOk, Missed))
      else (m, Reply(NotFound, Missed))
    case VerifyOp => (m, Reply(IntegrityOk, Missed))
  }

  /** Whether the pool has the nodes that the path of the operation still lacks. */
  predicate Room(s: Table, op: Op)
    requires TableTyped(s)
  {
    op.InsertOp? ==> Missing(s.trie, KeyPath(HashPath(op.path))) <= s.trie.freeTop
  }

  /** Lookups in the map are what the walk finds. */
  lemma WalkIsBinding(s: Table, at: Index, hash: nat) returns (slot: nat)
    requires TableInv(s, at) && hash < KEY_SPACE
    ensures Distinct(s.entries)
    ensures var node := WalkConst(s.trie, KeyPath(hash));
            if node == NULL_NODE then hash !in Bindings(s.entries)
            else hash in Bindings(s.entries) && s.trie.nodes[node].entry == slot < MAX_ENTRIES
                 && s.entries[slot].occupied && s.entries[slot] == Bindings(s.entries)[hash]
  {
    InvDistinct(s, at);
    slot := WalkFindsEntry(s, at, hash);
  }

  lemma OccupyBindings(entries: seq<Entry>, slot: nat, e: Entry)
    requires Distinct(entries) && slot < |entries| && !entries[slot].occupied && e.occupied
    requires e.pathHash !in Bindings(entries)
    ensures Distinct(entries[slot := e])
    ensures Bindings(entries[slot := e]) == Bindings(entries)[e.pathHash := e]
  {
    var entries2 := entries[slot := e];
    forall i | 0 <= i < |entries| && entries[i].occupied ensures entries[i].pathHash != e.pathHash {
      assert entries[i].pathHash in Bindings(entries);
    }
    assert entries2[slot] == e;
    assert forall i | 0 <= i < |entries| && i != slot :: entries2[i] == entries[i];
    assert Bindings(entries2).Keys == Bindings(entries).Keys + {e.pathHash};
  }

  lemma VacateBindings(entries: seq<Entry>, slot: nat)
    requires Distinct(entries) && slot < |entries| && entries[slot].occupied
    ensures Distinct(entries[slot := EmptyEntry()])
    ensures Bindings(entries[slot := EmptyEntry()]) == Bindings(entries) - {entries[slot].pathHash}
  {
    var entries2 := entries[slot := EmptyEntry()];
    assert forall i | 0 <= i < |entries| && i != slot :: entries2[i] == entries[i];
    assert Bindings(entries2).Keys == Bindings(entries).Keys - {entries[slot].pathHash};
  }

  /** One operation on the table is the same operation on the map. */
  ghost predicate StepRefines(s: Table, op: Op)
    requires TableTyped(s) && Distinct(s.entries)
  {
    var (s2, reply) := Step(s, op);
    Distinct(s2.entries) && MapStep(Bindings(s.entries), op, Room(s, op)) == (Bindings(s2.entries), reply)
  }

  lemma InsertRefines(s: Table, at: Index, path: CString, sectorOffset: nat, flags: nat)
    requires TableInv(s, at)
    ensures Distinct(s.entries) && StepRefines(s, InsertOp(path, sectorOffset, flags))
  {
    InvDistinct(s, at);
    BindingsSize(s.entries);
    if GoodLength(path) && IsSutf8(path) && s.count < MAX_ENTRIES {
      var slot := WalkIsBinding(s, at, HashPath(path));
      if WalkConst(s.trie, KeyPath(HashPath(path))) == NULL_NODE {
        LinkBindings(s, at, KeyPath(HashPath(path)), NewEntry(path, sectorOffset, flags));
      }
    }
  }

  /** Linking a new entry adds its binding, or nothing when the pool has not enough nodes. */
  lemma LinkBindings(s: Table, at: Index, key: Path, e: Entry)
    requires TableInv(s, at) && s.count < MAX_ENTRIES && |key| == NIBBLE_COUNT
    requires e.occupied && Distinct(s.entries) && e.pathHash !in Bindings(s.entries)
    ensures var (s2, st) := InsertNew(s, key, e);
            && Distinct(s2.entries)
            && (if Missing(s.trie, key) <= s.trie.freeTop
                then st == InsertOk && Bindings(s2.entries) == Bindings(s.entries)[e.pathHash := e]
                else st == PoolExhausted && s2.entries == s.entries)
  {
    WalkCreateNeeds(s.trie, at, key);
    SlotsFilled(s, at);
    OccupyBindings(s.entries, FirstFree(s.entries, 0), e);
  }

  lemma LookupRefines(s: Table, at: Index, path: CString)
    requires TableInv(s, at)
    ensures Distinct(s.entries) && StepRefines(s, LookupOp(path))
  {
    InvDistinct(s, at);
    var slot := WalkIsBinding(s, at, HashPath(path));
  }

  lemma RemoveRefines(s: Table, at: Index, path: CString)
    requires TableInv(s, at)
    ensures Distinct(s.entries) && StepRefines(s, RemoveOp(path))
  {
    InvDistinct(s, at);
    var slot := WalkIsBinding(s, at, HashPath(path));
    if GoodLength(path) && WalkConst(s.trie, KeyPath(HashPath(path))) != NULL_NODE {
      VacateBindings(s.entries, slot);
    }
  }

  lemma EntriesCheck(s: Table, at: Index)
    requires TableInv(s, at)
    ensures forall i | 0 <= i < MAX_ENTRIES && s.entries[i].occupied :: EntryChecks(s.entries[i])
    ensures s.trie.root == NULL_NODE ==> OccupiedSlots(s.entries) == {}
  {
    if s.trie.root == NULL_NODE { NoRootNoNodes(s.trie, at); }
    forall i: nat | i < MAX_ENTRIES && s.entries[i].occupied
      ensures EntryChecks(s.entries[i]) && s.trie.root != NULL_NODE
    {
      assert SlotLeaf(s, at, i);
    }
  }

  /** Every table that satisfies the invariant passes the integrity check. */
  lemma VerifyPasses(s: Table, at: Index)
    requires TableInv(s, at)
    ensures Sized(s) && Verify(s) == IntegrityOk
  {
    TypedIsSized(s);
    EntriesCheck(s, at);
    TerminalsSize(s, at);
    assert forall i | 0 <= i < MAX_NODES :: NodeTyped(s.trie.nodes[i]);
  }

  lemma TerminalsSize(s: Table, at: Index)
    requires TableInv(s, at)
    ensures |Terminals(s.entries, s.trie.nodes)| == |OccupiedSlots(s.entries)|
  {
    var f := (i: nat) requires i < |s.trie.nodes| => s.trie.nodes[i].entry;
    var a := Terminals(s.entries, s.trie.nodes);
    forall i | i in a ensures exists p :: p in at && at[p] == i && |p| == NIBBLE_COUNT {
      TerminalIsLeaf(s, at, i);
    }
    forall i, j | i in a && j in a && f(i) == f(j) ensures i == j {
      var p :| p in at && at[p] == i && |p| == NIBBLE_COUNT;
      var q :| q in at && at[q] == j && |q| == NIBBLE_COUNT;
      assert LeafEntry(s, at, p) && LeafEntry(s, at, q);
    }
    forall k | k in OccupiedSlots(s.entries) ensures exists i :: i in a && f(i) == k {
      assert SlotLeaf(s, at, k);
      var i := at[KeyPath(s.entries[k].pathHash)];
      assert i in a && f(i) == k;
    }
    OneToOneSize(a, f, OccupiedSlots(s.entries));
  }

  lemma TerminalIsLeaf(s: Table, at: Index, i: nat)
    requires TableInv(s, at) && i in Terminals(s.entries, s.trie.nodes)
    ensures exists p :: p in at && at[p] == i && |p| == NIBBLE_COUNT
  {
    PoolPartition(s.trie, at, i);
    assert forall k | 0 <= k < s.trie.freeTop :: s.trie.nodes[s.trie.freeStack[k]] == Blank();
    var p :| p in at && at[p] == i;
  }

  // ----- Whole runs -----

  function Run(s: Table, ops: seq<Op>): (r: (Table, seq<Reply>))
    requires TableTyped(s)
    ensures TableTyped(r.0) && |r.1| == |ops|
    decreases |ops|
  {
    if ops == [] then (s, [])
    else
      var (s1, reply) := Step(s, ops[0]);
      var (s2, replies) := Run(s1, ops[1..]);
      (s2, [reply] + replies)
  }

  /** Whether the pool had room, operation by operation. */
  function Rooms(s: Table, ops: seq<Op>): (r: seq<bool>)
    requires TableTyped(s)
    ensures |r| == |ops|
    decreases |ops|
  {
    if ops == [] then [] else [Room(s, ops[0])] + Rooms(Step(s, ops[0]).0, ops[1..])
  }

  function MapRun(m: Directory, ops: seq<Op>, rooms: seq<bool>): (Directory, seq<Reply>)
    requires |rooms| == |ops|
    decreases |ops|
  {
    if ops == [] then (m, [])
    else
      var (m1, reply) := MapStep(m, ops[0], rooms[0]);
      var (m2, replies) := MapRun(m1, ops[1..], rooms[1..]);
      (m2, [reply] + replies)
  }

  lemma StepInv(s: Table, at: Index, op: Op) returns (at2: Index)
    requires TableInv(s, at)
    ensures TableInv(Step(s, op).0, at2)
    ensures Distinct(s.entries) && StepRefines(s, op)
  {
    match op
    case InsertOp(path, sectorOffset, flags) =>
      at2 := InsertInv(s, at, path, sectorOffset, flags);
      InsertRefines(s, at, path, sectorOffset, flags);
    case LookupOp(path) =>
      at2 := at;
      LookupRefines(s, at, path);
    case RemoveOp(path) =>
      at2 := RemoveInv(s, at, path);
      RemoveRefines(s, at, path);
    case VerifyOp =>
      at2 := at;
      InvDistinct(s, at);
      VerifyPasses(s, at);
  }

  /** Every run on a table replies what the same run on the map replies, and ends in the same map. */
  lemma {:induction false} RunRefines(s: Table, at: Index, ops: seq<Op>) returns (at2: Index)
    requires TableInv(s, at)
    ensures TableInv(Run(s, ops).0, at2)
    ensures Distinct(s.entries) && Distinct(Run(s, ops).0.entries)
    ensures MapRun(Bindings(s.entries), ops, Rooms(s, ops)) == (Bindings(Run(s, ops).0.entries), Run(s, ops).1)
    decreases |ops|
  {
    InvDistinct(s, at);
    at2 := at;
    if ops != [] {
      var at1 := StepInv(s, at, ops[0]);
      at2 := RunRefines(Step(s, ops[0]).0, at1, ops[1..]);
      assert Rooms(s, ops)[1..] == Rooms(Step(s, ops[0]).0, ops[1..]);
    }
  }
}
