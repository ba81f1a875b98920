/**
  A volume's file index: 128 entry slots joined to the path trie.  The functions give the
  value-level meaning of insert, lookup, remove and verify; class `FileIndex`
  (VolumeIndex.dfy) carries them out in place.

  A path argument is a C string: its bytes up to the terminator, so it holds no zero byte.
 */
module VolumeTable {
  import opened PathTrie
  import opened PathKey
  import opened Sutf8

  const MAX_ENTRIES: nat := 128

  type CString = s: seq<Byte> | 0 !in s

  datatype Entry = Entry(path: CString, sectorOffset: nat, flags: nat, codepoints: nat,
                         createdEpoch: nat, modifiedEpoch: nat, pathHash: nat, occupied: bool)

  function EmptyEntry(): Entry {
    Entry([], 0, 0, 0, 0, 0, 0, false)
  }

  datatype Status =
    | Ok | InsertOk | LookupOk | RemoveOk | IntegrityOk
    | NotInitialized | PathTooLong | InvalidSutf8 | TableFull | AlreadyExists | NotFound
    | PoolExhausted | EntryCorrupt | NodeCorrupt | TableCorrupt

  datatype Table = Table(entries: seq<Entry>, count: int, volumeId: nat, initialized: bool, trie: Trie)

  datatype Found = Missed | Hit(entry: Entry)

  ghost predicate TableTyped(s: Table) {
    |s.entries| == MAX_ENTRIES && Typed(s.trie)
  }

  // ----- Operations -----

  function InitTable(volumeId: nat): Table {
    Table(seq(MAX_ENTRIES, _ => EmptyEntry()), 0, volumeId, true, InitTrie())
  }

  /** The first slot from `i` on that is not occupied, or the number of slots. */
  function FirstFree(entries: seq<Entry>, i: nat): (r: nat)
    requires i <= |entries|
    ensures i <= r <= |entries|
    ensures r < |entries| ==> !entries[r].occupied
    ensures forall j | i <= j < r :: entries[j].occupied
    decreases |entries| - i
  {
    if i == |entries| || !entries[i].occupied then i else FirstFree(entries, i + 1)
  }

  predicate GoodLength(path: CString) {
    0 < |path| < PATH_MAX
  }

  function NewEntry(path: CString, sectorOffset: nat, flags: nat): Entry
    requires IsSutf8(path)
  {
    Entry(path, sectorOffset, flags, CountCodepoints(path).n, 0, 0, HashPath(path), true)
  }

  function Insert(s: Table, path: CString, sectorOffset: nat, flags: nat): (r: (Table, Status))
    requires TableTyped(s)
    ensures TableTyped(r.0)
  {
    if !s.initialized then (s, NotInitialized)
    else if !GoodLength(path) then (s, PathTooLong)
    else if !IsSutf8(path) then (s, InvalidSutf8)
    else if s.count >= MAX_ENTRIES then (s, TableFull)
    else
      var key := KeyPath(HashPath(path));
      var node := WalkConst(s.trie, key);
      if node != NULL_NODE && s.trie.nodes[node].entry != NULL_ENTRY then (s, AlreadyExists)
      else InsertNew(s, key, NewEntry(path, sectorOffset, flags))
  }

  /** Links the new entry `e` under `key`. */
  function InsertNew(s: Table, key: Path, e: Entry): (r: (Table, Status))
    requires TableTyped(s)
    ensures TableTyped(r.0)
  {
    var (t, leaf) := WalkCreate(s.trie, key);
    if leaf == NULL_NODE then (s.(trie := t), PoolExhausted)
    else
      var slot := FirstFree(s.entries, 0);
      if slot == MAX_ENTRIES then (s.(trie := t), TableFull)
      else (Occupy(s, t, leaf, slot, e), InsertOk)
  }

  function Occupy(s: Table, t: Trie, leaf: nat, slot: nat, e: Entry): (r: Table)
    requires TableTyped(s) && Typed(t) && leaf < MAX_NODES && slot < MAX_ENTRIES
    ensures TableTyped(r)
  {
    Table(s.entries[slot := e], s.count + 1, s.volumeId, s.initialized, Point(t, leaf, slot, 1))
  }

  /** Points the node `leaf` to an entry slot and adjusts the trie's entry count. */
  function Point(t: Trie, leaf: nat, e: nat, more: int): (r: Trie)
    requires Typed(t) && leaf < MAX_NODES
    ensures Typed(r)
  {
    SetEntry(t, leaf, e).(entryCount := t.entryCount + more)
  }

  function Lookup(s: Table, path: CString): (Status, Found)
    requires TableTyped(s)
  {
    if !s.initialized then (NotInitialized, Missed)
    else if !GoodLength(path) then (PathTooLong, Missed)
    else
      var node := WalkConst(s.trie, KeyPath(HashPath(path)));
      if node == NULL_NODE then (NotFound, Missed)
      else
        var e := s.trie.nodes[node].entry;
        if e >= MAX_ENTRIES then (EntryCorrupt, Missed)
        else if !s.entries[e].occupied then (EntryCorrupt, Missed)
        else (LookupOk, Hit(s.entries[e]))
  }

  function Remove(s: Table, path: CString): (r: (Table, Status))
    requires TableTyped(s)
    ensures TableTyped(r.0)
  {
    if !s.initialized then (s, NotInitialized)
    else if !GoodLength(path) then (s, PathTooLong)
    else
      var key := KeyPath(HashPath(path));
      var node := WalkConst(s.trie, key);
      if node == NULL_NODE then (s, NotFound)
      else
        var e := s.trie.nodes[node].entry;
        if e >= MAX_ENTRIES then (s, EntryCorrupt)
        else if !s.entries[e].occupied then (s, NotFound)
        else (Vacate(s, key, node, e), RemoveOk)
  }

  function Vacate(s: Table, key: Path, node: nat, e: nat): (r: Table)
    requires TableTyped(s) && node < MAX_NODES && e < MAX_ENTRIES
    ensures TableTyped(r)
  {
    Table(s.entries[e := EmptyEntry()], s.count - 1, s.volumeId, s.initialized,
          Prune(Point(s.trie, node, NULL_ENTRY, -1), key))
  }

  // ----- The integrity check -----

  /** The checks on one occupied entry. */
  predicate EntryChecks(e: Entry) {
    && GoodLength(e.path)
    && IsSutf8(e.path)
    && e.codepoints == CountCodepoints(e.path).n
    && e.pathHash == HashPath(e.path)
  }

  predicate Terminal(entries: seq<Entry>, nd: Node) {
    nd.entry < |entries| && entries[nd.entry].occupied
  }

  function OccupiedSlots(entries: seq<Entry>): set<nat> {
    set i | 0 <= i < |entries| && entries[i].occupied
  }

  function Terminals(entries: seq<Entry>, nodes: seq<Node>): set<nat> {
    set i | 0 <= i < |nodes| && Terminal(entries, nodes[i])
  }

  predicate ChildrenCheck(nd: Node)
    requires |nd.children| == CHILDREN_PER_NODE
  {
    forall n | n in nd.bitmap :: nd.children[n] < MAX_NODES
  }

  /** The check is made for tables whose content may be anything. */
  ghost predicate Sized(s: Table) {
    && |s.entries| == MAX_ENTRIES && |s.trie.nodes| == MAX_NODES
    && forall i | 0 <= i < MAX_NODES :: |s.trie.nodes[i].children| == CHILDREN_PER_NODE
  }

  function Verify(s: Table): Status
    requires Sized(s)
  {
    if !s.initialized then NotInitialized
    else if exists i | 0 <= i < MAX_ENTRIES :: s.entries[i].occupied && !EntryChecks(s.entries[i])
    then EntryCorrupt
    else if |OccupiedSlots(s.entries)| != s.count then TableCorrupt
    else if s.trie.root == NULL_NODE
    then if |OccupiedSlots(s.entries)| != 0 then TableCorrupt else IntegrityOk
    else if exists i | 0 <= i < MAX_NODES :: !ChildrenCheck(s.trie.nodes[i]) then NodeCorrupt
    else if |Terminals(s.entries, s.trie.nodes)| != s.count then TableCorrupt
    else IntegrityOk
  }

  // ----- The invariant -----

  /** The leaf named `p` points to the occupied entry whose hash spells `p`. */
  ghost predicate LeafEntry(s: Table, at: Index, p: Path)
    requires TableTyped(s) && p in at && at[p] < MAX_NODES
  {
    var e := s.trie.nodes[at[p]].entry;
    e < MAX_ENTRIES && s.entries[e].occupied && KeyPath(s.entries[e].pathHash) == p
  }

  /** The entry in slot `i` is pointed to from the path its hash spells; a free slot is zeroed. */
  ghost predicate SlotLeaf(s: Table, at: Index, i: nat)
    requires TableTyped(s) && i < MAX_ENTRIES && Names(s.trie, at)
  {
    var e := s.entries[i];
    if e.occupied then
      EntryChecks(e) && KeyPath(e.pathHash) in at && s.trie.nodes[at[KeyPath(e.pathHash)]].entry == i
    else e == EmptyEntry()
  }

  ghost predicate TableInv(s: Table, at: Index) {
    && TableTyped(s) && s.initialized
    && Shape(s.trie, at)
    && (forall p {:trigger LeafEntry(s, at, p)} | p in at && |p| == NIBBLE_COUNT :: LeafEntry(s, at, p))
    && (forall i: nat {:trigger SlotLeaf(s, at, i)} | i < MAX_ENTRIES :: SlotLeaf(s, at, i))
    && s.count == |OccupiedSlots(s.entries)| == s.trie.entryCount
  }

  lemma InitInv(volumeId: nat)
    ensures TableInv(InitTable(volumeId), map[])
  {
    InitShape();
    assert OccupiedSlots(InitTable(volumeId).entries) == {};
  }

  /** Two occupied entries never have the same hash. */
  lemma DistinctHashes(s: Table, at: Index, i: nat, j: nat)
    requires TableInv(s, at) && i < MAX_ENTRIES && j < MAX_ENTRIES
    requires s.entries[i].occupied && s.entries[j].occupied && s.entries[i].pathHash == s.entries[j].pathHash
    ensures i == j
  {
    assert SlotLeaf(s, at, i) && SlotLeaf(s, at, j);
  }

  /** Where the walk for a hash ends: at the slot of the entry with that hash, or nowhere. */
  lemma WalkFindsEntry(s: Table, at: Index, hash: nat) returns (slot: nat)
    requires TableInv(s, at) && hash < KEY_SPACE
    ensures var node := WalkConst(s.trie, KeyPath(hash));
            if node == NULL_NODE
            then KeyPath(hash) !in at
                 && forall i: nat | i < MAX_ENTRIES && s.entries[i].occupied :: s.entries[i].pathHash != hash
            else KeyPath(hash) in at && at[KeyPath(hash)] == node && s.trie.nodes[node].entry == slot
                 && slot < MAX_ENTRIES && s.entries[slot].occupied && s.entries[slot].pathHash == hash
  {
    var key := KeyPath(hash);
    WalkNamed(s.trie, at, key);
    if key in at {
      assert LeafEntry(s, at, key);
      slot := s.trie.nodes[at[key]].entry;
      assert SlotLeaf(s, at, slot);
      KeyPathInjective(hash, s.entries[slot].pathHash);
    } else {
      slot := 0;
      forall i: nat | i < MAX_ENTRIES && s.entries[i].occupied ensures s.entries[i].pathHash != hash {
        assert SlotLeaf(s, at, i);
      }
    }
  }

  // ----- What the integrity check finds -----

  /** An entry that records its own path: the length is good, the hash is that of the path, and the path
      encodes as many characters as the entry says. */
  ghost predicate Sound(e: Entry) {
    && 0 < |e.path| < PATH_MAX && e.pathHash == HashPath(e.path)
    && exists cs :: AllValid(cs) && |cs| == e.codepoints && EncodeAll(cs) == e.path
  }

  lemma SoundIsChecked(e: Entry)
    ensures EntryChecks(e) <==> Sound(e)
  {
    WellFormedIffEncoded(e.path, e.codepoints);
  }

  ghost predicate AllSound(s: Table)
    requires Sized(s)
  {
    forall i | 0 <= i < MAX_ENTRIES && s.entries[i].occupied :: Sound(s.entries[i])
  }

  /** A link to no node of the pool. */
  ghost predicate LostChild(s: Table)
    requires Sized(s)
  {
    exists i, n | 0 <= i < MAX_NODES && n in s.trie.nodes[i].bitmap :: s.trie.nodes[i].children[n] >= MAX_NODES
  }

  /** The nodes that point to an occupied slot. */
  ghost function Pointing(s: Table): set<nat>
    requires Sized(s)
  {
    set i | 0 <= i < MAX_NODES && s.trie.nodes[i].entry < MAX_ENTRIES && s.entries[s.trie.nodes[i].entry].occupied
  }

  /** The verdict on any content.  It is good exactly when every entry is sound, the count is that of the
      occupied slots and of the nodes that point to one, and no link leaves the pool; without a root there
      has to be no entry, and the nodes are not looked at. */
  lemma VerdictIs(s: Table)
    requires Sized(s) && s.initialized
    ensures Verify(s) == EntryCorrupt <==> !AllSound(s)
    ensures Verify(s) == NodeCorrupt
            <==> AllSound(s) && |OccupiedSlots(s.entries)| == s.count && s.trie.root != NULL_NODE && LostChild(s)
    ensures Verify(s) == IntegrityOk
            <==> && AllSound(s) && |OccupiedSlots(s.entries)| == s.count
                 && (if s.trie.root == NULL_NODE then s.count == 0
                     else !LostChild(s) && |Pointing(s)| == s.count)
  {
    forall e: Entry ensures EntryChecks(e) <==> Sound(e) {
      SoundIsChecked(e);
    }
    assert Terminals(s.entries, s.trie.nodes) == Pointing(s);
    assert LostChild(s) <==> exists i | 0 <= i < MAX_NODES :: !ChildrenCheck(s.trie.nodes[i]);
  }
}
