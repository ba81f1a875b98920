/**
  The volume index as it is kept in memory: the entry slots, the node pool and the free stack
  are fixed arrays, and every operation changes them in place.  Each method is proved to
  compute the function of the same name in `PathTrie` or `VolumeTable`.
 */
module VolumeIndex {
  import opened PathTrie
  import opened PathKey
  import opened Sutf8
  import opened VolumeTable

  class FileIndex {
    const entries: array<Entry>
    const nodes: array<Node>
    const freeStack: array<nat>
    var freeTop: nat
    var root: nat
    var nodeCount: nat
    var entryCount: int
    var count: int
    var volumeId: nat
    var initialized: bool

    ghost function Pool(): Trie
      reads this, nodes, freeStack
    {
      Trie(nodes[..], freeStack[..], freeTop, root, nodeCount, entryCount)
    }

    ghost function State(): Table
      reads this, nodes, freeStack, entries
    {
      Table(entries[..], count, volumeId, initialized, Pool())
    }

    ghost predicate Separate() {
      nodes as object != freeStack as object && nodes as object != entries as object
      && freeStack as object != entries as object
    }

    ghost predicate Valid()
      reads this, nodes, freeStack, entries
    {
      Separate() && TableTyped(State())
    }

    constructor (volume: nat)
      ensures Valid() && fresh(nodes) && fresh(freeStack) && fresh(entries)
      ensures State() == InitTable(volume)
    {
      entries := new Entry[MAX_ENTRIES](_ => EmptyEntry());
      nodes := new Node[MAX_NODES](_ => Blank());
      freeStack := new nat[MAX_NODES];
      freeTop, root, nodeCount, entryCount := MAX_NODES, NULL_NODE, 0, 0;
      count, volumeId, initialized := 0, volume, true;
      new;
      var i := 0;
      while i < MAX_NODES
        invariant 0 <= i <= MAX_NODES
        invariant forall j | 0 <= j < i :: freeStack[j] == MAX_NODES - 1 - j
        modifies freeStack
      {
        freeStack[i] := MAX_NODES - 1 - i;
        i := i + 1;
      }
      assert State().trie.nodes == InitTrie().nodes;
      assert State().trie.freeStack == InitTrie().freeStack;
      assert State().entries == InitTable(volume).entries;
    }

    method NodeAlloc() returns (idx: nat)
      requires Valid()
      modifies this`freeTop, this`nodeCount, nodes
      ensures Valid() && (Pool(), idx) == Alloc(old(Pool()))
    {
      if freeTop == 0 {
        return NULL_NODE;
      }
      freeTop := freeTop - 1;
      idx := freeStack[freeTop];
      nodes[idx] := Blank();
      nodeCount := nodeCount + 1;
    }

    method NodeFree(idx: nat)
      requires Valid()
      modifies this`freeTop, this`nodeCount, nodes, freeStack
      ensures Valid() && Pool() == Free(old(Pool()), idx)
    {
      if idx < MAX_NODES && nodeCount > 0 {
        nodes[idx] := Blank();
        freeStack[freeTop] := idx;
        freeTop := freeTop + 1;
        nodeCount := nodeCount - 1;
      }
    }

    method WalkReadOnly(key: nat) returns (r: nat)
      requires Valid() && key < KEY_SPACE
      ensures r == WalkConst(Pool(), KeyPath(key))
    {
      if root == NULL_NODE {
        return NULL_NODE;
      }
      r := root;
      ghost var path := KeyPath(key);
      var level := 0;
      assert path[0..] == path;
      while level < NIBBLE_COUNT
        invariant 0 <= level <= NIBBLE_COUNT && r < MAX_NODES
        invariant Find(Pool(), r, path[level..]) == WalkConst(Pool(), path)
      {
        var n := NibbleAt(key, level);
        KeyPathAt(key, level);
        assert path[level..][1..] == path[level + 1..];
        if n !in nodes[r].bitmap {
          return NULL_NODE;
        }
        r := nodes[r].children[n];
        level := level + 1;
      }
    }

    method WalkCreating(key: nat) returns (r: nat)
      requires Valid() && key < KEY_SPACE
      modifies this`freeTop, this`nodeCount, this`root, nodes
      ensures Valid() && (Pool(), r) == WalkCreate(old(Pool()), KeyPath(key))
    {
      if root == NULL_NODE {
        root := NodeAlloc();
        if root == NULL_NODE {
          return NULL_NODE;
        }
      }
      r := root;
      ghost var path, before := KeyPath(key), old(Pool());
      var level := 0;
      assert path[0..] == path;
      while level < NIBBLE_COUNT
        invariant 0 <= level <= NIBBLE_COUNT && r < MAX_NODES && Valid()
        invariant Grow(Pool(), r, path[level..]) == WalkCreate(before, path)
      {
        var n := NibbleAt(key, level);
        KeyPathAt(key, level);
        assert path[level..][1..] == path[level + 1..];
        if n in nodes[r].bitmap {
          r := nodes[r].children[n];
        } else {
          var child := NodeAlloc();
          if child == NULL_NODE {
            return NULL_NODE;
          }
          LinkChild(r, n, child);
          r := child;
        }
        level := level + 1;
      }
    }

    method LinkChild(cur: nat, n: Nibble, child: nat)
      requires Valid() && cur < MAX_NODES && child < MAX_NODES
      modifies nodes
      ensures Valid() && Pool() == Link(old(Pool()), cur, n, child)
    {
      nodes[cur] := WithChild(nodes[cur], n, child);
    }

    method PrunePath(key: nat)
      requires Valid() && key < KEY_SPACE
      modifies this`freeTop, this`nodeCount, this`root, nodes, freeStack
      ensures Valid() && Pool() == Prune(old(Pool()), KeyPath(key))
    {
      if root == NULL_NODE {
        return;
      }
      var found, pathNodes := CollectTrail(key);
      if !found {
        return;
      }
      PruneBottomUp(key, pathNodes);
      PruneRootNode();
    }

    method PruneRootNode()
      requires Valid() && root < MAX_NODES
      modifies this`freeTop, this`nodeCount, this`root, nodes, freeStack
      ensures Valid() && Pool() == PruneRoot(old(Pool()))
    {
      if nodes[root].bitmap == {} && nodes[root].entry == NULL_ENTRY {
        NodeFree(root);
        root := NULL_NODE;
      }
    }

    method PruneBottomUp(key: nat, pathNodes: array<nat>)
      requires Valid() && key < KEY_SPACE && pathNodes.Length == NIBBLE_COUNT + 1
      requires pathNodes != freeStack && forall i | 0 <= i < pathNodes.Length :: pathNodes[i] < MAX_NODES
      modifies this`freeTop, this`nodeCount, nodes, freeStack
      ensures Valid() && Pool() == PruneUp(old(Pool()), pathNodes[..], KeyPath(key), NIBBLE_COUNT)
    {
      ghost var path, trail := KeyPath(key), pathNodes[..];
      ghost var pruned := PruneUp(Pool(), trail, path, NIBBLE_COUNT);
      var level := NIBBLE_COUNT;
      while level >= 1
        invariant 0 <= level <= NIBBLE_COUNT && Valid()
        invariant PruneUp(Pool(), trail, path, level) == pruned
      {
        KeyPathAt(key, level - 1);
        PruneOne(pathNodes[level], pathNodes[level - 1], NibbleAt(key, level - 1));
        level := level - 1;
      }
    }

    /** The path from the root to the terminal node, when the walk gets that far. */
    method CollectTrail(key: nat) returns (found: bool, pathNodes: array<nat>)
      requires Valid() && key < KEY_SPACE && root != NULL_NODE
      ensures fresh(pathNodes) && pathNodes.Length == NIBBLE_COUNT + 1
      ensures found <==> |Trail(Pool(), root, KeyPath(key))| == NIBBLE_COUNT + 1
      ensures found ==> pathNodes[..] == Trail(Pool(), root, KeyPath(key))
    {
      pathNodes := new nat[NIBBLE_COUNT + 1];
      pathNodes[0] := root;
      ghost var path, whole := KeyPath(key), Trail(Pool(), root, KeyPath(key));
      var level := 0;
      assert path[0..] == path;
      while level < NIBBLE_COUNT
        invariant 0 <= level <= NIBBLE_COUNT && pathNodes[level] < MAX_NODES
        invariant whole == pathNodes[..level] + Trail(Pool(), pathNodes[level], path[level..])
      {
        var n := NibbleAt(key, level);
        KeyPathAt(key, level);
        assert path[level..][1..] == path[level + 1..];
        if n !in nodes[pathNodes[level]].bitmap {
          return false, pathNodes;
        }
        var child := nodes[pathNodes[level]].children[n];
        Reassociate(whole, pathNodes[..level], pathNodes[level], Trail(Pool(), child, path[level + 1..]));
        pathNodes[level + 1] := child;
        assert pathNodes[..level + 1] == pathNodes[..level] + [pathNodes[level]];
        level := level + 1;
      }
      assert pathNodes[..] == pathNodes[..level] + [pathNodes[level]];
      return true, pathNodes;
    }

    static lemma Reassociate(whole: seq<nat>, done: seq<nat>, x: nat, rest: seq<nat>)
      requires whole == done + ([x] + rest)
      ensures whole == (done + [x]) + rest
    {
    }

    method PruneOne(node: nat, parent: nat, n: Nibble)
      requires Valid() && node < MAX_NODES && parent < MAX_NODES
      modifies this`freeTop, this`nodeCount, nodes, freeStack
      ensures Valid() && Pool() == PruneAt(old(Pool()), node, parent, n)
    {
      if nodes[node].bitmap == {} && nodes[node].entry == NULL_ENTRY {
        nodes[parent] := WithoutChild(nodes[parent], n);
        assert Pool() == Unlink(old(Pool()), parent, n);
        NodeFree(node);
      }
    }

    method InsertEntry(path: CString, sectorOffset: nat, flags: nat) returns (st: Status)
      requires Valid()
      modifies this, nodes, freeStack, entries
      ensures Valid() && (State(), st) == Insert(old(State()), path, sectorOffset, flags)
    {
      if !initialized {
        return NotInitialized;
      }
      if |path| == 0 || |path| >= PATH_MAX {
        return PathTooLong;
      }
      var good, codepoints := CheckPath(path);
      if !good {
        return InvalidSutf8;
      }
      if count >= MAX_ENTRIES {
        return TableFull;
      }
      var hash := HashBytes(path);
      var node := WalkReadOnly(hash);
      if node != NULL_NODE && nodes[node].entry != NULL_ENTRY {
        return AlreadyExists;
      }
      st := LinkEntry(hash, Entry(path, sectorOffset, flags, codepoints, 0, 0, hash, true));
    }

    /** Walks the path, with its terminator, twice: once to check it, once to count. */
    static method CheckPath(path: CString) returns (good: bool, codepoints: nat)
      ensures good == IsSutf8(path) && (good ==> codepoints == CountCodepoints(path).n)
    {
      var mem := path + [0];
      AsMemory(mem, 0);
      assert mem[..|path|] == path;
      good := IsSutf8InMemory(mem);
      if !good {
        return false, 0;
      }
      var c := CountInMemory(mem);
      codepoints := c.n;
    }

    method LinkEntry(hash: nat, e: Entry) returns (st: Status)
      requires Valid() && hash < KEY_SPACE
      modifies this, nodes, freeStack, entries
      ensures Valid() && (State(), st) == InsertNew(old(State()), KeyPath(hash), e)
    {
      var node := WalkCreating(hash);
      if node == NULL_NODE {
        return PoolExhausted;
      }
      var i := FindFreeSlot();
      if i == MAX_ENTRIES {
        return TableFull;
      }
      OccupySlot(node, i, e);
      return InsertOk;
    }

    method OccupySlot(leaf: nat, slot: nat, e: Entry)
      requires Valid() && leaf < MAX_NODES && slot < MAX_ENTRIES
      modifies this`entryCount, this`count, nodes, entries
      ensures Valid() && State() == Occupy(old(State()), old(Pool()), leaf, slot, e)
    {
      entries[slot] := e;
      nodes[leaf] := Node(nodes[leaf].bitmap, slot, nodes[leaf].children);
      entryCount := entryCount + 1;
      count := count + 1;
    }

    method FindFreeSlot() returns (i: nat)
      requires entries.Length == MAX_ENTRIES
      ensures i == FirstFree(entries[..], 0)
    {
      i := 0;
      while i < MAX_ENTRIES && entries[i].occupied
        invariant i <= MAX_ENTRIES && FirstFree(entries[..], i) == FirstFree(entries[..], 0)
      {
        i := i + 1;
      }
    }

    method LookupEntry(path: CString) returns (st: Status, found: Found)
      requires Valid()
      ensures (st, found) == Lookup(State(), path)
    {
      if !initialized {
        return NotInitialized, Missed;
      }
      if |path| == 0 || |path| >= PATH_MAX {
        return PathTooLong, Missed;
      }
      var hash := HashBytes(path);
      var node := WalkReadOnly(hash);
      if node == NULL_NODE {
        return NotFound, Missed;
      }
      var e := nodes[node].entry;
      if e >= MAX_ENTRIES {
        return EntryCorrupt, Missed;
      }
      if !entries[e].occupied {
        return EntryCorrupt, Missed;
      }
      return LookupOk, Hit(entries[e]);
    }

    method RemoveEntry(path: CString) returns (st: Status)
      requires Valid()
      modifies this, nodes, freeStack, entries
      ensures Valid() && (State(), st) == Remove(old(State()), path)
    {
      if !initialized {
        return NotInitialized;
      }
      if |path| == 0 || |path| >= PATH_MAX {
        return PathTooLong;
      }
      var hash := HashBytes(path);
      var node := WalkReadOnly(hash);
      if node == NULL_NODE {
        return NotFound;
      }
      var e := nodes[node].entry;
      if e >= MAX_ENTRIES {
        return EntryCorrupt;
      }
      if !entries[e].occupied {
        return NotFound;
      }
      VacateEntry(hash, node, e);
      return RemoveOk;
    }

    method VacateEntry(hash: nat, leaf: nat, slot: nat)
      requires Valid() && hash < KEY_SPACE && leaf < MAX_NODES && slot < MAX_ENTRIES
      modifies this`entryCount, this`count, this`freeTop, this`nodeCount, this`root, nodes, freeStack, entries
      ensures Valid() && State() == Vacate(old(State()), KeyPath(hash), leaf, slot)
    {
      ghost var t := Point(Pool(), leaf, NULL_ENTRY, -1);
      VacateSlot(leaf, slot);
      assert Pool() == t;
      PrunePath(hash);
      assert Pool() == Prune(t, KeyPath(hash));
    }

    method VacateSlot(leaf: nat, slot: nat)
      requires Valid() && leaf < MAX_NODES && slot < MAX_ENTRIES
      modifies this`entryCount, this`count, nodes, entries
      ensures Valid() && entries[..] == old(entries[..])[slot := EmptyEntry()] && count == old(count) - 1
      ensures Pool() == Point(old(Pool()), leaf, NULL_ENTRY, -1)
    {
      entries[slot] := EmptyEntry();
      nodes[leaf] := Node(nodes[leaf].bitmap, NULL_ENTRY, nodes[leaf].children);
      entryCount := entryCount - 1;
      count := count - 1;
    }

    method VerifyIntegrity() returns (st: Status)
      requires Sized(State())
      ensures st == Verify(State())
    {
      if !initialized {
        return NotInitialized;
      }
      var occupied, ok := CountOccupied();
      if !ok {
        return EntryCorrupt;
      }
      if occupied != count {
        return TableCorrupt;
      }
      if root == NULL_NODE {
        if occupied != 0 {
          return TableCorrupt;
        }
        return IntegrityOk;
      }
      var terminals;
      terminals, ok := CountTerminals();
      if !ok {
        return NodeCorrupt;
      }
      if terminals != count {
        return TableCorrupt;
      }
      return IntegrityOk;
    }

    method CountOccupied() returns (occupied: nat, ok: bool)
      requires entries.Length == MAX_ENTRIES
      ensures ok <==> forall i | 0 <= i < MAX_ENTRIES && entries[i].occupied :: EntryChecks(entries[i])
      ensures ok ==> occupied == |OccupiedSlots(entries[..])|
    {
      occupied := 0;
      var i := 0;
      while i < MAX_ENTRIES
        invariant 0 <= i <= MAX_ENTRIES
        invariant forall j | 0 <= j < i && entries[j].occupied :: EntryChecks(entries[j])
        invariant occupied == |OccupiedSlots(entries[..i])|
      {
        OccupiedNext(entries[..], i);
        assert entries[..][..i] == entries[..i] && entries[..][..i + 1] == entries[..i + 1];
        if entries[i].occupied {
          occupied := occupied + 1;
          ok := CheckEntry(entries[i]);
          if !ok {
            return;
          }
        }
        i := i + 1;
      }
      assert entries[..i] == entries[..];
      ok := true;
    }

    static lemma OccupiedNext(es: seq<Entry>, i: nat)
      requires i < |es|
      ensures |OccupiedSlots(es[..i + 1])| == |OccupiedSlots(es[..i])| + if es[i].occupied then 1 else 0
    {
      assert OccupiedSlots(es[..i + 1]) == OccupiedSlots(es[..i]) + if es[i].occupied then {i} else {};
    }

    static method CheckEntry(e: Entry) returns (ok: bool)
      ensures ok == EntryChecks(e)
    {
      if |e.path| == 0 || |e.path| >= PATH_MAX {
        return false;
      }
      var good, codepoints := CheckPath(e.path);
      if !good {
        return false;
      }
      if e.codepoints != codepoints {
        return false;
      }
      var hash := HashBytes(e.path);
      return e.pathHash == hash;
    }

    method CountTerminals() returns (terminals: nat, ok: bool)
      requires Sized(State())
      ensures ok <==> forall i | 0 <= i < MAX_NODES :: ChildrenCheck(nodes[i])
      ensures ok ==> terminals == |Terminals(entries[..], nodes[..])|
    {
      terminals := 0;
      ghost var seen: set<nat> := {};
      var i := 0;
      while i < MAX_NODES
        invariant 0 <= i <= MAX_NODES
        invariant forall j | 0 <= j < i :: ChildrenCheck(nodes[j])
        invariant forall j :: j in seen <==> 0 <= j < i && Terminal(entries[..], nodes[j])
        invariant terminals == |seen|
      {
        if nodes[i].entry != NULL_ENTRY && nodes[i].entry < MAX_ENTRIES {
          if entries[nodes[i].entry].occupied {
            terminals, seen := terminals + 1, seen + {i};
          }
        }
        ok := CheckChildren(nodes[i]);
        if !ok {
          return;
        }
        i := i + 1;
      }
      assert seen == Terminals(entries[..], nodes[..]);
      ok := true;
    }

    static method CheckChildren(nd: Node) returns (ok: bool)
      requires |nd.children| == CHILDREN_PER_NODE
      ensures ok == ChildrenCheck(nd)
    {
      var level := 0;
      while level < CHILDREN_PER_NODE
        invariant 0 <= level <= CHILDREN_PER_NODE
        invariant forall n: Nibble | n < level && n in nd.bitmap :: nd.children[n] < MAX_NODES
      {
        if level in nd.bitmap && nd.children[level] >= MAX_NODES {
          return false;
        }
        level := level + 1;
      }
      ok := true;
    }
  }
}
