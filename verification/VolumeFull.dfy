/**
  The capacity bound is sharp.  Insertions of fifty paths whose keys have fifty different heads, all
  first nibbles among them, exhaust the pool with 49 live entries; and what the refused insertion
  leaves in the pool is a dead end: once an entry is removed the refused path can be inserted, and
  removing it again does not give the pool back as it was.
 */
module VolumeFull {
  import opened CrowdedPaths
  import opened PathTrie
  import opened PathTrieCapacity
  import opened PathTrieUndo
  import opened PathKey
  import opened Sutf8
  import opened VolumeTable
  import opened VolumeRefinement
  import opened VolumeRuns

  // ----- Keys with different heads -----

  /** Full-length keys, no two of which begin with the same two nibbles. */
  ghost predicate Spread(keys: seq<Path>) {
    && (forall j | 0 <= j < |keys| :: |keys[j]| == NIBBLE_COUNT)
    && (forall i, j | 0 <= i < |keys| && 0 <= j < |keys| && keys[i][..2] == keys[j][..2] :: i == j)
  }

  /** All sixteen first nibbles occur among the first `k` keys. */
  ghost predicate AllFirsts(keys: seq<Path>, k: nat)
    requires k <= |keys|
  {
    forall n: Nibble :: Below([n], keys, k)
  }

  ghost predicate Below(p: Path, keys: seq<Path>, k: nat)
    requires k <= |keys|
  {
    exists j :: 0 <= j < k && p <= keys[j]
  }

  /** The nodes are the prefixes of the first `k` keys. */
  ghost predicate Holds(at: Index, keys: seq<Path>, k: nat)
    requires k <= |keys|
  {
    forall p: Path {:trigger Below(p, keys, k)} {:trigger p in at} :: p in at <==> Below(p, keys, k)
  }

  lemma NewHead(at: Index, keys: seq<Path>, k: nat)
    requires k < |keys| && Spread(keys) && Holds(at, keys, k)
    ensures keys[k][..2] !in at && keys[k] !in at
  {
    forall j | 0 <= j < k ensures !(keys[k][..2] <= keys[j]) && !(keys[k] <= keys[j]) {
      HeadsApart(keys, j, k);
    }
  }

  lemma HeadsApart(keys: seq<Path>, j: nat, k: nat)
    requires j < |keys| && k < |keys| && j != k && Spread(keys)
    ensures !(keys[k][..2] <= keys[j]) && !(keys[k] <= keys[j])
  {
    var hj, hk := keys[j][..2], keys[k][..2];
    assert hk <= keys[j] ==> hk == hj;
  }

  lemma BelowNext(p: Path, keys: seq<Path>, k: nat)
    requires k < |keys|
    ensures Below(p, keys, k + 1) <==> Below(p, keys, k) || p <= keys[k]
  {
  }

  /** No name is lost, and only prefixes of `key` are new. */
  ghost predicate OnlyAdds(at: Index, at2: Index, key: Path) {
    (forall p | p in at :: p in at2) && (forall p | p in at2 && p !in at :: p <= key)
  }

  lemma NextHolds(at: Index, keys: seq<Path>, k: nat, t2: Trie, at2: Index)
    requires k < |keys| && Holds(at, keys, k)
    requires Shape(t2, at2) && OnlyAdds(at, at2, keys[k]) && keys[k] in at2
    ensures Holds(at2, keys, k + 1)
  {
    forall p: Path ensures p in at2 <==> Below(p, keys, k + 1) {
      BelowNext(p, keys, k);
      assert p in at <==> Below(p, keys, k);
      if p <= keys[k] {
        PrefixClosed(t2, at2, keys[k], |p|);
        assert p == keys[k][..|p|];
      }
    }
  }

  lemma FirstsCounted(at: Index, keys: seq<Path>, k: nat)
    requires k <= |keys| && Spread(keys) && AllFirsts(keys, k) && Holds(at, keys, k)
    ensures forall n: Nibble :: [n] in at
    ensures |Layer(at.Keys, 1)| == CHILDREN_PER_NODE
  {
    forall n: Nibble ensures [n] in at {
      assert Below([n], keys, k);
    }
    SinglesCounted(at.Keys);
  }

  function Singles(): set<Path> {
    set i | i in Slots(CHILDREN_PER_NODE) :: Single(i)
  }

  lemma SinglesSize()
    ensures |Singles()| == CHILDREN_PER_NODE
  {
    forall i, j | i < j < CHILDREN_PER_NODE && 0 <= i ensures Single(i) != Single(j) {
      assert Single(i)[0] != Single(j)[0];
    }
    OneToOneSize(Slots(CHILDREN_PER_NODE), Single, Singles());
  }

  lemma SinglesCounted(K: set<Path>)
    requires forall n: Nibble :: [n] in K
    ensures |Layer(K, 1)| == CHILDREN_PER_NODE
  {
    SinglesSize();
    forall p ensures p in Layer(K, 1) <==> p in Singles() {
      if |p| == 1 {
        assert p[0] in Slots(CHILDREN_PER_NODE) && Single(p[0]) == [p[0]] == p;
      }
    }
    assert Layer(K, 1) == Singles();
  }

  function Heads(keys: seq<Path>, k: nat): set<Path>
    requires k <= |keys| && Spread(keys)
  {
    set j | 0 <= j < k :: keys[j][..2]
  }

  lemma {:induction false} HeadsSize(keys: seq<Path>, k: nat)
    requires k <= |keys| && Spread(keys)
    ensures |Heads(keys, k)| == k
  {
    if k > 0 {
      HeadsSize(keys, k - 1);
      assert Heads(keys, k) == Heads(keys, k - 1) + {keys[k - 1][..2]};
      assert keys[k - 1][..2] !in Heads(keys, k - 1);
    }
  }

  lemma HeadsCounted(at: Index, keys: seq<Path>, k: nat)
    requires k <= |keys| && Spread(keys) && Holds(at, keys, k)
    ensures |Layer(at.Keys, 2)| == k
  {
    forall p ensures p in Layer(at.Keys, 2) <==> p in Heads(keys, k) {
      HeadHeld(at, keys, k, p);
    }
    assert Layer(at.Keys, 2) == Heads(keys, k);
    HeadsSize(keys, k);
  }

  lemma HeadHeld(at: Index, keys: seq<Path>, k: nat, p: Path)
    requires k <= |keys| && Spread(keys) && Holds(at, keys, k)
    ensures p in at && |p| == 2 <==> p in Heads(keys, k)
  {
    assert p in at <==> Below(p, keys, k);
    if |p| == 2 && Below(p, keys, k) {
      var j :| 0 <= j < k && p <= keys[j];
      assert keys[j][..2] == p;
    }
  }

  /** With all first nibbles and 49 heads in use, a key with another head needs ten nodes where at
      most five are left. */
  lemma NoRoomForHead(t: Trie, at: Index, path: Path)
    requires Shape(t, at) && Tidy(t, at) && |path| == NIBBLE_COUNT && path[..2] !in at
    requires |Layer(at.Keys, 1)| == CHILDREN_PER_NODE && |Layer(at.Keys, 2)| == FULL
    ensures WalkCreate(t, path).1 == NULL_NODE
  {
    MissingPrefixes(t, at, path);
    WalkCreateNeeds(t, at, path);
    NodesUsed(t, at);
  }

  lemma NodesUsed(t: Trie, at: Index)
    requires Shape(t, at) && Tidy(t, at)
    requires |Layer(at.Keys, 1)| == CHILDREN_PER_NODE && |Layer(at.Keys, 2)| == FULL
    ensures t.freeTop <= 5
  {
    var K, d := at.Keys, NIBBLE_COUNT;
    TidyGoesOn(t, at);
    UpToSize(K, d);
    UpToStep(K, 0);
    assert UpTo(K, d) == K;
    assert [] in UpTo(K, 0) by {
      var p :| p in Layer(K, 1);
      PrefixClosed(t, at, p, 0);
    }
  }

  // ----- The run -----

  function KeysOf(paths: seq<CString>): (keys: seq<Path>)
    ensures |keys| == |paths| && forall j | 0 <= j < |keys| :: keys[j] == KeyOf(paths[j])
  {
    seq(|paths|, j requires 0 <= j < |paths| => KeyOf(paths[j]))
  }

  /** Fifty acceptable paths with different heads, all first nibbles among the first 49. */
  ghost predicate Crowding(paths: seq<CString>) {
    && |paths| == FULL + 1
    && (forall j | 0 <= j < |paths| :: GoodLength(paths[j]) && IsSutf8(paths[j]))
    && Spread(KeysOf(paths)) && AllFirsts(KeysOf(paths), FULL)
  }

  /** No garbage, and the entries are those of the first `k` keys. */
  ghost predicate Crowded(s: Table, at: Index, keys: seq<Path>, k: nat) {
    Clean(s, at) && s.count == k <= |keys| && Holds(at, keys, k)
  }

  lemma InsertCounts(s: Table, path: CString, sectorOffset: nat, flags: nat)
    requires TableTyped(s)
    ensures var (s2, st) := Insert(s, path, sectorOffset, flags);
            s2.count == if st == InsertOk then s.count + 1 else s.count
  {
  }

  /** An insertion of a new path does nothing to the tree but walk. */
  lemma InsertWalks(s: Table, at: Index, path: CString, key: Path) returns (at2: Index)
    requires Clean(s, at) && GoodLength(path) && IsSutf8(path) && s.count < MAX_ENTRIES
    requires key == KeyOf(path) && key !in at
    ensures var (s2, st) := Insert(s, path, 0, 0);
            && TableInv(s2, at2) && OnlyAdds(at, at2, key)
            && s2.count == (if st == InsertOk then s.count + 1 else s.count)
            && (if WalkCreate(s.trie, key).1 == NULL_NODE
                then st == PoolExhausted && s.count >= FULL && Refused(s, at, s2, at2, key)
                else st == InsertOk && key in at2 && Clean(s2, at2))
  {
    WalkNamed(s.trie, at, key);
    at2 := InsertNewInv(s, at, path, 0, 0);
    var s2 := Insert(s, path, 0, 0).0;
    var at3 := InsertClean(s, at, path, 0, 0);
    if Insert(s, path, 0, 0).1 == InsertOk {
      ShapeUnique(s2.trie, at2, at3);
    } else {
      WalkCreateFails(s.trie, key);
    }
    InsertCounts(s, path, 0, 0);
    CreatedExtends(s.trie, at, key, at2);
  }

  /** The pool after a refused insertion: it is empty, and a part of the walk is left. */
  ghost predicate Refused(s: Table, at: Index, s2: Table, at2: Index, key: Path) {
    && Clean(s, at) && TableInv(s2, at2) && Extends(s.trie, at, s2.trie, at2, key)
    && key !in at2 && s2.trie.freeTop == 0
  }

  lemma CreatedExtends(t: Trie, at: Index, key: Path, at2: Index)
    requires Shape(t, at) && |key| == NIBBLE_COUNT && at2 == Created(t, at, key)
    ensures Extends(t, at, WalkCreate(t, key).0, at2, key) && OnlyAdds(at, at2, key)
    ensures key in at2 <==> WalkCreate(t, key).1 != NULL_NODE
  {
    var at3 := WalkCreateShape(t, at, key);
    CreatedIs(t, at, key, at3);
  }

  lemma AddPath(s: Table, at: Index, paths: seq<CString>, keys: seq<Path>, k: nat) returns (at2: Index)
    requires Crowding(paths) && keys == KeysOf(paths) && k < FULL && Crowded(s, at, keys, k)
    ensures var (s2, st) := Insert(s, paths[k], 0, 0); st == InsertOk && Crowded(s2, at2, keys, k + 1)
  {
    NewHead(at, keys, k);
    at2 := InsertWalks(s, at, paths[k], keys[k]);
    NextHolds(at, keys, k, Insert(s, paths[k], 0, 0).0.trie, at2);
  }

  /** The fiftieth path is refused. */
  lemma LastRefused(s: Table, at: Index, paths: seq<CString>, keys: seq<Path>) returns (at2: Index)
    requires Crowding(paths) && keys == KeysOf(paths) && Crowded(s, at, keys, FULL)
    ensures var (s2, st) := Insert(s, paths[FULL], 0, 0);
            st == PoolExhausted && s2.count == FULL && Refused(s, at, s2, at2, keys[FULL])
  {
    NewHead(at, keys, FULL);
    FirstsCounted(at, keys, FULL);
    HeadsCounted(at, keys, FULL);
    NoRoomForHead(s.trie, at, keys[FULL]);
    at2 := InsertWalks(s, at, paths[FULL], keys[FULL]);
  }

  /** One insertion for each path. */
  function Fill(paths: seq<CString>): (ops: seq<Op>)
    ensures |ops| == |paths| && forall j | 0 <= j < |paths| :: ops[j] == InsertOp(paths[j], 0, 0)
  {
    seq(|paths|, j requires 0 <= j < |paths| => InsertOp(paths[j], 0, 0))
  }

  lemma FillStep(s: Table, paths: seq<CString>, ops: seq<Op>, k: nat, s1: Table)
    requires TableTyped(s) && k < |paths| && ops == Fill(paths) && s1 == Run(s, ops[..k]).0
    ensures Run(s, ops[..k + 1]).0 == Insert(s1, paths[k], 0, 0).0
    ensures Run(s, ops).1[k].status == Insert(s1, paths[k], 0, 0).1
  {
    RunSplit(s, ops, k);
  }

  /** Insertion `j` of the run starts with `j` entries and succeeds. */
  ghost predicate Succeeds(s: Table, ops: seq<Op>, j: nat)
    requires TableTyped(s) && j < |ops|
  {
    Run(s, ops[..j]).0.count == j && Run(s, ops).1[j].status == InsertOk
  }

  lemma OneMore(s: Table, ops: seq<Op>, k: nat, n: nat)
    requires TableTyped(s) && k < |ops| && n == k + 1
    requires AllSucceed(s, ops, k) && Succeeds(s, ops, k)
    ensures AllSucceed(s, ops, n)
  {
    forall j: nat | j < n ensures Succeeds(s, ops, j) {
      if j == k {
        assert Succeeds(s, ops, k);
      } else {
        assert j < k;
      }
    }
  }

  ghost predicate AllSucceed(s: Table, ops: seq<Op>, k: nat)
    requires TableTyped(s) && k <= |ops|
  {
    forall j: nat | j < k :: Succeeds(s, ops, j)
  }

  lemma {:induction false} CrowdedRun(s: Table, paths: seq<CString>, keys: seq<Path>, ops: seq<Op>, k: nat)
    returns (at: Index, s1: Table)
    requires Crowding(paths) && keys == KeysOf(paths) && ops == Fill(paths) && k <= FULL
    requires Crowded(s, map[], keys, 0)
    ensures s1 == Run(s, ops[..k]).0 && Crowded(s1, at, keys, k)
    ensures AllSucceed(s, ops, k)
  {
    if k == 0 {
      at, s1 := map[], s;
      assert ops[..0] == [];
    } else {
      var at0, s0 := CrowdedRun(s, paths, keys, ops, k - 1);
      at, s1 := CrowdedNext(s, paths, keys, ops, k - 1, at0, s0, k);
      OneMore(s, ops, k - 1, k);
    }
  }

  lemma CrowdedNext(s: Table, paths: seq<CString>, keys: seq<Path>, ops: seq<Op>, k: nat, at0: Index, s0: Table, n: nat)
    returns (at: Index, s1: Table)
    requires Crowding(paths) && keys == KeysOf(paths) && ops == Fill(paths) && TableTyped(s)
    requires k < FULL && s0 == Run(s, ops[..k]).0 && Crowded(s0, at0, keys, k) && n == k + 1
    ensures s1 == Run(s, ops[..n]).0 && Crowded(s1, at, keys, n) && Succeeds(s, ops, k)
  {
    FillStep(s, paths, ops, k, s0);
    at := AddPath(s0, at0, paths, keys, k);
    s1 := Insert(s0, paths[k], 0, 0).0;
  }

  /** Insertions of fifty such paths into a new index: the first 49 succeed, and the last one exhausts
      the pool, although the count never passes 49. */
  lemma FiftiethExhausts(volumeId: nat, paths: seq<CString>)
    requires Crowding(paths)
    ensures var (s, ops) := (InitTable(volumeId), Fill(paths));
            && AllSucceed(s, ops, FULL) && Run(s, ops[..FULL]).0.count == FULL
            && Run(s, ops).1[FULL].status == PoolExhausted && Run(s, ops).0.count == FULL
  {
    InitInv(volumeId);
    var at, s1, at2, s2 := FullRun(InitTable(volumeId), paths, KeysOf(paths), Fill(paths));
  }

  lemma LastStep(s: Table, paths: seq<CString>, ops: seq<Op>, s1: Table, k: nat) returns (s2: Table)
    requires TableTyped(s) && |paths| == k + 1 && ops == Fill(paths) && s1 == Run(s, ops[..k]).0
    ensures s2 == Run(s, ops).0 == Insert(s1, paths[k], 0, 0).0
    ensures Run(s, ops).1[k].status == Insert(s1, paths[k], 0, 0).1
  {
    FillStep(s, paths, ops, k, s1);
    assert ops[..k + 1] == ops;
    s2 := Run(s, ops).0;
  }

  lemma FullRun(s: Table, paths: seq<CString>, keys: seq<Path>, ops: seq<Op>)
    returns (at: Index, s1: Table, at2: Index, s2: Table)
    requires Crowding(paths) && keys == KeysOf(paths) && ops == Fill(paths) && Crowded(s, map[], keys, 0)
    ensures AllSucceed(s, ops, FULL) && s1 == Run(s, ops[..FULL]).0
    ensures s2 == Run(s, ops).0 && Run(s, ops).1[FULL].status == PoolExhausted && s2.count == FULL
    ensures Crowded(s1, at, keys, FULL) && Refused(s1, at, s2, at2, keys[FULL])
  {
    at, s1 := CrowdedRun(s, paths, keys, ops, FULL);
    s2 := LastStep(s, paths, ops, s1, FULL);
    at2 := LastRefused(s1, at, paths, keys);
  }

  // ----- What the refused insertion leaves behind -----

  /** The refused walk has taken the last nodes, so it got as far as the head. */
  lemma HeadLeft(s: Table, at: Index, s2: Table, at2: Index, key: Path)
    requires Refused(s, at, s2, at2, key) && |key| == NIBBLE_COUNT && s.count <= FULL && [key[0]] in at
    ensures key[..2] in at2
  {
    NotFull(s, at);
    var p := MoreNames(at, at2);
    NewNameIsDeep(s.trie, at, key, p);
    PrefixClosed(s2.trie, at2, p, 2);
  }

  lemma NewNameIsDeep(t: Trie, at: Index, key: Path, p: Path)
    requires Shape(t, at) && key != [] && [key[0]] in at && p !in at && p <= key
    ensures 2 <= |p| && p[..2] == key[..2]
  {
    assert p == key[..|p|];
    if |p| < 2 {
      assert p == [key[0]][..|p|];
      PrefixClosed(t, at, [key[0]], |p|);
    }
  }

  lemma NotFull(s: Table, at: Index)
    requires Clean(s, at) && s.count <= FULL
    ensures |at.Keys| < MAX_NODES
  {
    LeavesAreEntries(s, at);
    TidyGoesOn(s.trie, at);
    NodesNeeded(at.Keys);
  }

  lemma MoreNames(at: Index, at2: Index) returns (p: Path)
    requires |at.Keys| < |at2.Keys|
    ensures p in at2 && p !in at
  {
    if at2.Keys <= at.Keys {
      SubsetSize(at2.Keys, at.Keys);
      assert false;
    }
    p :| p in at2.Keys && p !in at.Keys;
  }

  lemma RemoveListed(s: Table, at: Index, path: CString, key: Path) returns (s2: Table, at2: Index)
    requires TableInv(s, at) && GoodLength(path) && key == KeyOf(path) && key in at
    ensures Remove(s, path) == (s2, RemoveOk) && s2.count == s.count - 1 && TableInv(s2, at2)
    ensures OnlyDrops(at, at2, key) && NothingDies(s.trie, at, s2.trie, at2)
  {
    s2 := Remove(s, path).0;
    at2 := RemoveInv(s, at, path);
    WalkNamed(s.trie, at, key);
    assert LeafEntry(s, at, key);
  }

  /** A table after the insertion of `key` was refused and the entry of `gone` was removed. */
  ghost predicate Reopened(s: Table, at: Index, s2: Table, at2: Index, key: Path, gone: Path, s3: Table, at3: Index) {
    && Refused(s, at, s2, at2, key) && |key| == NIBBLE_COUNT && key[..2] in at2 && key[..2] !in at
    && s2.count == FULL && |gone| == NIBBLE_COUNT && !(key[..2] <= gone)
    && TableInv(s3, at3) && s3.count == FULL - 1
    && OnlyDrops(at2, at3, gone) && NothingDies(s2.trie, at2, s3.trie, at3)
  }

  lemma DeadOnPath(s: Table, at: Index, s2: Table, at2: Index, key: Path, gone: Path, s3: Table, at3: Index, p: Path)
    requires Reopened(s, at, s2, at2, key, gone, s3, at3) && p in at3 && Dead(s3.trie.nodes[at3[p]])
    ensures p <= key
  {
    if p in at {
      assert !Dead(s.trie.nodes[at[p]]);
      if n :| n in s.trie.nodes[at[p]].bitmap {
        StepDown(s.trie, at, p, n);
        StepDown(s2.trie, at2, p, n);
      }
    }
  }

  /** There is room for the refused key now. */
  lemma RoomAgain(s: Table, at: Index, s2: Table, at2: Index, key: Path, gone: Path, s3: Table, at3: Index)
    requires Reopened(s, at, s2, at2, key, gone, s3, at3)
    ensures Missing(s3.trie, key) <= s3.trie.freeTop
  {
    forall p | p in at3 && !(p <= key) && |p| < NIBBLE_COUNT ensures Continues(at3.Keys, p) {
      GoesOnAgain(s, at, s2, at2, key, gone, s3, at3, p);
    }
    RoomForOne(s3, at3, key);
  }

  lemma RoomForOne(s: Table, at: Index, key: Path)
    requires TableInv(s, at) && s.count < FULL && |key| == NIBBLE_COUNT
    requires forall p {:trigger Continues(at.Keys, p)} |
               p in at && !(p <= key) && |p| < NIBBLE_COUNT :: Continues(at.Keys, p)
    ensures Missing(s.trie, key) <= s.trie.freeTop
  {
    LeavesAreEntries(s, at);
    RoomOffGarbage(s.trie, at, at.Keys, key);
  }

  /** A trie with at most 48 keys has room for one on whose walk alone there is garbage. */
  lemma RoomOffGarbage(t: Trie, at: Index, K: set<Path>, key: Path)
    requires Shape(t, at) && K == at.Keys && |Layer(K, NIBBLE_COUNT)| < FULL && |key| == NIBBLE_COUNT
    requires forall p {:trigger Continues(K, p)} | p in K && !(p <= key) && |p| < NIBBLE_COUNT :: Continues(K, p)
    ensures Missing(t, key) <= t.freeTop
  {
    MissingPrefixes(t, at, key);
    var from := |key| + 1 - Missing(t, key);
    var more := Prefixes(key, from);
    AllGoOn(K, key, from, more);
    MoreNodesNeeded(K, key, more);
  }

  lemma AllGoOn(K: set<Path>, key: Path, from: nat, more: set<Path>)
    requires |key| == NIBBLE_COUNT && from <= |key| + 1 && more == Prefixes(key, from)
    requires forall i | 0 <= i < from :: key[..i] in K
    requires forall p | p in K :: |p| <= NIBBLE_COUNT
    requires forall p {:trigger Continues(K, p)} | p in K && !(p <= key) && |p| < NIBBLE_COUNT :: Continues(K, p)
    ensures GoesOn(K + more)
  {
    forall p | p in K + more && |p| < NIBBLE_COUNT ensures Continues(K + more, p) {
      if p <= key {
        NextOnKey(K, key, from, more, p);
      } else {
        assert Continues(K, p);
        var n: Nibble :| p + [n] in K;
        assert p + [n] in K + more;
      }
    }
  }

  lemma NextOnKey(K: set<Path>, key: Path, from: nat, more: set<Path>, p: Path)
    requires |key| == NIBBLE_COUNT && from <= |key| + 1 && more == Prefixes(key, from)
    requires forall i | 0 <= i < from :: key[..i] in K
    requires p <= key && |p| < NIBBLE_COUNT
    ensures Continues(K + more, p)
  {
    var q := key[..|p| + 1];
    assert q == p + [key[|p|]] && q <= key;
    assert q in K + more;
  }

  lemma GoesOnAgain(s: Table, at: Index, s2: Table, at2: Index, key: Path, gone: Path, s3: Table, at3: Index, p: Path)
    requires Reopened(s, at, s2, at2, key, gone, s3, at3)
    requires p in at3 && |p| < NIBBLE_COUNT && !(p <= key)
    ensures Continues(at3.Keys, p)
  {
    if Dead(s3.trie.nodes[at3[p]]) {
      DeadOnPath(s, at, s2, at2, key, gone, s3, at3, p);
    } else {
      var n :| n in s3.trie.nodes[at3[p]].bitmap;
      StepDown(s3.trie, at3, p, n);
    }
  }

  /** The walk for the refused key stops at a dead end. */
  lemma StopsDead(s: Table, at: Index, s2: Table, at2: Index, key: Path, gone: Path, s3: Table, at3: Index)
    requires Reopened(s, at, s2, at2, key, gone, s3, at3)
    ensures key !in at3 && s3.trie.root != NULL_NODE && Dead(s3.trie.nodes[StopsAt(s3.trie, key)])
  {
    assert key[..2] in at3;
    PrefixClosed(s3.trie, at3, key[..2], 0);
    var m := Stop(s3.trie, at3, key);
    StopsDeep(s3.trie, at3, key, m);
    forall n: Nibble ensures n !in s3.trie.nodes[at3[key[..m]]].bitmap {
      NoChildAtStop(s, at, s2, at2, key, gone, s3, at3, m, n);
    }
  }

  lemma StopsDeep(t: Trie, at: Index, key: Path, m: nat)
    requires Shape(t, at) && m < |key| == NIBBLE_COUNT && key[..2] in at
    requires key[..m] in at && key[m] !in t.nodes[at[key[..m]]].bitmap
    ensures m >= 2
  {
    var q := key[..m] + [key[m]];
    StepDown(t, at, key[..m], key[m]);
    assert m < 2 ==> q == key[..2][..m + 1];
    if m < 2 {
      PrefixClosed(t, at, key[..2], m + 1);
    }
  }

  lemma NoChildAtStop(s: Table, at: Index, s2: Table, at2: Index, key: Path, gone: Path, s3: Table, at3: Index,
                      m: nat, n: Nibble)
    requires Reopened(s, at, s2, at2, key, gone, s3, at3)
    requires 2 <= m < |key| && key[..m] in at3 && key[m] !in s3.trie.nodes[at3[key[..m]]].bitmap
    ensures n !in s3.trie.nodes[at3[key[..m]]].bitmap
  {
    var q := key[..m] + [n];
    StepDown(s3.trie, at3, key[..m], n);
    NextHead(key, m, n, q);
    if q in at {
      PrefixClosed(s.trie, at, q, 2);
    }
  }

  lemma NextHead(key: Path, m: nat, n: Nibble, q: Path)
    requires 2 <= m < |key| && q == key[..m] + [n]
    ensures q[..2] == key[..2] && (q <= key ==> n == key[m])
  {
    assert q <= key ==> q[m] == key[m];
  }

  lemma StillListed(s: Table, at: Index, s2: Table, at2: Index, keys: seq<Path>, i: nat)
    requires Spread(keys) && |keys| == FULL + 1 && AllFirsts(keys, FULL) && i < FULL
    requires Crowded(s, at, keys, FULL) && Refused(s, at, s2, at2, keys[FULL])
    ensures keys[FULL][..2] in at2 && keys[FULL][..2] !in at
    ensures keys[i] in at2 && !(keys[FULL][..2] <= keys[i])
  {
    NewHead(at, keys, FULL);
    FirstsCounted(at, keys, FULL);
    HeadLeft(s, at, s2, at2, keys[FULL]);
    HeadsApart(keys, i, FULL);
    assert Below(keys[i], keys, FULL);
  }

  /** After the run, remove the entry of any of the first 49 paths. */
  lemma Reopen(s: Table, at: Index, s2: Table, at2: Index, key: Path, path: CString, gone: Path)
    returns (s3: Table, at3: Index)
    requires Refused(s, at, s2, at2, key) && |key| == NIBBLE_COUNT && s2.count == FULL
    requires key[..2] in at2 && key[..2] !in at && gone == KeyOf(path) && gone in at2 && !(key[..2] <= gone)
    requires GoodLength(path)
    ensures (s3, RemoveOk) == Remove(s2, path)
    ensures Reopened(s, at, s2, at2, key, gone, s3, at3)
  {
    s3, at3 := RemoveListed(s2, at2, path, gone);
  }

  /** Then the refused path is accepted, and removing it does not give the pool back as it was. */
  lemma NotUndone(s: Table, at: Index, s2: Table, at2: Index, path: CString, key: Path, gone: Path, s3: Table,
                  at3: Index)
    requires Reopened(s, at, s2, at2, key, gone, s3, at3) && key == KeyOf(path) && GoodLength(path) && IsSutf8(path)
    ensures Insert(s3, path, 0, 0).1 == InsertOk
    ensures var (s4, st) := Remove(Insert(s3, path, 0, 0).0, path);
            st == RemoveOk && s4.entries == s3.entries && s4.count == s3.count && !SameTree(s3.trie, s4.trie)
  {
    StopsDead(s, at, s2, at2, key, gone, s3, at3);
    RoomAgain(s, at, s2, at2, key, gone, s3, at3);
    WalkCreateNeeds(s3.trie, at3, key);
    WalkNamed(s3.trie, at3, key);
    var at4 := InsertNewInv(s3, at3, path, 0, 0);
    InsertThenRemove(s3, at3, path, 0, 0);
  }

  /** A dead end in a table that a run reaches: fifty insertions of such paths, the last one refused, and
      the removal of any of the first 49.  Inserting and removing the refused path then restores the
      entries but not the pool. */
  lemma DeadEndReached(volumeId: nat, paths: seq<CString>, i: nat)
    requires Crowding(paths) && i < FULL
    ensures var s := Run(InitTable(volumeId), Fill(paths) + [RemoveOp(paths[i])]).0;
            var (s1, inserted) := Insert(s, paths[FULL], 0, 0);
            var (s2, removed) := Remove(s1, paths[FULL]);
            && inserted == InsertOk && removed == RemoveOk
            && s2.entries == s.entries && s2.count == s.count && !SameTree(s.trie, s2.trie)
  {
    InitInv(volumeId);
    var s0, keys, ops := InitTable(volumeId), KeysOf(paths), Fill(paths);
    var at, s, at2, s2 := FullRun(s0, paths, keys, ops);
    StillListed(s, at, s2, at2, keys, i);
    var s3, at3 := Reopen(s, at, s2, at2, keys[FULL], paths[i], keys[i]);
    RunThenRemove(s0, ops, paths[i], ops + [RemoveOp(paths[i])], |ops|, s2);
    NotUndone(s, at, s2, at2, paths[FULL], keys[FULL], keys[i], s3, at3);
  }

  lemma RunThenRemove(s: Table, ops: seq<Op>, path: CString, all: seq<Op>, k: nat, s2: Table)
    requires TableTyped(s) && s2 == Run(s, ops).0 && |ops| == k && all == ops + [RemoveOp(path)]
    ensures Run(s, all).0 == Remove(s2, path).0
  {
    Takes(ops, all, k);
    RunSplit(s, all, k);
    StepRemoves(s2, all[k], path);
  }

  lemma Takes(ops: seq<Op>, all: seq<Op>, k: nat)
    requires |ops| == k && |all| == k + 1 && ops <= all
    ensures all[..k] == ops && all[..k + 1] == all
  {
  }

  lemma StepRemoves(s: Table, op: Op, path: CString)
    requires TableTyped(s) && op == RemoveOp(path)
    ensures Step(s, op).0 == Remove(s, path).0
  {
  }

  // ----- Such paths -----

  /** One to four letters 'a' and one more character. */
  function FiftyPaths(): (paths: seq<CString>)
    ensures |paths| == FULL + 1 && forall j | 0 <= j < |paths| :: paths[j] == Crowd(j)
  {
    seq(FULL + 1, j requires 0 <= j <= FULL => Crowd(j))
  }

  lemma HeadsCrowd(keys: seq<Path>)
    requires |keys| == FULL + 1
    requires forall j | 0 <= j < |keys| :: |keys[j]| == NIBBLE_COUNT && keys[j][..2] == Head(j)
    ensures Spread(keys) && AllFirsts(keys, FULL)
  {
    forall i, j | 0 <= i < |keys| && 0 <= j < |keys| && keys[i][..2] == keys[j][..2] ensures i == j {
      HeadsDiffer(i, j);
    }
    forall n: Nibble ensures Below([n], keys, FULL) {
      var j := (n + 10) % 16;
      assert Head(j)[0] == n && keys[j][..2] == Head(j);
      assert [n] <= keys[j];
    }
  }

  lemma FiftyKeys(paths: seq<CString>, j: nat)
    requires paths == FiftyPaths() && j < |paths|
    ensures KeysOf(paths)[j][..2] == Head(j) && GoodLength(paths[j]) && IsSutf8(paths[j])
  {
    CrowdHead(j);
    CrowdIsGood(j);
  }

  lemma FiftyPathsCrowd()
    ensures Crowding(FiftyPaths())
  {
    var paths := FiftyPaths();
    var keys := KeysOf(paths);
    forall j: nat | j < |paths| ensures keys[j][..2] == Head(j) && GoodLength(paths[j]) && IsSutf8(paths[j]) {
      FiftyKeys(paths, j);
    }
    HeadsCrowd(keys);
  }

  /** So the bound is reached by a run: the fifty insertions of these paths, whose count never passes 49
      and whose last reply is pool exhaustion, and after it the table with the dead end. */
  lemma FiftiethCanFail(volumeId: nat)
    ensures var (s, ops) := (InitTable(volumeId), Fill(FiftyPaths()));
            && AllSucceed(s, ops, FULL) && Run(s, ops[..FULL]).0.count == FULL == Run(s, ops).0.count
            && Run(s, ops).1[FULL].status == PoolExhausted
    ensures var paths := FiftyPaths();
            var s := Run(InitTable(volumeId), Fill(paths) + [RemoveOp(paths[0])]).0;
            !SameTree(s.trie, Remove(Insert(s, paths[FULL], 0, 0).0, paths[FULL]).0.trie)
  {
    FiftyPathsCrowd();
    FiftiethExhausts(volumeId, FiftyPaths());
    DeadEndReached(volumeId, FiftyPaths(), 0);
  }
}
