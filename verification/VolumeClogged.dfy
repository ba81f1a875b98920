/**
  What a refused insertion leaves in the pool is not given back: each time the pool is exhausted again
  by a path with a new head, less of it is usable.  A run of 105 calls fills the pool with 52 entries
  whose keys share their first two nibbles in pairs, and is then refused an insertion 27 times, the
  last time with 26 live entries.
 */
module VolumeClogged {
  import opened CrowdedPaths
  import opened PathTrie
  import opened PathTrieCapacity
  import opened PathKey
  import opened Sutf8
  import opened VolumeTable
  import opened VolumeRefinement
  import opened VolumeRuns
  import opened VolumeFull

  const PAIRS: nat := 26
  const FILLED: nat := 2 * PAIRS
  const LISTED: nat := FILLED + PAIRS + 1

  // ----- What an insertion takes -----

  lemma PrefixesNamed(t: Trie, at: Index, key: Path, m: nat)
    requires Shape(t, at) && m <= |key| && key[..m] !in at
    requires m > 0 ==> key[..m - 1] in at
    ensures forall i | 0 <= i <= |key| :: key[..i] in at <==> i < m
  {
    forall i | 0 <= i <= |key| ensures key[..i] in at <==> i < m {
      if i < m {
        PrefixClosed(t, at, key[..m - 1], i);
        assert key[..m - 1][..i] == key[..i];
      } else {
        assert key[..i][..m] == key[..m];
        if key[..i] in at {
          PrefixClosed(t, at, key[..i], m);
        }
      }
    }
  }

  lemma MissingIs(t: Trie, at: Index, key: Path, m: nat)
    requires Shape(t, at) && m <= |key|
    requires forall i | 0 <= i <= |key| :: key[..i] in at <==> i < m
    ensures Missing(t, key) == |key| + 1 - m
  {
    MissingPrefixes(t, at, key);
    var from := |key| + 1 - Missing(t, key);
    assert key[..m] !in at;
    assert from <= |key| ==> key[..from] in Prefixes(key, from);
  }

  lemma SizeAfter(t2: Trie, at: Index, at2: Index, key: Path, m: nat)
    requires Shape(t2, at2) && OnlyAdds(at, at2, key) && key in at2 && m <= |key|
    requires forall i | 0 <= i <= |key| :: key[..i] in at <==> i < m
    ensures |at2| == |at| + |key| + 1 - m
  {
    var more := Prefixes(key, m);
    forall p ensures p in at2.Keys <==> p in at.Keys || p in more {
      AtAfter(t2, at, at2, key, m, p);
    }
    forall p | p in more ensures p !in at.Keys {
      assert p == key[..|p|];
    }
    UnionSize(at.Keys, more, at2.Keys);
  }

  lemma UnionSize<T>(a: set<T>, b: set<T>, c: set<T>)
    requires (forall x :: x in c <==> x in a || x in b) && forall x | x in b :: x !in a
    ensures |c| == |a| + |b|
  {
    assert c == a + b;
  }

  lemma AtAfter(t2: Trie, at: Index, at2: Index, key: Path, m: nat, p: Path)
    requires Shape(t2, at2) && OnlyAdds(at, at2, key) && key in at2 && m <= |key|
    requires forall i | 0 <= i <= |key| :: key[..i] in at <==> i < m
    ensures p in at2 <==> p in at || (p <= key && m <= |p|)
  {
    if p <= key {
      PrefixClosed(t2, at2, key, |p|);
      assert p == key[..|p|];
    }
  }

  /** An insertion of a new path takes one node for each prefix of its key that the tree lacks.  When
      there are too few it takes all there are and is refused. */
  lemma InsertTakes(s: Table, at: Index, path: CString, key: Path, m: nat) returns (at2: Index)
    requires TableInv(s, at) && s.count < MAX_ENTRIES && GoodLength(path) && IsSutf8(path) && key == KeyOf(path)
    requires m <= NIBBLE_COUNT && key[..m] !in at
    requires m > 0 ==> key[..m - 1] in at
    ensures var (s2, st) := Insert(s, path, 0, 0);
            && TableInv(s2, at2) && OnlyAdds(at, at2, key)
            && (if NIBBLE_COUNT + 1 - m <= s.trie.freeTop
                then st == InsertOk && s2.count == s.count + 1 && key in at2
                     && s2.trie.freeTop == s.trie.freeTop - (NIBBLE_COUNT + 1 - m)
                else st == PoolExhausted && s2.count == s.count && s2.trie.freeTop == 0)
  {
    PrefixesNamed(s.trie, at, key, m);
    MissingIs(s.trie, at, key, m);
    assert key[..|key|] == key;
    WalkNamed(s.trie, at, key);
    WalkCreateNeeds(s.trie, at, key);
    at2 := InsertNewInv(s, at, path, 0, 0);
    CreatedExtends(s.trie, at, key, at2);
    InsertCounts(s, path, 0, 0);
    if WalkCreate(s.trie, key).1 == NULL_NODE {
      WalkCreateFails(s.trie, key);
    } else {
      SizeAfter(Insert(s, path, 0, 0).0.trie, at, at2, key, m);
    }
  }

  // ----- The keys -----

  /** The keys from 26 to 51 share their heads with the first 26. */
  function Partner(k: nat): nat {
    if PAIRS <= k < FILLED then k - PAIRS else k
  }

  /** How many nibbles of key `k` it takes to tell it from the keys before it. */
  function Depth(k: nat): nat {
    if k == 0 then 0 else if k < CHILDREN_PER_NODE then 1 else if k < PAIRS || FILLED <= k then 2 else 3
  }

  /** The first sixteen keys begin with all nibbles, and the heads differ but for those of partners. */
  ghost predicate Paired(keys: seq<Path>) {
    && |keys| == LISTED && (forall k | 0 <= k < LISTED :: |keys[k]| == NIBBLE_COUNT)
    && AllFirsts(keys, CHILDREN_PER_NODE) && FirstsDiffer(keys) && HeadsDifferButPartners(keys)
    && forall k: nat | PAIRS <= k < FILLED :: Mates(keys[k], keys[Partner(k)])
  }

  ghost predicate FirstsDiffer(keys: seq<Path>)
    requires |keys| == LISTED && forall k | 0 <= k < LISTED :: |keys[k]| == NIBBLE_COUNT
  {
    forall i, j | 0 <= i < CHILDREN_PER_NODE && 0 <= j < CHILDREN_PER_NODE && keys[i][0] == keys[j][0] :: i == j
  }

  ghost predicate HeadsDifferButPartners(keys: seq<Path>)
    requires |keys| == LISTED && forall k | 0 <= k < LISTED :: |keys[k]| == NIBBLE_COUNT
  {
    forall i: nat, j: nat | i < LISTED && j < LISTED && keys[i][..2] == keys[j][..2] :: Partner(i) == Partner(j)
  }

  predicate Mates(p: Path, q: Path) {
    |p| == |q| == NIBBLE_COUNT && p[..2] == q[..2] && p[2] != q[2]
  }

  lemma ToldApart(keys: seq<Path>, j: nat, k: nat)
    requires Paired(keys) && j < k < LISTED
    ensures !(keys[k][..Depth(k)] <= keys[j])
  {
  }

  lemma HeadKnown(keys: seq<Path>, k: nat)
    requires Paired(keys) && 0 < k < LISTED
    ensures Below(keys[k][..Depth(k) - 1], keys, k)
  {
    if k < CHILDREN_PER_NODE {
      assert keys[k][..0] <= keys[0];
    } else if Depth(k) == 2 {
      assert Below([keys[k][0]], keys, CHILDREN_PER_NODE);
      assert keys[k][..1] == [keys[k][0]];
    } else {
      assert Mates(keys[k], keys[Partner(k)]);
      assert keys[k][..2] <= keys[Partner(k)];
    }
  }

  /** Every node is a prefix of one of the first `k` keys. */
  ghost predicate Within(at: Index, keys: seq<Path>, k: nat)
    requires k <= |keys|
  {
    forall p: Path {:trigger Below(p, keys, k)} {:trigger p in at} :: p in at ==> Below(p, keys, k)
  }

  lemma NotWithin(at: Index, keys: seq<Path>, k: nat)
    requires Paired(keys) && k < LISTED && Within(at, keys, k)
    ensures keys[k][..Depth(k)] !in at
  {
    var p := keys[k][..Depth(k)];
    forall j | 0 <= j < k ensures !(p <= keys[j]) {
      ToldApart(keys, j, k);
    }
    assert !Below(p, keys, k);
  }

  // ----- Filling the pool -----

  /** The nodes left after `k` insertions. */
  function Left(k: nat): int {
    if k == 0 then 512 else if k <= CHILDREN_PER_NODE then 511 - 11 * k
    else if k <= PAIRS then 495 - 10 * k else 469 - 9 * k
  }

  ghost predicate Filling(s: Table, at: Index, keys: seq<Path>, k: nat) {
    TableInv(s, at) && s.count == k <= |keys| && Holds(at, keys, k) && s.trie.freeTop == Left(k)
  }

  /** `path` is an acceptable path for `key`. */
  ghost predicate PathFor(path: CString, key: Path) {
    GoodLength(path) && IsSutf8(path) && key == KeyOf(path)
  }

  lemma FillNext(s: Table, at: Index, path: CString, keys: seq<Path>, k: nat, n: nat) returns (at2: Index)
    requires Paired(keys) && k < FILLED && n == k + 1 && Filling(s, at, keys, k) && PathFor(path, keys[k])
    ensures var (s2, st) := Insert(s, path, 0, 0); st == InsertOk && Filling(s2, at2, keys, n)
  {
    NotWithin(at, keys, k);
    if k > 0 {
      HeadKnown(keys, k);
    }
    LeftNext(k, n);
    at2 := FillBy(s, at, path, keys, k, n, Depth(k));
  }

  lemma LeftNext(k: nat, n: nat)
    requires k < FILLED && n == k + 1
    ensures 0 <= Left(n) == Left(k) - (NIBBLE_COUNT + 1 - Depth(k)) && (Depth(k) > 0 <==> k > 0)
  {
  }

  lemma FillBy(s: Table, at: Index, path: CString, keys: seq<Path>, k: nat, n: nat, m: nat) returns (at2: Index)
    requires k < FILLED && n == k + 1 <= |keys| && Filling(s, at, keys, k) && PathFor(path, keys[k])
    requires m <= NIBBLE_COUNT && keys[k][..m] !in at
    requires m > 0 ==> Below(keys[k][..m - 1], keys, k)
    requires 0 <= Left(n) == Left(k) - (NIBBLE_COUNT + 1 - m)
    ensures var (s2, st) := Insert(s, path, 0, 0); st == InsertOk && Filling(s2, at2, keys, n)
  {
    at2 := InsertTakes(s, at, path, keys[k], m);
    NextHolds(at, keys, k, Insert(s, path, 0, 0).0.trie, at2);
  }

  // ----- Refused again and again -----

  ghost predicate Named(at: Index, keys: seq<Path>, a: nat, b: nat)
    requires b <= |keys|
  {
    forall i | a <= i < b :: keys[i] in at
  }

  /** The first 26 entries and the partners of all but `r` of them, in the prefixes of the first `k` keys,
      with at most `free` nodes left. */
  ghost predicate Jammed(s: Table, at: Index, keys: seq<Path>, r: nat, k: nat, free: nat) {
    && TableInv(s, at) && s.trie.freeTop <= free && r <= PAIRS && s.count == FILLED - r
    && k <= |keys| == LISTED && Within(at, keys, k)
    && Named(at, keys, 0, PAIRS) && Named(at, keys, PAIRS + r, FILLED)
  }

  lemma FilledIsJammed(s: Table, at: Index, keys: seq<Path>, k: nat)
    requires |keys| == LISTED && k == FILLED && Filling(s, at, keys, k)
    ensures Jammed(s, at, keys, 0, k, 9)
  {
    forall i | 0 <= i < FILLED ensures keys[i] in at {
      assert Below(keys[i], keys, k);
    }
  }

  lemma FirstNamed(t: Trie, at: Index, keys: seq<Path>, k: nat, n: Nibble)
    requires Shape(t, at) && k <= |keys| && AllFirsts(keys, k) && Named(at, keys, 0, k)
    ensures [n] in at
  {
    assert Below([n], keys, k);
    var j :| 0 <= j < k && [n] <= keys[j];
    PrefixClosed(t, at, keys[j], 1);
    assert keys[j][..1] == [n];
  }

  /** A new head needs ten nodes and nine are left. */
  lemma RefuseNext(s: Table, at: Index, path: CString, keys: seq<Path>, r: nat, k: nat, n: nat)
    returns (at2: Index)
    requires Paired(keys) && Jammed(s, at, keys, r, k, 9) && FILLED <= k < LISTED && n == k + 1
    requires PathFor(path, keys[k])
    ensures var (s2, st) := Insert(s, path, 0, 0); st == PoolExhausted && Jammed(s2, at2, keys, r, n, 0)
  {
    NotWithin(at, keys, k);
    FirstNamed(s.trie, at, keys, CHILDREN_PER_NODE, keys[k][0]);
    at2 := RefuseHead(s, at, path, keys, r, k, n);
  }

  lemma RefuseHead(s: Table, at: Index, path: CString, keys: seq<Path>, r: nat, k: nat, n: nat)
    returns (at2: Index)
    requires Jammed(s, at, keys, r, k, 9) && n == k + 1 <= LISTED && PathFor(path, keys[k])
    requires keys[k][..2] !in at && [keys[k][0]] in at
    ensures var (s2, st) := Insert(s, path, 0, 0); st == PoolExhausted && Jammed(s2, at2, keys, r, n, 0)
  {
    assert keys[k][..1] == [keys[k][0]];
    at2 := InsertTakes(s, at, path, keys[k], 2);
    StillWithin(at, at2, keys, k, n);
  }

  lemma StillWithin(at: Index, at2: Index, keys: seq<Path>, k: nat, n: nat)
    requires n == k + 1 <= |keys| && Within(at, keys, k) && OnlyAdds(at, at2, keys[k])
    ensures Within(at2, keys, n)
  {
    forall p: Path | p in at2 ensures Below(p, keys, n) {
      BelowNext(p, keys, k);
      assert p in at ==> Below(p, keys, k);
    }
  }

  /** Removing one of a pair gives nine nodes back at most, since the other one keeps the head. */
  lemma RemoveMate(s: Table, at: Index, path: CString, keys: seq<Path>, r: nat, k: nat, n: nat)
    returns (at2: Index)
    requires Paired(keys) && Jammed(s, at, keys, r, k, 0) && r < PAIRS && n == r + 1
    requires PathFor(path, keys[PAIRS + r])
    ensures var (s2, st) := Remove(s, path); st == RemoveOk && Jammed(s2, at2, keys, n, k, 9)
  {
    NoOther(keys, PAIRS + r);
    assert Mates(keys[PAIRS + r], keys[Partner(PAIRS + r)]);
    at2 := DropMate(s, at, path, keys, r, k, n);
  }

  lemma DropMate(s: Table, at: Index, path: CString, keys: seq<Path>, r: nat, k: nat, n: nat)
    returns (at2: Index)
    requires Jammed(s, at, keys, r, k, 0) && r < PAIRS && n == r + 1 && PathFor(path, keys[PAIRS + r])
    requires Alone(keys, PAIRS + r) && Mates(keys[PAIRS + r], keys[r])
    ensures var (s2, st) := Remove(s, path); st == RemoveOk && Jammed(s2, at2, keys, n, k, 9)
  {
    assert keys[PAIRS + r] in at && keys[r] in at;
    var s2;
    s2, at2 := DropKey(s, at, path, keys[PAIRS + r], keys[r]);
    StillNamed(at, at2, keys, PAIRS + r, 0, PAIRS);
    StillNamed(at, at2, keys, PAIRS + r, PAIRS + n, FILLED);
    FewerWithin(at, at2, keys, k);
  }

  lemma DropKey(s: Table, at: Index, path: CString, key: Path, mate: Path) returns (s2: Table, at2: Index)
    requires TableInv(s, at) && s.trie.freeTop == 0 && PathFor(path, key) && key in at && mate in at
    requires Mates(key, mate) && !(mate <= key)
    ensures Remove(s, path) == (s2, RemoveOk) && s2.count == s.count - 1
    ensures TableInv(s2, at2) && OnlyDrops(at, at2, key) && s2.trie.freeTop <= 9
  {
    s2, at2 := RemoveListed(s, at, path, key);
    FewDropped(s2.trie, at, at2, key, mate);
  }

  lemma StillNamed(at: Index, at2: Index, keys: seq<Path>, k: nat, a: nat, b: nat)
    requires k < |keys| && b <= |keys| && !(a <= k < b) && Named(at, keys, a, b) && OnlyDrops(at, at2, keys[k])
    requires Alone(keys, k)
    ensures Named(at2, keys, a, b)
  {
  }

  lemma FewerWithin(at: Index, at2: Index, keys: seq<Path>, k: nat)
    requires k <= |keys| && Within(at, keys, k) && forall p | p in at2 :: p in at
    ensures Within(at2, keys, k)
  {
  }

  ghost predicate Alone(keys: seq<Path>, k: nat)
    requires k < |keys|
  {
    forall i | 0 <= i < |keys| && i != k :: !(keys[i] <= keys[k])
  }

  lemma NoOther(keys: seq<Path>, k: nat)
    requires Paired(keys) && k < LISTED
    ensures Alone(keys, k)
  {
    forall i | 0 <= i < LISTED && i != k ensures !(keys[i] <= keys[k]) {
      ToldApart(keys, if i < k then i else k, if i < k then k else i);
    }
  }

  lemma FewDropped(t2: Trie, at: Index, at2: Index, key: Path, mate: Path)
    requires Shape(t2, at2) && OnlyDrops(at, at2, key) && Mates(key, mate) && mate in at2 && |at| == MAX_NODES
    ensures t2.freeTop <= 9
  {
    var more := Prefixes(key, 3);
    PrefixClosed(t2, at2, mate, 2);
    forall p | p <= key && |p| < 3 ensures p in at2 {
      PrefixClosed(t2, at2, mate[..2], |p|);
      assert p == key[..2][..|p|];
    }
    SubsetSize(at.Keys, at2.Keys + more);
    assert |at2.Keys + more| <= |at2.Keys| + |more|;
  }

  // ----- The run -----

  /** Acceptable paths for such keys. */
  ghost predicate Clogging(paths: seq<CString>) {
    && |paths| == LISTED && Paired(KeysOf(paths))
    && forall j | 0 <= j < |paths| :: GoodLength(paths[j]) && IsSutf8(paths[j])
  }

  lemma ListedPath(paths: seq<CString>, keys: seq<Path>, j: nat)
    requires Clogging(paths) && keys == KeysOf(paths) && j < LISTED
    ensures Paired(keys) && PathFor(paths[j], keys[j])
  {
  }

  /** Insert the 26 pairs; then insert a path with a new head and remove one of a pair, in turn. */
  function Calls(paths: seq<CString>): (ops: seq<Op>)
    requires |paths| == LISTED
    ensures |ops| == FILLED + 2 * PAIRS + 1
    ensures forall k | 0 <= k < FILLED :: ops[k] == InsertOp(paths[k], 0, 0)
    ensures forall k: nat | k < |ops| - FILLED :: ops[FILLED + k] == LaterCall(paths, k)
  {
    seq(FILLED, k requires 0 <= k < FILLED => InsertOp(paths[k], 0, 0))
    + seq(2 * PAIRS + 1, k requires 0 <= k <= 2 * PAIRS => LaterCall(paths, k))
  }

  function LaterCall(paths: seq<CString>, k: nat): Op
    requires |paths| == LISTED && k <= 2 * PAIRS
  {
    if k % 2 == 0 then InsertOp(paths[FILLED + k / 2], 0, 0) else RemoveOp(paths[PAIRS + k / 2])
  }

  /** Call `k` is an insertion, made with `n` entries, and exhausts the pool. */
  ghost predicate Refuses(s: Table, ops: seq<Op>, k: nat, n: nat)
    requires TableTyped(s)
  {
    k < |ops| && ops[k].InsertOp? && Run(s, ops[..k]).0.count == n && Run(s, ops).1[k].status == PoolExhausted
  }

  lemma InsertCall(s: Table, ops: seq<Op>, k: nat, s1: Table, path: CString)
    requires TableTyped(s) && k < |ops| && ops[k] == InsertOp(path, 0, 0) && s1 == Run(s, ops[..k]).0
    ensures Run(s, ops[..k + 1]).0 == Insert(s1, path, 0, 0).0
    ensures Run(s, ops).1[k].status == Insert(s1, path, 0, 0).1
  {
    RunSplit(s, ops, k);
  }

  lemma RemoveCall(s: Table, ops: seq<Op>, k: nat, s1: Table, path: CString)
    requires TableTyped(s) && k < |ops| && ops[k] == RemoveOp(path) && s1 == Run(s, ops[..k]).0
    ensures Run(s, ops[..k + 1]).0 == Remove(s1, path).0
    ensures Run(s, ops).1[k].status == Remove(s1, path).1
  {
    RunSplit(s, ops, k);
  }

  lemma {:induction false} FillRun(s: Table, paths: seq<CString>, keys: seq<Path>, ops: seq<Op>, k: nat)
    returns (at: Index, s1: Table)
    requires Clogging(paths) && keys == KeysOf(paths) && ops == Calls(paths) && k <= FILLED
    requires Filling(s, map[], keys, 0)
    ensures s1 == Run(s, ops[..k]).0 && Filling(s1, at, keys, k)
    ensures AllSucceed(s, ops, k)
  {
    if k == 0 {
      at, s1 := map[], s;
      assert ops[..0] == [];
    } else {
      var at0, s0 := FillRun(s, paths, keys, ops, k - 1);
      at, s1 := FillCall(s, paths, keys, ops, k - 1, at0, s0, k);
      OneMore(s, ops, k - 1, k);
    }
  }

  lemma FillCall(s: Table, paths: seq<CString>, keys: seq<Path>, ops: seq<Op>, k: nat, at0: Index, s0: Table, n: nat)
    returns (at: Index, s1: Table)
    requires Clogging(paths) && keys == KeysOf(paths) && ops == Calls(paths) && TableTyped(s)
    requires k < FILLED && s0 == Run(s, ops[..k]).0 && Filling(s0, at0, keys, k) && n == k + 1
    ensures s1 == Run(s, ops[..n]).0 && Filling(s1, at, keys, n) && Succeeds(s, ops, k)
  {
    ListedPath(paths, keys, k);
    InsertCall(s, ops, k, s0, paths[k]);
    at := FillNext(s0, at0, paths[k], keys, k, n);
    s1 := Insert(s0, paths[k], 0, 0).0;
  }

  /** The calls of round `r`. */
  ghost predicate CallsAt(paths: seq<CString>, keys: seq<Path>, ops: seq<Op>, r: nat)
    requires |paths| == |keys| == LISTED && |ops| == FILLED + 2 * PAIRS + 1 && r <= PAIRS
  {
    var k := FILLED + 2 * r;
    && ops[k] == InsertOp(paths[FILLED + r], 0, 0) && PathFor(paths[FILLED + r], keys[FILLED + r])
    && (r < PAIRS ==> ops[k + 1] == RemoveOp(paths[PAIRS + r]) && PathFor(paths[PAIRS + r], keys[PAIRS + r]))
  }

  ghost predicate Planned(paths: seq<CString>, keys: seq<Path>, ops: seq<Op>) {
    && Paired(keys) && |paths| == |keys| == LISTED && |ops| == FILLED + 2 * PAIRS + 1
    && forall r: nat | r <= PAIRS :: CallsAt(paths, keys, ops, r)
  }

  lemma LaterCalls(paths: seq<CString>, r: nat)
    requires |paths| == LISTED && r <= PAIRS
    ensures LaterCall(paths, 2 * r) == InsertOp(paths[FILLED + r], 0, 0)
    ensures r < PAIRS ==> LaterCall(paths, 2 * r + 1) == RemoveOp(paths[PAIRS + r])
  {
  }

  lemma CallsHere(paths: seq<CString>, ops: seq<Op>, r: nat, k: nat)
    requires |paths| == LISTED && ops == Calls(paths) && r <= PAIRS && k == 2 * r
    ensures |ops| == FILLED + 2 * PAIRS + 1 && ops[FILLED + k] == InsertOp(paths[FILLED + r], 0, 0)
    ensures r < PAIRS ==> ops[FILLED + (k + 1)] == RemoveOp(paths[PAIRS + r])
  {
    LaterCalls(paths, r);
    assert ops[FILLED + k] == LaterCall(paths, k);
    assert r < PAIRS ==> ops[FILLED + (k + 1)] == LaterCall(paths, k + 1);
  }

  lemma CallsAre(paths: seq<CString>, keys: seq<Path>, ops: seq<Op>, r: nat)
    requires Clogging(paths) && keys == KeysOf(paths) && ops == Calls(paths) && r <= PAIRS
    ensures CallsAt(paths, keys, ops, r)
  {
    CallsHere(paths, ops, r, 2 * r);
    ListedPath(paths, keys, FILLED + r);
    if r < PAIRS {
      ListedPath(paths, keys, PAIRS + r);
    }
  }

  lemma CallsPlanned(paths: seq<CString>, keys: seq<Path>, ops: seq<Op>)
    requires Clogging(paths) && keys == KeysOf(paths) && ops == Calls(paths)
    ensures Planned(paths, keys, ops)
  {
    forall r: nat | r <= PAIRS ensures CallsAt(paths, keys, ops, r) {
      CallsAre(paths, keys, ops, r);
    }
  }

  /** One more refusal, after `r` rounds. */
  lemma RefusedCall(s: Table, ops: seq<Op>, k: nat, at0: Index, s0: Table, path: CString, keys: seq<Path>, r: nat,
                    j: nat)
    returns (at: Index, s1: Table)
    requires TableTyped(s) && k < |ops| && ops[k] == InsertOp(path, 0, 0) && s0 == Run(s, ops[..k]).0
    requires Paired(keys) && FILLED <= j < LISTED && PathFor(path, keys[j]) && Jammed(s0, at0, keys, r, j, 9)
    ensures s1 == Run(s, ops[..k + 1]).0 && Jammed(s1, at, keys, r, j + 1, 0)
    ensures Refuses(s, ops, k, FILLED - r)
  {
    InsertCall(s, ops, k, s0, path);
    at := RefuseNext(s0, at0, path, keys, r, j, j + 1);
    s1 := Insert(s0, path, 0, 0).0;
  }

  lemma RemovedCall(s: Table, ops: seq<Op>, k: nat, at0: Index, s0: Table, path: CString, keys: seq<Path>, r: nat,
                    j: nat)
    returns (at: Index, s1: Table)
    requires TableTyped(s) && k < |ops| && ops[k] == RemoveOp(path) && s0 == Run(s, ops[..k]).0
    requires Paired(keys) && r < PAIRS && PathFor(path, keys[PAIRS + r]) && Jammed(s0, at0, keys, r, j, 0)
    ensures s1 == Run(s, ops[..k + 1]).0 && Jammed(s1, at, keys, r + 1, j, 9)
    ensures Run(s, ops).1[k].status == RemoveOk
  {
    RemoveCall(s, ops, k, s0, path);
    at := RemoveMate(s0, at0, path, keys, r, j, r + 1);
    s1 := Remove(s0, path).0;
  }

  /** Of the first `r` rounds each begins with a refusal and goes on with a removal that succeeds. */
  ghost predicate Rounds(s: Table, ops: seq<Op>, r: nat)
    requires TableTyped(s) && FILLED + 2 * r <= |ops|
  {
    forall i: nat | i < r :: Round(s, ops, i)
  }

  ghost predicate Round(s: Table, ops: seq<Op>, i: nat)
    requires TableTyped(s) && FILLED + 2 * i + 1 < |ops|
  {
    i <= FILLED && Refuses(s, ops, FILLED + 2 * i, FILLED - i) && Run(s, ops).1[FILLED + 2 * i + 1].status == RemoveOk
  }

  /** The tables between the calls of a run. */
  function Tables(s: Table, ops: seq<Op>): (tables: seq<Table>)
    requires TableTyped(s)
    ensures |tables| == |ops| + 1 && forall k: nat | k <= |ops| :: tables[k] == Run(s, ops[..k]).0
  {
    seq(|ops| + 1, k requires 0 <= k <= |ops| => Run(s, ops[..k]).0)
  }

  ghost predicate TableAt(s: Table, ops: seq<Op>, tables: seq<Table>, k: nat)
    requires TableTyped(s) && k <= |ops|
  {
    |tables| == |ops| + 1 && tables[k] == Run(s, ops[..k]).0
  }

  ghost predicate TablesAt(s: Table, ops: seq<Op>, tables: seq<Table>) {
    TableTyped(s) && |tables| == |ops| + 1 && forall k: nat | k <= |ops| :: TableAt(s, ops, tables, k)
  }

  /** The run after `r` rounds, in which `j` keys have been tried in `k` calls. */
  ghost predicate JamsIn(s: Table, keys: seq<Path>, ops: seq<Op>, tables: seq<Table>, r: nat, j: nat, k: nat,
                         at: Index) {
    && TableTyped(s) && k < |ops| && k < |tables|
    && Jammed(tables[k], at, keys, r, j, 9) && FILLED + 2 * r <= |ops| && Rounds(s, ops, r)
  }

  lemma JamRound(s: Table, paths: seq<CString>, keys: seq<Path>, ops: seq<Op>, tables: seq<Table>, r: nat, j: nat,
                 k: nat, n: nat, at0: Index)
    returns (at: Index)
    requires Planned(paths, keys, ops) && TablesAt(s, ops, tables)
    requires r < PAIRS && n == r + 1 && j == FILLED + r && k == FILLED + 2 * r
    requires JamsIn(s, keys, ops, tables, r, j, k, at0)
    ensures JamsIn(s, keys, ops, tables, n, j + 1, k + 2, at)
  {
    assert CallsAt(paths, keys, ops, r);
    assert TableAt(s, ops, tables, k) && TableAt(s, ops, tables, k + 2);
    var s1;
    at, s1 := TwoCalls(s, ops, k, at0, tables[k], paths[j], paths[PAIRS + r], keys, r, j);
    AnotherRound(s, ops, r, n);
  }

  /** All rounds from `r` on. */
  lemma {:induction false} JamRun(s: Table, paths: seq<CString>, keys: seq<Path>, ops: seq<Op>, tables: seq<Table>,
                                  r: nat, j: nat, k: nat, at0: Index)
    returns (at: Index)
    requires Planned(paths, keys, ops) && TablesAt(s, ops, tables)
    requires r <= PAIRS && j == FILLED + r && k == FILLED + 2 * r
    requires JamsIn(s, keys, ops, tables, r, j, k, at0)
    ensures JamsIn(s, keys, ops, tables, PAIRS, FILLED + PAIRS, FILLED + 2 * PAIRS, at)
    decreases PAIRS - r
  {
    if r == PAIRS {
      at := at0;
    } else {
      var at1 := JamRound(s, paths, keys, ops, tables, r, j, k, r + 1, at0);
      at := JamRun(s, paths, keys, ops, tables, r + 1, j + 1, k + 2, at1);
    }
  }

  lemma AnotherRound(s: Table, ops: seq<Op>, r: nat, n: nat)
    requires TableTyped(s) && n == r + 1 && FILLED + 2 * n <= |ops| && Rounds(s, ops, r) && Round(s, ops, r)
    ensures Rounds(s, ops, n)
  {
  }

  lemma TwoCalls(s: Table, ops: seq<Op>, k: nat, at0: Index, s0: Table, path: CString, gone: CString, keys: seq<Path>,
                 r: nat, j: nat)
    returns (at: Index, s1: Table)
    requires TableTyped(s) && k + 1 < |ops| && s0 == Run(s, ops[..k]).0
    requires ops[k] == InsertOp(path, 0, 0) && ops[k + 1] == RemoveOp(gone)
    requires r < PAIRS && Paired(keys) && FILLED <= j < LISTED && Jammed(s0, at0, keys, r, j, 9)
    requires PathFor(path, keys[j]) && PathFor(gone, keys[PAIRS + r])
    ensures s1 == Run(s, ops[..k + 2]).0 && Jammed(s1, at, keys, r + 1, j + 1, 9)
    ensures Refuses(s, ops, k, FILLED - r) && Run(s, ops).1[k + 1].status == RemoveOk
  {
    var at1, s2 := RefusedCall(s, ops, k, at0, s0, path, keys, r, j);
    at, s1 := RemovedCall(s, ops, k + 1, at1, s2, gone, keys, r, j + 1);
  }

  lemma WholeRun(s: Table, paths: seq<CString>, keys: seq<Path>, ops: seq<Op>, tables: seq<Table>)
    returns (at: Index)
    requires Clogging(paths) && keys == KeysOf(paths) && ops == Calls(paths) && Filling(s, map[], keys, 0)
    requires tables == Tables(s, ops)
    ensures AllSucceed(s, ops, FILLED)
    ensures JamsIn(s, keys, ops, tables, PAIRS, FILLED + PAIRS, FILLED + 2 * PAIRS, at)
  {
    var at0, s0 := FillRun(s, paths, keys, ops, FILLED);
    FilledIsJammed(s0, at0, keys, FILLED);
    CallsPlanned(paths, keys, ops);
    at := JamRun(s, paths, keys, ops, tables, 0, FILLED, FILLED, at0);
  }

  lemma NothingYet(volumeId: nat, keys: seq<Path>)
    ensures Filling(InitTable(volumeId), map[], keys, 0)
  {
    InitInv(volumeId);
  }

  /** A run from the initial table in which the pool is exhausted 27 times: after 52 insertions that
      succeed, at 52 live entries, then after each removal at one entry less, and at last at 26. */
  lemma ExhaustedAgain(volumeId: nat, paths: seq<CString>)
    requires Clogging(paths)
    ensures var (s, ops) := (InitTable(volumeId), Calls(paths));
            AllSucceed(s, ops, FILLED) && Rounds(s, ops, PAIRS) && Refuses(s, ops, FILLED + 2 * PAIRS, PAIRS)
  {
    var keys, ops := KeysOf(paths), Calls(paths);
    NothingYet(volumeId, keys);
    var tables := Tables(InitTable(volumeId), ops);
    var at := WholeRun(InitTable(volumeId), paths, keys, ops, tables);
    CallsAre(paths, keys, ops, PAIRS);
    OneCall(InitTable(volumeId), ops, FILLED + 2 * PAIRS, at, tables[FILLED + 2 * PAIRS], paths[FILLED + PAIRS], keys,
            PAIRS, FILLED + PAIRS);
  }

  lemma OneCall(s: Table, ops: seq<Op>, k: nat, at: Index, s1: Table, path: CString, keys: seq<Path>, r: nat, j: nat)
    requires TableTyped(s) && k < |ops| && ops[k] == InsertOp(path, 0, 0) && s1 == Run(s, ops[..k]).0
    requires Paired(keys) && FILLED <= j < LISTED && PathFor(path, keys[j]) && Jammed(s1, at, keys, r, j, 9)
    ensures r <= FILLED && Refuses(s, ops, k, FILLED - r)
  {
    var at2, s2 := RefusedCall(s, ops, k, at, s1, path, keys, r, j);
  }

  // ----- Such paths -----

  function Mate(r: nat): nat {
    if r < 16 then 64 + (r + 12) % 16 else 80 + (r - 4) % 16
  }

  /** Groups 1 and 2 and the two groups that share their heads; then groups 0 and 3. */
  function Pick(k: nat): (j: nat)
    requires k < LISTED
    ensures j < 96
  {
    if k < PAIRS then 16 + k else if k < FILLED then Mate(k - PAIRS) else if k < FILLED + 16 then k - FILLED else k - 20
  }

  function ClogPaths(): (paths: seq<CString>)
    ensures |paths| == LISTED && forall k | 0 <= k < LISTED :: paths[k] == Crowd(Pick(k))
  {
    seq(LISTED, k requires 0 <= k < LISTED => Crowd(Pick(k)))
  }

  lemma MateHead(r: nat)
    requires r < PAIRS
    ensures Head(Mate(r)) == Head(16 + r) && ThirdNibble(Mate(r) / 16) != ThirdNibble((16 + r) / 16)
  {
    if r < 16 {
      assert Mate(r) / 16 == 4 && Mate(r) % 16 == (r + 12) % 16;
    } else {
      assert Mate(r) / 16 == 5 && Mate(r) % 16 == (r - 4) % 16;
    }
  }

  lemma PickedHead(k: nat)
    requires k < LISTED
    ensures Head(Pick(k)) == Head(Pick(Partner(k))) && Pick(Partner(k)) < 64
  {
    if PAIRS <= k < FILLED {
      MateHead(k - PAIRS);
    }
  }

  lemma PickedApart(i: nat, j: nat)
    requires i < LISTED && j < LISTED && Head(Pick(i)) == Head(Pick(j))
    ensures Partner(i) == Partner(j)
  {
    PickedHead(i);
    PickedHead(j);
    HeadsDiffer(Pick(Partner(i)), Pick(Partner(j)));
  }

  /** Keys whose first three nibbles are those of the picked paths. */
  ghost predicate Picked(keys: seq<Path>) {
    |keys| == LISTED && forall k: nat | k < LISTED :: PickedKey(keys[k], k)
  }

  ghost predicate PickedKey(key: Path, k: nat)
    requires k < LISTED
  {
    |key| == NIBBLE_COUNT && key[..2] == Head(Pick(k)) && key[2] == ThirdNibble(Pick(k) / 16)
  }

  lemma PickedMates(keys: seq<Path>, k: nat)
    requires Picked(keys) && PAIRS <= k < FILLED
    ensures Mates(keys[k], keys[Partner(k)])
  {
    MateHead(k - PAIRS);
    assert PickedKey(keys[k], k) && PickedKey(keys[k - PAIRS], k - PAIRS);
  }

  lemma PickedFirst(keys: seq<Path>, k: nat)
    requires Picked(keys) && k < CHILDREN_PER_NODE
    ensures keys[k][0] == (6 + k) % 16
  {
    assert PickedKey(keys[k], k);
    assert keys[k][..2][0] == Head(Pick(k))[0];
  }

  lemma SteppingFirsts(keys: seq<Path>)
    requires |keys| == LISTED && forall k | 0 <= k < LISTED :: |keys[k]| == NIBBLE_COUNT
    requires forall k: nat | k < CHILDREN_PER_NODE :: keys[k][0] == (6 + k) % 16
    ensures AllFirsts(keys, CHILDREN_PER_NODE) && FirstsDiffer(keys)
  {
    forall n: Nibble ensures Below([n], keys, CHILDREN_PER_NODE) {
      assert [n] <= keys[(n + 10) % 16];
    }
    forall i, j | 0 <= i < CHILDREN_PER_NODE && 0 <= j < CHILDREN_PER_NODE && keys[i][0] == keys[j][0]
      ensures i == j
    {
      SameStep(6, i, j);
    }
  }

  lemma PickedHeads(keys: seq<Path>)
    requires Picked(keys) && forall k: nat | k < LISTED :: |keys[k]| == NIBBLE_COUNT
    ensures HeadsDifferButPartners(keys)
  {
    forall i: nat, j: nat | i < LISTED && j < LISTED && keys[i][..2] == keys[j][..2]
      ensures Partner(i) == Partner(j)
    {
      assert PickedKey(keys[i], i) && PickedKey(keys[j], j);
      PickedApart(i, j);
    }
  }

  lemma PickedPaired(keys: seq<Path>)
    requires Picked(keys)
    ensures Paired(keys)
  {
    forall k: nat | k < LISTED ensures |keys[k]| == NIBBLE_COUNT {
      assert PickedKey(keys[k], k);
    }
    forall k: nat | k < CHILDREN_PER_NODE ensures keys[k][0] == (6 + k) % 16 {
      PickedFirst(keys, k);
    }
    SteppingFirsts(keys);
    PickedHeads(keys);
    forall k: nat | PAIRS <= k < FILLED ensures Mates(keys[k], keys[Partner(k)]) {
      PickedMates(keys, k);
    }
  }

  lemma ClogKey(paths: seq<CString>, k: nat)
    requires paths == ClogPaths() && k < LISTED
    ensures PickedKey(KeysOf(paths)[k], k) && GoodLength(paths[k]) && IsSutf8(paths[k])
  {
    CrowdHead(Pick(k));
    CrowdIsGood(Pick(k));
  }

  lemma ClogPathsClog(paths: seq<CString>)
    requires paths == ClogPaths()
    ensures Clogging(paths)
  {
    var keys := KeysOf(paths);
    forall k: nat | k < LISTED ensures PickedKey(keys[k], k) && GoodLength(paths[k]) && IsSutf8(paths[k]) {
      ClogKey(paths, k);
    }
    PickedPaired(keys);
  }

  /** Such a run: its last insertion exhausts the pool with 26 live entries. */
  lemma RefusedAtTwentySix(volumeId: nat)
    ensures var (s, ops) := (InitTable(volumeId), Calls(ClogPaths()));
            AllSucceed(s, ops, FILLED) && Rounds(s, ops, PAIRS) && Refuses(s, ops, FILLED + 2 * PAIRS, PAIRS)
  {
    ClogPathsClog(ClogPaths());
    ExhaustedAgain(volumeId, ClogPaths());
  }
}
