/**
  Undoing a creating walk.  Allocation goes top-down and pruning bottom-up, both through the
  same LIFO stack, so pruning the path that a walk has just created gives the pool back as it
  was, the order of the free stack included, unless the walk started from a dead end.
 */
module PathTrieUndo {
  import opened PathTrie

  /** Equal but for child slots whose bit is clear. */
  ghost predicate SameNode(a: Node, b: Node)
    requires |a.children| == |b.children| == CHILDREN_PER_NODE
  {
    && a.bitmap == b.bitmap
    && a.entry == b.entry
    && forall n | n in a.bitmap :: a.children[n] == b.children[n]
  }

  /** The same root, the same counts, the same free stack, and the same live content of every node. */
  ghost predicate SameTree(t: Trie, t2: Trie)
    requires Typed(t) && Typed(t2)
  {
    && t2.root == t.root && t2.nodeCount == t.nodeCount && t2.entryCount == t.entryCount
    && t2.freeTop == t.freeTop && t2.freeStack == t.freeStack
    && forall i | 0 <= i < MAX_NODES :: SameNode(t.nodes[i], t2.nodes[i])
  }

  /** Detaching and freeing the node `idx` that was just allocated and linked, which gave `t1`. */
  lemma UndoStep(t: Trie, at: Index, p: Path, n: Nibble, t1: Trie, idx: nat, t2: Trie)
    requires Shape(t, at) && p in at && n !in t.nodes[at[p]].bitmap && t.freeTop > 0
    requires idx == Alloc(t).1 < MAX_NODES && t1 == Link(Alloc(t).0, at[p], n, idx)
    requires Typed(t2) && SameTree(t1, t2)
    ensures SameTree(t, PruneAt(t2, idx, at[p], n))
  {
    NamedNotFree(t, at, p, t.freeTop - 1);
    UndoNodes(t, at[p], n, t1, idx, t2);
    assert PruneAt(t2, idx, at[p], n).freeStack == t.freeStack;
  }

  lemma UndoNodes(t: Trie, cur: nat, n: Nibble, t1: Trie, idx: nat, t2: Trie)
    requires Typed(t) && Typed(t1) && Typed(t2) && SameTree(t1, t2)
    requires cur < MAX_NODES && idx < MAX_NODES && cur != idx && t.nodes[idx] == Blank()
    requires n !in t.nodes[cur].bitmap && t1.nodeCount > 0
    requires t1.nodes == t.nodes[idx := Blank()][cur := WithChild(t.nodes[cur], n, idx)]
    ensures Dead(t2.nodes[idx])
    ensures forall i | 0 <= i < MAX_NODES :: SameNode(t.nodes[i], PruneAt(t2, idx, cur, n).nodes[i])
  {
    assert SameNode(t1.nodes[idx], t2.nodes[idx]);
    var t3 := PruneAt(t2, idx, cur, n);
    assert t3.nodes == t2.nodes[cur := WithoutChild(t2.nodes[cur], n)][idx := Blank()];
    forall i | 0 <= i < MAX_NODES ensures SameNode(t.nodes[i], t3.nodes[i]) {
      assert SameNode(t1.nodes[i], t2.nodes[i]);
    }
  }

  /** The trail of the whole path after the walk has created it. */
  ghost predicate FullTrail(at: Index, trail: seq<nat>, path: Path) {
    && |trail| == |path| + 1
    && (forall i | 0 <= i < |trail| :: trail[i] < MAX_NODES)
    && (forall i | 0 <= i <= |path| :: path[..i] in at && trail[i] == at[path[..i]])
  }

  /** The walk does not rename the node it starts from, nor the one it takes first. */
  lemma NamedAfterNew(t: Trie, at: Index, p: Path, path: Path, at2: Index)
    requires Shape(t, at) && p in at && path != [] && |p| + |path| <= NIBBLE_COUNT
    requires path[0] !in t.nodes[at[p]].bitmap && t.freeTop > 0
    requires Shape(Grow(t, at[p], path).0, at2)
    ensures p in at2 && at2[p] == at[p]
    ensures p + [path[0]] in at2 && at2[p + [path[0]]] == Alloc(t).1
  {
    var t1, idx, at1 := NewBelow(t, at, p, path[0]);
    var at3 := GrowShape(t1, at1, p + [path[0]], path[1..]);
    ShapeUnique(Grow(t, at[p], path).0, at2, at3);
    assert p in at1;
  }

  /** Where the trail passes the node `p` and the new node below it. */
  lemma TrailThroughNew(t: Trie, at: Index, p: Path, path: Path, K: Path, trail: seq<nat>, at2: Index)
    requires Shape(t, at) && p in at && path != [] && |K| <= NIBBLE_COUNT && K == p + path
    requires path[0] !in t.nodes[at[p]].bitmap && t.freeTop > 0
    requires Shape(Grow(t, at[p], path).0, at2) && FullTrail(at2, trail, K)
    ensures trail[|p|] == at[p] && trail[|p| + 1] == Alloc(t).1
  {
    NamedAfterNew(t, at, p, path, at2);
    SplitFirst(p, path);
  }

  /** Pruning the new part of the path, from the leaf up to the node it hangs from. */
  lemma {:induction false} UndoNew(t: Trie, at: Index, p: Path, path: Path, K: Path, trail: seq<nat>, at2: Index)
    returns (t2: Trie)
    requires Shape(t, at) && p in at && |K| <= NIBBLE_COUNT && K == p + path
    requires path != [] ==> path[0] !in t.nodes[at[p]].bitmap
    requires Grow(t, at[p], path).1 != NULL_NODE
    requires Shape(Grow(t, at[p], path).0, at2) && FullTrail(at2, trail, K)
    ensures Typed(t2) && SameTree(t, t2)
    ensures PruneUp(Grow(t, at[p], path).0, trail, K, |K|) == PruneUp(t2, trail, K, |p|)
    decreases |path|
  {
    if path == [] {
      t2 := t;
    } else {
      var t1, idx, at1 := NewBelow(t, at, p, path[0]);
      TrailThroughNew(t, at, p, path, K, trail, at2);
      var t3 := UndoNewBelow(t, at, p, path, K, trail, at2, t1, idx, at1);
      UndoStep(t, at, p, path[0], t1, idx, t3);
      t2 := PruneAt(t3, idx, at[p], path[0]);
      assert K[|p|] == path[0];
    }
  }

  lemma GrowGoesOn(t: Trie, cur: nat, path: Path, t1: Trie, idx: nat)
    requires Typed(t) && cur < MAX_NODES && path != [] && path[0] !in t.nodes[cur].bitmap
    requires idx == Alloc(t).1 < MAX_NODES && t1 == Link(Alloc(t).0, cur, path[0], idx)
    ensures Grow(t, cur, path) == Grow(t1, idx, path[1..])
  {
  }

  lemma {:induction false} UndoNewBelow(t: Trie, at: Index, p: Path, path: Path, K: Path, trail: seq<nat>,
                                        at2: Index, t1: Trie, idx: nat, at1: Index) returns (t2: Trie)
    requires Shape(t, at) && p in at && path != [] && |K| <= NIBBLE_COUNT && K == p + path
    requires path[0] !in t.nodes[at[p]].bitmap && t.freeTop > 0
    requires idx == Alloc(t).1 < MAX_NODES && t1 == Link(Alloc(t).0, at[p], path[0], idx)
    requires at1 == at[p + [path[0]] := idx] && Shape(t1, at1) && t1.nodes[idx] == Blank()
    requires Grow(t, at[p], path).1 != NULL_NODE
    requires Shape(Grow(t, at[p], path).0, at2) && FullTrail(at2, trail, K)
    ensures Typed(t2) && SameTree(t1, t2)
    ensures PruneUp(Grow(t, at[p], path).0, trail, K, |K|) == PruneUp(t2, trail, K, |p| + 1)
    decreases |path|, 0
  {
    var q := p + [path[0]];
    SplitFirst(p, path);
    GrowGoesOn(t, at[p], path, t1, idx);
    t2 := UndoNew(t1, at1, q, path[1..], K, trail, at2);
  }

  /** Pruning from a level whose node is not a dead end changes nothing. */
  lemma {:induction false} PruneUpIdle(t: Trie, trail: seq<nat>, path: Path, level: nat)
    requires Typed(t) && level <= |path| && level < |trail|
    requires forall i | 0 <= i < |trail| :: trail[i] < MAX_NODES
    requires forall i | 1 <= i <= level :: !Dead(t.nodes[trail[i]])
    ensures PruneUp(t, trail, path, level) == t
    decreases level
  {
    if level > 0 {
      PruneUpIdle(t, trail, path, level - 1);
    }
  }

  lemma {:induction false} PruneUpNeverAllocates(t: Trie, trail: seq<nat>, path: Path, level: nat)
    requires Typed(t) && level <= |path| && level < |trail|
    requires forall i | 0 <= i < |trail| :: trail[i] < MAX_NODES
    ensures PruneUp(t, trail, path, level).nodeCount <= t.nodeCount
    decreases level
  {
    if level > 0 {
      PruneUpNeverAllocates(PruneAt(t, trail[level], trail[level - 1], path[level - 1]), trail, path, level - 1);
    }
  }

  /** The node at which the read-only walk along `path` stops. */
  function StopsAt(t: Trie, path: Path): nat
    requires Typed(t) && t.root != NULL_NODE
  {
    var trail := Trail(t, t.root, path);
    trail[|trail| - 1]
  }

  lemma NotDeadAbove(t: Trie, at: Index, path: Path, m: nat)
    requires Shape(t, at) && m <= |path| && forall i | 0 <= i <= m :: path[..i] in at
    ensures forall i | 0 <= i < m :: !Dead(t.nodes[at[path[..i]]])
  {
    forall i | 0 <= i < m ensures !Dead(t.nodes[at[path[..i]]]) {
      assert HasParent(t, at, path[..i + 1]);
      assert Front(path[..i + 1]) == path[..i];
    }
  }

  /** Pruning the old part of the path after the new part is gone. */
  lemma UndoOld(t: Trie, at: Index, path: Path, m: nat, t2: Trie, trail: seq<nat>)
    requires Shape(t, at) && [] in at && m <= |path| && path[..m] in at
    requires Typed(t2) && SameTree(t, t2)
    requires |trail| == |path| + 1 && (forall i | 0 <= i < |trail| :: trail[i] < MAX_NODES)
    requires forall i | 0 <= i <= m :: path[..i] in at && trail[i] == at[path[..i]]
    ensures var t3 := PruneRoot(PruneUp(t2, trail, path, m));
            if Dead(t.nodes[at[path[..m]]]) then t3.nodeCount < t.nodeCount else SameTree(t, t3)
  {
    NotDeadAbove(t, at, path, m);
    assert forall i | 0 <= i <= m :: SameNode(t.nodes[trail[i]], t2.nodes[trail[i]]);
    assert path[..0] == [];
    HasNodes(t, at, []);
    if !Dead(t.nodes[trail[m]]) {
      PruneUpIdle(t2, trail, path, m);
    } else {
      DeadStop(t2, trail, path, m);
    }
  }

  /** Where the walk stopped at a dead end, pruning goes on past the stop. */
  lemma DeadStop(t2: Trie, trail: seq<nat>, path: Path, m: nat)
    requires Typed(t2) && m <= |path| && m < |trail| && (forall i | 0 <= i < |trail| :: trail[i] < MAX_NODES)
    requires t2.nodeCount > 0 && Dead(t2.nodes[trail[m]]) && trail[0] == t2.root
    ensures PruneRoot(PruneUp(t2, trail, path, m)).nodeCount < t2.nodeCount
  {
    if m > 0 {
      var t4 := PruneAt(t2, trail[m], trail[m - 1], path[m - 1]);
      DeadLevel(t2, trail, path, m, t4, PruneUp(t4, trail, path, m - 1));
      PruneUpGoesOn(t2, trail, path, m, t4);
    }
    PruneRootFrees(PruneUp(t2, trail, path, m));
  }

  lemma DeadLevel(t2: Trie, trail: seq<nat>, path: Path, m: nat, t4: Trie, t5: Trie)
    requires Typed(t2) && 0 < m <= |path| && m < |trail| && (forall i | 0 <= i < |trail| :: trail[i] < MAX_NODES)
    requires t2.nodeCount > 0 && Dead(t2.nodes[trail[m]])
    requires t4 == PruneAt(t2, trail[m], trail[m - 1], path[m - 1]) && t5 == PruneUp(t4, trail, path, m - 1)
    ensures t5.nodeCount < t2.nodeCount
  {
    PruneAtFrees(t2, trail[m], trail[m - 1], path[m - 1], t4);
    PruneUpNeverAllocates(t4, trail, path, m - 1);
  }

  lemma PruneUpGoesOn(t: Trie, trail: seq<nat>, path: Path, m: nat, t4: Trie)
    requires Typed(t) && 0 < m <= |path| && m < |trail| && (forall i | 0 <= i < |trail| :: trail[i] < MAX_NODES)
    requires t4 == PruneAt(t, trail[m], trail[m - 1], path[m - 1])
    ensures PruneUp(t, trail, path, m) == PruneUp(t4, trail, path, m - 1)
  {
  }

  lemma PruneAtFrees(t: Trie, node: nat, parent: nat, n: Nibble, t2: Trie)
    requires Typed(t) && node < MAX_NODES && parent < MAX_NODES && t2 == PruneAt(t, node, parent, n)
    requires t.nodeCount > 0 && Dead(t.nodes[node])
    ensures t2.nodeCount < t.nodeCount
  {
  }

  lemma PruneRootFrees(t: Trie)
    requires Typed(t) && t.root < MAX_NODES
    ensures PruneRoot(t).nodeCount <= t.nodeCount
    ensures Dead(t.nodes[t.root]) && t.nodeCount > 0 ==> PruneRoot(t).nodeCount < t.nodeCount
  {
  }

  lemma HasNodes(t: Trie, at: Index, p: Path)
    requires Shape(t, at) && p in at
    ensures t.nodeCount > 0
  {
    assert p in at.Keys;
  }

  lemma {:induction false} GrowSplit(t: Trie, at: Index, p: Path, path: Path, m: nat)
    requires Shape(t, at) && p in at && m <= |path| && p + path[..m] in at
    requires |p| + |path| <= NIBBLE_COUNT
    ensures Grow(t, at[p], path) == Grow(t, at[p + path[..m]], path[m..])
    decreases m
  {
    if m == 0 {
      assert p + path[..0] == p && path[0..] == path;
    } else {
      PrefixClosed(t, at, p + path[..m], |p| + 1);
      assert (p + path[..m])[..|p| + 1] == p + [path[0]];
      StepDown(t, at, p, path[0]);
      assert p + [path[0]] + path[1..][..m - 1] == p + path[..m];
      GrowSplit(t, at, p + [path[0]], path[1..], m - 1);
      assert path[1..][m - 1..] == path[m..];
    }
  }

  /** Creating the path of an absent key and pruning it again restores the pool exactly when the
      trie was empty or the walk along the path did not stop at a dead end. */
  lemma CreateThenPrune(t: Trie, at: Index, path: Path)
    requires Shape(t, at) && path !in at && 0 < |path| <= NIBBLE_COUNT
    requires WalkCreate(t, path).1 != NULL_NODE
    ensures SameTree(t, Prune(WalkCreate(t, path).0, path))
            <==> (t.root == NULL_NODE || !Dead(t.nodes[StopsAt(t, path)]))
  {
    var at2 := WalkCreateShape(t, at, path);
    var t1 := WalkCreate(t, path).0;
    var trail := TrailOf(t1, at2, path);
    if t.root == NULL_NODE {
      UndoFromEmpty(t, at, path, at2, trail);
    } else {
      UndoFromTree(t, at, path, at2, trail);
    }
  }

  lemma TrailOf(t: Trie, at: Index, path: Path) returns (trail: seq<nat>)
    requires Shape(t, at) && path in at
    ensures [] in at && trail == Trail(t, t.root, path) && FullTrail(at, trail, path)
  {
    PrefixClosed(t, at, path, 0);
    trail := Trail(t, t.root, path);
    TrailNamed(t, at, [], path);
    forall i | 0 <= i <= |path| ensures [] + path[..i] == path[..i] && path[..i] in at {
      PrefixClosed(t, at, path, i);
    }
  }

  lemma UndoRoot(t: Trie, t2: Trie)
    requires Shape(t, map[]) && t.freeTop > 0
    requires Typed(t2) && SameTree(Alloc(t).0.(root := Alloc(t).1), t2)
    ensures t2.root < MAX_NODES && SameTree(t, PruneRoot(t2))
  {
    var (t0, idx) := Alloc(t);
    var t1 := t0.(root := idx);
    assert t1.nodes[idx] == Blank() == t.nodes[idx];
    assert SameNode(t1.nodes[idx], t2.nodes[idx]);
    var t3 := PruneRoot(t2);
    assert t3.freeStack == t.freeStack;
    forall i | 0 <= i < MAX_NODES ensures SameNode(t.nodes[i], t3.nodes[i]) {
      assert SameNode(t1.nodes[i], t2.nodes[i]);
    }
  }

  lemma PruneAlong(t: Trie, at: Index, path: Path, trail: seq<nat>)
    requires Shape(t, at) && [] in at && FullTrail(at, trail, path)
    requires trail == Trail(t, t.root, path)
    ensures Prune(t, path) == PruneRoot(PruneUp(t, trail, path, |path|))
  {
  }

  lemma NewRoot(t: Trie) returns (t1: Trie, idx: nat)
    requires Shape(t, map[]) && t.freeTop > 0
    ensures idx == Alloc(t).1 < MAX_NODES && t1 == Alloc(t).0.(root := idx)
    ensures Shape(t1, map[[] := idx]) && t1.nodes[idx] == Blank()
  {
    RootStep(t);
    idx := Alloc(t).1;
    t1 := Alloc(t).0.(root := idx);
  }

  lemma UndoFromEmpty(t: Trie, at: Index, path: Path, at2: Index, trail: seq<nat>)
    requires Shape(t, at) && t.root == NULL_NODE && 0 < |path| <= NIBBLE_COUNT
    requires WalkCreate(t, path).1 != NULL_NODE
    requires Shape(WalkCreate(t, path).0, at2) && FullTrail(at2, trail, path)
    requires [] in at2 && trail == Trail(WalkCreate(t, path).0, WalkCreate(t, path).0.root, path)
    ensures SameTree(t, Prune(WalkCreate(t, path).0, path))
  {
    NoRootNoNodes(t, at);
    var t1, idx := NewRoot(t);
    var t2 := UndoGrown(t1, map[[] := idx], path, at2, trail, WalkCreate(t, path).0);
    UndoRoot(t, t2);
    PruneAlong(WalkCreate(t, path).0, at2, path, trail);
  }

  lemma UndoFrom(t1: Trie, at1: Index, p: Path, path: Path, at2: Index, trail: seq<nat>, w: Trie) returns (t2: Trie)
    requires Shape(t1, at1) && |p| == 0 && p + path == path && 0 < |path| <= NIBBLE_COUNT
    requires p in at1 && path[0] !in t1.nodes[at1[p]].bitmap
    requires Grow(t1, at1[p], path).1 != NULL_NODE && w == Grow(t1, at1[p], path).0
    requires Shape(w, at2) && FullTrail(at2, trail, path)
    ensures Typed(t2) && SameTree(t1, t2)
    ensures PruneUp(w, trail, path, |path|) == PruneUp(t2, trail, path, 0)
  {
    t2 := UndoNew(t1, at1, p, path, path, trail, at2);
  }

  lemma UndoGrown(t1: Trie, at1: Index, path: Path, at2: Index, trail: seq<nat>, w: Trie) returns (t2: Trie)
    requires Shape(t1, at1) && [] in at1 && Dead(t1.nodes[at1[[]]])
    requires 0 < |path| <= NIBBLE_COUNT && Grow(t1, at1[[]], path).1 != NULL_NODE && w == Grow(t1, at1[[]], path).0
    requires Shape(w, at2) && FullTrail(at2, trail, path)
    ensures Typed(t2) && SameTree(t1, t2)
    ensures PruneUp(w, trail, path, |path|) == PruneUp(t2, trail, path, 0)
  {
    NoPrefix(path);
    t2 := UndoFrom(t1, at1, [], path, at2, trail, w);
  }

  lemma NoPrefix(path: Path)
    ensures [] + path == path
  {
  }

  lemma UndoFromTree(t: Trie, at: Index, path: Path, at2: Index, trail: seq<nat>)
    requires Shape(t, at) && t.root != NULL_NODE && path !in at && 0 < |path| <= NIBBLE_COUNT
    requires WalkCreate(t, path).1 != NULL_NODE
    requires Shape(WalkCreate(t, path).0, at2) && FullTrail(at2, trail, path)
    requires [] in at2 && trail == Trail(WalkCreate(t, path).0, WalkCreate(t, path).0.root, path)
    ensures SameTree(t, Prune(WalkCreate(t, path).0, path)) <==> !Dead(t.nodes[StopsAt(t, path)])
  {
    var m := Stop(t, at, path);
    var t2 := UndoToStop(t, at, path, m, at2, trail, WalkCreate(t, path).0);
    PruneAlong(WalkCreate(t, path).0, at2, path, trail);
    OldTrail(t, at, path, at2, trail, m);
    UndoOld(t, at, path, m, t2, trail);
  }

  lemma UndoToStop(t: Trie, at: Index, path: Path, m: nat, at2: Index, trail: seq<nat>, w: Trie) returns (t2: Trie)
    requires Shape(t, at) && t.root != NULL_NODE && m < |path| <= NIBBLE_COUNT && path[..m] in at
    requires path[m] !in t.nodes[at[path[..m]]].bitmap
    requires WalkCreate(t, path).1 != NULL_NODE && w == WalkCreate(t, path).0
    requires Shape(w, at2) && FullTrail(at2, trail, path)
    ensures Typed(t2) && SameTree(t, t2)
    ensures PruneUp(w, trail, path, |path|) == PruneUp(t2, trail, path, m)
  {
    var p, rest := path[..m], path[m..];
    assert p + rest == path;
    WalkFromStop(t, at, path, m);
    t2 := UndoBelow(t, at, p, rest, path, trail, at2, w);
  }

  lemma UndoBelow(t: Trie, at: Index, p: Path, rest: Path, path: Path, trail: seq<nat>, at2: Index, w: Trie)
    returns (t2: Trie)
    requires Shape(t, at) && p in at && |path| <= NIBBLE_COUNT && path == p + rest
    requires rest != [] && rest[0] !in t.nodes[at[p]].bitmap
    requires Grow(t, at[p], rest).1 != NULL_NODE && w == Grow(t, at[p], rest).0
    requires Shape(w, at2) && FullTrail(at2, trail, path)
    ensures Typed(t2) && SameTree(t, t2)
    ensures PruneUp(w, trail, path, |path|) == PruneUp(t2, trail, path, |p|)
  {
    t2 := UndoNew(t, at, p, rest, path, trail, at2);
  }

  lemma WalkFromStop(t: Trie, at: Index, path: Path, m: nat)
    requires Shape(t, at) && t.root != NULL_NODE && m <= |path| <= NIBBLE_COUNT && path[..m] in at
    ensures WalkCreate(t, path) == Grow(t, at[path[..m]], path[m..])
  {
    assert [] + path[..m] == path[..m];
    GrowSplit(t, at, [], path, m);
  }

  /** The walk stops at the longest named prefix of the path. */
  lemma Stop(t: Trie, at: Index, path: Path) returns (m: nat)
    requires Shape(t, at) && t.root != NULL_NODE && path !in at
    ensures m < |path| && path[..m] in at && StopsAt(t, path) == at[path[..m]]
    ensures path[m] !in t.nodes[at[path[..m]]].bitmap
  {
    var trail := Trail(t, t.root, path);
    m := |trail| - 1;
    TrailNamed(t, at, [], path);
    assert path[..|path|] == path;
    forall i | 0 <= i <= |path| ensures [] + path[..i] == path[..i] {}
    StepDown(t, at, path[..m], path[m]);
    assert path[..m] + [path[m]] == path[..m + 1];
  }

  lemma OldTrail(t: Trie, at: Index, path: Path, at2: Index, trail: seq<nat>, m: nat)
    requires Shape(t, at) && m <= |path| <= NIBBLE_COUNT && path[..m] in at
    requires Shape(WalkCreate(t, path).0, at2) && FullTrail(at2, trail, path)
    ensures forall i | 0 <= i <= m :: path[..i] in at && trail[i] == at[path[..i]]
  {
    var at3 := WalkCreateShape(t, at, path);
    ShapeUnique(WalkCreate(t, path).0, at2, at3);
    forall i | 0 <= i <= m ensures path[..i] in at {
      PrefixClosed(t, at, path[..m], i);
      assert path[..m][..i] == path[..i];
    }
  }
}
