/**
  The hexadecimal path trie that indexes a volume: a pool of 512 nodes, a LIFO stack of
  free node indices, and an 11-level walk over the nibbles of a 44-bit key.

  The functions below are the value-level meaning of the operations; class `FileIndex`
  (VolumeIndex.dfy) carries them out in place.  The lemmas are stated with the help of a
  map `at` from key prefixes to node indices: `Shape(t, at)` says that `at` is exactly the
  tree that can be reached from the root, and that the rest of the pool is free.
 */
module PathTrie {

  const MAX_NODES: nat := 512
  const NULL_NODE: nat := 0xFFFF_FFFF
  const NULL_ENTRY: nat := 0xFFFF_FFFF
  const NIBBLE_COUNT: nat := 11
  const CHILDREN_PER_NODE: nat := 16

  type Nibble = n: nat | n < CHILDREN_PER_NODE
  type Path = seq<Nibble>

  /** `bitmap` holds the nibbles whose bit is set in the node's 16-bit child bitmap. */
  datatype Node = Node(bitmap: set<Nibble>, entry: nat, children: seq<nat>)

  function Blank(): Node {
    Node({}, NULL_ENTRY, seq(CHILDREN_PER_NODE, _ => 0))
  }

  datatype Trie = Trie(nodes: seq<Node>, freeStack: seq<nat>, freeTop: nat,
                       root: nat, nodeCount: nat, entryCount: int)

  /** What the operations need to stay inside their arrays. */
  ghost predicate Typed(t: Trie) {
    && |t.nodes| == MAX_NODES
    && |t.freeStack| == MAX_NODES
    && t.freeTop + t.nodeCount == MAX_NODES
    && (t.root == NULL_NODE || t.root < MAX_NODES)
    && (forall i | 0 <= i < t.freeTop :: t.freeStack[i] < MAX_NODES)
    && (forall i | 0 <= i < MAX_NODES :: NodeTyped(t.nodes[i]))
  }

  ghost predicate NodeTyped(nd: Node) {
    && |nd.children| == CHILDREN_PER_NODE
    && forall n | n in nd.bitmap :: nd.children[n] < MAX_NODES
  }

  // ----- Operations -----

  function WithChild(nd: Node, n: Nibble, child: nat): Node
    requires |nd.children| == CHILDREN_PER_NODE
  {
    Node(nd.bitmap + {n}, nd.entry, nd.children[n := child])
  }

  function WithoutChild(nd: Node, n: Nibble): Node
    requires |nd.children| == CHILDREN_PER_NODE
  {
    Node(nd.bitmap - {n}, nd.entry, nd.children[n := NULL_NODE])
  }

  function InitTrie(): (t: Trie) {
    Trie(seq(MAX_NODES, _ => Blank()), seq(MAX_NODES, i => MAX_NODES - 1 - i),
         MAX_NODES, NULL_NODE, 0, 0)
  }

  function Alloc(t: Trie): (r: (Trie, nat))
    requires Typed(t)
    ensures Typed(r.0)
    ensures r.1 == NULL_NODE || r.1 < MAX_NODES
  {
    if t.freeTop == 0 then (t, NULL_NODE)
    else
      var idx := t.freeStack[t.freeTop - 1];
      (Trie(t.nodes[idx := Blank()], t.freeStack, t.freeTop - 1, t.root, t.nodeCount + 1, t.entryCount), idx)
  }

  function Free(t: Trie, idx: nat): (r: Trie)
    requires Typed(t)
    ensures Typed(r)
  {
    if idx < MAX_NODES && t.nodeCount > 0 then
      Trie(t.nodes[idx := Blank()], t.freeStack[t.freeTop := idx], t.freeTop + 1,
           t.root, t.nodeCount - 1, t.entryCount)
    else t
  }

  function Link(t: Trie, cur: nat, n: Nibble, child: nat): (r: Trie)
    requires Typed(t) && cur < MAX_NODES && child < MAX_NODES
    ensures Typed(r)
  {
    t.(nodes := t.nodes[cur := WithChild(t.nodes[cur], n, child)])
  }

  function Unlink(t: Trie, parent: nat, n: Nibble): (r: Trie)
    requires Typed(t) && parent < MAX_NODES
    ensures Typed(r)
  {
    t.(nodes := t.nodes[parent := WithoutChild(t.nodes[parent], n)])
  }

  function SetEntry(t: Trie, idx: nat, e: nat): (r: Trie)
    requires Typed(t) && idx < MAX_NODES
    ensures Typed(r)
  {
    t.(nodes := t.nodes[idx := Node(t.nodes[idx].bitmap, e, t.nodes[idx].children)])
  }

  /** The read-only walk from node `cur` along `path`. */
  function Find(t: Trie, cur: nat, path: Path): (r: nat)
    requires Typed(t) && cur < MAX_NODES
    ensures r == NULL_NODE || r < MAX_NODES
    decreases |path|
  {
    if path == [] then cur
    else if path[0] in t.nodes[cur].bitmap then Find(t, t.nodes[cur].children[path[0]], path[1..])
    else NULL_NODE
  }

  function WalkConst(t: Trie, path: Path): (r: nat)
    requires Typed(t)
    ensures r == NULL_NODE || r < MAX_NODES
  {
    if t.root == NULL_NODE then NULL_NODE else Find(t, t.root, path)
  }

  /** The creating walk from node `cur` along `path`. */
  function Grow(t: Trie, cur: nat, path: Path): (r: (Trie, nat))
    requires Typed(t) && cur < MAX_NODES
    ensures Typed(r.0)
    ensures r.1 == NULL_NODE || r.1 < MAX_NODES
    decreases |path|
  {
    if path == [] then (t, cur)
    else if path[0] in t.nodes[cur].bitmap then Grow(t, t.nodes[cur].children[path[0]], path[1..])
    else
      var (t1, idx) := Alloc(t);
      if idx == NULL_NODE then (t1, NULL_NODE)
      else Grow(Link(t1, cur, path[0], idx), idx, path[1..])
  }

  function WalkCreate(t: Trie, path: Path): (r: (Trie, nat))
    requires Typed(t)
    ensures Typed(r.0)
    ensures r.1 == NULL_NODE || r.1 < MAX_NODES
  {
    if t.root == NULL_NODE then
      var (t1, idx) := Alloc(t);
      var t2 := t1.(root := idx);
      if idx == NULL_NODE then (t2, NULL_NODE) else Grow(t2, idx, path)
    else Grow(t, t.root, path)
  }

  /** The nodes met on the walk from `cur` along `path`, while the walk can go on. */
  function Trail(t: Trie, cur: nat, path: Path): (r: seq<nat>)
    requires Typed(t) && cur < MAX_NODES
    ensures 1 <= |r| <= |path| + 1
    ensures forall i | 0 <= i < |r| :: r[i] < MAX_NODES
    decreases |path|
  {
    if path != [] && path[0] in t.nodes[cur].bitmap then
      [cur] + Trail(t, t.nodes[cur].children[path[0]], path[1..])
    else [cur]
  }

  /** One step of the bottom-up pass: detach and free `node` when it is empty. */
  function PruneAt(t: Trie, node: nat, parent: nat, n: Nibble): (r: Trie)
    requires Typed(t) && node < MAX_NODES && parent < MAX_NODES
    ensures Typed(r)
  {
    if t.nodes[node].bitmap == {} && t.nodes[node].entry == NULL_ENTRY
    then Free(Unlink(t, parent, n), node)
    else t
  }

  function PruneUp(t: Trie, trail: seq<nat>, path: Path, level: nat): (r: Trie)
    requires Typed(t) && level <= |path| && level < |trail|
    requires forall i | 0 <= i < |trail| :: trail[i] < MAX_NODES
    ensures Typed(r)
    ensures r.root == t.root && r.entryCount == t.entryCount
    decreases level
  {
    if level == 0 then t
    else PruneUp(PruneAt(t, trail[level], trail[level - 1], path[level - 1]), trail, path, level - 1)
  }

  function PruneRoot(t: Trie): (r: Trie)
    requires Typed(t) && t.root < MAX_NODES
    ensures Typed(r)
  {
    if t.nodes[t.root].bitmap == {} && t.nodes[t.root].entry == NULL_ENTRY
    then Free(t, t.root).(root := NULL_NODE)
    else t
  }

  function Prune(t: Trie, path: Path): (r: Trie)
    requires Typed(t)
    ensures Typed(r)
  {
    if t.root == NULL_NODE then t
    else
      var trail := Trail(t, t.root, path);
      if |trail| <= |path| then t
      else PruneRoot(PruneUp(t, trail, path, |path|))
  }

  // ----- Shape of the pool -----

  lemma SplitFirst(p: Path, path: Path)
    requires path != []
    ensures p + [path[0]] + path[1..] == p + path
    ensures (p + path)[..|p| + 1] == p + [path[0]] && (p + path)[..|p|] == p
  {
  }

  type Index = map<Path, nat>

  function Front(p: Path): Path
    requires p != []
  {
    p[..|p| - 1]
  }

  function Last(p: Path): Nibble
    requires p != []
  {
    p[|p| - 1]
  }

  ghost predicate Apart(at: Index, p: Path, q: Path)
    requires p in at && q in at
  {
    at[p] == at[q] ==> p == q
  }

  /** `at` is one-to-one into the pool, no deeper than a key, and names the root. */
  ghost predicate Names(t: Trie, at: Index) {
    && (forall p | p in at :: |p| <= NIBBLE_COUNT && at[p] < MAX_NODES)
    && (forall p, q {:trigger Apart(at, p, q)} | p in at && q in at :: Apart(at, p, q))
    && (t.root == NULL_NODE <==> [] !in at)
    && ([] in at ==> at[[]] == t.root)
  }

  /** Every named node but the root hangs from exactly the node of its shorter prefix. */
  ghost predicate HasParent(t: Trie, at: Index, p: Path)
    requires |t.nodes| == MAX_NODES && Names(t, at)
  {
    p != [] ==> Front(p) in at && Last(p) in t.nodes[at[Front(p)]].bitmap
  }

  ghost predicate HasChild(t: Trie, at: Index, p: Path, n: Nibble)
    requires |t.nodes| == MAX_NODES && Names(t, at) && p in at
    requires |t.nodes[at[p]].children| == CHILDREN_PER_NODE
  {
    n in t.nodes[at[p]].bitmap ==> p + [n] in at && t.nodes[at[p]].children[n] == at[p + [n]]
  }

  ghost predicate Linked(t: Trie, at: Index)
    requires Typed(t) && Names(t, at)
  {
    && (forall p {:trigger HasParent(t, at, p)} | p in at :: HasParent(t, at, p))
    && (forall p, n | p in at :: HasChild(t, at, p, n))
    && (forall p | p in at && |p| < NIBBLE_COUNT :: t.nodes[at[p]].entry == NULL_ENTRY)
  }

  ghost predicate NotFree(t: Trie, at: Index, p: Path, i: nat)
    requires p in at && i < |t.freeStack|
  {
    at[p] != t.freeStack[i]
  }

  /** The live part of the free stack: distinct blank nodes, none of them named. */
  ghost predicate FreeList(t: Trie, at: Index)
    requires Typed(t)
  {
    && (forall i, j | 0 <= i < j < t.freeTop :: t.freeStack[i] != t.freeStack[j])
    && (forall i | 0 <= i < t.freeTop :: t.nodes[t.freeStack[i]] == Blank())
    && (forall p, i: nat {:trigger NotFree(t, at, p, i)} | p in at && i < t.freeTop :: NotFree(t, at, p, i))
  }

  ghost predicate Shape(t: Trie, at: Index) {
    && Typed(t)
    && Names(t, at)
    && Linked(t, at)
    && FreeList(t, at)
    && t.nodeCount == |at|
  }

  lemma NamedApart(t: Trie, at: Index, p: Path, q: Path)
    requires Names(t, at) && p in at && q in at && p != q
    ensures at[p] != at[q]
  {
    assert Apart(at, p, q);
  }

  lemma NamedNotFree(t: Trie, at: Index, p: Path, i: nat)
    requires Typed(t) && FreeList(t, at) && p in at && i < t.freeTop
    ensures at[p] != t.freeStack[i]
  {
    assert NotFree(t, at, p, i);
  }

  /** The new pool is free, and its stack hands out the nodes in ascending order. */
  lemma InitShape()
    ensures Shape(InitTrie(), map[]) && InitTrie().freeTop == MAX_NODES
    ensures forall i | 0 <= i < MAX_NODES :: InitTrie().freeStack[i] == MAX_NODES - 1 - i
  {
  }

  /** Whatever the pool holds: the node on top of the stack is handed out blank, and giving it back puts it
      on top again. */
  lemma AllocThenFree(t: Trie)
    requires Typed(t) && t.freeTop > 0
    ensures var (t1, idx) := Alloc(t);
            && idx == t.freeStack[t.freeTop - 1] && t1.nodes == t.nodes[idx := Blank()]
            && t1.freeTop == t.freeTop - 1 && t1.nodeCount == t.nodeCount + 1 && t1.root == t.root
            && Free(t1, idx) == t.(nodes := t.nodes[idx := Blank()])
  {
  }

  /** A node that is given back is blank and is the next one to be handed out; an index outside the pool, or
      a pool without allocated nodes, is left alone. */
  lemma FreeThenAlloc(t: Trie, idx: nat)
    requires Typed(t)
    ensures idx >= MAX_NODES || t.nodeCount == 0 ==> Free(t, idx) == t
    ensures idx < MAX_NODES && t.nodeCount > 0 ==>
              Free(t, idx).nodes == t.nodes[idx := Blank()] && Alloc(Free(t, idx)).1 == idx
              && Alloc(Free(t, idx)).0.freeTop == t.freeTop && Alloc(Free(t, idx)).0.nodeCount == t.nodeCount
  {
  }

  /** One step down, seen from the prefixes. */
  lemma StepDown(t: Trie, at: Index, p: Path, n: Nibble)
    requires Shape(t, at) && p in at
    ensures n in t.nodes[at[p]].bitmap <==> p + [n] in at
    ensures n in t.nodes[at[p]].bitmap ==> t.nodes[at[p]].children[n] == at[p + [n]]
  {
    assert HasChild(t, at, p, n);
    if p + [n] in at {
      assert HasParent(t, at, p + [n]);
      assert Front(p + [n]) == p && Last(p + [n]) == n;
    }
  }

  /** Hanging a freshly allocated node below `p` names one more prefix. */
  lemma GrowStep(t: Trie, at: Index, p: Path, n: Nibble)
    requires Shape(t, at) && p in at && |p| < NIBBLE_COUNT
    requires n !in t.nodes[at[p]].bitmap && t.freeTop > 0
    ensures p + [n] !in at
    ensures var (t1, idx) := Alloc(t);
            idx < MAX_NODES && Shape(Link(t1, at[p], n, idx), at[p + [n] := idx])
  {
    var q := p + [n];
    StepDown(t, at, p, n);
    var (t1, idx) := Alloc(t);
    var t2, at2 := Link(t1, at[p], n, idx), at[q := idx];
    assert idx == t.freeStack[t.freeTop - 1];
    forall r | r in at ensures at[r] != idx {
      NamedNotFree(t, at, r, t.freeTop - 1);
    }
    assert t2.nodes == t.nodes[at[p] := WithChild(t.nodes[at[p]], n, idx)] by {
      assert t1.nodes == t.nodes;
    }
    GrowLinked(t, at, p, n, t2, idx);
    GrowFree(t, at, p, q, t2, idx);
    assert at2.Keys == at.Keys + {q};
  }

  lemma GrowFree(t: Trie, at: Index, p: Path, q: Path, t2: Trie, idx: nat)
    requires Typed(t) && FreeList(t, at) && p in at && t.freeTop > 0
    requires Typed(t2) && t2.freeStack == t.freeStack && t2.freeTop == t.freeTop - 1
    requires idx == t.freeStack[t.freeTop - 1] && at[p] < MAX_NODES
    requires forall i | 0 <= i < MAX_NODES && i != at[p] :: t2.nodes[i] == t.nodes[i]
    ensures FreeList(t2, at[q := idx])
  {
    forall i: nat | i < t2.freeTop ensures t2.nodes[t2.freeStack[i]] == Blank() {
      NamedNotFree(t, at, p, i);
    }
    var at2 := at[q := idx];
    forall r, i: nat | r in at2 && i < t2.freeTop ensures NotFree(t2, at2, r, i) {
      if r != q { NamedNotFree(t, at, r, i); }
    }
  }

  lemma GrowLinked(t: Trie, at: Index, p: Path, n: Nibble, t2: Trie, idx: nat)
    requires Typed(t) && Names(t, at) && Linked(t, at) && p in at && |p| < NIBBLE_COUNT
    requires Typed(t2) && t2.root == t.root && idx < MAX_NODES && t.nodes[idx] == Blank()
    requires forall r | r in at :: at[r] != idx
    requires t2.nodes == t.nodes[at[p] := WithChild(t.nodes[at[p]], n, idx)]
    requires p + [n] !in at
    ensures Names(t2, at[p + [n] := idx]) && Linked(t2, at[p + [n] := idx])
  {
    var at2 := at[p + [n] := idx];
    GrowNames(t, at, p + [n], t2, idx);
    forall r | r in at2 ensures HasParent(t2, at2, r) {
      GrowParent(t, at, p, n, t2, idx, r);
    }
    forall r, m | r in at2 ensures HasChild(t2, at2, r, m) {
      GrowChild(t, at, p, n, t2, idx, r, m);
    }
    assert forall r | r in at2 && |r| < NIBBLE_COUNT :: t2.nodes[at2[r]].entry == NULL_ENTRY;
  }

  lemma GrowNames(t: Trie, at: Index, q: Path, t2: Trie, idx: nat)
    requires Names(t, at) && 0 < |q| <= NIBBLE_COUNT && q !in at && idx < MAX_NODES && t2.root == t.root
    requires forall r | r in at :: at[r] != idx
    ensures Names(t2, at[q := idx])
  {
    var at2 := at[q := idx];
    forall r, r2 | r in at2 && r2 in at2 ensures Apart(at2, r, r2) {
      assert r in at && r2 in at ==> Apart(at, r, r2);
    }
  }

  lemma GrowParent(t: Trie, at: Index, p: Path, n: Nibble, t2: Trie, idx: nat, r: Path)
    requires Typed(t) && Names(t, at) && p in at && idx < MAX_NODES
    requires Typed(t2) && Names(t2, at[p + [n] := idx]) && r in at[p + [n] := idx]
    requires t2.nodes == t.nodes[at[p] := WithChild(t.nodes[at[p]], n, idx)]
    requires p + [n] !in at
    requires r in at ==> HasParent(t, at, r)
    ensures HasParent(t2, at[p + [n] := idx], r)
  {
    assert Front(p + [n]) == p && Last(p + [n]) == n;
    assert p != p + [n];
    if r != p + [n] && r != [] {
      assert Front(r) in at;
    }
  }

  lemma GrowChild(t: Trie, at: Index, p: Path, n: Nibble, t2: Trie, idx: nat, r: Path, m: Nibble)
    requires Typed(t) && Names(t, at) && p in at && idx < MAX_NODES && t.nodes[idx] == Blank()
    requires Typed(t2) && Names(t2, at[p + [n] := idx]) && r in at[p + [n] := idx]
    requires t2.nodes == t.nodes[at[p] := WithChild(t.nodes[at[p]], n, idx)]
    requires p + [n] !in at && at[p] != idx
    requires r in at ==> HasChild(t, at, r, m)
    ensures HasChild(t2, at[p + [n] := idx], r, m)
  {
    assert p != p + [n];
    if r == p + [n] {
      assert t2.nodes[idx] == Blank();
    } else if r != p {
      NamedApart(t, at, r, p);
      assert r + [m] != p + [n] by { assert Front(r + [m]) == r && Front(p + [n]) == p; }
    } else if m != n {
      assert r + [m] != p + [n] by { assert Last(r + [m]) == m && Last(p + [n]) == n; }
    }
  }

  /** Taking the root from the pool of an empty trie. */
  lemma RootStep(t: Trie)
    requires Shape(t, map[]) && t.freeTop > 0
    ensures var (t1, idx) := Alloc(t); idx < MAX_NODES && Shape(t1.(root := idx), map[[] := idx])
  {
    var (t1, idx) := Alloc(t);
    var t2 := t1.(root := idx);
    var at2: Index := map[[] := idx];
    assert t2.nodes[idx] == Blank();
    assert at2.Keys == {[]};
  }

  // ----- Walking -----

  lemma {:induction false} PrefixClosed(t: Trie, at: Index, p: Path, i: nat)
    requires Shape(t, at) && p in at && i <= |p|
    ensures p[..i] in at
    decreases |p|
  {
    if i < |p| {
      assert HasParent(t, at, p);
      PrefixClosed(t, at, Front(p), i);
      assert Front(p)[..i] == p[..i];
    } else {
      assert p[..i] == p;
    }
  }

  /** The walk reaches exactly the named nodes. */
  lemma {:induction false} FindNamed(t: Trie, at: Index, p: Path, path: Path)
    requires Shape(t, at) && p in at
    ensures Find(t, at[p], path) == if p + path in at then at[p + path] else NULL_NODE
    decreases |path|
  {
    if path == [] {
      assert p + path == p;
    } else {
      StepDown(t, at, p, path[0]);
      SplitFirst(p, path);
      if p + [path[0]] in at {
        FindNamed(t, at, p + [path[0]], path[1..]);
      } else if p + path in at {
        PrefixClosed(t, at, p + path, |p| + 1);
      }
    }
  }

  lemma WalkNamed(t: Trie, at: Index, path: Path)
    requires Shape(t, at)
    ensures WalkConst(t, path) == if path in at then at[path] else NULL_NODE
  {
    if [] in at {
      FindNamed(t, at, [], path);
      assert [] + path == path;
    } else if path in at {
      PrefixClosed(t, at, path, 0);
    }
  }

  /** The tree that can be reached from the root is determined by the pool. */
  lemma ShapeUnique(t: Trie, at: Index, at2: Index)
    requires Shape(t, at) && Shape(t, at2)
    ensures at == at2
  {
    forall p: Path ensures (p in at <==> p in at2) && (p in at ==> at[p] == at2[p]) {
      WalkNamed(t, at, p);
      WalkNamed(t, at2, p);
    }
    assert at.Keys == at2.Keys;
  }

  /** `r` lists the nodes named by `p`, `p + path[..1]`, ..., as far as they are named. */
  ghost predicate IsTrail(at: Index, p: Path, path: Path, r: seq<nat>) {
    && |r| <= |path| + 1
    && (forall i | 0 <= i < |r| :: p + path[..i] in at && r[i] == at[p + path[..i]])
    && (|r| <= |path| ==> p + path[..|r|] !in at)
  }

  lemma IsTrailCons(at: Index, p: Path, path: Path, r: seq<nat>)
    requires path != [] && p in at && IsTrail(at, p + [path[0]], path[1..], r)
    ensures IsTrail(at, p, path, [at[p]] + r)
  {
    var r2 := [at[p]] + r;
    assert p + path[..0] == p;
    forall i | 0 < i <= |path| ensures p + path[..i] == p + [path[0]] + path[1..][..i - 1] {
    }
    forall i | 0 <= i < |r2| ensures p + path[..i] in at && r2[i] == at[p + path[..i]] {
      if i > 0 { assert r2[i] == r[i - 1]; }
    }
  }

  lemma {:induction false} TrailNamed(t: Trie, at: Index, p: Path, path: Path)
    requires Shape(t, at) && p in at
    ensures IsTrail(at, p, path, Trail(t, at[p], path))
    decreases |path|
  {
    assert p + path[..0] == p;
    if path != [] {
      var n := path[0];
      StepDown(t, at, p, n);
      if n in t.nodes[at[p]].bitmap {
        TrailNamed(t, at, p + [n], path[1..]);
        IsTrailCons(at, p, path, Trail(t, at[p + [n]], path[1..]));
      } else {
        assert path[..1] == [n];
      }
    }
  }

  // ----- The creating walk -----

  /** How many nodes the creating walk has to take from the pool. */
  function Missing(t: Trie, path: Path): nat
    requires Typed(t)
  {
    if t.root == NULL_NODE then |path| + 1 else |path| + 1 - |Trail(t, t.root, path)|
  }

  ghost predicate Extends(t: Trie, at: Index, t2: Trie, at2: Index, path: Path)
    requires |t.nodes| == |t2.nodes| == MAX_NODES && Names(t, at) && Names(t2, at2)
  {
    && (forall r | r in at :: r in at2 && at2[r] == at[r])
    && (forall r | r in at :: t2.nodes[at[r]].entry == t.nodes[at[r]].entry)
    && (forall r | r in at2 && r !in at :: r <= path && t2.nodes[at2[r]].entry == NULL_ENTRY)
    && t2.entryCount == t.entryCount
  }

  lemma ExtendsTrans(t: Trie, at: Index, t1: Trie, at1: Index, t2: Trie, at2: Index, q: Path, path: Path)
    requires |t.nodes| == |t1.nodes| == |t2.nodes| == MAX_NODES
    requires Names(t, at) && Names(t1, at1) && Names(t2, at2)
    requires Extends(t, at, t1, at1, q) && Extends(t1, at1, t2, at2, path) && q <= path
    ensures Extends(t, at, t2, at2, path)
  {
  }

  /** The creating walk names prefixes of the path only, and keeps the pool in shape even when
      it runs out of nodes on the way. */
  lemma {:induction false} GrowShape(t: Trie, at: Index, p: Path, path: Path) returns (at2: Index)
    requires Shape(t, at) && p in at && |p| + |path| <= NIBBLE_COUNT
    ensures var t2 := Grow(t, at[p], path).0;
            Shape(t2, at2) && Extends(t, at, t2, at2, p + path) && t2.root == t.root
    ensures var leaf := Grow(t, at[p], path).1;
            if leaf == NULL_NODE then p + path !in at2 else p + path in at2 && at2[p + path] == leaf
    decreases |path|
  {
    if path == [] {
      at2 := at;
      assert p + path == p;
    } else {
      var n := path[0];
      StepDown(t, at, p, n);
      SplitFirst(p, path);
      if n in t.nodes[at[p]].bitmap {
        at2 := GrowShape(t, at, p + [n], path[1..]);
      } else if t.freeTop == 0 {
        at2 := at;
        if p + path in at {
          PrefixClosed(t, at, p + path, |p| + 1);
        }
      } else {
        at2 := GrowFromNew(t, at, p, path);
      }
    }
  }

  lemma {:induction false} GrowFromNew(t: Trie, at: Index, p: Path, path: Path) returns (at2: Index)
    requires Shape(t, at) && p in at && path != [] && |p| + |path| <= NIBBLE_COUNT
    requires path[0] !in t.nodes[at[p]].bitmap && t.freeTop > 0
    ensures var t2 := Grow(t, at[p], path).0;
            Shape(t2, at2) && Extends(t, at, t2, at2, p + path) && t2.root == t.root
    ensures var leaf := Grow(t, at[p], path).1;
            if leaf == NULL_NODE then p + path !in at2 else p + path in at2 && at2[p + path] == leaf
    decreases |path|, 0
  {
    var q := p + [path[0]];
    SplitFirst(p, path);
    var t1, idx, at1 := NewBelow(t, at, p, path[0]);
    at2 := GrowShape(t1, at1, q, path[1..]);
    ExtendsTrans(t, at, t1, at1, Grow(t1, idx, path[1..]).0, at2, q, p + path);
  }

  /** The state after a new node has been allocated and linked below `p`. */
  lemma NewBelow(t: Trie, at: Index, p: Path, n: Nibble) returns (t1: Trie, idx: nat, at1: Index)
    requires Shape(t, at) && p in at && |p| < NIBBLE_COUNT
    requires n !in t.nodes[at[p]].bitmap && t.freeTop > 0
    ensures idx == Alloc(t).1 < MAX_NODES && t1 == Link(Alloc(t).0, at[p], n, idx)
    ensures at1 == at[p + [n] := idx] && Shape(t1, at1)
    ensures Extends(t, at, t1, at1, p + [n]) && t1.root == t.root
    ensures t1.nodes[idx] == Blank()
  {
    GrowStep(t, at, p, n);
    idx := Alloc(t).1;
    t1, at1 := Link(Alloc(t).0, at[p], n, idx), at[p + [n] := idx];
    LinkedIsBlank(t, at, p, n);
    LinkedExtends(t, at, p, n, t1, at1);
  }

  lemma LinkedIsBlank(t: Trie, at: Index, p: Path, n: Nibble)
    requires Shape(t, at) && p in at && t.freeTop > 0
    ensures Alloc(t).1 < MAX_NODES && Link(Alloc(t).0, at[p], n, Alloc(t).1).nodes[Alloc(t).1] == Blank()
  {
    NamedNotFree(t, at, p, t.freeTop - 1);
  }

  lemma LinkedExtends(t: Trie, at: Index, p: Path, n: Nibble, t1: Trie, at1: Index)
    requires Shape(t, at) && p in at && p + [n] !in at && t.freeTop > 0 && Alloc(t).1 < MAX_NODES
    requires t1 == Link(Alloc(t).0, at[p], n, Alloc(t).1) && at1 == at[p + [n] := Alloc(t).1] && Shape(t1, at1)
    ensures Extends(t, at, t1, at1, p + [n]) && t1.root == t.root
  {
    forall r | r in at ensures at[r] != Alloc(t).1 {
      NamedNotFree(t, at, r, t.freeTop - 1);
    }
    LinkedEntries(t, at[p], n);
  }

  /** Allocating and linking a node changes no entry but that of the new node. */
  lemma LinkedEntries(t: Trie, cur: nat, n: Nibble)
    requires Typed(t) && t.freeTop > 0 && cur < MAX_NODES && cur != Alloc(t).1 < MAX_NODES
    ensures forall i: nat | i < MAX_NODES && i != Alloc(t).1 ::
              Link(Alloc(t).0, cur, n, Alloc(t).1).nodes[i].entry == t.nodes[i].entry
    ensures Link(Alloc(t).0, cur, n, Alloc(t).1).nodes[Alloc(t).1].entry == NULL_ENTRY
  {
  }

  /** A walk that has to take nodes from the pool succeeds exactly when the pool has enough. */
  lemma {:induction false} GrowNeeds(t: Trie, at: Index, p: Path, path: Path)
    requires Shape(t, at) && p in at && |p| + |path| <= NIBBLE_COUNT
    ensures Grow(t, at[p], path).1 != NULL_NODE
            <==> |path| + 1 - |Trail(t, at[p], path)| <= t.freeTop
    decreases |path|
  {
    if path != [] {
      StepDown(t, at, p, path[0]);
      if path[0] in t.nodes[at[p]].bitmap {
        GrowNeeds(t, at, p + [path[0]], path[1..]);
      } else if t.freeTop > 0 {
        GrowNeedsNew(t, at, p, path);
      }
    }
  }

  lemma {:induction false} GrowNeedsNew(t: Trie, at: Index, p: Path, path: Path)
    requires Shape(t, at) && p in at && path != [] && |p| + |path| <= NIBBLE_COUNT
    requires path[0] !in t.nodes[at[p]].bitmap && t.freeTop > 0
    ensures Grow(t, at[p], path).1 != NULL_NODE <==> |path| <= t.freeTop
    decreases |path|, 0
  {
    var t1, idx, at1 := NewBelow(t, at, p, path[0]);
    TrailOfNew(t, at, p, path);
    GrowNeeds(t1, at1, p + [path[0]], path[1..]);
  }

  lemma TrailOfNew(t: Trie, at: Index, p: Path, path: Path)
    requires Shape(t, at) && p in at && path != [] && t.freeTop > 0
    ensures var (t1, idx) := Alloc(t);
            idx < MAX_NODES && |Trail(Link(t1, at[p], path[0], idx), idx, path[1..])| == 1
  {
    var (t1, idx) := Alloc(t);
    NamedNotFree(t, at, p, t.freeTop - 1);
    TrailOfBlank(Link(t1, at[p], path[0], idx), idx, path[1..]);
  }

  lemma WalkCreateNeeds(t: Trie, at: Index, path: Path)
    requires Shape(t, at) && |path| <= NIBBLE_COUNT
    ensures WalkCreate(t, path).1 != NULL_NODE <==> Missing(t, path) <= t.freeTop
  {
    if t.root != NULL_NODE {
      GrowNeeds(t, at, [], path);
    } else if t.freeTop > 0 {
      NoRootNoNodes(t, at);
      RootStep(t);
      var (t1, idx) := Alloc(t);
      var t2 := t1.(root := idx);
      var at2: Index := map[[] := idx];
      TrailOfBlank(t2, idx, path);
      GrowNeeds(t2, at2, [], path);
    }
  }

  lemma TrailOfBlank(t: Trie, idx: nat, path: Path)
    requires Typed(t) && idx < MAX_NODES && t.nodes[idx] == Blank()
    ensures |Trail(t, idx, path)| == 1
  {
  }

  lemma WalkCreateShape(t: Trie, at: Index, path: Path) returns (at2: Index)
    requires Shape(t, at) && |path| <= NIBBLE_COUNT
    ensures var t2 := WalkCreate(t, path).0; Shape(t2, at2) && Extends(t, at, t2, at2, path)
    ensures var leaf := WalkCreate(t, path).1;
            if leaf == NULL_NODE then path !in at2 else path in at2 && at2[path] == leaf
  {
    assert [] + path == path;
    if t.root != NULL_NODE {
      at2 := GrowShape(t, at, [], path);
    } else {
      NoRootNoNodes(t, at);
      if t.freeTop == 0 {
        at2 := at;
      } else {
        RootStep(t);
        var (t1, idx) := Alloc(t);
        var t2 := t1.(root := idx);
        assert t2.nodes[idx] == Blank();
        at2 := GrowShape(t2, map[[] := idx], [], path);
      }
    }
  }

  /** A creating walk that fails has emptied the pool. */
  lemma {:induction false} GrowFails(t: Trie, cur: nat, path: Path)
    requires Typed(t) && cur < MAX_NODES && Grow(t, cur, path).1 == NULL_NODE
    ensures Grow(t, cur, path).0.freeTop == 0
    decreases |path|
  {
    if path[0] in t.nodes[cur].bitmap {
      GrowFails(t, t.nodes[cur].children[path[0]], path[1..]);
    } else if t.freeTop > 0 {
      var (t1, idx) := Alloc(t);
      GrowFails(Link(t1, cur, path[0], idx), idx, path[1..]);
    }
  }

  lemma WalkCreateFails(t: Trie, path: Path)
    requires Typed(t) && WalkCreate(t, path).1 == NULL_NODE
    ensures WalkCreate(t, path).0.freeTop == 0
  {
    if t.root != NULL_NODE {
      GrowFails(t, t.root, path);
    } else if t.freeTop > 0 {
      var (t1, idx) := Alloc(t);
      GrowFails(t1.(root := idx), idx, path);
    }
  }

  lemma NoRootNoNodes(t: Trie, at: Index)
    requires Shape(t, at) && [] !in at
    ensures at == map[]
  {
    if p :| p in at {
      PrefixClosed(t, at, p, 0);
    }
  }

  // ----- Pruning -----

  predicate Dead(nd: Node) {
    nd.bitmap == {} && nd.entry == NULL_ENTRY
  }

  /** Garbage-free: every named node leads to an entry. */
  ghost predicate Tidy(t: Trie, at: Index)
    requires Shape(t, at)
  {
    forall p | p in at :: !Dead(t.nodes[at[p]])
  }

  lemma ShrinkStep(t: Trie, at: Index, q: Path)
    requires Shape(t, at) && q in at && q != [] && Dead(t.nodes[at[q]])
    ensures Front(q) in at
    ensures Shape(Free(Unlink(t, at[Front(q)], Last(q)), at[q]), at - {q})
  {
    var p, n := Front(q), Last(q);
    assert HasParent(t, at, q);
    assert q == p + [n];
    var t1 := Unlink(t, at[p], n);
    var t2, at2 := Free(t1, at[q]), at - {q};
    assert |at2| == |at| - 1 by { assert at2.Keys == at.Keys - {q}; }
    assert t2.nodes == t.nodes[at[p] := WithoutChild(t.nodes[at[p]], n)][at[q] := Blank()];
    ShrinkLinked(t, at, p, n, t2);
    ShrinkFree(t, at, p, q, t2);
  }

  lemma ShrinkFree(t: Trie, at: Index, p: Path, q: Path, t2: Trie)
    requires Typed(t) && FreeList(t, at) && p in at && q in at && t.freeTop < MAX_NODES
    requires Names(t, at)
    requires Typed(t2) && t2.freeStack == t.freeStack[t.freeTop := at[q]] && t2.freeTop == t.freeTop + 1
    requires forall i | 0 <= i < MAX_NODES && i != at[p] && i != at[q] :: t2.nodes[i] == t.nodes[i]
    requires t2.nodes[at[q]] == Blank()
    ensures FreeList(t2, at - {q})
  {
    forall i: nat | i < t.freeTop
      ensures t2.freeStack[i] != at[q] && t2.nodes[t2.freeStack[i]] == Blank()
    {
      NamedNotFree(t, at, p, i);
      NamedNotFree(t, at, q, i);
    }
    var at2 := at - {q};
    forall r, i: nat | r in at2 && i < t2.freeTop ensures NotFree(t2, at2, r, i) {
      NamedApart(t, at, r, q);
      if i < t.freeTop { NamedNotFree(t, at, r, i); }
    }
  }

  lemma ShrinkLinked(t: Trie, at: Index, p: Path, n: Nibble, t2: Trie)
    requires Shape(t, at) && p in at && p + [n] in at && Dead(t.nodes[at[p + [n]]])
    requires Typed(t2) && t2.root == t.root
    requires t2.nodes == t.nodes[at[p] := WithoutChild(t.nodes[at[p]], n)][at[p + [n]] := Blank()]
    ensures Names(t2, at - {p + [n]}) && Linked(t2, at - {p + [n]})
  {
    var at2 := at - {p + [n]};
    forall r, q | r in at2 && q in at2 ensures Apart(at2, r, q) {
      assert Apart(at, r, q);
    }
    forall r | r in at2 ensures HasParent(t2, at2, r) {
      ShrinkParent(t, at, p, n, t2, r);
    }
    forall r, m | r in at2 ensures HasChild(t2, at2, r, m) {
      ShrinkChild(t, at, p, n, t2, r, m);
    }
    forall r | r in at2 && |r| < NIBBLE_COUNT ensures t2.nodes[at2[r]].entry == NULL_ENTRY {
      NamedApart(t, at, r, p + [n]);
    }
  }

  lemma ShrinkParent(t: Trie, at: Index, p: Path, n: Nibble, t2: Trie, r: Path)
    requires Shape(t, at) && p in at && p + [n] in at && Dead(t.nodes[at[p + [n]]])
    requires Typed(t2) && Names(t2, at - {p + [n]})
    requires t2.nodes == t.nodes[at[p] := WithoutChild(t.nodes[at[p]], n)][at[p + [n]] := Blank()]
    requires r in at && r != p + [n]
    ensures HasParent(t2, at - {p + [n]}, r)
  {
    assert HasParent(t, at, r);
    if r != [] {
      assert r == Front(r) + [Last(r)];
      assert Front(r) != p + [n];
      NamedApart(t, at, Front(r), p + [n]);
      if Front(r) != p { NamedApart(t, at, Front(r), p); }
    }
  }

  lemma ShrinkChild(t: Trie, at: Index, p: Path, n: Nibble, t2: Trie, r: Path, m: Nibble)
    requires Shape(t, at) && p in at && p + [n] in at
    requires Typed(t2) && Names(t2, at - {p + [n]})
    requires t2.nodes == t.nodes[at[p] := WithoutChild(t.nodes[at[p]], n)][at[p + [n]] := Blank()]
    requires r in at && r != p + [n]
    ensures HasChild(t2, at - {p + [n]}, r, m)
  {
    assert HasChild(t, at, r, m);
    NamedApart(t, at, r, p + [n]);
    if r != p { NamedApart(t, at, r, p); }
    assert Front(r + [m]) == r && Front(p + [n]) == p;
    assert Last(r + [m]) == m && Last(p + [n]) == n;
  }

  lemma RootHasChild(t: Trie, at: Index, p: Path)
    requires Shape(t, at) && p in at && p != [] && t.root < MAX_NODES
    ensures t.nodes[t.root].bitmap != {}
  {
    PrefixClosed(t, at, p, 0);
    PrefixClosed(t, at, p, 1);
    assert HasParent(t, at, p[..1]);
    assert Front(p[..1]) == [] == p[..0];
  }

  lemma RootShrink(t: Trie, at: Index)
    requires Shape(t, at) && [] in at && Dead(t.nodes[t.root])
    ensures at == map[[] := t.root]
    ensures Shape(Free(t, t.root).(root := NULL_NODE), map[])
  {
    forall p | p in at ensures p == [] {
      if p != [] { RootHasChild(t, at, p); }
    }
    assert at.Keys == {[]};
    assert |at| == |at.Keys|;
    var t2 := Free(t, t.root).(root := NULL_NODE);
    forall i: nat | i < t.freeTop ensures t.freeStack[i] != t.root {
      NamedNotFree(t, at, [], i);
    }
    assert FreeList(t2, map[]);
  }

  /** The pass from `level` up only drops dead prefixes of the path. */
  ghost predicate Shrinks(t: Trie, at: Index, t2: Trie, at2: Index, path: Path)
    requires |t.nodes| == |t2.nodes| == MAX_NODES && Names(t, at) && Names(t2, at2)
  {
    && (forall r | r in at2 :: r in at && at2[r] == at[r] && t2.nodes[at[r]].entry == t.nodes[at[r]].entry)
    && (forall r | r in at && r !in at2 :: r <= path && t.nodes[at[r]].entry == NULL_ENTRY)
    && t2.entryCount == t.entryCount
  }

  /** Of the nodes that are left, only the one named `x` may have become a dead end. */
  ghost predicate NoNewDead(t: Trie, at: Index, t2: Trie, at2: Index, x: Path)
    requires |t.nodes| == |t2.nodes| == MAX_NODES && Names(t, at) && Names(t2, at2)
  {
    forall r | r in at2 && r != x && Dead(t2.nodes[at2[r]]) :: r in at && Dead(t.nodes[at[r]])
  }

  /** Every dead end that is left was one before, under the same name. */
  ghost predicate NothingDies(t: Trie, at: Index, t2: Trie, at2: Index)
    requires |t.nodes| == |t2.nodes| == MAX_NODES && Names(t, at) && Names(t2, at2)
  {
    forall r | r in at2 && Dead(t2.nodes[at2[r]]) :: r in at && Dead(t.nodes[at[r]])
  }

  /** Dropping `q` leaves all other nodes but its parent as they are. */
  lemma ShrinkElsewhere(t: Trie, at: Index, q: Path, t1: Trie)
    requires Shape(t, at) && q in at && q != [] && Front(q) in at
    requires |t1.nodes| == MAX_NODES && t1.entryCount == t.entryCount && Names(t1, at - {q})
    requires t1.nodes == t.nodes[at[Front(q)] := WithoutChild(t.nodes[at[Front(q)]], Last(q))][at[q] := Blank()]
    requires Dead(t.nodes[at[q]])
    ensures Shrinks(t, at, t1, at - {q}, q)
    ensures forall r | r in at && r != q && r != Front(q) :: t1.nodes[at[r]] == t.nodes[at[r]]
  {
    forall r | r in at && r != q
      ensures t1.nodes[at[r]].entry == t.nodes[at[r]].entry
      ensures r != Front(q) ==> t1.nodes[at[r]] == t.nodes[at[r]]
    {
      NamedApart(t, at, r, q);
      if r != Front(q) { NamedApart(t, at, r, Front(q)); }
    }
  }

  /** One step of the bottom-up pass, at the prefix `q`. */
  lemma PruneAtShape(t: Trie, at: Index, q: Path) returns (at1: Index)
    requires Shape(t, at) && q in at && q != []
    ensures Front(q) in at
    ensures var t1 := PruneAt(t, at[q], at[Front(q)], Last(q));
            Shape(t1, at1) && Shrinks(t, at, t1, at1, q) && NoNewDead(t, at, t1, at1, Front(q))
    ensures forall r | r in at && r != q :: r in at1
    ensures Dead(t.nodes[at[q]]) ==> q !in at1
  {
    assert HasParent(t, at, q);
    if Dead(t.nodes[at[q]]) {
      ShrinkStep(t, at, q);
      at1 := at - {q};
      var t1 := PruneAt(t, at[q], at[Front(q)], Last(q));
      assert t.nodeCount > 0;
      ShrinkElsewhere(t, at, q, t1);
    } else {
      at1 := at;
    }
  }

  lemma ShrinksTrans(t: Trie, at: Index, t1: Trie, at1: Index, t2: Trie, at2: Index, q: Path, path: Path)
    requires |t.nodes| == |t1.nodes| == |t2.nodes| == MAX_NODES
    requires Names(t, at) && Names(t1, at1) && Names(t2, at2)
    requires Shrinks(t, at, t1, at1, q) && Shrinks(t1, at1, t2, at2, path) && q <= path
    ensures Shrinks(t, at, t2, at2, path)
  {
  }

  ghost predicate Traces(at: Index, trail: seq<nat>, path: Path, level: nat) {
    && level <= |path| && level < |trail|
    && (forall i | 0 <= i < |trail| :: trail[i] < MAX_NODES)
    && (forall i | 0 <= i <= level :: path[..i] in at && trail[i] == at[path[..i]])
  }

  lemma {:induction false} PruneUpShape(t: Trie, at: Index, trail: seq<nat>, path: Path, level: nat)
    returns (at2: Index)
    requires Shape(t, at) && Traces(at, trail, path, level)
    ensures var t2 := PruneUp(t, trail, path, level);
            Shape(t2, at2) && Shrinks(t, at, t2, at2, path) && [] in at2 && NoNewDead(t, at, t2, at2, [])
    ensures level > 0 && Dead(t.nodes[at[path[..level]]]) ==> path[..level] !in at2
    decreases level
  {
    if level == 0 {
      at2 := at;
      assert path[..0] == [];
    } else {
      var t1, at1 := PruneLevel(t, at, trail, path, level);
      at2 := PruneUpShape(t1, at1, trail, path, level - 1);
      ShrinksTrans(t, at, t1, at1, PruneUp(t, trail, path, level), at2, path[..level], path);
      NoNewDeadTrans(t, at, t1, at1, PruneUp(t, trail, path, level), at2, path[..level - 1]);
    }
  }

  lemma NoNewDeadTrans(t: Trie, at: Index, t1: Trie, at1: Index, t2: Trie, at2: Index, x: Path)
    requires |t.nodes| == |t1.nodes| == |t2.nodes| == MAX_NODES
    requires Names(t, at) && Names(t1, at1) && Names(t2, at2)
    requires NoNewDead(t, at, t1, at1, x) && NoNewDead(t1, at1, t2, at2, [])
    requires x != [] && x in at1 && Dead(t1.nodes[at1[x]]) ==> x !in at2
    ensures NoNewDead(t, at, t2, at2, [])
  {
  }

  lemma PruneLevel(t: Trie, at: Index, trail: seq<nat>, path: Path, level: nat) returns (t1: Trie, at1: Index)
    requires Shape(t, at) && Traces(at, trail, path, level) && level > 0
    ensures t1 == PruneAt(t, trail[level], trail[level - 1], path[level - 1])
    ensures Shape(t1, at1) && Traces(at1, trail, path, level - 1) && Shrinks(t, at, t1, at1, path[..level])
    ensures Dead(t.nodes[at[path[..level]]]) ==> path[..level] !in at1
    ensures NoNewDead(t, at, t1, at1, path[..level - 1])
  {
    var q := path[..level];
    assert Front(q) == path[..level - 1] && Last(q) == path[level - 1];
    t1 := PruneAt(t, trail[level], trail[level - 1], path[level - 1]);
    at1 := PruneAtShape(t, at, q);
    assert forall i | 0 <= i < level :: |path[..i]| == i;
  }

  lemma PruneShape(t: Trie, at: Index, path: Path) returns (at2: Index)
    requires Shape(t, at) && path in at && path != [] && Dead(t.nodes[at[path]])
    ensures var t2 := Prune(t, path);
            && Shape(t2, at2) && Shrinks(t, at, t2, at2, path)
            && path !in at2 && NothingDies(t, at, t2, at2)
  {
    PrefixClosed(t, at, path, 0);
    TrailNamed(t, at, [], path);
    var trail := Trail(t, t.root, path);
    assert path[..|path|] == path;
    forall i | 0 <= i <= |path| ensures [] + path[..i] == path[..i] && path[..i] in at {
      PrefixClosed(t, at, path, i);
    }
    var at1 := PruneUpShape(t, at, trail, path, |path|);
    var t1 := PruneUp(t, trail, path, |path|);
    at2 := at1;
    if Dead(t1.nodes[t1.root]) {
      RootShrink(t1, at1);
      at2 := map[];
    }
  }
}
