/**
  Counting the nodes of the pool: the free stack holds exactly what the tree does not use,
  and a garbage-free trie over `n` keys never needs more than 17 + 10 n nodes.
 */
module PathTrieCapacity {
  import opened PathTrie

  // ----- Sets -----

  lemma {:induction false} SubsetSize<T>(a: set<T>, b: set<T>)
    requires a <= b
    ensures |a| <= |b| && (|a| == |b| ==> a == b)
  {
    if a != {} {
      var x :| x in a;
      SubsetSize(a - {x}, b - {x});
    }
  }

  /** A set that another one maps onto is no larger. */
  lemma {:induction false} OntoSize<S, T>(a: set<S>, f: S --> T, b: set<T>)
    requires forall x | x in a :: f.requires(x)
    requires forall y | y in b :: exists x :: x in a && f(x) == y
    ensures |b| <= |a|
  {
    if b != {} {
      var y :| y in b;
      var x :| x in a && f(x) == y;
      OntoSize(a - {x}, f, b - {y});
    }
  }

  /** A map from `a` one-to-one onto `b`. */
  lemma {:induction false} OneToOneSize<S, T>(a: set<S>, f: S --> T, b: set<T>)
    requires forall x | x in a :: f.requires(x) && f(x) in b
    requires forall x, y | x in a && y in a && f(x) == f(y) :: x == y
    requires forall y | y in b :: exists x :: x in a && f(x) == y
    ensures |a| == |b|
  {
    OntoSize(a, f, b);
    if a != {} {
      var x :| x in a;
      OneToOneSize(a - {x}, f, b - {f(x)});
    }
  }

  // ----- The pool is split between the tree and the free stack -----

  ghost predicate InTree(at: Index, i: nat) {
    exists p :: p in at && at[p] == i
  }

  ghost predicate OnStack(t: Trie, i: nat)
    requires Typed(t)
  {
    exists k :: 0 <= k < t.freeTop && t.freeStack[k] == i
  }

  function Slots(n: nat): (r: set<nat>)
    ensures |r| == n
    ensures forall i :: i in r <==> 0 <= i < n
  {
    if n == 0 then {} else Slots(n - 1) + {n - 1}
  }

  /** Every node is reachable from the root or on the free stack, and never both. */
  lemma PoolPartition(t: Trie, at: Index, i: nat)
    requires Shape(t, at) && i < MAX_NODES
    ensures InTree(at, i) <==> !OnStack(t, i)
  {
    UsedSize(t, at);
    FreeSize(t);
    UsedNotStacked(t, at);
    SplitSlots(Used(at), Stacked(t), |t.nodes|, i);
    assert i in Used(at) <==> InTree(at, i);
    assert i in Stacked(t) <==> OnStack(t, i);
  }

  lemma SplitSlots(used: set<nat>, free: set<nat>, n: nat, i: nat)
    requires used !! free && used + free <= Slots(n) && |used| + |free| == n && i < n
    ensures i in used <==> i !in free
  {
    assert |used + free| == |used| + |free|;
    SubsetSize(used + free, Slots(n));
    assert i in used + free;
  }

  function Used(at: Index): set<nat> {
    set p | p in at :: at[p]
  }

  function Stacked(t: Trie): set<nat>
    requires Typed(t)
  {
    set k | 0 <= k < t.freeTop :: t.freeStack[k]
  }

  lemma UsedNotStacked(t: Trie, at: Index)
    requires Shape(t, at)
    ensures Used(at) !! Stacked(t)
    ensures Used(at) + Stacked(t) <= Slots(|t.nodes|)
  {
    forall p, k: nat | p in at && k < t.freeTop ensures at[p] != t.freeStack[k] {
      NamedNotFree(t, at, p, k);
    }
  }

  lemma UsedSize(t: Trie, at: Index)
    requires Names(t, at)
    ensures |Used(at)| == |at|
  {
    forall p, q | p in at.Keys && q in at.Keys && at[p] == at[q] ensures p == q {
      assert Apart(at, p, q);
    }
    OneToOneSize(at.Keys, p requires p in at => at[p], Used(at));
  }

  lemma FreeSize(t: Trie)
    requires Typed(t) && (forall i, j | 0 <= i < j < t.freeTop :: t.freeStack[i] != t.freeStack[j])
    ensures |Stacked(t)| == t.freeTop
  {
    var dom, f := Slots(t.freeTop), k requires 0 <= k < t.freeTop => t.freeStack[k];
    assert forall x, y | x in dom && y in dom && x < y :: f(x) != f(y);
    forall y | y in Stacked(t) ensures exists k :: k in dom && f(k) == y {
      var k :| 0 <= k < t.freeTop && t.freeStack[k] == y;
      assert k in dom && f(k) == y;
    }
    OneToOneSize(dom, f, Stacked(t));
  }

  // ----- How many nodes a set of keys needs -----

  function Layer(K: set<Path>, d: nat): set<Path> {
    set p | p in K && |p| == d
  }

  ghost predicate Continues(K: set<Path>, p: Path) {
    exists n: Nibble :: p + [n] in K
  }

  /** A set of key prefixes in which every prefix shorter than a key goes on. */
  ghost predicate GoesOn(K: set<Path>) {
    && (forall p | p in K :: |p| <= NIBBLE_COUNT)
    && (forall p {:trigger Continues(K, p)} | p in K && |p| < NIBBLE_COUNT :: Continues(K, p))
  }

  /** The layers of such a set grow with their depth. */
  lemma {:induction false} LayerSize(K: set<Path>, d: nat, e: nat)
    requires GoesOn(K) && d <= e <= NIBBLE_COUNT
    ensures |Layer(K, d)| <= |Layer(K, e)|
    decreases e - d
  {
    if d < e {
      LayerSize(K, d + 1, e);
      NextLayer(K, d);
    }
  }

  lemma NextLayer(K: set<Path>, d: nat)
    requires GoesOn(K) && d < NIBBLE_COUNT
    ensures |Layer(K, d)| <= |Layer(K, d + 1)|
  {
    var f := (q: Path) requires d <= |q| => q[..d];
    forall p | p in Layer(K, d) ensures exists q :: q in Layer(K, d + 1) && f(q) == p {
      assert Continues(K, p);
      var n: Nibble :| p + [n] in K;
      assert p + [n] in Layer(K, d + 1) && f(p + [n]) == p;
    }
    OntoSize(Layer(K, d + 1), f, Layer(K, d));
  }

  lemma SmallLayers(K: set<Path>)
    ensures |Layer(K, 0)| <= 1 && |Layer(K, 1)| <= CHILDREN_PER_NODE
  {
    SubsetSize(Layer(K, 0), {[]});
    forall p | p in Layer(K, 1) ensures exists n :: n in Slots(CHILDREN_PER_NODE) && Single(n) == p {
      assert Single(p[0]) == p;
    }
    OntoSize(Slots(CHILDREN_PER_NODE), Single, Layer(K, 1));
  }

  function Single(n: nat): Path {
    if n < CHILDREN_PER_NODE then [n] else []
  }

  /** The prefixes of length at most `d`. */
  function UpTo(K: set<Path>, d: nat): set<Path> {
    set p | p in K && |p| <= d
  }

  lemma UpToStep(K: set<Path>, d: nat)
    ensures |UpTo(K, d + 1)| == |UpTo(K, d)| + |Layer(K, d + 1)|
  {
    assert UpTo(K, d + 1) == UpTo(K, d) + Layer(K, d + 1);
    assert UpTo(K, d) !! Layer(K, d + 1);
  }

  lemma {:induction false} UpToSize(K: set<Path>, d: nat)
    requires GoesOn(K) && 1 <= d <= NIBBLE_COUNT
    ensures |UpTo(K, d)| <= |UpTo(K, 1)| + (d - 1) * |Layer(K, NIBBLE_COUNT)|
    ensures |UpTo(K, d)| >= |UpTo(K, 1)| + (d - 1) * |Layer(K, 2)|
    decreases d
  {
    if d > 1 {
      UpToSize(K, d - 1);
      UpToStep(K, d - 1);
      LayerSize(K, d, NIBBLE_COUNT);
      LayerSize(K, 2, d);
      var n, m := |Layer(K, NIBBLE_COUNT)|, |Layer(K, 2)|;
      assert (d - 1) * n == (d - 2) * n + n && (d - 1) * m == (d - 2) * m + m;
    }
  }

  /** `n` keys need at most 1 + 16 + 10 n nodes. */
  lemma NodesNeeded(K: set<Path>)
    requires GoesOn(K)
    ensures |K| <= 17 + 10 * |Layer(K, NIBBLE_COUNT)|
  {
    assert UpTo(K, NIBBLE_COUNT) == K;
    UpToSize(K, NIBBLE_COUNT);
    SmallLayers(K);
    UpToStep(K, 0);
    assert UpTo(K, 0) == Layer(K, 0);
  }

  // ----- Enough nodes for one more key -----

  function Prefixes(path: Path, from: nat): (r: set<Path>)
    requires from <= |path| + 1
    ensures |r| == |path| + 1 - from
    ensures forall p :: p in r <==> p <= path && from <= |p|
    decreases |path| + 1 - from
  {
    if from == |path| + 1 then {}
    else
      assert forall p | p <= path && |p| == from :: p == path[..from];
      {path[..from]} + Prefixes(path, from + 1)
  }

  lemma MissingPrefixes(t: Trie, at: Index, path: Path)
    requires Shape(t, at)
    ensures Missing(t, path) <= |path| + 1
    ensures Prefixes(path, |path| + 1 - Missing(t, path)) !! at.Keys
    ensures forall i | 0 <= i < |path| + 1 - Missing(t, path) :: path[..i] in at
  {
    var from := |path| + 1 - Missing(t, path);
    if t.root == NULL_NODE {
      NoRootNoNodes(t, at);
    } else {
      TrailNamed(t, at, [], path);
      forall i | 0 <= i <= |path| ensures [] + path[..i] == path[..i] {}
      forall p | p in Prefixes(path, from) ensures p !in at {
        NothingBelow(t, at, path, from, p);
      }
    }
  }

  lemma NothingBelow(t: Trie, at: Index, path: Path, from: nat, p: Path)
    requires Shape(t, at) && from <= |p| && p <= path && path[..from] !in at
    ensures p !in at
  {
    assert p[..from] == path[..from];
    if p in at {
      PrefixClosed(t, at, p, from);
    }
  }

  lemma TidyGoesOn(t: Trie, at: Index)
    requires Shape(t, at) && Tidy(t, at)
    ensures GoesOn(at.Keys)
  {
    forall p | p in at.Keys && |p| < NIBBLE_COUNT ensures Continues(at.Keys, p) {
      assert !Dead(t.nodes[at[p]]);
      var n :| n in t.nodes[at[p]].bitmap;
      StepDown(t, at, p, n);
    }
  }

  /** The keys of the trie together with one more. */
  lemma KeysAndOneMore(t: Trie, at: Index, path: Path)
    requires Shape(t, at) && Tidy(t, at) && |path| == NIBBLE_COUNT
    ensures |at| + Missing(t, path) <= 17 + 10 * (|Layer(at.Keys, NIBBLE_COUNT)| + 1)
  {
    MissingPrefixes(t, at, path);
    TidyGoesOn(t, at);
    var more := Prefixes(path, |path| + 1 - Missing(t, path));
    OneMoreGoesOn(at.Keys, path, more);
    MoreNodesNeeded(at.Keys, path, more);
  }

  lemma MoreNodesNeeded(K: set<Path>, path: Path, more: set<Path>)
    requires GoesOn(K + more) && K !! more && |path| == NIBBLE_COUNT
    requires forall p | p in more :: p <= path
    ensures |K| + |more| <= 17 + 10 * (|Layer(K, NIBBLE_COUNT)| + 1)
  {
    NodesNeeded(K + more);
    assert |K + more| == |K| + |more|;
    var leaves := Layer(K, NIBBLE_COUNT);
    forall p | p in more && |p| == NIBBLE_COUNT ensures p == path {
      assert p <= path;
    }
    SubsetSize(Layer(K + more, NIBBLE_COUNT), leaves + {path});
    assert |leaves + {path}| <= |leaves| + 1;
  }

  lemma OneMoreGoesOn(K: set<Path>, path: Path, more: set<Path>)
    requires GoesOn(K) && |path| == NIBBLE_COUNT
    requires exists from: nat :: from <= |path| + 1 && more == Prefixes(path, from)
    ensures GoesOn(K + more)
  {
    forall p | p in K + more && |p| < NIBBLE_COUNT ensures Continues(K + more, p) {
      if p in K {
        ContinuesMore(K, K + more, p);
      } else {
        NextPrefix(path, more, p);
        ContinuesMore(more, K + more, p);
      }
    }
  }

  lemma ContinuesMore(K: set<Path>, K2: set<Path>, p: Path)
    requires Continues(K, p) && K <= K2
    ensures Continues(K2, p)
  {
  }

  lemma NextPrefix(path: Path, more: set<Path>, p: Path)
    requires (exists from: nat :: from <= |path| + 1 && more == Prefixes(path, from)) && p in more && |p| < |path|
    ensures Continues(more, p)
  {
    var q := path[..|p| + 1];
    assert q == p + [path[|p|]] && q <= path;
    assert q in more;
  }

  /** A garbage-free trie with at most 48 keys has the nodes for one more. */
  lemma RoomForOneMore(t: Trie, at: Index, path: Path)
    requires Shape(t, at) && Tidy(t, at) && |path| == NIBBLE_COUNT
    requires |Layer(at.Keys, NIBBLE_COUNT)| <= 48
    ensures Missing(t, path) <= t.freeTop
  {
    KeysAndOneMore(t, at, path);
  }

  // ----- The bound is sharp -----

  /** When all 16 first nibbles are in use, the keys of a garbage-free trie have at most 49
      different two-nibble heads: 50 such keys never fit. */
  lemma AtMostFortyNineHeads(t: Trie, at: Index)
    requires Shape(t, at) && Tidy(t, at) && |Layer(at.Keys, 1)| == CHILDREN_PER_NODE
    ensures |Layer(at.Keys, 2)| <= 49
  {
    var K := at.Keys;
    TidyGoesOn(t, at);
    UpToSize(K, NIBBLE_COUNT);
    UpToStep(K, 0);
    assert UpTo(K, NIBBLE_COUNT) == K;
    assert [] in UpTo(K, 0) by {
      var p :| p in Layer(K, 1);
      PrefixClosed(t, at, p, 0);
    }
  }
}
