/**
  The open-addressing index over a fixed table that the ideograph property engine and the named
  sequence engine both build: one slot array, linear probing, nothing is ever removed.  The keys,
  the hash and the admissibility test that comes before a probe are parameters.
 */
module ProbeIndex {
  import opened Options

  datatype Slot = Free | Holds(entry: nat)

  /** The slot `k` steps after `start`, going round. */
  function At(start: nat, k: nat, size: nat): (h: nat)
    requires start < size && k < size
    ensures h < size
  {
    if start + k < size then start + k else start + k - size
  }

  /** How many steps after `start` slot `h` comes. */
  function Steps(start: nat, h: nat, size: nat): (k: nat)
    requires start < size && h < size
    ensures k < size && At(start, k, size) == h
  {
    if h >= start then h - start else h + size - start
  }

  function Home<K>(key: K, hash: K -> nat, size: nat): (h: nat)
    requires size > 0
    ensures h < size
  {
    hash(key) % size
  }

  /** What a linear search of the table finds. */
  function FirstIndex<K(==)>(table: seq<K>, key: K): (i: int)
    ensures -1 <= i < |table|
    ensures i >= 0 ==> table[i] == key
    ensures forall j | 0 <= j < (if i >= 0 then i else |table|) :: table[j] != key
  {
    if table == [] then -1
    else if table[0] == key then 0
    else
      var i := FirstIndex(table[1..], key);
      if i < 0 then -1 else i + 1
  }

  /** The linear search behind the admissibility test. */
  function Answer<K(==)>(table: seq<K>, admissible: K -> bool, key: K): (r: Option<nat>)
    ensures r.None? <==> !admissible(key) || key !in table
    ensures r.Some? ==> r.value < |table| && table[r.value] == key && key !in table[..r.value]
  {
    if admissible(key) && FirstIndex(table, key) >= 0 then Some(FirstIndex(table, key)) else None
  }

  /** Entry `e` stands `k` steps from its home, behind entries that came before it. */
  ghost predicate Placed<K>(slots: seq<Slot>, table: seq<K>, hash: K -> nat, e: nat, k: nat) {
    && e < |table| && k < |slots|
    && slots[At(Home(table[e], hash, |slots|), k, |slots|)] == Holds(e)
    && forall j: nat | j < k :: Before(slots, At(Home(table[e], hash, |slots|), j, |slots|), e)
  }

  ghost predicate Before(slots: seq<Slot>, h: nat, e: nat) {
    h < |slots| && slots[h].Holds? && slots[h].entry < e
  }

  /** The first `|dist|` entries are in the index, entry `e` at `dist[e]` steps from its home. */
  ghost predicate Built<K>(slots: seq<Slot>, table: seq<K>, hash: K -> nat, dist: seq<nat>) {
    && |dist| <= |table|
    && (forall e: nat {:trigger Placed(slots, table, hash, e, dist[e])} | e < |dist| ::
          Placed(slots, table, hash, e, dist[e]))
    && (forall h: nat | h < |slots| && slots[h].Holds? :: slots[h].entry < |dist|)
    && FreeCount(slots) == |slots| - |dist|
  }

  function FreeCount(slots: seq<Slot>): (n: nat)
    ensures n <= |slots|
  {
    if slots == [] then 0 else FreeCount(slots[..|slots| - 1]) + if slots[|slots| - 1].Free? then 1 else 0
  }

  lemma {:induction false} SomeFree(slots: seq<Slot>) returns (h: nat)
    requires FreeCount(slots) > 0
    ensures h < |slots| && slots[h].Free?
  {
    if slots[|slots| - 1].Free? {
      h := |slots| - 1;
    } else {
      h := SomeFree(slots[..|slots| - 1]);
    }
  }

  lemma {:induction false} FillOne(slots: seq<Slot>, h: nat, e: nat)
    requires h < |slots| && slots[h].Free?
    ensures FreeCount(slots[h := Holds(e)]) == FreeCount(slots) - 1
  {
    var n := |slots| - 1;
    if h == n {
      assert slots[h := Holds(e)][..n] == slots[..n];
    } else {
      assert slots[h := Holds(e)][..n] == slots[..n][h := Holds(e)];
      FillOne(slots[..n], h, e);
    }
  }

  lemma {:induction false} AllFree(slots: seq<Slot>)
    requires forall h | 0 <= h < |slots| :: slots[h].Free?
    ensures FreeCount(slots) == |slots|
  {
    if slots != [] {
      AllFree(slots[..|slots| - 1]);
    }
  }

  /** Putting the next entry into the first free slot on its way keeps the others in place. */
  lemma Insert<K>(slots: seq<Slot>, table: seq<K>, hash: K -> nat, dist: seq<nat>, k: nat)
    requires Built(slots, table, hash, dist) && |dist| < |table| && k < |slots|
    requires var start := Home(table[|dist|], hash, |slots|);
             && slots[At(start, k, |slots|)].Free?
             && forall j: nat | j < k :: slots[At(start, j, |slots|)].Holds?
    ensures var h := At(Home(table[|dist|], hash, |slots|), k, |slots|);
            Built(slots[h := Holds(|dist|)], table, hash, dist + [k])
  {
    var n, size := |dist|, |slots|;
    var start := Home(table[n], hash, size);
    var h := At(start, k, size);
    var slots2, dist2 := slots[h := Holds(n)], dist + [k];
    FillOne(slots, h, n);
    forall e: nat | e < n ensures Placed(slots2, table, hash, e, dist2[e]) {
      StillPlaced(slots, table, hash, e, dist[e], h, n);
    }
    forall j: nat | j < k ensures Before(slots2, At(start, j, size), n) {
      assert slots[At(start, j, size)].Holds?;
    }
    assert Placed(slots2, table, hash, n, k);
  }

  lemma StillPlaced<K>(slots: seq<Slot>, table: seq<K>, hash: K -> nat, e: nat, k: nat, h: nat, n: nat)
    requires Placed(slots, table, hash, e, k) && h < |slots| && slots[h].Free?
    ensures Placed(slots[h := Holds(n)], table, hash, e, k)
  {
    var start := Home(table[e], hash, |slots|);
    forall j: nat | j < k ensures Before(slots[h := Holds(n)], At(start, j, |slots|), e) {
      assert Before(slots, At(start, j, |slots|), e);
    }
  }

  // ----- Probing -----

  /** What a probe for `key` finds from step `k` on. */
  function Probe<K(==)>(slots: seq<Slot>, table: seq<K>, key: K, start: nat, k: nat): int
    requires start < |slots| && k <= |slots|
    requires forall h | 0 <= h < |slots| && slots[h].Holds? :: slots[h].entry < |table|
    decreases |slots| - k
  {
    if k == |slots| then -1
    else
      match slots[At(start, k, |slots|)]
      case Free => -1
      case Holds(e) => if table[e] == key then e else Probe(slots, table, key, start, k + 1)
  }

  /** Without an entry for the key the probe finds nothing. */
  lemma {:induction false} ProbeMisses<K>(slots: seq<Slot>, table: seq<K>, key: K, start: nat, k: nat)
    requires start < |slots| && k <= |slots| && FirstIndex(table, key) < 0
    requires forall h | 0 <= h < |slots| && slots[h].Holds? :: slots[h].entry < |table|
    ensures Probe(slots, table, key, start, k) == -1
    decreases |slots| - k
  {
    if k < |slots| && slots[At(start, k, |slots|)].Holds? {
      ProbeMisses(slots, table, key, start, k + 1);
    }
  }

  /** With one, the probe passes the entries before it and stops at the first. */
  lemma {:induction false} ProbeHits<K>(slots: seq<Slot>, table: seq<K>, hash: K -> nat, key: K, d: nat, k: nat)
    requires var e := FirstIndex(table, key); e >= 0 && Placed(slots, table, hash, e, d)
    requires k <= d && forall h | 0 <= h < |slots| && slots[h].Holds? :: slots[h].entry < |table|
    ensures Probe(slots, table, key, Home(key, hash, |slots|), k) == FirstIndex(table, key)
    decreases d - k
  {
    if k < d {
      assert Before(slots, At(Home(key, hash, |slots|), k, |slots|), FirstIndex(table, key));
      ProbeHits(slots, table, hash, key, d, k + 1);
    }
  }

  /** Probing a finished index finds what a linear search of the table finds: the first entry for
      the key, whatever the hash, and nothing if there is none. */
  lemma ProbeIsLinearSearch<K>(slots: seq<Slot>, table: seq<K>, hash: K -> nat, dist: seq<nat>, key: K)
    requires Built(slots, table, hash, dist) && |dist| == |table| < |slots|
    ensures Probe(slots, table, key, Home(key, hash, |slots|), 0) == FirstIndex(table, key)
  {
    var e := FirstIndex(table, key);
    if e < 0 {
      ProbeMisses(slots, table, key, Home(key, hash, |slots|), 0);
    } else {
      assert Placed(slots, table, hash, e, dist[e]);
      ProbeHits(slots, table, hash, key, dist[e], 0);
    }
  }

  // ----- The index in memory -----

  class ProbeTable<K(==)> {
    const table: seq<K>
    const hash: K -> nat
    const admissible: K -> bool
    const slots: array<Slot>
    var ready: bool
    ghost var dist: seq<nat>

    /** The table leaves at least one slot free. */
    ghost predicate Valid()
      reads this, slots
    {
      && |table| < slots.Length
      && (ready ==> Built(slots[..], table, hash, dist) && |dist| == |table|)
    }

    constructor (table: seq<K>, hash: K -> nat, admissible: K -> bool, size: nat)
      requires |table| < size
      ensures Valid() && !ready && fresh(slots) && slots.Length == size
      ensures this.table == table && this.hash == hash && this.admissible == admissible
    {
      this.table, this.hash, this.admissible := table, hash, admissible;
      slots := new Slot[size](_ => Free);
      ready := false;
      dist := [];
    }

    method Build()
      requires |table| < slots.Length
      modifies this, slots
      ensures Valid() && ready
    {
      for i := 0 to slots.Length
        invariant forall h | 0 <= h < i :: slots[h].Free?
      {
        slots[i] := Free;
      }
      AllFree(slots[..]);
      dist := [];
      for i := 0 to |table|
        invariant |dist| == i && Built(slots[..], table, hash, dist)
      {
        ghost var k;
        var h;
        h, k := FreeSlot(i);
        Insert(slots[..], table, hash, dist, k);
        assert slots[..][h := Holds(i)] == slots[..h] + [Holds(i)] + slots[h + 1..];
        slots[h] := Holds(i);
        dist := dist + [k];
      }
      ready := true;
    }

    /** The first free slot on the way of entry `i`. */
    method FreeSlot(i: nat) returns (h: nat, ghost k: nat)
      requires i == |dist| < |table| < slots.Length && Built(slots[..], table, hash, dist)
      ensures k < slots.Length && h == At(Home(table[i], hash, slots.Length), k, slots.Length)
      ensures slots[h].Free?
      ensures forall j: nat | j < k :: slots[At(Home(table[i], hash, slots.Length), j, slots.Length)].Holds?
    {
      var start := Home(table[i], hash, slots.Length);
      ghost var free := SomeFree(slots[..]);
      ghost var last := Steps(start, free, slots.Length);
      h, k := start, 0;
      while slots[h].Holds?
        invariant k <= last < slots.Length && h == At(start, k, slots.Length)
        invariant slots[At(start, last, slots.Length)].Free?
        invariant forall j: nat | j < k :: slots[At(start, j, slots.Length)].Holds?
        decreases last - k
      {
        h := if h + 1 == slots.Length then 0 else h + 1;
        k := k + 1;
      }
    }

    /** Looks a key up, building the index first if need be. */
    method Find(key: K) returns (found: Option<nat>)
      requires Valid()
      modifies this, slots
      ensures Valid()
      ensures found == Answer(table, admissible, key)
    {
      if !admissible(key) {
        return None;
      }
      if !ready {
        Build();
      }
      ProbeIsLinearSearch(slots[..], table, hash, dist, key);
      var start := Home(key, hash, slots.Length);
      var h := start;
      ghost var k := 0;
      while true
        invariant k < slots.Length && h == At(start, k, slots.Length)
        invariant Probe(slots[..], table, key, start, k) == FirstIndex(table, key)
        decreases slots.Length - k
      {
        match slots[h] {
          case Free =>
            return None;
          case Holds(e) =>
            if table[e] == key {
              return Some(e);
            }
        }
        h := if h + 1 == slots.Length then 0 else h + 1;
        k := k + 1;
        if h == start {
          return None;
        }
      }
    }
  }

  /** The admissibility test in front of the probe changes no answer exactly when all keys of the table
      are admissible. */
  lemma AdmissibleFirst<K(!new)>(table: seq<K>, admissible: K -> bool)
    ensures (forall key :: Answer(table, admissible, key) == Answer(table, _ => true, key))
            <==> (forall i | 0 <= i < |table| :: admissible(table[i]))
  {
    if i :| 0 <= i < |table| && !admissible(table[i]) {
      assert FirstIndex(table, table[i]) >= 0;
      assert Answer(table, admissible, table[i]) != Answer(table, _ => true, table[i]);
    }
  }
}
