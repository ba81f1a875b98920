/**
  The volume index keeps entries by hash.  It answers like a map from paths exactly as long as no
  operation meets an entry that has another path with the hash of its own; two colliding paths show
  what happens otherwise.
 */
module VolumePaths {
  import opened CollidingPaths
  import opened PathTrie
  import opened PathTrieCapacity
  import opened PathKey
  import opened Sutf8
  import opened VolumeTable
  import opened VolumeRefinement
  import opened VolumeRuns

  type PathMap = map<CString, Entry>

  /** The same operation on a map from paths. */
  function PathStep(m: PathMap, op: Op, room: bool): (PathMap, Reply) {
    match op
    case InsertOp(path, sectorOffset, flags) =>
      if !GoodLength(path) then (m, Reply(PathTooLong, Missed))
      else if !IsSutf8(path) then (m, Reply(InvalidSutf8, Missed))
      else if |m| >= MAX_ENTRIES then (m, Reply(TableFull, Missed))
      else if path in m then (m, Reply(AlreadyExists, Missed))
      else if !room then (m, Reply(PoolExhausted, Missed))
      else (m[path := Stored(path, sectorOffset, flags)], Reply(InsertOk, Missed))
    case LookupOp(path) =>
      if !GoodLength(path) then (m, Reply(PathTooLong, Missed))
      else if path in m then (m, Reply(LookupOk, Hit(m[path])))
      else (m, Reply(NotFound, Missed))
    case RemoveOp(path) =>
      if !GoodLength(path) then (m, Reply(PathTooLong, Missed))
      else if path in m then (m - {path}, Reply(RemoveOk, Missed))
      else (m, Reply(NotFound, Missed))
    case VerifyOp => (m, Reply(IntegrityOk, Missed))
  }

  function PathRun(m: PathMap, ops: seq<Op>, rooms: seq<bool>): (PathMap, seq<Reply>)
    requires |rooms| == |ops|
    decreases |ops|
  {
    if ops == [] then (m, [])
    else
      var (m1, reply) := PathStep(m, ops[0], rooms[0]);
      var (m2, replies) := PathRun(m1, ops[1..], rooms[1..]);
      (m2, [reply] + replies)
  }

  // ----- The two maps -----

  ghost predicate Keyed(d: Directory) {
    forall h | h in d :: HashPath(d[h].path) == h
  }

  /** The same entries by path. */
  function ByPath(d: Directory): PathMap
    requires Keyed(d)
  {
    map h | h in d :: d[h].path := d[h]
  }

  lemma ByPathSize(d: Directory)
    requires Keyed(d)
    ensures |ByPath(d)| == |d|
  {
    var f := h requires h in d => d[h].path;
    OneToOneSize(d.Keys, f, ByPath(d).Keys);
  }

  lemma ByPathHas(d: Directory, p: CString)
    requires Keyed(d)
    ensures p in ByPath(d) <==> HashPath(p) in d && d[HashPath(p)].path == p
    ensures p in ByPath(d) ==> ByPath(d)[p] == d[HashPath(p)]
  {
  }

  lemma ByPathAdds(d: Directory, p: CString, h: nat, e: Entry)
    requires Keyed(d) && h == HashPath(p) && e.path == p && h !in d
    ensures Keyed(d[h := e]) && ByPath(d[h := e]) == ByPath(d)[p := e]
  {
    var d2 := d[h := e];
    forall q ensures q in ByPath(d2) <==> q in ByPath(d)[p := e] {
      AddedPath(d, p, h, e, q);
    }
  }

  lemma AddedPath(d: Directory, p: CString, h: nat, e: Entry, q: CString)
    requires Keyed(d) && h == HashPath(p) && e.path == p && h !in d
    ensures q in ByPath(d[h := e]) <==> q in ByPath(d) || q == p
  {
    var d2 := d[h := e];
    if q in ByPath(d) {
      var g :| g in d && d[g].path == q;
      assert d2[g].path == q;
    }
    assert d2[h].path == p;
  }

  lemma ByPathDrops(d: Directory, p: CString, h: nat)
    requires Keyed(d) && h == HashPath(p) && h in d && d[h].path == p
    ensures Keyed(Without(d, h)) && ByPath(Without(d, h)) == ByPath(d) - {p}
  {
    var d2 := Without(d, h);
    forall q ensures q in ByPath(d2) <==> q in ByPath(d) - {p} {
      if q in ByPath(d) && q != p {
        var g :| g in d && d[g].path == q;
        assert d2[g].path == q;
      }
    }
  }

  // ----- One operation -----

  /** An entry with another path stands under the hash of `q`. */
  predicate Foreign(d: Directory, q: CString) {
    HashPath(q) in d && d[HashPath(q)].path != q
  }

  predicate MapMisled(d: Directory, op: Op) {
    match op
    case InsertOp(path, _, _) => GoodLength(path) && IsSutf8(path) && |d| < MAX_ENTRIES && Foreign(d, path)
    case LookupOp(path) => GoodLength(path) && Foreign(d, path)
    case RemoveOp(path) => GoodLength(path) && Foreign(d, path)
    case VerifyOp => false
  }

  /** The two maps answer differently when the operation is misled, and are in step otherwise. */
  ghost predicate InStep(d: Directory, op: Op, room: bool)
    requires Keyed(d)
  {
    var ((d2, reply), (m2, reply2)) := (MapStep(d, op, room), PathStep(ByPath(d), op, room));
    Keyed(d2) && (reply == reply2 <==> !MapMisled(d, op)) && (reply == reply2 ==> m2 == ByPath(d2))
  }

  lemma InsertByPath(d: Directory, op: Op, room: bool)
    requires Keyed(d) && op.InsertOp?
    ensures InStep(d, op, room)
  {
    ByPathSize(d);
    if IsSutf8(op.path) {
      InsertGood(d, op, room, HashPath(op.path), Stored(op.path, op.sectorOffset, op.flags));
    }
  }

  lemma InsertGood(d: Directory, op: Op, room: bool, h: nat, e: Entry)
    requires Keyed(d) && op.InsertOp? && IsSutf8(op.path) && |ByPath(d)| == |d|
    requires h == HashPath(op.path) && e == Stored(op.path, op.sectorOffset, op.flags)
    ensures InStep(d, op, room)
  {
    ByPathHas(d, op.path);
    if h !in d {
      ByPathAdds(d, op.path, h, e);
    }
    InsertOutcome(d, ByPath(d), op, room, h, e);
  }

  lemma InsertOutcome(d: Directory, m: PathMap, op: Op, room: bool, h: nat, e: Entry)
    requires op.InsertOp? && IsSutf8(op.path) && h == HashPath(op.path) && |m| == |d|
    requires e == Stored(op.path, op.sectorOffset, op.flags)
    requires op.path in m <==> h in d && d[h].path == op.path
    ensures var ((d2, reply), (m2, reply2)) := (MapStep(d, op, room), PathStep(m, op, room));
            && (reply == reply2 <==> !MapMisled(d, op))
            && (d2 == d || (h !in d && d2 == d[h := e]))
            && (reply == reply2 ==> (d2 == d && m2 == m) || (h !in d && d2 == d[h := e] && m2 == m[op.path := e]))
  {
  }

  lemma RemoveByPath(d: Directory, op: Op, room: bool, h: nat)
    requires Keyed(d) && op.RemoveOp? && h == HashPath(op.path)
    ensures InStep(d, op, room)
  {
    ByPathHas(d, op.path);
    if h in d && d[h].path == op.path {
      ByPathDrops(d, op.path, h);
    }
    RemoveOutcome(d, ByPath(d), op, room, h);
  }

  lemma RemoveOutcome(d: Directory, m: PathMap, op: Op, room: bool, h: nat)
    requires op.RemoveOp? && h == HashPath(op.path) && (op.path in m <==> h in d && d[h].path == op.path)
    ensures var ((d2, reply), (m2, reply2)) := (MapStep(d, op, room), PathStep(m, op, room));
            && (reply == reply2 <==> !MapMisled(d, op))
            && (d2 == d || d2 == Without(d, h))
            && (reply == reply2 ==>
                  (d2 == d && m2 == m) || (op.path in m && d2 == Without(d, h) && m2 == m - {op.path}))
  {
  }

  lemma LookupByPath(d: Directory, op: Op, room: bool, h: nat)
    requires Keyed(d) && op.LookupOp? && h == HashPath(op.path)
    ensures InStep(d, op, room)
  {
    ByPathHas(d, op.path);
    LookupOutcome(d, ByPath(d), op, room, h);
  }

  lemma LookupOutcome(d: Directory, m: PathMap, op: Op, room: bool, h: nat)
    requires op.LookupOp? && h == HashPath(op.path) && (op.path in m <==> h in d && d[h].path == op.path)
    requires op.path in m ==> m[op.path] == d[h]
    ensures var ((d2, reply), (m2, reply2)) := (MapStep(d, op, room), PathStep(m, op, room));
            (reply == reply2 <==> !MapMisled(d, op)) && d2 == d && m2 == m
  {
  }

  lemma StepByPath(d: Directory, op: Op, room: bool)
    requires Keyed(d)
    ensures InStep(d, op, room)
  {
    match op
    case InsertOp(_, _, _) => InsertByPath(d, op, room);
    case RemoveOp(_) => RemoveByPath(d, op, room, HashPath(op.path));
    case LookupOp(_) => LookupByPath(d, op, room, HashPath(op.path));
    case VerifyOp =>
  }

  // ----- The same for the table -----

  /** A live entry has another path with the hash of `q`. */
  ghost predicate Shadowed(s: Table, q: CString) {
    exists e :: e in s.entries && e.occupied && e.path != q && HashPath(e.path) == HashPath(q)
  }

  /** A live entry has this path. */
  ghost predicate Listed(s: Table, q: CString) {
    exists e :: e in s.entries && e.occupied && e.path == q
  }

  /** The operation gets as far as the index, and the index holds another path with the same hash. */
  ghost predicate Misled(s: Table, op: Op) {
    match op
    case InsertOp(path, _, _) => GoodLength(path) && IsSutf8(path) && s.count < MAX_ENTRIES && Shadowed(s, path)
    case LookupOp(path) => GoodLength(path) && Shadowed(s, path)
    case RemoveOp(path) => GoodLength(path) && Shadowed(s, path)
    case VerifyOp => false
  }

  lemma BindingsKeyed(s: Table, at: Index)
    requires TableInv(s, at)
    ensures Distinct(s.entries) && Keyed(Bindings(s.entries)) && |Bindings(s.entries)| == s.count
    ensures forall e | e in s.entries && e.occupied :: Bound(s, e)
  {
    InvDistinct(s, at);
    BindingsSize(s.entries);
    forall i: nat | i < MAX_ENTRIES && s.entries[i].occupied
      ensures s.entries[i].pathHash == HashPath(s.entries[i].path)
    {
      assert SlotLeaf(s, at, i);
    }
  }

  ghost predicate Bound(s: Table, e: Entry) {
    Distinct(s.entries) && HashPath(e.path) in Bindings(s.entries) && Bindings(s.entries)[HashPath(e.path)] == e
  }

  lemma ShadowedIs(s: Table, at: Index, q: CString)
    requires TableInv(s, at)
    ensures Distinct(s.entries) && Keyed(Bindings(s.entries))
    ensures Shadowed(s, q) <==> Foreign(Bindings(s.entries), q)
    ensures Listed(s, q) <==> q in ByPath(Bindings(s.entries))
  {
    BindingsKeyed(s, at);
    var d, h := Bindings(s.entries), HashPath(q);
    ByPathHas(d, q);
    if h in d {
      assert d[h] in s.entries && d[h].occupied;
    }
    forall e | e in s.entries && e.occupied && HashPath(e.path) == h ensures h in d && d[h] == e {
      assert Bound(s, e);
    }
  }

  lemma MisledIs(s: Table, at: Index, op: Op)
    requires TableInv(s, at)
    ensures Distinct(s.entries) && (Misled(s, op) <==> MapMisled(Bindings(s.entries), op))
  {
    BindingsKeyed(s, at);
    if !op.VerifyOp? {
      ShadowedIs(s, at, op.path);
    }
  }

  /** A lookup returns an entry with another path exactly when there is one with the same hash. */
  lemma LookupFindsOther(s: Table, at: Index, q: CString)
    requires TableInv(s, at)
    ensures var found := Lookup(s, q).1;
            found.Hit? && found.entry.path != q <==> GoodLength(q) && Shadowed(s, q)
  {
    LookupRefines(s, at, q);
    ShadowedIs(s, at, q);
  }

  /** An insertion is refused as a duplicate although no entry has its path exactly when one has another
      path with the same hash, and the insertion gets that far. */
  lemma InsertRefusesNew(s: Table, at: Index, q: CString, sectorOffset: nat, flags: nat)
    requires TableInv(s, at)
    ensures Insert(s, q, sectorOffset, flags).1 == AlreadyExists && !Listed(s, q)
            <==> GoodLength(q) && IsSutf8(q) && s.count < MAX_ENTRIES && Shadowed(s, q)
  {
    InsertRefines(s, at, q, sectorOffset, flags);
    BindingsKeyed(s, at);
    ShadowedIs(s, at, q);
    ByPathHas(Bindings(s.entries), q);
  }

  /** A removal succeeds although no entry has its path exactly when one has another path with the same
      hash. */
  lemma RemoveTakesOther(s: Table, at: Index, q: CString)
    requires TableInv(s, at)
    ensures Remove(s, q).1 == RemoveOk && !Listed(s, q) <==> GoodLength(q) && Shadowed(s, q)
  {
    RemoveRefines(s, at, q);
    ShadowedIs(s, at, q);
    ByPathHas(Bindings(s.entries), q);
  }

  lemma RemovedBinding(s: Table, at: Index, q: CString, s2: Table, h: nat)
    requires TableInv(s, at) && Remove(s, q) == (s2, RemoveOk) && h == HashPath(q)
    ensures Distinct(s.entries) && Distinct(s2.entries) && Bindings(s2.entries) == Without(Bindings(s.entries), h)
  {
    RemoveRefines(s, at, q);
  }

  /** Whenever it succeeds, it is the path with that hash that is gone. */
  lemma RemoveTakesHash(s: Table, at: Index, q: CString, s2: Table, p: CString)
    requires TableInv(s, at) && Remove(s, q) == (s2, RemoveOk)
    ensures Listed(s2, p) <==> Listed(s, p) && HashPath(p) != HashPath(q)
  {
    var h, g := HashPath(q), HashPath(p);
    RemovedBinding(s, at, q, s2, h);
    var at2 := RemoveInv(s, at, q);
    ListedAfter(s, at, s2, at2, h, p, g);
  }

  lemma ListedAfter(s: Table, at: Index, s2: Table, at2: Index, h: nat, p: CString, g: nat)
    requires TableInv(s, at) && TableInv(s2, at2) && Distinct(s.entries) && Distinct(s2.entries)
    requires Bindings(s2.entries) == Without(Bindings(s.entries), h) && g == HashPath(p)
    ensures Listed(s2, p) <==> Listed(s, p) && g != h
  {
    ShadowedIs(s, at, p);
    ShadowedIs(s2, at2, p);
    HashGone(Bindings(s.entries), h, Bindings(s2.entries), p, g);
  }

  lemma HashGone(d: Directory, h: nat, d2: Directory, p: CString, g: nat)
    requires Keyed(d) && d2 == Without(d, h) && Keyed(d2) && g == HashPath(p)
    ensures p in ByPath(d2) <==> p in ByPath(d) && g != h
  {
    ByPathHas(d, p);
    ByPathHas(d2, p);
  }

  // ----- Whole runs -----

  /** No operation of the run is misled. */
  ghost predicate NeverMisled(s: Table, ops: seq<Op>)
    requires TableTyped(s)
    decreases |ops|
  {
    ops != [] ==> !Misled(s, ops[0]) && NeverMisled(Step(s, ops[0]).0, ops[1..])
  }

  lemma StepIsPathStep(s: Table, at: Index, op: Op) returns (at2: Index)
    requires TableInv(s, at)
    ensures TableInv(Step(s, op).0, at2)
    ensures Distinct(s.entries) && Keyed(Bindings(s.entries))
    ensures Distinct(Step(s, op).0.entries) && Keyed(Bindings(Step(s, op).0.entries))
    ensures var (m2, reply2) := PathStep(ByPath(Bindings(s.entries)), op, Room(s, op));
            && (Step(s, op).1 == reply2 <==> !Misled(s, op))
            && (!Misled(s, op) ==> m2 == ByPath(Bindings(Step(s, op).0.entries)))
  {
    at2 := StepInv(s, at, op);
    BindingsKeyed(s, at);
    MisledIs(s, at, op);
    StepByPath(Bindings(s.entries), op, Room(s, op));
  }

  /** What a run from the table `s` and the same run from the map `m` have in common. */
  ghost predicate RunsAlike(s: Table, ops: seq<Op>, m: PathMap, rooms: seq<bool>)
    requires TableTyped(s) && |rooms| == |ops|
  {
    var (m2, replies2) := PathRun(m, ops, rooms);
    && (Run(s, ops).1 == replies2 <==> NeverMisled(s, ops))
    && (NeverMisled(s, ops) ==>
          Distinct(Run(s, ops).0.entries) && Keyed(Bindings(Run(s, ops).0.entries))
          && m2 == ByPath(Bindings(Run(s, ops).0.entries)))
  }

  lemma {:induction false} RunByPath(s: Table, at: Index, ops: seq<Op>, m: PathMap, rooms: seq<bool>)
    requires TableInv(s, at) && Distinct(s.entries) && Keyed(Bindings(s.entries))
    requires m == ByPath(Bindings(s.entries)) && rooms == Rooms(s, ops)
    ensures RunsAlike(s, ops, m, rooms)
    decreases |ops|
  {
    if ops != [] {
      var op, room := ops[0], rooms[0];
      var at1 := StepIsPathStep(s, at, op);
      var (s1, reply) := Step(s, op);
      var (m1, reply2) := PathStep(m, op, room);
      assert rooms[1..] == Rooms(s1, ops[1..]);
      if !Misled(s, op) {
        RunByPath(s1, at1, ops[1..], m1, rooms[1..]);
      }
      FirstThenRest(s, ops, m, rooms, s1, reply, m1, reply2);
    }
  }

  lemma FirstThenRest(s: Table, ops: seq<Op>, m: PathMap, rooms: seq<bool>, s1: Table, reply: Reply, m1: PathMap,
                      reply2: Reply)
    requires TableTyped(s) && |rooms| == |ops| && ops != []
    requires (s1, reply) == Step(s, ops[0]) && (m1, reply2) == PathStep(m, ops[0], rooms[0])
    requires reply == reply2 <==> !Misled(s, ops[0])
    requires !Misled(s, ops[0]) ==> RunsAlike(s1, ops[1..], m1, rooms[1..])
    ensures RunsAlike(s, ops, m, rooms)
  {
    RunFirst(s, ops, s1, reply);
    PathRunFirst(m, ops, rooms);
    var rest, rest2 := Run(s1, ops[1..]).1, PathRun(m1, ops[1..], rooms[1..]).1;
    SameCons(reply, rest, reply2, rest2);
  }

  lemma SameCons(a: Reply, r: seq<Reply>, b: Reply, t: seq<Reply>)
    ensures [a] + r == [b] + t <==> a == b && r == t
  {
    assert ([a] + r)[0] == a && ([b] + t)[0] == b;
    assert ([a] + r)[1..] == r && ([b] + t)[1..] == t;
  }

  lemma PathRunFirst(m: PathMap, ops: seq<Op>, rooms: seq<bool>)
    requires |rooms| == |ops| && ops != []
    ensures var (m1, reply) := PathStep(m, ops[0], rooms[0]);
            var rest := PathRun(m1, ops[1..], rooms[1..]);
            PathRun(m, ops, rooms) == (rest.0, [reply] + rest.1)
  {
  }

  /** A run from the initial table replies what the same run on an empty map from paths replies exactly
      when no operation of it is misled, and then it ends in the same map. */
  lemma RunIsPathRun(volumeId: nat, ops: seq<Op>)
    ensures RunsAlike(InitTable(volumeId), ops, map[], Rooms(InitTable(volumeId), ops))
  {
    InitInv(volumeId);
    RunFromNothing(InitTable(volumeId), ops, Rooms(InitTable(volumeId), ops));
  }

  lemma RunFromNothing(s: Table, ops: seq<Op>, rooms: seq<bool>)
    requires TableInv(s, map[]) && s.count == 0 && rooms == Rooms(s, ops)
    ensures RunsAlike(s, ops, map[], rooms)
  {
    BindingsKeyed(s, map[]);
    ByPathSize(Bindings(s.entries));
    RunByPath(s, map[], ops, ByPath(Bindings(s.entries)), rooms);
    assert ByPath(Bindings(s.entries)) == map[];
  }

  // ----- Paths without a collision -----

  ghost predicate NoCollision(paths: set<CString>) {
    forall p, q | p in paths && q in paths && HashPath(p) == HashPath(q) :: p == q
  }

  predicate Uses(op: Op, paths: set<CString>) {
    op.VerifyOp? || op.path in paths
  }

  /** All live entries have paths of the set. */
  ghost predicate EntriesFrom(s: Table, paths: set<CString>) {
    forall e | e in s.entries && e.occupied :: e.path in paths
  }

  lemma StepEntriesFrom(s: Table, op: Op, paths: set<CString>)
    requires TableTyped(s) && EntriesFrom(s, paths) && Uses(op, paths)
    ensures EntriesFrom(Step(s, op).0, paths)
  {
  }

  lemma {:induction false} DistinctNeverMisled(s: Table, ops: seq<Op>, paths: set<CString>)
    requires TableTyped(s) && EntriesFrom(s, paths) && NoCollision(paths)
    requires forall op | op in ops :: Uses(op, paths)
    ensures NeverMisled(s, ops)
    decreases |ops|
  {
    if ops != [] {
      assert ops[0] in ops;
      StepEntriesFrom(s, ops[0], paths);
      DistinctNeverMisled(Step(s, ops[0]).0, ops[1..], paths);
    }
  }

  /** No operation of a run over paths without a collision is misled. */
  lemma NoCollisionNeverMisled(volumeId: nat, ops: seq<Op>, paths: set<CString>)
    requires NoCollision(paths) && forall op | op in ops :: Uses(op, paths)
    ensures NeverMisled(InitTable(volumeId), ops)
  {
    DistinctNeverMisled(InitTable(volumeId), ops, paths);
  }

  // ----- Lookups in a run -----

  /** A reply to a successful lookup carries an entry of the path that was asked for. */
  predicate FindsAsked(op: Op, reply: Reply) {
    reply.status == LookupOk ==> op.LookupOp? && reply.found.Hit? && reply.found.entry.path == op.path
  }

  /** In any run a lookup that succeeds returns an entry of the path it asked for exactly when it is not
      misled. */
  lemma LookupFindsPath(volumeId: nat, ops: seq<Op>, replies: seq<Reply>, s: Table, k: nat)
    requires k < |ops| && replies == Run(InitTable(volumeId), ops).1 && s == Run(InitTable(volumeId), ops[..k]).0
    ensures FindsAsked(ops[k], replies[k]) <==> !(ops[k].LookupOp? && Misled(s, ops[k]))
  {
    InitInv(volumeId);
    RunSplit(InitTable(volumeId), ops, k);
    var at := RunRefines(InitTable(volumeId), map[], ops[..k]);
    ReplyFinds(s, at, ops[k], Step(s, ops[k]).1);
  }

  lemma ReplyFinds(s: Table, at: Index, op: Op, reply: Reply)
    requires TableInv(s, at) && reply == Step(s, op).1
    ensures FindsAsked(op, reply) <==> !(op.LookupOp? && Misled(s, op))
  {
    if op.LookupOp? {
      LookupFindsOther(s, at, op.path);
    } else {
      StepTells(s, at, op);
    }
  }

  // ----- Two colliding paths -----

  /** Insert the one, look the other up, insert it, remove it, and look the first one up. */
  function CollidingOps(a: CString, b: CString): seq<Op> {
    [InsertOp(a, 0, 0), LookupOp(b), InsertOp(b, 0, 0), RemoveOp(b), LookupOp(a)]
  }

  /** On the map: the second path is taken for the first one throughout, and removing it removes the
      entry of the first. */
  lemma CollidingMapRun(a: CString, b: CString, h: nat, rooms: seq<bool>)
    requires GoodLength(a) && IsSutf8(a) && GoodLength(b) && IsSutf8(b) && h == HashPath(a) == HashPath(b)
    requires |rooms| == 5 && rooms[0]
    ensures MapRun(map[], CollidingOps(a, b), rooms).1 == CollidingReplies(a)
  {
    var one: Directory := map[h := Stored(a, 0, 0)];
    ThenInsert(a, b, h, one, rooms[2..]);
    ThenLookup(b, h, one, [InsertOp(b, 0, 0), RemoveOp(b), LookupOp(a)], rooms[1..]);
    var ops := [LookupOp(b)] + [InsertOp(b, 0, 0), RemoveOp(b), LookupOp(a)];
    MapRunNext(map[], InsertOp(a, 0, 0), ops, rooms[0], rooms[1..], one, Reply(InsertOk, Missed));
    assert CollidingOps(a, b) == [InsertOp(a, 0, 0)] + ops && rooms == [rooms[0]] + rooms[1..];
  }

  lemma ThenLookup(b: CString, h: nat, one: Directory, ops: seq<Op>, rooms: seq<bool>)
    requires GoodLength(b) && h == HashPath(b) && h in one && |rooms| == |ops| + 1
    ensures MapRun(one, [LookupOp(b)] + ops, rooms).1
            == [Reply(LookupOk, Hit(one[h]))] + MapRun(one, ops, rooms[1..]).1
  {
    MapRunNext(one, LookupOp(b), ops, rooms[0], rooms[1..], one, Reply(LookupOk, Hit(one[h])));
    assert rooms == [rooms[0]] + rooms[1..];
  }

  lemma ThenInsert(a: CString, b: CString, h: nat, one: Directory, rooms: seq<bool>)
    requires GoodLength(a) && GoodLength(b) && IsSutf8(b) && h == HashPath(a) == HashPath(b)
    requires |rooms| == 3 && one.Keys == {h} && |one| == 1
    ensures MapRun(one, [InsertOp(b, 0, 0), RemoveOp(b), LookupOp(a)], rooms).1
            == [Reply(AlreadyExists, Missed), Reply(RemoveOk, Missed), Reply(NotFound, Missed)]
  {
    var ops := [RemoveOp(b), LookupOp(a)];
    ThenRemove(a, b, h, one, rooms[1..]);
    MapRunNext(one, InsertOp(b, 0, 0), ops, rooms[0], rooms[1..], one, Reply(AlreadyExists, Missed));
    assert [InsertOp(b, 0, 0)] + ops == [InsertOp(b, 0, 0), RemoveOp(b), LookupOp(a)];
    assert rooms == [rooms[0]] + rooms[1..];
  }

  lemma ThenRemove(a: CString, b: CString, h: nat, one: Directory, rooms: seq<bool>)
    requires GoodLength(a) && GoodLength(b) && h == HashPath(a) == HashPath(b) && |rooms| == 2 && one.Keys == {h}
    ensures MapRun(one, [RemoveOp(b), LookupOp(a)], rooms).1 == [Reply(RemoveOk, Missed), Reply(NotFound, Missed)]
  {
    var none := Without(one, h);
    ThenNothing(a, h, none, rooms[1..]);
    MapRunNext(one, RemoveOp(b), [LookupOp(a)], rooms[0], rooms[1..], none, Reply(RemoveOk, Missed));
    assert [RemoveOp(b)] + [LookupOp(a)] == [RemoveOp(b), LookupOp(a)] && rooms == [rooms[0]] + rooms[1..];
  }

  lemma ThenNothing(a: CString, h: nat, none: Directory, rooms: seq<bool>)
    requires GoodLength(a) && h == HashPath(a) && h !in none && |rooms| == 1
    ensures MapRun(none, [LookupOp(a)], rooms).1 == [Reply(NotFound, Missed)]
  {
  }

  lemma MapRunNext(m: Directory, op: Op, ops: seq<Op>, room: bool, rooms: seq<bool>, m1: Directory, reply: Reply)
    requires |ops| == |rooms| && MapStep(m, op, room) == (m1, reply)
    ensures MapRun(m, [op] + ops, [room] + rooms).1 == [reply] + MapRun(m1, ops, rooms).1
  {
    assert ([op] + ops)[1..] == ops && ([room] + rooms)[1..] == rooms;
  }

  function CollidingReplies(a: CString): seq<Reply>
    requires IsSutf8(a)
  {
    [Reply(InsertOk, Missed), Reply(LookupOk, Hit(Stored(a, 0, 0))), Reply(AlreadyExists, Missed),
     Reply(RemoveOk, Missed), Reply(NotFound, Missed)]
  }

  /** What a new index replies for two paths with the same hash. */
  lemma CollidingRun(volumeId: nat, a: CString, b: CString)
    requires GoodLength(a) && IsSutf8(a) && GoodLength(b) && IsSutf8(b) && HashPath(a) == HashPath(b)
    ensures Run(InitTable(volumeId), CollidingOps(a, b)).1 == CollidingReplies(a)
  {
    var s, ops := InitTable(volumeId), CollidingOps(a, b);
    RunIsMapRun(volumeId, ops);
    CollidingMapRun(a, b, HashPath(a), Rooms(s, ops));
  }

  /** There are such paths: looking the second one up returns the entry of the first, inserting it is
      refused, and removing it deletes the entry of the first. */
  lemma CollisionReached(volumeId: nat)
    ensures FirstPath() != SecondPath() && IsSutf8(FirstPath())
    ensures Run(InitTable(volumeId), CollidingOps(FirstPath(), SecondPath())).1 == CollidingReplies(FirstPath())
  {
    Collision();
    CollidingRun(volumeId, FirstPath(), SecondPath());
  }
}
