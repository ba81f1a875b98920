/**
  The line-break engine: classification with tailoring overrides, the pair matrix, the stateless
  pair form and the single-pass stream form (modelled on UAX #14, Unicode Line Breaking Algorithm).
 */
module LineBreak {
  import opened Options

  /** Break classes are small numbers; an override list may hold any number. */
  type Class = int

  const BK: Class := 0
  const CR: Class := 1
  const LF: Class := 2
  const CM: Class := 3
  const NL: Class := 4
  const WJ: Class := 6
  const ZW: Class := 7
  const GL: Class := 8
  const SP: Class := 9
  const ZWJ: Class := 10
  const BA: Class := 12
  const HY: Class := 14
  const CL: Class := 16
  const CP: Class := 17
  const EX: Class := 18
  const IS: Class := 20
  const NU: Class := 21
  const OP: Class := 22
  const PO: Class := 23
  const PR: Class := 24
  const QU: Class := 25
  const AL: Class := 27
  const ID: Class := 28
  const EB: Class := 29
  const EM: Class := 30
  const H2: Class := 31
  const H3: Class := 32
  const HL: Class := 33
  const RI: Class := 34
  const JL: Class := 35
  const JV: Class := 36
  const JT: Class := 37
  const XX: Class := 38
  const CLASS_COUNT: nat := 39

  const UNICODE_MAX: nat := 0x10FFFF
  const SCP_MIN: nat := 0x110000
  const SCP_MAX: nat := 0x11FFFF
  const NATIVE_MIN: nat := 0x120000
  const NATIVE_WORD_MAX: nat := 0xFFFFFF
  const BASE_MAX: nat := 0x7FFFFFFF

  const BRK_MANDATORY: nat := 0x110020
  const BRK_PROHIBITED: nat := 0x110021
  const BRK_OPPORTUNISTIC: nat := 0x110022

  datatype Status = MustBreak | CanBreak | NoBreak | AlphanumBreak

  datatype Range = Range(lo: nat, hi: nat, cls: Class)

  /** The break classes of the Unicode zone, below and from U+00A0 on. */
  const BRIDGE_ASCII: seq<Range> := [
    Range(0x000A, 0x000B, LF), Range(0x000D, 0x000D, CR), Range(0x0020, 0x0020, SP), Range(0x0021, 0x0021, EX),
    Range(0x0022, 0x0022, QU), Range(0x0024, 0x0024, PR), Range(0x0027, 0x0027, QU), Range(0x0028, 0x0028, OP),
    Range(0x0029, 0x0029, CP), Range(0x002C, 0x002C, IS), Range(0x002D, 0x002D, HY), Range(0x002E, 0x002E, IS),
    Range(0x0030, 0x0039, NU), Range(0x003A, 0x003B, IS), Range(0x003F, 0x003F, EX), Range(0x0041, 0x005A, AL),
    Range(0x005B, 0x005B, OP), Range(0x005D, 0x005D, CP), Range(0x0061, 0x007A, AL), Range(0x007B, 0x007B, OP),
    Range(0x007D, 0x007D, CP)]

  const BRIDGE_REST: seq<Range> := [
    Range(0x00A0, 0x00A0, GL), Range(0x00A3, 0x00A3, PR), Range(0x00A5, 0x00A5, PR), Range(0x00C0, 0x024F, AL),
    Range(0x0300, 0x036F, CM), Range(0x0370, 0x03FF, AL), Range(0x0400, 0x052F, AL), Range(0x05D0, 0x05EA, HL),
    Range(0x200B, 0x200B, ZW), Range(0x200D, 0x200D, ZWJ), Range(0x2010, 0x2010, BA), Range(0x2011, 0x2011, GL),
    Range(0x2018, 0x201F, QU), Range(0x2028, 0x2029, BK), Range(0x202F, 0x202F, GL), Range(0x2060, 0x2060, WJ),
    Range(0x2E80, 0x2FFF, ID), Range(0x3001, 0x3001, BA), Range(0x3002, 0x3002, CL), Range(0x3041, 0x30FF, ID),
    Range(0x3400, 0x4DBF, ID), Range(0x4E00, 0x9FFF, ID), Range(0xAC00, 0xAC00, H2), Range(0xAC01, 0xD7A3, H3),
    Range(0xF900, 0xFAFF, ID), Range(0x1F1E6, 0x1F1FF, RI)]

  const BRIDGE: seq<Range> := BRIDGE_ASCII + BRIDGE_REST

  // ----- Range lists -----

  predicate Contains(r: Range, cp: nat) {
    r.lo <= cp <= r.hi
  }

  /** Sorted and free of overlaps. */
  ghost predicate Sorted(list: seq<Range>) {
    && (forall i | 0 <= i < |list| :: list[i].lo <= list[i].hi)
    && (forall i, j | 0 <= i < j < |list| :: list[i].hi < list[j].lo)
  }

  /** The class of the first range that holds `cp`. */
  function Scan(list: seq<Range>, cp: nat): Option<Class> {
    if list == [] then None
    else if Contains(list[0], cp) then Some(list[0].cls)
    else Scan(list[1..], cp)
  }

  lemma {:induction false} ScanFinds(list: seq<Range>, cp: nat, k: nat)
    requires k < |list| && Contains(list[k], cp) && forall i | 0 <= i < k :: !Contains(list[i], cp)
    ensures Scan(list, cp) == Some(list[k].cls)
    decreases k
  {
    if k > 0 {
      ScanFinds(list[1..], cp, k - 1);
    }
  }

  lemma {:induction false} ScanMisses(list: seq<Range>, cp: nat)
    requires forall i | 0 <= i < |list| :: !Contains(list[i], cp)
    ensures Scan(list, cp) == None
  {
    if list != [] {
      ScanMisses(list[1..], cp);
    }
  }

  /** Binary search, which on a sorted list finds what a linear scan finds.  On any other list what it
      finds still comes from a range that holds `cp`. */
  method Search(list: seq<Range>, cp: nat) returns (found: Option<Class>)
    ensures Sorted(list) ==> found == Scan(list, cp)
    ensures found.Some? ==> exists i :: 0 <= i < |list| && Contains(list[i], cp) && found.value == list[i].cls
  {
    var lo, hi := 0, |list|;
    while lo < hi
      invariant 0 <= lo <= hi <= |list|
      invariant Sorted(list) ==> forall i | 0 <= i < |list| && !(lo <= i < hi) :: !Contains(list[i], cp)
      decreases hi - lo
    {
      var mid := lo + (hi - lo) / 2;
      var r := list[mid];
      if cp < r.lo {
        hi := mid;
      } else if cp > r.hi {
        lo := mid + 1;
      } else {
        if Sorted(list) {
          ScanFinds(list, cp, mid);
        }
        return Some(r.cls);
      }
    }
    if Sorted(list) {
      ScanMisses(list, cp);
    }
    return None;
  }

  /** It is enough to compare neighbours. */
  lemma {:induction false} Climbs(list: seq<Range>, i: nat, j: nat)
    requires i < j < |list| && forall k | 0 <= k < |list| :: list[k].lo <= list[k].hi
    requires forall k | 0 < k < |list| :: list[k - 1].hi < list[k].lo
    ensures list[i].hi < list[j].lo
  {
    if i < j - 1 {
      Climbs(list, i, j - 1);
    }
  }

  lemma NeighboursSorted(list: seq<Range>)
    requires forall k | 0 <= k < |list| :: list[k].lo <= list[k].hi
    requires forall k | 0 < k < |list| :: list[k - 1].hi < list[k].lo
    ensures Sorted(list)
  {
    forall i, j | 0 <= i < j < |list| ensures list[i].hi < list[j].lo {
      Climbs(list, i, j);
    }
  }

  lemma AsciiNeighbours(k: nat)
    requires k < |BRIDGE_ASCII|
    ensures BRIDGE_ASCII[k].lo <= BRIDGE_ASCII[k].hi < 0xA0
    ensures k > 0 ==> BRIDGE_ASCII[k - 1].hi < BRIDGE_ASCII[k].lo
  {
  }

  lemma RestNeighbours(k: nat)
    requires k < |BRIDGE_REST|
    ensures 0xA0 <= BRIDGE_REST[k].lo <= BRIDGE_REST[k].hi
    ensures k > 0 ==> BRIDGE_REST[k - 1].hi < BRIDGE_REST[k].lo
  {
  }

  lemma BridgeSorted()
    ensures Sorted(BRIDGE)
  {
    forall k | 0 <= k < |BRIDGE|
      ensures BRIDGE[k].lo <= BRIDGE[k].hi
      ensures k > 0 ==> BRIDGE[k - 1].hi < BRIDGE[k].lo
    {
      var n := |BRIDGE_ASCII|;
      if k < n {
        AsciiNeighbours(k);
      } else {
        AsciiNeighbours(n - 1);
        RestNeighbours(k - n);
      }
    }
    NeighboursSorted(BRIDGE);
  }

  // ----- Classification -----

  predicate IsMarker(cp: nat) {
    cp in {BRK_MANDATORY, BRK_PROHIBITED, BRK_OPPORTUNISTIC}
  }

  function ZoneClass(cp: nat): Class {
    if cp <= UNICODE_MAX then (match Scan(BRIDGE, cp) case Some(c) => c case None => XX)
    else if cp == BRK_MANDATORY then BK
    else if cp == BRK_PROHIBITED then GL
    else if cp == BRK_OPPORTUNISTIC then BA
    else if SCP_MIN <= cp <= SCP_MAX then BK
    else if NATIVE_MIN <= cp <= NATIVE_WORD_MAX then ID
    else XX
  }

  function Classified(cp: nat, overrides: seq<Range>): Class {
    match Scan(overrides, cp)
    case Some(c) => c
    case None => ZoneClass(cp)
  }

  method Classify(cp: nat, overrides: seq<Range>) returns (c: Class)
    requires Sorted(overrides)
    ensures c == Classified(cp, overrides)
  {
    var found := Search(overrides, cp);
    if found.Some? {
      return found.value;
    }
    if cp <= UNICODE_MAX {
      BridgeSorted();
      found := Search(BRIDGE, cp);
      return if found.Some? then found.value else XX;
    }
    if cp == BRK_MANDATORY {
      return BK;
    }
    if cp == BRK_PROHIBITED {
      return GL;
    }
    if cp == BRK_OPPORTUNISTIC {
      return BA;
    }
    if SCP_MIN <= cp <= SCP_MAX {
      return BK;
    }
    if cp <= BASE_MAX {
      return if IsNativeWord(cp) then ID else XX;
    }
    return XX;
  }

  /** The native word test; the second half, on the high byte, always passes. */
  predicate IsNativeWord(cp: nat) {
    NATIVE_MIN <= cp <= NATIVE_WORD_MAX && cp / 0x100_0000 % 0x100 <= 0x0F
  }

  // ----- The pair rules -----

  predicate IsAlpha(c: Class) {
    c in {AL, HL, ID, EB, EM, H2, H3, JL, JV, JT}
  }

  predicate IsWord(c: Class) {
    IsAlpha(c) || c == NU
  }

  const RULES: nat := 12

  /** Whether rule `k` speaks about the pair. */
  predicate Matches(k: nat, p: Class, c: Class) {
    match k
    case 0 => p == CR && c == LF
    case 1 => p in {BK, CR, LF, NL} || c in {LF, NL}
    case 2 => p == WJ || c == WJ
    case 3 => p == ZW
    case 4 => p == GL && c != SP
    case 5 => p == SP && c == SP
    case 6 => IsWord(p) && IsWord(c)
    case 7 => p == OP
    case 8 => c in {CL, CP, EX}
    case 9 => c == GL
    case 10 => p == QU
    case 11 => IsAlpha(p) && c in {PR, PO}
    case _ => true
  }

  function Outcome(k: nat): Status {
    match k
    case 1 => MustBreak
    case 3 => CanBreak
    case 11 => AlphanumBreak
    case _ => if k < RULES then NoBreak else CanBreak
  }

  /** The first rule from `k` on that speaks about the pair; the last one always does. */
  function FirstRule(p: Class, c: Class, k: nat): (r: nat)
    requires k <= RULES
    ensures k <= r <= RULES && Matches(r, p, c) && forall j | k <= j < r :: !Matches(j, p, c)
    decreases RULES - k
  {
    if k == RULES || Matches(k, p, c) then k else FirstRule(p, c, k + 1)
  }

  function PairRule(p: Class, c: Class): Status {
    Outcome(FirstRule(p, c, 0))
  }

  lemma FirstRuleIs(p: Class, c: Class, r: nat)
    requires r <= RULES && Matches(r, p, c) && forall j: nat | j < r :: !Matches(j, p, c)
    ensures PairRule(p, c) == Outcome(r)
  {
    var f := FirstRule(p, c, 0);
    assert Matches(f, p, c);
    if f < r {
      assert false;
    }
  }

  /** Exactly the pairs with a hard control break hard, save CR before LF. */
  lemma MustBreaks(p: Class, c: Class)
    ensures PairRule(p, c) == MustBreak
            <==> (p in {BK, CR, LF, NL} || c in {LF, NL}) && !(p == CR && c == LF)
  {
    var f := FirstRule(p, c, 0);
    assert !Matches(0, p, c) || f == 0;
    assert Matches(1, p, c) ==> f <= 1;
  }

  /** Exactly a letter before a numeric prefix or postfix gives the alphanumeric break: no earlier
      rule gets in the way. */
  lemma AlphanumBreaks(p: Class, c: Class)
    ensures PairRule(p, c) == AlphanumBreak <==> IsAlpha(p) && c in {PR, PO}
  {
    var f := FirstRule(p, c, 0);
    if IsAlpha(p) && c in {PR, PO} {
      assert Matches(11, p, c);
      assert forall k: nat | k < 11 :: !Matches(k, p, c);
    }
  }

  // ----- The matrix -----

  class PairMatrix {
    const cells: array2<Status>
    var seeded: bool

    ghost predicate Valid()
      reads this, cells
    {
      && cells.Length0 == cells.Length1 == CLASS_COUNT
      && (seeded ==> forall p: nat, c: nat | p < CLASS_COUNT && c < CLASS_COUNT :: cells[p, c] == PairRule(p, c))
    }

    constructor ()
      ensures Valid() && !seeded && fresh(cells)
    {
      cells := new Status[CLASS_COUNT, CLASS_COUNT]((_, _) => MustBreak);
      seeded := false;
    }

    method Seed()
      requires Valid()
      modifies this`seeded, cells
      ensures Valid() && seeded
    {
      if seeded {
        return;
      }
      for p := 0 to CLASS_COUNT
        invariant forall a, b | 0 <= a < p && 0 <= b < CLASS_COUNT :: cells[a, b] == CanBreak
      {
        for c := 0 to CLASS_COUNT
          invariant forall a, b | 0 <= a < p && 0 <= b < CLASS_COUNT :: cells[a, b] == CanBreak
          invariant forall b | 0 <= b < c :: cells[p, b] == CanBreak
        {
          cells[p, c] := CanBreak;
        }
      }
      for p := 0 to CLASS_COUNT
        invariant forall a, b | 0 <= a < CLASS_COUNT && 0 <= b < CLASS_COUNT ::
            cells[a, b] == if a < p then PairRule(a, b) else CanBreak
      {
        for c := 0 to CLASS_COUNT
          invariant forall a, b | 0 <= a < CLASS_COUNT && 0 <= b < CLASS_COUNT ::
              cells[a, b] == if a < p || (a == p && b < c) then PairRule(a, b) else CanBreak
        {
          SeedCell(p, c);
        }
      }
      seeded := true;
    }

    /** Overwrites the default of one cell with the first rule that speaks about the pair. */
    method SeedCell(p: nat, c: nat)
      requires cells.Length0 == cells.Length1 == CLASS_COUNT && p < CLASS_COUNT && c < CLASS_COUNT
      requires cells[p, c] == CanBreak
      modifies cells
      ensures cells[p, c] == PairRule(p, c)
      ensures forall a, b | 0 <= a < CLASS_COUNT && 0 <= b < CLASS_COUNT && !(a == p && b == c) ::
                cells[a, b] == old(cells[a, b])
    {
      ghost var rule;
      if p == CR && c == LF {
        cells[p, c], rule := NoBreak, 0;
      } else if p == BK || p == CR || p == LF || p == NL || c == LF || c == NL {
        cells[p, c], rule := MustBreak, 1;
      } else if p == WJ || c == WJ {
        cells[p, c], rule := NoBreak, 2;
      } else if p == ZW {
        cells[p, c], rule := CanBreak, 3;
      } else if p == GL && c != SP {
        cells[p, c], rule := NoBreak, 4;
      } else if p == SP && c == SP {
        cells[p, c], rule := NoBreak, 5;
      } else if IsWord(p) && IsWord(c) {
        cells[p, c], rule := NoBreak, 6;
      } else if p == OP {
        cells[p, c], rule := NoBreak, 7;
      } else if c == CL || c == CP || c == EX {
        cells[p, c], rule := NoBreak, 8;
      } else if c == GL {
        cells[p, c], rule := NoBreak, 9;
      } else if p == QU {
        cells[p, c], rule := NoBreak, 10;
      } else if IsAlpha(p) && (c == PR || c == PO) {
        cells[p, c], rule := AlphanumBreak, 11;
      } else {
        rule := RULES;
      }
      FirstRuleIs(p, c, rule);
    }

    /** The status of a pair of classes; a class that is none counts as unknown. */
    method PairStatus(prev: Class, cur: Class) returns (r: Status)
      requires Valid()
      modifies this`seeded, cells
      ensures Valid() && r == PairRule(Known(prev), Known(cur))
    {
      Seed();
      var p: nat := Known(prev);
      var c: nat := Known(cur);
      return cells[p, c];
    }

    /** Two classes: the rule for runs of spaces, then the matrix. */
    method PairClass(prev: Class, cur: Class) returns (r: Status)
      requires Valid()
      modifies this`seeded, cells
      ensures Valid() && r == PairRule(Known(prev), Known(cur))
    {
      if prev == SP && cur == SP {
        FirstRuleIs(SP, SP, 5);
        return NoBreak;
      }
      r := PairStatus(prev, cur);
    }
  }

  function Known(c: Class): (k: nat)
    ensures k < CLASS_COUNT
  {
    if c < 0 || c >= CLASS_COUNT then XX else c
  }

  // ----- Pairs and streams -----

  function MarkerStatus(cp: nat): Status {
    if cp == BRK_MANDATORY then MustBreak else if cp == BRK_PROHIBITED then NoBreak else CanBreak
  }

  /** The boundary between a codepoint of class `prev` and the codepoint `cur`. */
  function Boundary(prev: Class, cur: nat, overrides: seq<Range>): Status {
    if IsMarker(cur) then MarkerStatus(cur)
    else PairRule(Known(prev), Known(Classified(cur, overrides)))
  }

  function Pair(prev: nat, cur: nat, overrides: seq<Range>): Status {
    Boundary(Classified(prev, overrides), cur, overrides)
  }

  method ResolvePair(m: PairMatrix, prev: nat, cur: nat, overrides: seq<Range>) returns (r: Status)
    requires m.Valid() && Sorted(overrides)
    modifies m`seeded, m.cells
    ensures m.Valid() && r == Pair(prev, cur, overrides)
  {
    var pc := Classify(prev, overrides);
    var cc := Classify(cur, overrides);
    if IsMarker(cur) {
      return MarkerStatus(cur);
    }
    r := m.PairClass(pc, cc);
  }

  datatype Engine = Engine(prev: Class, seeded: bool)

  const FRESH: Engine := Engine(XX, false)

  function Step(st: Engine, cp: nat, overrides: seq<Range>): (Engine, Status) {
    (Engine(Classified(cp, overrides), true),
     if !st.seeded then MustBreak else Boundary(st.prev, cp, overrides))
  }

  class BreakStream {
    var prev: Class
    var seeded: bool

    ghost function Snapshot(): Engine
      reads this
    {
      Engine(prev, seeded)
    }

    constructor ()
      ensures Snapshot() == FRESH
    {
      prev, seeded := XX, false;
    }

    method ProcessCodepoint(m: PairMatrix, cp: nat, overrides: seq<Range>) returns (r: Status)
      requires m.Valid() && Sorted(overrides)
      modifies this, m`seeded, m.cells
      ensures m.Valid() && (Snapshot(), r) == Step(old(Snapshot()), cp, overrides)
    {
      var cc := Classify(cp, overrides);
      if !seeded {
        prev, seeded := cc, true;
        return MustBreak;
      }
      if IsMarker(cp) {
        r := MarkerStatus(cp);
      } else {
        r := m.PairClass(prev, cc);
      }
      prev := cc;
    }
  }

  /** The engine after the first `n` codepoints. */
  function After(cps: seq<nat>, overrides: seq<Range>, n: nat): Engine
    requires n <= |cps|
  {
    if n == 0 then FRESH else Step(After(cps, overrides, n - 1), cps[n - 1], overrides).0
  }

  /** The status that the engine returns for codepoint `i`. */
  function StreamStatus(cps: seq<nat>, overrides: seq<Range>, i: nat): Status
    requires i < |cps|
  {
    Step(After(cps, overrides, i), cps[i], overrides).1
  }

  lemma {:induction false} Remembers(cps: seq<nat>, overrides: seq<Range>, n: nat)
    requires 0 < n <= |cps|
    ensures After(cps, overrides, n) == Engine(Classified(cps[n - 1], overrides), true)
  {
  }

  /** The stream form agrees with the pair form: a hard boundary first, then for every adjacent pair
      what the pair alone gives, whatever came earlier in the stream. */
  lemma StreamIsPairwise(cps: seq<nat>, overrides: seq<Range>, i: nat)
    requires i < |cps|
    ensures StreamStatus(cps, overrides, i) == if i == 0 then MustBreak else Pair(cps[i - 1], cps[i], overrides)
  {
    if i > 0 {
      Remembers(cps, overrides, i);
    }
  }
}
