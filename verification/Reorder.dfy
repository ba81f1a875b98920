/**
  The reordering phase of the bidirectional engine (section 3.4 of UAX #9).

  The loop in `PhaseReorder` reverses the runs of each level in place, from the paragraph level
  plus one upwards.  Rule L2 reverses from the highest level downwards.  The lemmas here say how
  the two results are related.
 */
module Reorder {
  import opened BidiTypes

  const MAX_LEN: nat := 4096

  type Levels = seq<nat>

  // ----- One reversal -----

  /** The first position of the maximal run of levels at least `l` around `i`. */
  function RunStart(lvl: Levels, l: nat, i: nat): (r: nat)
    requires i < |lvl| && lvl[i] >= l
    ensures r <= i && (forall k | r <= k <= i :: lvl[k] >= l) && (r > 0 ==> lvl[r - 1] < l)
  {
    if i == 0 || lvl[i - 1] < l then i else RunStart(lvl, l, i - 1)
  }

  /** The position after the run. */
  function RunEnd(lvl: Levels, l: nat, i: nat): (r: nat)
    requires i < |lvl| && lvl[i] >= l
    ensures i < r <= |lvl| && (forall k | i <= k < r :: lvl[k] >= l) && (r < |lvl| ==> lvl[r] < l)
    decreases |lvl| - i
  {
    if i + 1 == |lvl| || lvl[i + 1] < l then i + 1 else RunEnd(lvl, l, i + 1)
  }

  /** Where the reversal of the runs of levels at least `l` takes the content of position `i` from. */
  function Mirror(lvl: Levels, l: nat, i: nat): (r: nat)
    requires i < |lvl|
    ensures r < |lvl|
  {
    if lvl[i] < l then i else RunStart(lvl, l, i) + RunEnd(lvl, l, i) - 1 - i
  }

  /** `a..b` is a maximal run. */
  ghost predicate IsRun(lvl: Levels, l: nat, a: nat, b: nat) {
    && a < b <= |lvl|
    && (forall k | a <= k < b :: lvl[k] >= l)
    && (a > 0 ==> lvl[a - 1] < l)
    && (b < |lvl| ==> lvl[b] < l)
  }

  lemma InRun(lvl: Levels, l: nat, a: nat, b: nat, i: nat)
    requires IsRun(lvl, l, a, b) && a <= i < b
    ensures Mirror(lvl, l, i) == a + b - 1 - i
  {
  }

  lemma MirrorInvolution(lvl: Levels, l: nat, i: nat, m: nat)
    requires i < |lvl| && m == Mirror(lvl, l, i)
    ensures Mirror(lvl, l, m) == i
    ensures lvl[i] >= l <==> lvl[m] >= l
  {
    if lvl[i] >= l {
      var a, b := RunStart(lvl, l, i), RunEnd(lvl, l, i);
      assert IsRun(lvl, l, a, b);
      InRun(lvl, l, a, b, i);
      InRun(lvl, l, a, b, m);
    }
  }

  /** A reversal depends only on which positions reach the level. */
  lemma MirrorByThreshold(lvl: Levels, lvl2: Levels, l: nat, l2: nat, i: nat)
    requires |lvl| == |lvl2| && i < |lvl|
    requires forall k | 0 <= k < |lvl| :: lvl[k] >= l <==> lvl2[k] >= l2
    ensures Mirror(lvl, l, i) == Mirror(lvl2, l2, i)
  {
    if lvl[i] >= l {
      var a, b := RunStart(lvl, l, i), RunEnd(lvl, l, i);
      assert IsRun(lvl2, l2, a, b);
      InRun(lvl2, l2, a, b, i);
    }
  }

  // ----- Sequences of reversals -----

  function Identity(n: nat): seq<nat> {
    seq(n, i => i)
  }

  ghost predicate IsOrder(ord: seq<nat>) {
    forall i | 0 <= i < |ord| :: ord[i] < |ord|
  }

  /** The order after the runs of levels at least `l` have been reversed. */
  function Reversed(ord: seq<nat>, lvl: Levels, l: nat): (r: seq<nat>)
    requires |ord| == |lvl|
    ensures |r| == |ord|
  {
    seq(|ord|, i requires 0 <= i < |ord| => ord[Mirror(lvl, l, i)])
  }

  /** Where position `i` gets its content from when the runs are reversed at the levels `lo`,
      `lo + 1`, ..., `hi - 1`, in this order. */
  function AscAt(lvl: Levels, lo: nat, hi: nat, i: nat): (r: nat)
    requires i < |lvl|
    ensures r < |lvl|
    decreases hi
  {
    if hi <= lo then i else AscAt(lvl, lo, hi - 1, Mirror(lvl, hi - 1, i))
  }

  /** The same for the levels `hi - 1`, ..., `lo + 1`, `lo`, in this order. */
  function DescAt(lvl: Levels, lo: nat, hi: nat, i: nat): (r: nat)
    requires i < |lvl|
    ensures r < |lvl|
    decreases hi - lo
  {
    if hi <= lo then i else DescAt(lvl, lo + 1, hi, Mirror(lvl, lo, i))
  }

  function Ascending(lvl: Levels, lo: nat, hi: nat): (r: seq<nat>)
    ensures |r| == |lvl|
  {
    seq(|lvl|, i requires 0 <= i < |lvl| => AscAt(lvl, lo, hi, i))
  }

  function Descending(lvl: Levels, lo: nat, hi: nat): (r: seq<nat>)
    ensures |r| == |lvl|
  {
    seq(|lvl|, i requires 0 <= i < |lvl| => DescAt(lvl, lo, hi, i))
  }

  lemma AscendingNone(lvl: Levels, lo: nat)
    ensures Ascending(lvl, lo, lo) == Identity(|lvl|)
  {
  }

  lemma AscendingNext(lvl: Levels, lo: nat, l: nat)
    requires lo <= l
    ensures Ascending(lvl, lo, l + 1) == Reversed(Ascending(lvl, lo, l), lvl, l)
  {
  }

  lemma {:induction false} DescFromTop(lvl: Levels, lo: nat, hi: nat, i: nat)
    requires lo < hi && i < |lvl|
    ensures DescAt(lvl, lo, hi, i) == Mirror(lvl, hi - 1, DescAt(lvl, lo, hi - 1, i))
    decreases hi - lo
  {
    if lo < hi - 1 {
      DescFromTop(lvl, lo + 1, hi, Mirror(lvl, lo, i));
    }
  }

  /** `DescAt` built up from the lowest level instead. */
  function UpAt(lvl: Levels, lo: nat, hi: nat, i: nat): (r: nat)
    requires i < |lvl|
    ensures r < |lvl|
    decreases hi
  {
    if hi <= lo then i else Mirror(lvl, hi - 1, UpAt(lvl, lo, hi - 1, i))
  }

  lemma {:induction false} UpIsDesc(lvl: Levels, lo: nat, hi: nat, i: nat)
    requires i < |lvl|
    ensures UpAt(lvl, lo, hi, i) == DescAt(lvl, lo, hi, i)
    decreases hi, 1
  {
    if lo < hi {
      UpIsDescNext(lvl, lo, hi, hi - 1, i);
    }
  }

  lemma {:induction false} UpIsDescNext(lvl: Levels, lo: nat, hi: nat, t: nat, i: nat)
    requires lo <= t && hi == t + 1 && i < |lvl|
    ensures UpAt(lvl, lo, hi, i) == DescAt(lvl, lo, hi, i)
    decreases hi, 0
  {
    UpIsDesc(lvl, lo, t, i);
    DescFromTop(lvl, lo, hi, i);
  }

  lemma {:induction false} UpUndoesAsc(lvl: Levels, lo: nat, hi: nat, i: nat, x: nat)
    requires i < |lvl| && x == AscAt(lvl, lo, hi, i)
    ensures UpAt(lvl, lo, hi, x) == i
    decreases hi, 1
  {
    if lo < hi {
      var t := hi - 1;
      UpUndoesNext(lvl, lo, hi, t, i, Mirror(lvl, t, i), x);
    }
  }

  lemma {:induction false} UpUndoesNext(lvl: Levels, lo: nat, hi: nat, t: nat, i: nat, m: nat, x: nat)
    requires lo <= t && hi == t + 1 && i < |lvl| && m == Mirror(lvl, t, i) && x == AscAt(lvl, lo, t, m)
    ensures UpAt(lvl, lo, hi, x) == i
    decreases hi, 0
  {
    UpUndoesAsc(lvl, lo, t, m, x);
    MirrorInvolution(lvl, t, i, m);
  }

  lemma {:induction false} AscUndoesUp(lvl: Levels, lo: nat, hi: nat, i: nat, x: nat)
    requires i < |lvl| && x == UpAt(lvl, lo, hi, i)
    ensures AscAt(lvl, lo, hi, x) == i
    decreases hi, 1
  {
    if lo < hi {
      var t := hi - 1;
      AscUndoesNext(lvl, lo, hi, t, i, UpAt(lvl, lo, t, i), x);
    }
  }

  lemma {:induction false} AscUndoesNext(lvl: Levels, lo: nat, hi: nat, t: nat, i: nat, m: nat, x: nat)
    requires lo <= t && hi == t + 1 && i < |lvl| && m == UpAt(lvl, lo, t, i) && x == Mirror(lvl, t, m)
    ensures AscAt(lvl, lo, hi, x) == i
    decreases hi, 0
  {
    MirrorInvolution(lvl, t, m, x);
    AscUndoesUp(lvl, lo, t, i, m);
  }

  lemma DescUndoesAsc(lvl: Levels, lo: nat, hi: nat, i: nat)
    requires i < |lvl|
    ensures DescAt(lvl, lo, hi, AscAt(lvl, lo, hi, i)) == i
    ensures AscAt(lvl, lo, hi, DescAt(lvl, lo, hi, i)) == i
  {
    UpUndoesAsc(lvl, lo, hi, i, AscAt(lvl, lo, hi, i));
    UpIsDesc(lvl, lo, hi, AscAt(lvl, lo, hi, i));
    AscUndoesUp(lvl, lo, hi, i, UpAt(lvl, lo, hi, i));
    UpIsDesc(lvl, lo, hi, i);
  }

  ghost predicate Inverse(f: seq<nat>, g: seq<nat>) {
    && |f| == |g| && IsOrder(f) && IsOrder(g)
    && (forall i | 0 <= i < |f| :: g[f[i]] == i)
    && (forall i | 0 <= i < |f| :: f[g[i]] == i)
  }

  /** The two directions are inverse permutations of each other. */
  lemma AscendingInvertsDescending(lvl: Levels, lo: nat, hi: nat)
    ensures Inverse(Ascending(lvl, lo, hi), Descending(lvl, lo, hi))
  {
    forall i | 0 <= i < |lvl|
      ensures DescAt(lvl, lo, hi, AscAt(lvl, lo, hi, i)) == i
      ensures AscAt(lvl, lo, hi, DescAt(lvl, lo, hi, i)) == i
    {
      DescUndoesAsc(lvl, lo, hi, i);
    }
  }

  /** Positions below the lowest reversed level stay where they are. */
  lemma {:induction false} LowLevelsFixed(lvl: Levels, lo: nat, hi: nat, i: nat)
    requires i < |lvl| && lvl[i] < lo
    ensures AscAt(lvl, lo, hi, i) == i
    decreases hi
  {
    if lo < hi {
      LowLevelsFixed(lvl, lo, hi - 1, i);
    }
  }

  // ----- Rule L2 -----

  /** Levels carried along with the characters. */
  function Carried(lvl: Levels, ord: seq<nat>): (r: Levels)
    requires |ord| == |lvl| && forall i | 0 <= i < |ord| :: ord[i] < |lvl|
    ensures |r| == |lvl|
  {
    seq(|lvl|, i requires 0 <= i < |lvl| => lvl[ord[i]])
  }

  /** Rule L2 on a line, the levels moving with the characters: from the level `hi - 1` down to `lo`,
      reverse every maximal run of characters at that level or higher. */
  function L2Down(lvl: Levels, lo: nat, hi: nat): (r: seq<nat>)
    ensures |r| == |lvl| && forall i | 0 <= i < |r| :: r[i] < |lvl|
    decreases hi - lo
  {
    if hi <= lo then Identity(|lvl|)
    else
      var ord := L2Down(lvl, lo + 1, hi);
      Reversed(ord, Carried(lvl, ord), lo)
  }

  lemma {:induction false} DescKeepsThreshold(lvl: Levels, lo: nat, hi: nat, i: nat, l: nat)
    requires i < |lvl| && l <= lo
    ensures lvl[DescAt(lvl, lo, hi, i)] >= l <==> lvl[i] >= l
    decreases hi - lo
  {
    if lo < hi {
      MirrorInvolution(lvl, lo, i, Mirror(lvl, lo, i));
      DescKeepsThreshold(lvl, lo + 1, hi, Mirror(lvl, lo, i), l);
    }
  }

  /** On a line the reversals may as well be made on fixed positions. */
  lemma {:induction false} L2OnFixedPositions(lvl: Levels, lo: nat, hi: nat)
    ensures L2Down(lvl, lo, hi) == Descending(lvl, lo, hi)
    decreases hi - lo
  {
    if lo < hi {
      L2OnFixedPositions(lvl, lo + 1, hi);
      var ord := Descending(lvl, lo + 1, hi);
      var carried := Carried(lvl, ord);
      forall k | 0 <= k < |lvl| ensures carried[k] >= lo <==> lvl[k] >= lo {
        DescKeepsThreshold(lvl, lo + 1, hi, k, lo);
      }
      forall i | 0 <= i < |lvl| ensures Mirror(carried, lo, i) == Mirror(lvl, lo, i) {
        MirrorByThreshold(carried, lvl, lo, lo, i);
      }
    }
  }

  ghost predicate NoOddBelow(lvl: Levels, k: nat) {
    forall i | 0 <= i < |lvl| :: Odd(lvl[i]) ==> lvl[i] >= k
  }

  /** `k` is the lowest odd level, or any odd number above all levels when there is none. */
  ghost predicate LowestOdd(lvl: Levels, k: nat) {
    Odd(k) && NoOddBelow(lvl, k) && (k in lvl || forall i | 0 <= i < |lvl| :: lvl[i] < k && !Odd(lvl[i]))
  }

  /** Reversals at an absent odd level and at the even one above it cancel. */
  lemma PairCancels(lvl: Levels, lo: nat, hi: nat, i: nat)
    requires i < |lvl| && lo + 1 < hi && forall k | 0 <= k < |lvl| :: lvl[k] != lo
    ensures DescAt(lvl, lo, hi, i) == DescAt(lvl, lo + 2, hi, i)
  {
    MirrorByThreshold(lvl, lvl, lo, lo + 1, i);
    MirrorInvolution(lvl, lo + 1, i, Mirror(lvl, lo + 1, i));
  }

  /** A reversal above all levels does nothing. */
  lemma {:induction false} NothingAbove(lvl: Levels, lo: nat, hi: nat, hi2: nat, i: nat)
    requires i < |lvl| && hi <= hi2 && forall k | 0 <= k < |lvl| :: lvl[k] < hi
    ensures DescAt(lvl, lo, hi2, i) == DescAt(lvl, lo, hi, i)
    decreases hi2
  {
    if hi < hi2 && lo < hi2 {
      NothingAbove(lvl, lo, hi, hi2 - 1, i);
      DescFromTop(lvl, lo, hi2, i);
    }
  }

  /** Going down to level 1 is going down to the lowest odd level. */
  lemma {:induction false} DownToOne(lvl: Levels, lo: nat, k: nat, hi: nat, i: nat)
    requires i < |lvl| && Odd(lo) && Odd(k) && lo <= k <= hi && NoOddBelow(lvl, k)
    ensures DescAt(lvl, lo, hi, i) == DescAt(lvl, k, hi, i)
    decreases k - lo
  {
    if lo < k {
      PairCancels(lvl, lo, hi, i);
      DownToOne(lvl, lo + 2, k, hi, i);
    }
  }

  /** Rule L2 for a line: from the highest level down to the lowest odd level `k`. */
  lemma L2IsDownToOne(lvl: Levels, k: nat, hi: nat)
    requires LowestOdd(lvl, k) && forall i | 0 <= i < |lvl| :: lvl[i] < hi
    ensures L2Down(lvl, k, hi) == Descending(lvl, 1, hi)
  {
    L2OnFixedPositions(lvl, k, hi);
    var top := if k <= hi then hi else k;
    forall i | 0 <= i < |lvl| ensures DescAt(lvl, k, hi, i) == DescAt(lvl, 1, hi, i) {
      NothingAbove(lvl, 1, hi, top, i);
      NothingAbove(lvl, k, hi, top, i);
      DownToOne(lvl, 1, k, top, i);
    }
  }

  // ----- The phase -----

  /** The first position of the trailing characters that the phase puts at the paragraph level:
      separators and white space, looking through removed characters. */
  function TrailStart(rs: seq<Run>, t: nat): (r: nat)
    requires t <= |rs|
    ensures r <= t
  {
    if t == 0 then 0
    else if rs[t - 1].removed || rs[t - 1].cls in {S, WS, B} then TrailStart(rs, t - 1)
    else t
  }

  function LineLevels(rs: seq<Run>, para: nat): (lvl: Levels)
    ensures |lvl| == |rs|
  {
    seq(|rs|, i requires 0 <= i < |rs| =>
      if i >= TrailStart(rs, |rs|) && !rs[i].removed then para else rs[i].level)
  }

  lemma {:induction false} TrailFrom(rs: seq<Run>, t: nat, i: nat)
    requires i < t <= |rs|
    ensures i >= TrailStart(rs, t) <==> forall k | i <= k < t && !rs[k].removed :: rs[k].cls in {S, WS, B}
    decreases t
  {
    if t - 1 > i && (rs[t - 1].removed || rs[t - 1].cls in {S, WS, B}) {
      TrailFrom(rs, t - 1, i);
    } else if t - 1 == i {
      assert TrailStart(rs, i) <= i;
    }
  }

  /** For any classes: a kept character is put at the paragraph level exactly when it and all kept characters
      after it are separators or white space; every other one keeps its level. */
  lemma LineLevelIs(rs: seq<Run>, para: nat, i: nat)
    requires i < |rs|
    ensures LineLevels(rs, para)[i]
            == if !rs[i].removed && forall k | i <= k < |rs| && !rs[k].removed :: rs[k].cls in {S, WS, B} then para
               else rs[i].level
  {
    TrailFrom(rs, |rs|, i);
  }

  function Highest(rs: seq<Run>, para: nat): (h: nat)
    ensures h >= para && forall i | 0 <= i < |rs| :: rs[i].level <= h
    ensures h == para || exists i :: 0 <= i < |rs| && rs[i].level == h
  {
    if rs == [] then para
    else
      var h := Highest(rs[..|rs| - 1], para);
      if rs[|rs| - 1].level > h then rs[|rs| - 1].level else h
  }

  /** What the phase stores in `visual`. */
  function VisualMap(rs: seq<Run>, para: nat): (r: seq<nat>)
    ensures |r| == |rs|
  {
    Ascending(LineLevels(rs, para), para + 1, Highest(rs, para) + 1)
  }

  method PhaseReorder(r: array<Run>, para: nat, visual: array<nat>)
    requires visual.Length >= r.Length
    modifies visual
    ensures r.Length > MAX_LEN ==> visual[..] == old(visual[..])
    ensures r.Length <= MAX_LEN ==> visual[..r.Length] == VisualMap(r[..], para)
    ensures visual[r.Length..] == old(visual[..])[r.Length..]
  {
    var n := r.Length;
    if n > MAX_LEN {
      return;
    }
    var lvl, ord, highest := LoadLevels(r, para);
    ReverseLevels(lvl, n, ord, para + 1, highest + 1);
    CopyOut(ord, n, visual);
  }

  /** Reverses the runs of the levels `lo`, `lo + 1`, ..., `hi - 1`, in this order. */
  method ReverseLevels(lvl: array<nat>, n: nat, ord: array<nat>, lo: nat, hi: nat)
    requires n <= lvl.Length && n <= ord.Length && lvl != ord && lo <= hi
    requires ord[..n] == Identity(n)
    modifies ord
    ensures ord[..n] == Ascending(lvl[..n], lo, hi)
  {
    ghost var line := lvl[..n];
    AscendingNone(line, lo);
    var l := lo;
    while l < hi
      invariant lo <= l <= hi && ord[..n] == Ascending(line, lo, l)
    {
      ReverseRuns(lvl, n, ord, l);
      AscendingNext(line, lo, l);
      l := l + 1;
    }
  }

  method CopyOut(ord: array<nat>, n: nat, visual: array<nat>)
    requires n <= ord.Length && n <= visual.Length && ord != visual
    modifies visual
    ensures visual[..n] == ord[..n] && visual[n..] == old(visual[..])[n..]
  {
    var i := 0;
    while i < n
      invariant 0 <= i <= n
      invariant forall k | 0 <= k < i :: visual[k] == ord[k]
      invariant forall k | n <= k < visual.Length :: visual[k] == old(visual[k])
    {
      visual[i] := ord[i];
      i := i + 1;
    }
  }

  /** The levels to reorder by, the identity order and the highest level. */
  method LoadLevels(r: array<Run>, para: nat) returns (lvl: array<nat>, ord: array<nat>, highest: nat)
    requires r.Length <= MAX_LEN
    ensures fresh(lvl) && fresh(ord) && lvl != ord && lvl.Length == ord.Length == MAX_LEN
    ensures lvl[..r.Length] == LineLevels(r[..], para)
    ensures ord[..r.Length] == Identity(r.Length)
    ensures highest == Highest(r[..], para)
  {
    lvl, ord, highest := new nat[MAX_LEN], new nat[MAX_LEN], para;
    var i := 0;
    while i < r.Length
      invariant 0 <= i <= r.Length
      invariant forall k | 0 <= k < i :: lvl[k] == r[k].level && ord[k] == k
      invariant highest == Highest(r[..i], para)
    {
      lvl[i], ord[i] := r[i].level, i;
      assert r[..i + 1][..i] == r[..i];
      if r[i].level > highest {
        highest := r[i].level;
      }
      i := i + 1;
    }
    assert r[..i] == r[..];
    assert ord[..r.Length] == Identity(r.Length);
    LowerTrail(r, para, lvl);
  }

  method LowerTrail(r: array<Run>, para: nat, lvl: array<nat>)
    requires r.Length <= lvl.Length && forall k | 0 <= k < r.Length :: lvl[k] == r[k].level
    modifies lvl
    ensures lvl[..r.Length] == LineLevels(r[..], para)
  {
    var t := r.Length;
    while t > 0
      invariant 0 <= t <= r.Length
      invariant TrailStart(r[..], r.Length) == TrailStart(r[..], t)
      invariant forall k | 0 <= k < r.Length ::
        lvl[k] == if k >= t && !r[k].removed then para else r[k].level
    {
      if !r[t - 1].removed {
        if r[t - 1].cls !in {S, WS, B} {
          break;
        }
        lvl[t - 1] := para;
      }
      t := t - 1;
    }
  }

  /** Reverses every maximal run of levels at least `l`. */
  method ReverseRuns(lvl: array<nat>, n: nat, ord: array<nat>, l: nat)
    requires n <= lvl.Length && n <= ord.Length && lvl != ord
    modifies ord
    ensures ord[..n] == Reversed(old(ord[..n]), lvl[..n], l)
  {
    ghost var line := lvl[..n];
    var a := 0;
    while a < n
      invariant 0 <= a <= n
      invariant a < n && lvl[a] >= l && a > 0 ==> lvl[a - 1] < l
      invariant forall k | 0 <= k < a :: ord[k] == old(ord[Mirror(line, l, k)])
      invariant forall k | a <= k < n :: ord[k] == old(ord[k])
    {
      if lvl[a] >= l {
        var b := FindRunEnd(lvl, n, l, a);
        ReverseSpan(ord, a, b);
        a := b;
      } else {
        a := a + 1;
      }
    }
  }

  /** The end of the run that starts at `a`. */
  method FindRunEnd(lvl: array<nat>, n: nat, l: nat, a: nat) returns (b: nat)
    requires a < n <= lvl.Length && lvl[a] >= l && (a > 0 ==> lvl[a - 1] < l)
    ensures IsRun(lvl[..n], l, a, b)
    ensures forall k: nat | a <= k < b :: Mirror(lvl[..n], l, k) == a + b - 1 - k
  {
    b := a;
    while b < n && lvl[b] >= l
      invariant a <= b <= n && forall k | a <= k < b :: lvl[k] >= l
    {
      b := b + 1;
    }
    forall k: nat | a <= k < b ensures Mirror(lvl[..n], l, k) == a + b - 1 - k {
      InRun(lvl[..n], l, a, b, k);
    }
  }

  /** Swaps inwards from both ends. */
  method ReverseSpan(ord: array<nat>, a: nat, b: nat)
    requires a < b <= ord.Length
    modifies ord
    ensures forall k | a <= k < b :: ord[k] == old(ord[a + b - 1 - k])
    ensures forall k | 0 <= k < ord.Length && !(a <= k < b) :: ord[k] == old(ord[k])
  {
    var lo, hi := a, b - 1;
    while lo < hi
      invariant a <= lo <= b && lo + hi == a + b - 1 && lo <= hi + 1
      invariant forall k | a <= k < lo || hi < k < b :: ord[k] == old(ord[a + b - 1 - k])
      invariant forall k | lo <= k <= hi :: ord[k] == old(ord[k])
      invariant forall k | 0 <= k < ord.Length && !(a <= k < b) :: ord[k] == old(ord[k])
    {
      ord[lo], ord[hi] := ord[hi], ord[lo];
      lo, hi := lo + 1, hi - 1;
    }
  }

  // ----- What the result is -----

  lemma LineBounds(rs: seq<Run>, para: nat, lvl: Levels, hi: nat)
    requires lvl == LineLevels(rs, para) && hi == Highest(rs, para) + 1
    ensures VisualMap(rs, para) == Ascending(lvl, para + 1, hi)
    ensures hi >= para + 1 && forall i | 0 <= i < |lvl| :: lvl[i] < hi
  {
  }

  /** The stored map is the inverse of reversing from the highest level down to the one above the
      paragraph level, and leaves characters at the paragraph level or below in place. */
  lemma VisualMapInvertsDescending(rs: seq<Run>, para: nat)
    ensures Inverse(VisualMap(rs, para), L2Down(LineLevels(rs, para), para + 1, Highest(rs, para) + 1))
    ensures forall i | 0 <= i < |rs| && LineLevels(rs, para)[i] <= para :: VisualMap(rs, para)[i] == i
  {
    var lvl, hi := LineLevels(rs, para), Highest(rs, para) + 1;
    LineBounds(rs, para, lvl, hi);
    AscendingInvertsDescending(lvl, para + 1, hi);
    L2OnFixedPositions(lvl, para + 1, hi);
    forall i | 0 <= i < |rs| && lvl[i] <= para ensures VisualMap(rs, para)[i] == i {
      LowLevelsFixed(lvl, para + 1, hi, i);
    }
  }

  lemma InvertsL2(lvl: Levels, k: nat, hi: nat)
    requires LowestOdd(lvl, k) && forall i | 0 <= i < |lvl| :: lvl[i] < hi
    ensures Inverse(Ascending(lvl, 1, hi), L2Down(lvl, k, hi))
  {
    AscendingInvertsDescending(lvl, 1, hi);
    L2IsDownToOne(lvl, k, hi);
  }

  /** In a left-to-right paragraph the stored map is the inverse of rule L2, whatever the lowest odd
      level is: it tells where each character goes, not which character goes where. */
  lemma VisualMapInvertsL2(rs: seq<Run>, k: nat)
    requires LowestOdd(LineLevels(rs, 0), k)
    ensures Inverse(VisualMap(rs, 0), L2Down(LineLevels(rs, 0), k, Highest(rs, 0) + 1))
  {
    var lvl, hi := LineLevels(rs, 0), Highest(rs, 0) + 1;
    LineBounds(rs, 0, lvl, hi);
    InvertsL2(lvl, k, hi);
  }

  // ----- When the stored map is the order of rule L2 itself -----

  predicate HighPair(lvl: Levels, m: nat, i: nat) {
    i + 1 < |lvl| && lvl[i] >= m && lvl[i + 1] >= m
  }

  /** The reversal at level `l` puts neighbours at level `m` or higher where there are such neighbours. */
  ghost predicate PairsMirrored(lvl: Levels, l: nat, m: nat) {
    forall i: nat | HighPair(lvl, m, i) :: lvl[Mirror(lvl, l, i)] >= m && lvl[Mirror(lvl, l, i + 1)] >= m
  }

  ghost predicate Commute(lvl: Levels, l: nat, m: nat, i: nat)
    requires i < |lvl|
  {
    Mirror(lvl, m, Mirror(lvl, l, i)) == Mirror(lvl, l, Mirror(lvl, m, i))
  }

  /** Then the mirror image of a longer run is a run. */
  lemma MirrorOfRun(lvl: Levels, l: nat, m: nat, c: nat, d: nat, a: nat, b: nat)
    requires l < m && PairsMirrored(lvl, l, m) && IsRun(lvl, l, c, d) && IsRun(lvl, m, a, b)
    requires c <= a && b <= d && a + 2 <= b
    ensures IsRun(lvl, m, c + d - b, c + d - a)
  {
    var a2, b2 := c + d - b, c + d - a;
    forall k | a2 <= k < b2 ensures lvl[k] >= m {
      InMirror(lvl, l, m, c, d, a, b, c + d - 1 - k);
    }
    if a2 > c && lvl[a2 - 1] >= m {
      PairMirrored(lvl, l, m, c, d, a2 - 1);
    }
    if b2 < d && lvl[b2] >= m {
      PairMirrored(lvl, l, m, c, d, b2 - 1);
    }
  }

  lemma InMirror(lvl: Levels, l: nat, m: nat, c: nat, d: nat, a: nat, b: nat, i: nat)
    requires PairsMirrored(lvl, l, m) && IsRun(lvl, l, c, d) && IsRun(lvl, m, a, b)
    requires c <= a <= i < b <= d && a + 2 <= b
    ensures lvl[c + d - 1 - i] >= m
  {
    PairMirrored(lvl, l, m, c, d, if i > a then i - 1 else i);
  }

  lemma PairMirrored(lvl: Levels, l: nat, m: nat, c: nat, d: nat, i: nat)
    requires PairsMirrored(lvl, l, m) && IsRun(lvl, l, c, d) && c <= i && i + 1 < d && HighPair(lvl, m, i)
    ensures lvl[c + d - 1 - i] >= m && lvl[c + d - 2 - i] >= m
  {
    InRun(lvl, l, c, d, i);
    InRun(lvl, l, c, d, i + 1);
  }

  lemma RunOf(lvl: Levels, l: nat, i: nat) returns (a: nat, b: nat)
    requires i < |lvl| && lvl[i] >= l
    ensures IsRun(lvl, l, a, b) && a <= i < b && Mirror(lvl, l, i) == a + b - 1 - i
  {
    a, b := RunStart(lvl, l, i), RunEnd(lvl, l, i);
  }

  lemma InnerRun(lvl: Levels, l: nat, m: nat, c: nat, d: nat, a: nat, b: nat)
    requires l < m && IsRun(lvl, l, c, d) && IsRun(lvl, m, a, b) && a < d && c < b
    ensures c <= a && b <= d
  {
  }

  /** At a longer run of the higher level the two reversals commute. */
  lemma CommuteInRun(lvl: Levels, l: nat, m: nat, c: nat, d: nat, a: nat, b: nat, i: nat, j: nat, i2: nat, j2: nat)
    requires l < m && PairsMirrored(lvl, l, m) && IsRun(lvl, l, c, d) && IsRun(lvl, m, a, b)
    requires c <= a <= i < b <= d && a + 2 <= b
    requires i + j == c + d - 1 && i + i2 == a + b - 1 && i2 + j2 == c + d - 1
    ensures Mirror(lvl, m, j) == j2 == Mirror(lvl, l, i2)
  {
    MirrorOfRun(lvl, l, m, c, d, a, b);
    InRun(lvl, m, c + d - b, c + d - a, j);
    InRun(lvl, l, c, d, i2);
  }

  lemma CommuteIfMoved(lvl: Levels, l: nat, m: nat, i: nat, j: nat)
    requires l < m && i < |lvl| && PairsMirrored(lvl, l, m) && Mirror(lvl, m, i) != i && j == Mirror(lvl, l, i)
    ensures Commute(lvl, l, m, i) && Mirror(lvl, m, j) != j
  {
    var c, d := RunOf(lvl, l, i);
    var a, b := RunOf(lvl, m, i);
    InnerRun(lvl, l, m, c, d, a, b);
    var i2, j2 := a + b - 1 - i, c + d - a - b + i;
    CommuteInRun(lvl, l, m, c, d, a, b, i, j, i2, j2);
    CommuteBy(lvl, l, m, i, i2, j, j2);
  }

  lemma CommuteBy(lvl: Levels, l: nat, m: nat, i: nat, i2: nat, j: nat, j2: nat)
    requires i < |lvl| && i2 < |lvl| && j < |lvl|
    requires i2 == Mirror(lvl, m, i) && j == Mirror(lvl, l, i) && Mirror(lvl, m, j) == j2 == Mirror(lvl, l, i2)
    ensures Commute(lvl, l, m, i)
  {
  }

  lemma MirroredCommute(lvl: Levels, l: nat, m: nat, i: nat)
    requires l < m && i < |lvl| && PairsMirrored(lvl, l, m)
    ensures Commute(lvl, l, m, i)
  {
    var j := Mirror(lvl, l, i);
    MirrorInvolution(lvl, l, i, j);
    if Mirror(lvl, m, i) != i {
      CommuteIfMoved(lvl, l, m, i, j);
    } else if Mirror(lvl, m, j) != j {
      CommuteIfMoved(lvl, l, m, j, i);
    } else {
      CommuteBy(lvl, l, m, i, i, j, j);
    }
  }

  /** Conversely, commuting reversals mirror such neighbours. */
  lemma CommuteMirrors(lvl: Levels, l: nat, m: nat)
    requires l < m && forall i: nat | i < |lvl| :: Commute(lvl, l, m, i)
    ensures PairsMirrored(lvl, l, m)
  {
    forall i: nat | HighPair(lvl, m, i)
      ensures lvl[Mirror(lvl, l, i)] >= m && lvl[Mirror(lvl, l, i + 1)] >= m
    {
      CommuteMirrorsPair(lvl, l, m, i);
    }
  }

  lemma CommuteMirrorsPair(lvl: Levels, l: nat, m: nat, i: nat)
    requires l < m && HighPair(lvl, m, i) && forall k: nat | k < |lvl| :: Commute(lvl, l, m, k)
    ensures lvl[Mirror(lvl, l, i)] >= m && lvl[Mirror(lvl, l, i + 1)] >= m
  {
    var c, d := RunOf(lvl, l, i);
    var a, b := RunOf(lvl, m, i);
    HighMirror(lvl, l, m, c, d, a, b, i);
    HighMirror(lvl, l, m, c, d, a, b, i + 1);
  }

  lemma HighMirror(lvl: Levels, l: nat, m: nat, c: nat, d: nat, a: nat, b: nat, i: nat)
    requires l < m && IsRun(lvl, l, c, d) && IsRun(lvl, m, a, b) && c < b && a < d && a <= i < b && a + 2 <= b
    requires forall k: nat | k < |lvl| :: Commute(lvl, l, m, k)
    ensures lvl[Mirror(lvl, l, i)] >= m
  {
    HighAfter(lvl, l, m, c, d, a, b, i);
    InRun(lvl, l, c, d, i);
  }

  lemma HighAfter(lvl: Levels, l: nat, m: nat, c: nat, d: nat, a: nat, b: nat, i: nat)
    requires l < m && IsRun(lvl, l, c, d) && IsRun(lvl, m, a, b) && c < b && a < d && a <= i < b && a + 2 <= b
    requires forall k: nat | k < |lvl| :: Commute(lvl, l, m, k)
    ensures c <= a && b <= d && lvl[c + d - 1 - i] >= m
  {
    InnerRun(lvl, l, m, c, d, a, b);
    if a + b - 1 - i != i {
      MovedIsHigh(lvl, l, m, c, d, a, b, i, a + b - 1 - i, c + d - 1 - i, c + d - a - b + i);
    } else {
      var x := i - 1;
      var j := c + d - 1 - x;
      MovedIsHigh(lvl, l, m, c, d, a, b, x, i + 1, j, j - 2);
      var a2, b2 := RunOf(lvl, m, j);
    }
  }

  /** What the higher reversal moves, it also moves in the mirror image. */
  lemma MovedIsHigh(lvl: Levels, l: nat, m: nat, c: nat, d: nat, a: nat, b: nat, i: nat, i2: nat, j: nat, j2: nat)
    requires l < m && IsRun(lvl, l, c, d) && IsRun(lvl, m, a, b) && c <= a <= i < b <= d && i2 != i
    requires i + i2 == a + b - 1 && i + j == c + d - 1 && i2 + j2 == c + d - 1
    requires Commute(lvl, l, m, i)
    ensures j < |lvl| && lvl[j] >= m && Mirror(lvl, m, j) == j2
  {
    InRun(lvl, l, c, d, i);
    InRun(lvl, m, a, b, i);
    InRun(lvl, l, c, d, i2);
    CommuteSays(lvl, l, m, i, i2, j, j2);
  }

  lemma CommuteSays(lvl: Levels, l: nat, m: nat, i: nat, i2: nat, j: nat, j2: nat)
    requires i < |lvl| && i2 < |lvl| && j < |lvl| && Commute(lvl, l, m, i)
    requires i2 == Mirror(lvl, m, i) && j == Mirror(lvl, l, i) && j2 == Mirror(lvl, l, i2) && j2 != j
    ensures Mirror(lvl, m, j) == j2 && lvl[j] >= m
  {
  }

  ghost predicate AllCommute(lvl: Levels, lo: nat, hi: nat, m: nat) {
    forall l: nat, k: nat | lo <= l < hi && k < |lvl| :: Commute(lvl, l, m, k)
  }

  lemma {:induction false} PassThrough(lvl: Levels, lo: nat, hi: nat, m: nat, i: nat, i2: nat)
    requires i < |lvl| && AllCommute(lvl, lo, hi, m) && i2 == Mirror(lvl, m, i)
    ensures Mirror(lvl, m, DescAt(lvl, lo, hi, i)) == DescAt(lvl, lo, hi, i2)
    decreases hi - lo
  {
    if lo < hi {
      var j := Mirror(lvl, lo, i);
      assert Commute(lvl, lo, m, i);
      PassThrough(lvl, lo + 1, hi, m, j, Mirror(lvl, m, j));
    }
  }

  ghost predicate CommuteBelow(lvl: Levels, lo: nat, hi: nat) {
    forall m: nat | lo <= m < hi :: AllCommute(lvl, lo, m, m)
  }

  lemma TopCommutes(lvl: Levels, lo: nat, hi: nat, m: nat)
    requires lo <= m && hi == m + 1 && CommuteBelow(lvl, lo, hi)
    ensures CommuteBelow(lvl, lo, m) && AllCommute(lvl, lo, m, m)
  {
  }

  lemma {:induction false} CommutingOrder(lvl: Levels, lo: nat, hi: nat, i: nat)
    requires i < |lvl| && CommuteBelow(lvl, lo, hi)
    ensures AscAt(lvl, lo, hi, i) == DescAt(lvl, lo, hi, i)
    decreases hi, 1
  {
    if lo < hi {
      CommutingNext(lvl, lo, hi, hi - 1, i, Mirror(lvl, hi - 1, i));
    }
  }

  lemma {:induction false} CommutingNext(lvl: Levels, lo: nat, hi: nat, m: nat, i: nat, j: nat)
    requires lo <= m && hi == m + 1 && i < |lvl| && j == Mirror(lvl, m, i) && CommuteBelow(lvl, lo, hi)
    ensures AscAt(lvl, lo, hi, i) == DescAt(lvl, lo, hi, i)
    decreases hi, 0
  {
    TopCommutes(lvl, lo, hi, m);
    CommutingOrder(lvl, lo, m, j);
    OrderNext(lvl, lo, hi, m, i, j);
  }

  lemma OrderNext(lvl: Levels, lo: nat, hi: nat, m: nat, i: nat, j: nat)
    requires lo <= m && hi == m + 1 && i < |lvl| && j == Mirror(lvl, m, i) && AllCommute(lvl, lo, m, m)
    requires AscAt(lvl, lo, m, j) == DescAt(lvl, lo, m, j)
    ensures AscAt(lvl, lo, hi, i) == DescAt(lvl, lo, hi, i)
  {
    PassThrough(lvl, lo, m, m, i, j);
    DescFromTop(lvl, lo, hi, i);
  }

  /** At the levels from `lo` up to `hi` every reversal mirrors the neighbours at higher levels. */
  ghost predicate AllMirrored(lvl: Levels, lo: nat, hi: nat) {
    forall l: nat, m: nat | lo <= l < m < hi :: PairsMirrored(lvl, l, m)
  }

  /** When at all levels neighbours are mirrored, it makes no difference in which order the levels are
      taken. */
  lemma MirroredOrder(lvl: Levels, lo: nat, hi: nat)
    requires AllMirrored(lvl, lo, hi)
    ensures Ascending(lvl, lo, hi) == Descending(lvl, lo, hi)
  {
    forall m: nat | lo <= m < hi ensures AllCommute(lvl, lo, m, m) {
      forall l: nat, k: nat | lo <= l < m && k < |lvl| ensures Commute(lvl, l, m, k) {
        MirroredCommute(lvl, l, m, k);
      }
    }
    assert CommuteBelow(lvl, lo, hi);
    forall i | 0 <= i < |lvl| ensures AscAt(lvl, lo, hi, i) == DescAt(lvl, lo, hi, i) {
      CommutingOrder(lvl, lo, hi, i);
    }
  }

  /** With levels up to 2 this is also necessary. */
  lemma TwoLevels(lvl: Levels, hi: nat)
    requires 1 <= hi <= 3 && forall i | 0 <= i < |lvl| :: lvl[i] < hi
    ensures Ascending(lvl, 1, hi) == Descending(lvl, 1, hi) <==> PairsMirrored(lvl, 1, 2)
  {
    if PairsMirrored(lvl, 1, 2) {
      OneBelowTwo(lvl, hi);
      MirroredOrder(lvl, 1, hi);
    }
    if Ascending(lvl, 1, hi) == Descending(lvl, 1, hi) {
      SameOrderMirrors(lvl, hi, Ascending(lvl, 1, hi));
    }
  }

  lemma OneBelowTwo(lvl: Levels, hi: nat)
    requires hi <= 3 && PairsMirrored(lvl, 1, 2)
    ensures AllMirrored(lvl, 1, hi)
  {
    forall l: nat, m: nat | 1 <= l < m < hi ensures PairsMirrored(lvl, l, m) {
      assert l == 1 && m == 2;
    }
  }

  lemma SameOrderMirrors(lvl: Levels, hi: nat, order: seq<nat>)
    requires 1 <= hi <= 3 && forall i | 0 <= i < |lvl| :: lvl[i] < hi
    requires order == Ascending(lvl, 1, hi) && order == Descending(lvl, 1, hi)
    ensures PairsMirrored(lvl, 1, 2)
  {
    forall i: nat | i < |lvl| ensures Commute(lvl, 1, 2, i) {
      assert order[i] == AscAt(lvl, 1, hi, i) && order[i] == DescAt(lvl, 1, hi, i);
      OneAndTwo(lvl, hi, i);
    }
    CommuteMirrors(lvl, 1, 2);
  }

  lemma OneAndTwo(lvl: Levels, hi: nat, i: nat)
    requires 1 <= hi <= 3 && i < |lvl| && forall k | 0 <= k < |lvl| :: lvl[k] < hi
    ensures AscAt(lvl, 1, hi, i) == Mirror(lvl, 1, Mirror(lvl, 2, i))
    ensures DescAt(lvl, 1, hi, i) == Mirror(lvl, 2, Mirror(lvl, 1, i))
  {
    var i1, i2 := Mirror(lvl, 1, i), Mirror(lvl, 2, i);
    if hi == 3 {
      assert AscAt(lvl, 1, 3, i) == AscAt(lvl, 1, 2, i2) && DescAt(lvl, 1, 3, i) == DescAt(lvl, 2, 3, i1);
    } else if hi == 2 {
      assert AscAt(lvl, 1, 2, i) == AscAt(lvl, 1, 1, i1) && DescAt(lvl, 1, 2, i) == DescAt(lvl, 2, 2, i1);
    }
  }

  /** In a left-to-right paragraph whose levels do not exceed 2 the stored map is the order of rule L2
      exactly when every two neighbours on level 2 are mirrored by the reversal at level 1. */
  lemma VisualMapIsL2(rs: seq<Run>, lvl: Levels, k: nat, order: seq<nat>)
    requires lvl == LineLevels(rs, 0) && LowestOdd(lvl, k) && order == L2Down(lvl, k, Highest(rs, 0) + 1)
    requires forall i | 0 <= i < |rs| :: rs[i].level <= 2
    ensures VisualMap(rs, 0) == order <==> PairsMirrored(lvl, 1, 2)
  {
    var hi := Highest(rs, 0) + 1;
    HighestAtMost(rs, 0, 2);
    TwoLevelBounds(rs, lvl, hi);
    TwoLevelsL2(lvl, k, hi, order);
  }

  lemma TwoLevelBounds(rs: seq<Run>, lvl: Levels, hi: nat)
    requires lvl == LineLevels(rs, 0) && hi == Highest(rs, 0) + 1 <= 3
    ensures VisualMap(rs, 0) == Ascending(lvl, 1, hi) && 1 <= hi && forall i | 0 <= i < |lvl| :: lvl[i] < hi
  {
    LineBounds(rs, 0, lvl, hi);
  }

  lemma TwoLevelsL2(lvl: Levels, k: nat, hi: nat, order: seq<nat>)
    requires LowestOdd(lvl, k) && 1 <= hi <= 3 && forall i | 0 <= i < |lvl| :: lvl[i] < hi
    requires order == L2Down(lvl, k, hi)
    ensures Ascending(lvl, 1, hi) == order <==> PairsMirrored(lvl, 1, 2)
  {
    L2IsDownToOne(lvl, k, hi);
    TwoLevels(lvl, hi);
  }

  lemma {:induction false} HighestAtMost(rs: seq<Run>, para: nat, h: nat)
    requires para <= h && forall i | 0 <= i < |rs| :: rs[i].level <= h
    ensures Highest(rs, para) <= h
  {
    if rs != [] {
      HighestAtMost(rs[..|rs| - 1], para, h);
    }
  }

  /** With any levels it is enough that the reversals at all lower levels mirror such neighbours. */
  lemma VisualMapIsL2WhenMirrored(rs: seq<Run>, lvl: Levels, k: nat, order: seq<nat>)
    requires lvl == LineLevels(rs, 0) && LowestOdd(lvl, k) && order == L2Down(lvl, k, Highest(rs, 0) + 1)
    requires AllMirrored(lvl, 1, Highest(rs, 0) + 1)
    ensures VisualMap(rs, 0) == order
  {
    var hi := Highest(rs, 0) + 1;
    LineBounds(rs, 0, lvl, hi);
    MirroredL2(lvl, k, hi, order);
  }

  lemma MirroredL2(lvl: Levels, k: nat, hi: nat, order: seq<nat>)
    requires LowestOdd(lvl, k) && forall i | 0 <= i < |lvl| :: lvl[i] < hi
    requires AllMirrored(lvl, 1, hi) && order == L2Down(lvl, k, hi)
    ensures Ascending(lvl, 1, hi) == order
  {
    L2IsDownToOne(lvl, k, hi);
    MirroredOrder(lvl, 1, hi);
  }

  /** The condition for all levels is not necessary: reversals at two levels cancel when one of the
      levels does not occur. */
  lemma MirroredIsNotNeeded()
    ensures var lvl := [1, 1, 3, 3]; Ascending(lvl, 1, 4) == Descending(lvl, 1, 4) && !PairsMirrored(lvl, 1, 2)
  {
    var lvl := [1, 1, 3, 3];
    assert IsRun(lvl, 1, 0, 4);
    InRun(lvl, 1, 0, 4, 2);
    assert HighPair(lvl, 2, 2);
    forall i | 0 <= i < |lvl| ensures AscAt(lvl, 1, 4, i) == DescAt(lvl, 1, 4, i) {
      LevelsCancel(lvl, i);
    }
  }

  lemma LevelsCancel(lvl: Levels, i: nat)
    requires i < |lvl| && forall k | 0 <= k < |lvl| :: lvl[k] != 2
    ensures AscAt(lvl, 1, 4, i) == Mirror(lvl, 1, i) == DescAt(lvl, 1, 4, i)
  {
    var j, i1 := Mirror(lvl, 3, i), Mirror(lvl, 1, i);
    MirrorByThreshold(lvl, lvl, 2, 3, j);
    MirrorInvolution(lvl, 3, i, j);
    assert AscAt(lvl, 1, 4, i) == AscAt(lvl, 1, 3, j) == AscAt(lvl, 1, 2, i) == AscAt(lvl, 1, 1, i1);
    PairCancels(lvl, 2, 4, i1);
    assert DescAt(lvl, 1, 4, i) == DescAt(lvl, 2, 4, i1) == DescAt(lvl, 4, 4, i1);
  }

  /** Two characters on level 2 before one on level 1. */
  lemma TwoTwoOne(lvl: Levels)
    requires lvl == [2, 2, 1]
    ensures Ascending(lvl, 1, 3) == [1, 2, 0] && Descending(lvl, 1, 3) == [2, 0, 1]
  {
    MirrorsOfThree(lvl);
    forall i: nat | i < 3
      ensures AscAt(lvl, 1, 3, i) == [1, 2, 0][i] && DescAt(lvl, 1, 3, i) == [2, 0, 1][i]
    {
      OneAndTwo(lvl, 3, i);
    }
  }

  lemma MirrorsOfThree(lvl: Levels)
    requires lvl == [2, 2, 1]
    ensures Mirror(lvl, 1, 0) == 2 && Mirror(lvl, 1, 1) == 1 && Mirror(lvl, 1, 2) == 0
    ensures Mirror(lvl, 2, 0) == 1 && Mirror(lvl, 2, 1) == 0 && Mirror(lvl, 2, 2) == 2
  {
    assert IsRun(lvl, 1, 0, 3) && IsRun(lvl, 2, 0, 2);
    forall i: nat | i < 3 ensures Mirror(lvl, 1, i) == 2 - i {
      InRun(lvl, 1, 0, 3, i);
    }
    forall i: nat | i < 2 ensures Mirror(lvl, 2, i) == 1 - i {
      InRun(lvl, 2, 0, 2, i);
    }
  }

  ghost predicate NeighboursAbove(lvl: Levels, l: nat) {
    exists i :: 0 <= i && i + 1 < |lvl| && lvl[i] >= l && lvl[i + 1] >= l
  }

  lemma NoNeighboursFixed(lvl: Levels, i: nat)
    requires i < |lvl| && !NeighboursAbove(lvl, 1)
    ensures Mirror(lvl, 1, i) == i
  {
    var above := (j: int) => 0 <= j && j + 1 < |lvl| && lvl[j] >= 1 && lvl[j + 1] >= 1;
    assert !above(i) && !above(i - 1);
    if lvl[i] >= 1 {
      assert IsRun(lvl, 1, i, i + 1);
      InRun(lvl, 1, i, i + 1, i);
    }
  }

  /** Leaving out the last reversal changes the order exactly when that reversal moves something. */
  lemma WithoutLevelOne(lvl: Levels, hi: nat)
    requires hi >= 2
    ensures Descending(lvl, 1, hi) == Descending(lvl, 2, hi) <==> !NeighboursAbove(lvl, 1)
  {
    if NeighboursAbove(lvl, 1) {
      var i :| 0 <= i && i + 1 < |lvl| && lvl[i] >= 1 && lvl[i + 1] >= 1;
      MovedByMirror(lvl, i);
      var j := if Mirror(lvl, 1, i) != i then i else i + 1;
      DescInjective(lvl, 2, hi, Mirror(lvl, 1, j), j);
      assert Descending(lvl, 1, hi)[j] != Descending(lvl, 2, hi)[j];
    } else {
      forall i | 0 <= i < |lvl| ensures DescAt(lvl, 1, hi, i) == DescAt(lvl, 2, hi, i) {
        NoNeighboursFixed(lvl, i);
      }
    }
  }

  lemma DescInjective(lvl: Levels, lo: nat, hi: nat, i: nat, j: nat)
    requires i < |lvl| && j < |lvl| && i != j
    ensures DescAt(lvl, lo, hi, i) != DescAt(lvl, lo, hi, j)
  {
    DescUndoesAsc(lvl, lo, hi, i);
    DescUndoesAsc(lvl, lo, hi, j);
  }

  lemma InverseUnique(f: seq<nat>, g: seq<nat>, h: seq<nat>)
    requires Inverse(f, g)
    ensures Inverse(f, h) <==> h == g
  {
    if Inverse(f, h) {
      forall i | 0 <= i < |g| ensures h[i] == g[i] {
        assert h[f[g[i]]] == g[i];
      }
    }
  }

  /** In a right-to-left paragraph the reversal at level 1 is left out: the stored map inverts rule L2
      exactly when no two neighbours have levels of 1 or more. */
  lemma RightToLeftParagraph(rs: seq<Run>, k: nat)
    requires LowestOdd(LineLevels(rs, 1), k)
    ensures Inverse(VisualMap(rs, 1), L2Down(LineLevels(rs, 1), k, Highest(rs, 1) + 1))
            <==> !NeighboursAbove(LineLevels(rs, 1), 1)
  {
    var lvl, hi := LineLevels(rs, 1), Highest(rs, 1) + 1;
    LineBounds(rs, 1, lvl, hi);
    RightToLeftLevels(lvl, k, hi);
  }

  lemma RightToLeftLevels(lvl: Levels, k: nat, hi: nat)
    requires LowestOdd(lvl, k) && hi >= 2 && forall i | 0 <= i < |lvl| :: lvl[i] < hi
    ensures Inverse(Ascending(lvl, 2, hi), L2Down(lvl, k, hi)) <==> !NeighboursAbove(lvl, 1)
  {
    L2IsDownToOne(lvl, k, hi);
    AscendingInvertsDescending(lvl, 2, hi);
    WithoutLevelOne(lvl, hi);
    InverseUnique(Ascending(lvl, 2, hi), Descending(lvl, 2, hi), Descending(lvl, 1, hi));
  }

  lemma MovedByMirror(lvl: Levels, i: nat)
    requires i + 1 < |lvl| && lvl[i] >= 1 && lvl[i + 1] >= 1
    ensures Mirror(lvl, 1, i) != i || Mirror(lvl, 1, i + 1) != i + 1
  {
    var a, b := RunStart(lvl, 1, i), RunEnd(lvl, 1, i);
    assert IsRun(lvl, 1, a, b);
    InRun(lvl, 1, a, b, i);
    InRun(lvl, 1, a, b, i + 1);
  }
}
