/**
  The neutral rules and the implicit levels of the bidirectional engine (after sections 3.3.5 and
  3.3.6 of UAX #9).  Bracket pairs are matched with the nearest closing bracket that is still
  open, one opening bracket after the other, so that pass is a fold; the others work on each
  character from the classes before the pass.
 */
module NeutralTypes {
  import opened BidiTypes
  import opened PairTables
  import opened WeakTypes

  datatype Side = Unknown | Leftward | Rightward

  /** The direction of a strong class.  European numbers are not strong here. */
  function StrongSide(c: Class): Side {
    if c == L then Leftward else if c == R || c == AN then Rightward else Unknown
  }

  predicate IsNeutral(c: Class) {
    c in {B, S, WS, ON, LRI, RLI, FSI, PDI}
  }

  function LevelSide(level: nat): Side {
    if Odd(level) then Rightward else Leftward
  }

  function SideClass(d: Side): Class {
    if d == Rightward then R else L
  }

  // ----- N0: bracket pairs -----

  predicate Open(rs: seq<Run>, i: nat)
    requires i < |rs|
  {
    KeptAs(rs, i, ON) && CloseOf(rs[i].cp).With?
  }

  predicate Closes(rs: seq<Run>, k: nat, close: nat)
    requires k < |rs|
  {
    KeptAs(rs, k, ON) && rs[k].cp == close
  }

  /** The first closing bracket `close` from `k` on, or -1. */
  function CloseFrom(rs: seq<Run>, k: nat, close: nat): (p: int)
    requires k <= |rs|
    ensures p == -1 || (k <= p < |rs| && Closes(rs, p, close))
    ensures forall j | k <= j < |rs| && (p == -1 || j < p) :: !Closes(rs, j, close)
    decreases |rs| - k
  {
    if k == |rs| then -1 else if Closes(rs, k, close) then k else CloseFrom(rs, k + 1, close)
  }

  /** The direction of the first strong character of `rs[a..b]`. */
  function FirstSide(rs: seq<Run>, a: nat, b: nat): Side
    requires a <= b <= |rs|
    decreases b - a
  {
    if a == b then Unknown
    else if !rs[a].removed && StrongSide(rs[a].cls) != Unknown then StrongSide(rs[a].cls)
    else FirstSide(rs, a + 1, b)
  }

  /** The direction that the brackets at `i` and `k` get. */
  function PairSide(rs: seq<Run>, i: nat, k: nat): (d: Side)
    requires i < k < |rs|
    ensures d != Unknown
  {
    var inner := FirstSide(rs, i + 1, k);
    if inner == Unknown then LevelSide(rs[i].level) else inner
  }

  /** Gives class `c` to the characters at `i` and `k`. */
  function SetPair(rs: seq<Run>, i: nat, k: nat, c: Class): (r: seq<Run>)
    requires i < k < |rs|
    ensures |r| == |rs|
    ensures forall j | 0 <= j < |rs| :: r[j] == if j == i || j == k then SetClass(rs[j], c) else rs[j]
  {
    rs[i := SetClass(rs[i], c)][k := SetClass(rs[k], c)]
  }

  /** One turn of the pass, at position `i`. */
  function BracketStep(rs: seq<Run>, i: nat): (r: seq<Run>)
    requires i < |rs|
    ensures |r| == |rs|
  {
    if !Open(rs, i) then rs
    else
      var k := CloseFrom(rs, i + 1, CloseOf(rs[i].cp).cp);
      if k == -1 then rs else SetPair(rs, i, k, SideClass(PairSide(rs, i, k)))
  }

  /** The paragraph when the positions before `i` have had their turn. */
  function BracketsUpTo(rs: seq<Run>, i: nat): (r: seq<Run>)
    requires i <= |rs|
    ensures |r| == |rs|
  {
    if i == 0 then rs else BracketStep(BracketsUpTo(rs, i - 1), i - 1)
  }

  function N0(rs: seq<Run>): (r: seq<Run>)
    ensures |r| == |rs|
  {
    BracketsUpTo(rs, |rs|)
  }

  method PassN0(r: array<Run>)
    modifies r
    ensures r[..] == N0(old(r[..]))
  {
    ghost var rs := r[..];
    for i := 0 to r.Length
      invariant r[..] == BracketsUpTo(rs, i)
    {
      ResolveBracket(r, i);
    }
  }

  method ResolveBracket(r: array<Run>, i: nat)
    requires i < r.Length
    modifies r
    ensures r[..] == BracketStep(old(r[..]), i)
  {
    ghost var rs := r[..];
    if r[i].removed || r[i].cls != ON {
      return;
    }
    var close := Search(BRACKETS, r[i].cp);
    if close.Alone? {
      return;
    }
    assert Open(rs, i) && close == CloseOf(rs[i].cp);
    var k := i + 1;
    while k < r.Length
      invariant i < k <= r.Length && r[..] == rs
      invariant CloseFrom(rs, i + 1, close.cp) == CloseFrom(rs, k, close.cp)
    {
      if !r[k].removed && r[k].cls == ON && r[k].cp == close.cp {
        var dir := FindSide(r, i + 1, k);
        if dir == Unknown {
          dir := LevelSide(r[i].level);
        }
        r[i] := SetClass(r[i], SideClass(dir));
        r[k] := SetClass(r[k], SideClass(dir));
        return;
      }
      k := k + 1;
    }
  }

  method FindSide(r: array<Run>, a: nat, b: nat) returns (d: Side)
    requires a <= b <= r.Length
    ensures d == FirstSide(r[..], a, b)
  {
    for m := a to b
      invariant FirstSide(r[..], a, b) == FirstSide(r[..], m, b)
    {
      if !r[m].removed && StrongSide(r[m].cls) != Unknown {
        return StrongSide(r[m].cls);
      }
    }
    return Unknown;
  }

  // ----- N1: neutrals between two strong characters of one direction -----

  predicate KeptNeutral(rs: seq<Run>, i: nat)
    requires i < |rs|
  {
    !rs[i].removed && IsNeutral(rs[i].cls)
  }

  /** The unbroken run of kept neutrals around `i`. */
  function NeutralsStart(rs: seq<Run>, i: nat): (s: nat)
    requires i < |rs| && KeptNeutral(rs, i)
    ensures s <= i && (forall k | s <= k <= i :: KeptNeutral(rs, k)) && (s > 0 ==> !KeptNeutral(rs, s - 1))
  {
    if i > 0 && KeptNeutral(rs, i - 1) then NeutralsStart(rs, i - 1) else i
  }

  function NeutralsEnd(rs: seq<Run>, i: nat): (e: nat)
    requires i < |rs| && KeptNeutral(rs, i)
    ensures i <= e < |rs| && (forall k | i <= k <= e :: KeptNeutral(rs, k))
    ensures e + 1 < |rs| ==> !KeptNeutral(rs, e + 1)
    decreases |rs| - i
  {
    if i + 1 < |rs| && KeptNeutral(rs, i + 1) then NeutralsEnd(rs, i + 1) else i
  }

  /** The direction on both sides of the run from `s` to `e`, if it is the same. */
  function AgreedSide(rs: seq<Run>, s: nat, e: nat): Side
    requires s <= e < |rs|
  {
    var left := StrongSide(ClassAt(rs, PrevKept(rs, s)));
    var right := StrongSide(ClassAt(rs, NextKept(rs, e)));
    if left == right then left else Unknown
  }

  function N1Class(rs: seq<Run>, i: nat): Class
    requires i < |rs|
  {
    if !KeptNeutral(rs, i) then rs[i].cls
    else
      var d := AgreedSide(rs, NeutralsStart(rs, i), NeutralsEnd(rs, i));
      if d == Unknown then rs[i].cls else SideClass(d)
  }

  function N1(rs: seq<Run>): (r: seq<Run>)
    ensures |r| == |rs| && forall i | 0 <= i < |rs| :: r[i] == SetClass(rs[i], N1Class(rs, i))
  {
    seq(|rs|, i requires 0 <= i < |rs| => SetClass(rs[i], N1Class(rs, i)))
  }

  lemma {:induction false} StartIs(rs: seq<Run>, s: nat, i: nat)
    requires s <= i < |rs| && forall k | s <= k <= i :: KeptNeutral(rs, k)
    requires s > 0 ==> !KeptNeutral(rs, s - 1)
    ensures NeutralsStart(rs, i) == s
  {
    if s < i {
      StartIs(rs, s, i - 1);
    }
  }

  lemma {:induction false} EndIs(rs: seq<Run>, i: nat, e: nat)
    requires i <= e < |rs| && forall k | i <= k <= e :: KeptNeutral(rs, k)
    requires e + 1 < |rs| ==> !KeptNeutral(rs, e + 1)
    ensures NeutralsEnd(rs, i) == e
    decreases e - i
  {
    if i < e {
      EndIs(rs, i + 1, e);
    }
  }

  lemma RunOfNeutrals(rs: seq<Run>, s: nat, e: nat, d: Side)
    requires s <= e < |rs| && (forall k | s <= k <= e :: KeptNeutral(rs, k))
    requires s > 0 ==> !KeptNeutral(rs, s - 1)
    requires e + 1 < |rs| ==> !KeptNeutral(rs, e + 1)
    requires d == AgreedSide(rs, s, e)
    ensures forall k | s <= k <= e :: N1Class(rs, k) == if d == Unknown then rs[k].cls else SideClass(d)
  {
    forall k | s <= k <= e ensures N1Class(rs, k) == if d == Unknown then rs[k].cls else SideClass(d) {
      StartIs(rs, s, k);
      EndIs(rs, k, e);
    }
  }

  /** A neutral that a removed character separates from a neutral after it is left alone, so the
      pass sees to the left of a run what stood there before the pass. */
  lemma NeutralBeforeGap(rs: seq<Run>, s: nat, p: nat)
    requires s < |rs| && KeptNeutral(rs, s) && (s > 0 ==> !KeptNeutral(rs, s - 1))
    requires p == PrevKept(rs, s)
    ensures N1Class(rs, p) == rs[p].cls
  {
    if KeptNeutral(rs, p) {
      var e := NeutralsEnd(rs, p);
      assert p < s - 1 && rs[p + 1].removed;
      EndIs(rs, p, p);
      NextKeptIs(rs, p, s);
    }
  }

  lemma LeftInPlace(r: seq<Run>, rs: seq<Run>, s: nat, p: int)
    requires Halfway(r, rs, N1(rs), s) && s < |rs| && KeptNeutral(rs, s) && (s > 0 ==> !KeptNeutral(rs, s - 1))
    requires p == PrevKept(rs, s)
    ensures ClassAt(r, p) == ClassAt(rs, p)
  {
    if p >= 0 {
      NeutralBeforeGap(rs, s, p);
      assert r[p] == SetClass(rs[p], N1Class(rs, p));
    }
  }

  lemma SideInPlace(r: seq<Run>, rs: seq<Run>, s: nat, e: nat)
    requires Halfway(r, rs, N1(rs), s) && s <= e < |rs| && KeptNeutral(rs, s) && (s > 0 ==> !KeptNeutral(rs, s - 1))
    ensures AgreedSide(r, s, e) == AgreedSide(rs, s, e)
  {
    KeptByFlags(r, rs, s);
    KeptByFlags(r, rs, e);
    LeftInPlace(r, rs, s, PrevKept(rs, s));
    SameAt(r, rs, s, NextKept(rs, e));
  }

  lemma SameAt(r: seq<Run>, rs: seq<Run>, s: nat, n: int)
    requires Halfway(r, rs, N1(rs), s) && -1 <= n < |rs| && (n >= 0 ==> n >= s)
    ensures ClassAt(r, n) == ClassAt(rs, n)
  {
  }

  method PassN1(r: array<Run>)
    modifies r
    ensures r[..] == N1(old(r[..]))
  {
    ghost var rs, out := r[..], N1(r[..]);
    var i := 0;
    while i < r.Length
      invariant 0 <= i <= r.Length && Halfway(r[..], rs, out, i)
      invariant 0 < i < r.Length ==> !KeptNeutral(rs, i - 1) || !KeptNeutral(rs, i)
    {
      var end := i;
      if !r[i].removed && IsNeutral(r[i].cls) {
        ghost var before := r[..];
        ghost var d;
        end, d := ResolveNeutrals(r, i);
        RunDone(before, r[..], rs, i, end, d);
      }
      i := end + 1;
    }
  }

  /** Resolves the unbroken run of neutrals that starts at `i`. */
  method ResolveNeutrals(r: array<Run>, i: nat) returns (end: nat, ghost d: Side)
    requires i < r.Length && KeptNeutral(r[..], i)
    modifies r
    ensures i <= end < r.Length && (forall k | i <= k <= end :: KeptNeutral(old(r[..]), k))
    ensures end + 1 < r.Length ==> !KeptNeutral(old(r[..]), end + 1)
    ensures d == AgreedSide(old(r[..]), i, end)
    ensures forall k | 0 <= k < r.Length ::
              r[k] == if i <= k <= end && d != Unknown then SetClass(old(r[k]), SideClass(d)) else old(r[k])
  {
    end := FindNeutralsEnd(r, i);
    var side := FindAgreedSide(r, i, end);
    d := side;
    if side != Unknown {
      FillNeutrals(r, i, end, SideClass(side));
    }
  }

  lemma RunDone(before: seq<Run>, after: seq<Run>, rs: seq<Run>, s: nat, e: nat, d: Side)
    requires Halfway(before, rs, N1(rs), s) && |after| == |rs| && s <= e < |rs| && d == AgreedSide(before, s, e)
    requires (forall k | s <= k <= e :: KeptNeutral(before, k)) && (s > 0 ==> !KeptNeutral(rs, s - 1))
    requires e + 1 < |rs| ==> !KeptNeutral(before, e + 1)
    requires forall k | 0 <= k < |rs| ::
               after[k] == if s <= k <= e && d != Unknown then SetClass(before[k], SideClass(d)) else before[k]
    ensures Halfway(after, rs, N1(rs), e + 1)
    ensures e + 1 < |rs| ==> !KeptNeutral(rs, e + 1)
  {
    assert forall k | s <= k <= e :: KeptNeutral(before, k) ==> KeptNeutral(rs, k);
    SideInPlace(before, rs, s, e);
    RunOfNeutrals(rs, s, e, d);
  }

  method FindNeutralsEnd(r: array<Run>, i: nat) returns (end: nat)
    requires i < r.Length && KeptNeutral(r[..], i)
    ensures i <= end < r.Length && forall k | i <= k <= end :: KeptNeutral(r[..], k)
    ensures end + 1 < r.Length ==> !KeptNeutral(r[..], end + 1)
  {
    end := i;
    while end + 1 < r.Length && !r[end + 1].removed && IsNeutral(r[end + 1].cls)
      invariant i <= end < r.Length && forall k | i <= k <= end :: KeptNeutral(r[..], k)
    {
      end := end + 1;
    }
  }

  method FindAgreedSide(r: array<Run>, s: nat, e: nat) returns (d: Side)
    requires s <= e < r.Length
    ensures d == AgreedSide(r[..], s, e)
  {
    var left, right := Unknown, Unknown;
    var p := FindPrevKept(r, s);
    if p >= 0 {
      left := StrongSide(r[p].cls);
    }
    var q := FindNextKept(r, e);
    if q >= 0 {
      right := StrongSide(r[q].cls);
    }
    d := if left == right then left else Unknown;
  }

  method FillNeutrals(r: array<Run>, start: nat, end: nat, c: Class)
    requires start <= end < r.Length && !IsNeutral(c)
    requires forall k | start <= k <= end :: KeptNeutral(r[..], k)
    modifies r
    ensures forall k | 0 <= k < r.Length ::
              r[k] == if start <= k <= end then SetClass(old(r[k]), c) else old(r[k])
  {
    var k := start;
    while k <= end
      invariant start <= k <= end + 1
      invariant forall j | 0 <= j < r.Length ::
        r[j] == if start <= j < k then SetClass(old(r[j]), c) else old(r[j])
    {
      assert KeptNeutral(old(r[..]), k);
      if !r[k].removed && IsNeutral(r[k].cls) {
        r[k] := SetClass(r[k], c);
      }
      k := k + 1;
    }
  }

  // ----- N2 and the implicit levels -----

  function N2Class(x: Run): Class {
    if !x.removed && IsNeutral(x.cls) then SideClass(LevelSide(x.level)) else x.cls
  }

  function N2(rs: seq<Run>): (r: seq<Run>)
    ensures |r| == |rs| && forall i | 0 <= i < |rs| :: r[i] == SetClass(rs[i], N2Class(rs[i]))
  {
    seq(|rs|, i requires 0 <= i < |rs| => SetClass(rs[i], N2Class(rs[i])))
  }

  method PassN2(r: array<Run>)
    modifies r
    ensures r[..] == N2(old(r[..]))
  {
    ghost var rs, out := r[..], N2(r[..]);
    for i := 0 to r.Length
      invariant Halfway(r[..], rs, out, i)
    {
      if !r[i].removed && IsNeutral(r[i].cls) {
        r[i] := SetClass(r[i], if Odd(r[i].level) then R else L);
      }
    }
  }

  function Neutrals(rs: seq<Run>): seq<Run> {
    N2(N1(N0(rs)))
  }

  method PhaseNeutral(r: array<Run>)
    modifies r
    ensures r[..] == Neutrals(old(r[..]))
  {
    PassN0(r);
    PassN1(r);
    PassN2(r);
  }

  /** The level of a character of class `c` on embedding level `l`. */
  function ImplicitLevel(c: Class, l: nat): (r: nat)
    ensures l <= r <= l + 2
    ensures c == R ==> Odd(r) && r <= l + 1
    ensures c == L ==> !Odd(r) && r <= l + 1
    ensures c in {EN, AN} ==> !Odd(r) && l < r
    ensures c !in {L, R, EN, AN} ==> r == l
    ensures l <= MAX_LEVEL ==> r <= MAX_LEVEL + 1
  {
    if c == R then (if Odd(l) then l else l + 1)
    else if c == EN || c == AN then (if Odd(l) then l + 1 else l + 2)
    else if c == L then (if Odd(l) then l + 1 else l)
    else l
  }

  function SetLevel(x: Run, l: nat): Run {
    Run(x.cp, x.cls, l, x.mirrored, x.removed)
  }

  function ImplicitRun(x: Run): Run {
    if x.removed then x else SetLevel(x, ImplicitLevel(x.cls, x.level))
  }

  function Implicit(rs: seq<Run>): (r: seq<Run>)
    ensures |r| == |rs| && forall i | 0 <= i < |rs| :: r[i] == ImplicitRun(rs[i])
  {
    seq(|rs|, i requires 0 <= i < |rs| => ImplicitRun(rs[i]))
  }

  method PhaseImplicit(r: array<Run>)
    modifies r
    ensures r[..] == Implicit(old(r[..]))
  {
    ghost var rs, out := r[..], Implicit(r[..]);
    for i := 0 to r.Length
      invariant forall k | 0 <= k < i :: r[k] == out[k]
      invariant forall k | i <= k < r.Length :: r[k] == rs[k]
    {
      var l := r[i].level;
      if !r[i].removed {
        match r[i].cls {
          case R =>
            if l % 2 == 0 { r[i] := SetLevel(r[i], l + 1); }
          case EN | AN =>
            if l % 2 == 0 { r[i] := SetLevel(r[i], l + 2); } else { r[i] := SetLevel(r[i], l + 1); }
          case L =>
            if l % 2 == 1 { r[i] := SetLevel(r[i], l + 1); }
          case _ =>
        }
      }
    }
    assert r[..] == out;
  }

  // ----- What the bracket pass leaves -----

  /** Brackets change class only in pairs, to L or R, and only the class changes. */
  ghost predicate Paired(rs: seq<Run>, out: seq<Run>, i: nat, k: nat)
    requires i < k < |rs| == |out|
  {
    && KeptAs(rs, i, ON) && KeptAs(rs, k, ON) && CloseOf(rs[i].cp) == With(rs[k].cp)
    && out[i].cls == out[k].cls && out[i].cls in {L, R}
  }

  ghost predicate InPair(rs: seq<Run>, out: seq<Run>, j: nat)
    requires j < |rs| == |out|
  {
    exists i: nat, k: nat {:trigger Paired(rs, out, i, k)} ::
      i < k < |rs| && (j == i || j == k) && Paired(rs, out, i, k)
  }

  ghost predicate OnlyPairs(rs: seq<Run>, out: seq<Run>) {
    && OnlyClasses(rs, out)
    && forall j: nat {:trigger InPair(rs, out, j)} | j < |rs| :: out[j] == rs[j] || InPair(rs, out, j)
  }

  /** No opening bracket before `n` still has a closing bracket to go with. */
  ghost predicate NoneLeft(rs: seq<Run>, n: nat) {
    forall i, k | 0 <= i < n && i < k < |rs| && Open(rs, i) :: !Closes(rs, k, CloseOf(rs[i].cp).cp)
  }

  lemma StepPairs(rs: seq<Run>, mid: seq<Run>, i: nat, out: seq<Run>)
    requires i < |mid| && OnlyPairs(rs, mid) && out == BracketStep(mid, i)
    ensures OnlyPairs(rs, out)
  {
    if out != mid {
      var k := CloseFrom(mid, i + 1, CloseOf(mid[i].cp).cp);
      assert KeptAs(mid, i, ON) && KeptAs(mid, k, ON);
      StillON(rs, mid, i);
      StillON(rs, mid, k);
      assert Paired(rs, out, i, k);
      forall j: nat | j < |rs| ensures out[j] == rs[j] || InPair(rs, out, j) {
        if j != i && j != k && mid[j] != rs[j] {
          KeepPair(rs, mid, out, j);
        }
      }
    }
  }

  /** What is ON after some turns was ON before them. */
  lemma StillON(rs: seq<Run>, mid: seq<Run>, i: nat)
    requires OnlyPairs(rs, mid) && i < |rs| && KeptAs(mid, i, ON)
    ensures mid[i] == rs[i]
  {
    assert mid[i] == rs[i] || InPair(rs, mid, i);
  }

  /** A pair that was made earlier is not touched by a later turn. */
  lemma KeepPair(rs: seq<Run>, mid: seq<Run>, out: seq<Run>, j: nat)
    requires OnlyPairs(rs, mid) && |out| == |rs| && j < |rs| && mid[j] != rs[j]
    requires forall k | 0 <= k < |rs| :: out[k] == mid[k] || mid[k].cls == ON
    ensures InPair(rs, out, j)
  {
    assert InPair(rs, mid, j);
    var i: nat, k: nat :| i < k < |rs| && (j == i || j == k) && Paired(rs, mid, i, k);
    assert Paired(rs, out, i, k);
  }

  lemma StepLeavesNone(mid: seq<Run>, i: nat, out: seq<Run>)
    requires i < |mid| && NoneLeft(mid, i) && out == BracketStep(mid, i)
    ensures NoneLeft(out, i + 1)
  {
    forall a, k | 0 <= a < i + 1 && a < k < |out| && Open(out, a)
      ensures !Closes(out, k, CloseOf(out[a].cp).cp)
    {
      assert Open(mid, a) && out[a] == mid[a];
      assert Closes(out, k, CloseOf(out[a].cp).cp) ==> Closes(mid, k, CloseOf(mid[a].cp).cp);
    }
  }

  lemma {:induction false} UpToPairs(rs: seq<Run>, n: nat)
    requires n <= |rs|
    ensures OnlyPairs(rs, BracketsUpTo(rs, n)) && NoneLeft(BracketsUpTo(rs, n), n)
  {
    if n > 0 {
      UpToPairs(rs, n - 1);
      StepPairs(rs, BracketsUpTo(rs, n - 1), n - 1, BracketsUpTo(rs, n));
      StepLeavesNone(BracketsUpTo(rs, n - 1), n - 1, BracketsUpTo(rs, n));
    }
  }

  /** The bracket pass changes only matching kept pairs, both brackets of a pair getting the same
      direction, and afterwards no opening bracket has a closing one left to pair with. */
  lemma BracketsResolved(rs: seq<Run>)
    ensures OnlyPairs(rs, N0(rs)) && NoneLeft(N0(rs), |rs|)
  {
    UpToPairs(rs, |rs|);
  }

  // ----- Which brackets go together -----

  /** At its turn the opening bracket at `i` is paired with the closing bracket at `k`. */
  ghost predicate MadePair(rs: seq<Run>, i: nat, k: nat) {
    i < k < |rs| && Open(BracketsUpTo(rs, i), i)
    && CloseFrom(BracketsUpTo(rs, i), i + 1, CloseOf(BracketsUpTo(rs, i)[i].cp).cp) == k
  }

  /** The character at `j` belongs to a pair that is made before turn `n`. */
  ghost predicate Taken(rs: seq<Run>, n: nat, j: nat) {
    exists a: nat, b: nat {:trigger MadePair(rs, a, b)} :: a < n && MadePair(rs, a, b) && (j == a || j == b)
  }

  lemma TakenLater(rs: seq<Run>, n: nat, m: nat, j: nat)
    requires n <= m && Taken(rs, n, j)
    ensures Taken(rs, m, j)
  {
  }

  /** A turn that makes a pair gives both brackets their class; any other turn changes nothing. */
  lemma TurnIs(rs: seq<Run>, i: nat, mid: seq<Run>, out: seq<Run>)
    requires i < |rs| && mid == BracketsUpTo(rs, i) && out == BracketsUpTo(rs, i + 1)
    ensures forall k: nat | MadePair(rs, i, k) :: out == SetPair(mid, i, k, SideClass(PairSide(mid, i, k)))
    ensures (forall k: nat :: !MadePair(rs, i, k)) ==> out == mid
  {
    if Open(mid, i) {
      var p := CloseFrom(mid, i + 1, CloseOf(mid[i].cp).cp);
      assert p >= 0 ==> MadePair(rs, i, p);
    }
  }

  /** Only the characters of pairs change. */
  lemma {:induction false} OnlyTakenChange(rs: seq<Run>, n: nat, j: nat)
    requires n <= |rs| && j < |rs|
    ensures BracketsUpTo(rs, n)[j] == rs[j] || Taken(rs, n, j)
  {
    if n > 0 {
      OnlyTakenChange(rs, n - 1, j);
      var mid, out := BracketsUpTo(rs, n - 1), BracketsUpTo(rs, n);
      TurnIs(rs, n - 1, mid, out);
      if out[j] != mid[j] {
        var k: nat :| MadePair(rs, n - 1, k);
      } else if mid[j] != rs[j] {
        TakenLater(rs, n - 1, n, j);
      }
    }
  }

  /** A character that is no longer neutral is not changed again. */
  lemma {:induction false} Settles(rs: seq<Run>, n: nat, m: nat, j: nat)
    requires n <= m <= |rs| && j < |rs| && BracketsUpTo(rs, n)[j].cls != ON
    ensures BracketsUpTo(rs, m)[j] == BracketsUpTo(rs, n)[j]
    decreases m
  {
    if n < m {
      Settles(rs, n, m - 1, j);
      var mid, out := BracketsUpTo(rs, m - 1), BracketsUpTo(rs, m);
      assert out == BracketStep(mid, m - 1);
    }
  }

  lemma PairSettles(rs: seq<Run>, i: nat, k: nat, m: nat)
    requires MadePair(rs, i, k) && i < m <= |rs|
    ensures var c := SideClass(PairSide(BracketsUpTo(rs, i), i, k));
            BracketsUpTo(rs, m)[i].cls == c == BracketsUpTo(rs, m)[k].cls && c != ON
  {
    TurnIs(rs, i, BracketsUpTo(rs, i), BracketsUpTo(rs, i + 1));
    Settles(rs, i + 1, m, i);
    Settles(rs, i + 1, m, k);
  }

  /** Both brackets of a pair get the direction of the first strong character between them, as the
      earlier turns have left it, or that of the embedding if there is none. */
  lemma PairDirection(rs: seq<Run>, i: nat, k: nat)
    requires MadePair(rs, i, k)
    ensures N0(rs)[i].cls == N0(rs)[k].cls == SideClass(PairSide(BracketsUpTo(rs, i), i, k))
  {
    PairSettles(rs, i, k, |rs|);
  }

  /** The partner is the nearest closing bracket that is not yet in a pair: every one before it belongs
      to a pair of an earlier opening bracket. */
  lemma NearestPartner(rs: seq<Run>, i: nat, k: nat, j: nat)
    requires MadePair(rs, i, k) && i < j < k && KeptAs(rs, j, ON) && CloseOf(rs[i].cp) == With(rs[j].cp)
    ensures exists a: nat :: a < i && MadePair(rs, a, j)
  {
    var mid := BracketsUpTo(rs, i);
    UpToPairs(rs, i);
    StillON(rs, mid, i);
    assert !Closes(mid, j, CloseOf(mid[i].cp).cp);
    OnlyTakenChange(rs, i, j);
    var a: nat, b: nat :| a < i && MadePair(rs, a, b) && (j == a || j == b);
  }

  /** An opening bracket without a partner had none left: all that would fit are in earlier pairs. */
  lemma NoPartner(rs: seq<Run>, i: nat, j: nat)
    requires i < j < |rs| && Open(rs, i) && KeptAs(rs, j, ON) && CloseOf(rs[i].cp) == With(rs[j].cp)
    requires (forall k: nat :: !MadePair(rs, i, k)) && !Taken(rs, i, i)
    ensures exists a: nat :: a < i && MadePair(rs, a, j)
  {
    var mid := BracketsUpTo(rs, i);
    OnlyTakenChange(rs, i, i);
    var p := CloseFrom(mid, i + 1, CloseOf(mid[i].cp).cp);
    assert p >= 0 ==> MadePair(rs, i, p);
    assert !Closes(mid, j, CloseOf(mid[i].cp).cp);
    OnlyTakenChange(rs, i, j);
    var a: nat, b: nat :| a < i && MadePair(rs, a, b) && (j == a || j == b);
  }

  /** No character belongs to two pairs. */
  lemma PairsApart(rs: seq<Run>, i: nat, k: nat, a: nat, b: nat)
    requires MadePair(rs, i, k) && MadePair(rs, a, b) && (i == a || i == b || k == a || k == b)
    ensures i == a && k == b
  {
    StillNeutral(rs, i, k);
    StillNeutral(rs, a, b);
    if a < i {
      PairSettles(rs, a, b, i);
    } else if i < a {
      PairSettles(rs, i, k, a);
    }
  }

  lemma StillNeutral(rs: seq<Run>, i: nat, k: nat)
    requires MadePair(rs, i, k)
    ensures BracketsUpTo(rs, i)[i].cls == ON == BracketsUpTo(rs, i)[k].cls
  {
  }

  /** Whatever is in no pair keeps its class. */
  lemma OutsidePairs(rs: seq<Run>, j: nat)
    requires j < |rs| && forall i: nat, k: nat | MadePair(rs, i, k) :: j != i && j != k
    ensures N0(rs)[j] == rs[j]
  {
    OnlyTakenChange(rs, |rs|, j);
  }
}
