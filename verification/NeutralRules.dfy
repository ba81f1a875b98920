/**
  What the neutral rules and the implicit levels make of each character, in terms of the classes around
  it and its level.
 */
module NeutralRules {
  import opened BidiTypes
  import opened WeakTypes
  import opened NeutralTypes

  /** The classes that count as right-to-left here; European numbers do not count at all. */
  predicate IsRight(c: Class) {
    c in {R, AN}
  }

  // ----- The direction of a pair of brackets -----

  /** The first character of `rs[a..b]` that gives a direction. */
  ghost predicate FirstDirected(rs: seq<Run>, a: nat, b: nat, m: nat) {
    && a <= m < b <= |rs| && !rs[m].removed && (rs[m].cls == L || IsRight(rs[m].cls))
    && forall k | a <= k < m && !rs[k].removed :: rs[k].cls != L && !IsRight(rs[k].cls)
  }

  lemma {:induction false} FirstSideIs(rs: seq<Run>, a: nat, b: nat, m: nat)
    requires FirstDirected(rs, a, b, m)
    ensures FirstSide(rs, a, b) == if rs[m].cls == L then Leftward else Rightward
    decreases m - a
  {
    if a < m {
      FirstSideIs(rs, a + 1, b, m);
    }
  }

  lemma {:induction false} NoSide(rs: seq<Run>, a: nat, b: nat)
    requires a <= b <= |rs| && forall k | a <= k < b && !rs[k].removed :: rs[k].cls != L && !IsRight(rs[k].cls)
    ensures FirstSide(rs, a, b) == Unknown
    decreases b - a
  {
    if a < b {
      NoSide(rs, a + 1, b);
    }
  }

  /** The brackets of a pair become L or R like the first character between them that has a direction, as
      the turns before theirs have left the paragraph. */
  lemma PairFollowsInside(rs: seq<Run>, mid: seq<Run>, i: nat, k: nat, m: nat)
    requires MadePair(rs, i, k) && mid == BracketsUpTo(rs, i) && FirstDirected(mid, i + 1, k, m)
    ensures N0(rs)[i].cls == N0(rs)[k].cls == if mid[m].cls == L then L else R
  {
    FirstSideIs(mid, i + 1, k, m);
    PairDirection(rs, i, k);
  }

  /** With no such character between them they follow the level of the opening bracket. */
  lemma PairFollowsLevel(rs: seq<Run>, mid: seq<Run>, i: nat, k: nat)
    requires MadePair(rs, i, k) && mid == BracketsUpTo(rs, i)
    requires forall m | i < m < k && !mid[m].removed :: mid[m].cls != L && !IsRight(mid[m].cls)
    ensures N0(rs)[i].cls == N0(rs)[k].cls == if rs[i].level % 2 == 1 then R else L
  {
    PairDirection(rs, i, k);
    LevelStays(rs, mid, i);
    SideOfLevel(mid, i, k);
  }

  lemma SideOfLevel(mid: seq<Run>, i: nat, k: nat)
    requires i < k < |mid|
    requires forall m | i < m < k && !mid[m].removed :: mid[m].cls != L && !IsRight(mid[m].cls)
    ensures SideClass(PairSide(mid, i, k)) == if mid[i].level % 2 == 1 then R else L
  {
    NoSide(mid, i + 1, k);
  }

  lemma LevelStays(rs: seq<Run>, mid: seq<Run>, i: nat)
    requires i < |rs| && mid == BracketsUpTo(rs, i)
    ensures mid[i].level == rs[i].level
  {
    UpToPairs(rs, i);
  }

  // ----- Neutrals between two directions -----

  /** The unbroken run of kept neutrals from `s` to `e`, nothing neutral being kept next to it. */
  ghost predicate NeutralRun(rs: seq<Run>, s: nat, e: nat) {
    && s <= e < |rs| && (forall k | s <= k <= e :: KeptNeutral(rs, k))
    && (s > 0 ==> !KeptNeutral(rs, s - 1)) && (e + 1 < |rs| ==> !KeptNeutral(rs, e + 1))
  }

  /** The kept characters before and after such a run. */
  ghost predicate Around(rs: seq<Run>, s: nat, e: nat, p: nat, n: nat) {
    && p < s <= e < n < |rs| && !rs[p].removed && !rs[n].removed
    && (forall k | p < k < s :: rs[k].removed) && (forall k | e < k < n :: rs[k].removed)
  }

  /** A run of neutrals becomes L between two L, R when R or an Arabic number stands on either side, and
      otherwise stays. */
  lemma NeutralsBetween(rs: seq<Run>, s: nat, e: nat, p: nat, n: nat, k: nat)
    requires NeutralRun(rs, s, e) && Around(rs, s, e, p, n) && s <= k <= e
    ensures rs[p].cls == L && rs[n].cls == L ==> N1(rs)[k].cls == L
    ensures IsRight(rs[p].cls) && IsRight(rs[n].cls) ==> N1(rs)[k].cls == R
    ensures !(rs[p].cls == L && rs[n].cls == L) && !(IsRight(rs[p].cls) && IsRight(rs[n].cls)) ==>
              N1(rs)[k] == rs[k]
  {
    AgreedIs(rs, s, e, p, n);
    RunOfNeutrals(rs, s, e, AgreedSide(rs, s, e));
  }

  lemma AgreedIs(rs: seq<Run>, s: nat, e: nat, p: nat, n: nat)
    requires Around(rs, s, e, p, n)
    ensures AgreedSide(rs, s, e) == if rs[p].cls == L && rs[n].cls == L then Leftward
                                    else if IsRight(rs[p].cls) && IsRight(rs[n].cls) then Rightward else Unknown
  {
    PrevKeptIs(rs, s, p);
    NextKeptIs(rs, e, n);
  }

  lemma AgreedAtEnd(rs: seq<Run>, s: nat, e: nat)
    requires s <= e < |rs|
    requires (forall j | 0 <= j < s :: rs[j].removed) || (forall j | e < j < |rs| :: rs[j].removed)
    ensures AgreedSide(rs, s, e) == Unknown
  {
    if forall j | 0 <= j < s :: rs[j].removed {
      PrevKeptIs(rs, s, -1);
    } else {
      NextKeptIs(rs, e, -1);
    }
  }

  /** A run at either end of the paragraph stays. */
  lemma NeutralsAtEnd(rs: seq<Run>, s: nat, e: nat, k: nat)
    requires NeutralRun(rs, s, e) && s <= k <= e
    requires (forall j | 0 <= j < s :: rs[j].removed) || (forall j | e < j < |rs| :: rs[j].removed)
    ensures N1(rs)[k] == rs[k]
  {
    AgreedAtEnd(rs, s, e);
    RunOfNeutrals(rs, s, e, Unknown);
  }

  lemma NotNeutral(rs: seq<Run>, i: nat)
    requires i < |rs| && (rs[i].removed || rs[i].cls !in {B, S, WS, ON, LRI, RLI, FSI, PDI})
    ensures N1(rs)[i] == rs[i] && N2(rs)[i] == rs[i] && N0(rs)[i] == rs[i]
  {
    BracketsResolved(rs);
    assert N0(rs)[i] == rs[i] || InPair(rs, N0(rs), i);
  }

  /** What is still neutral follows its level. */
  lemma NeutralsFollowLevel(rs: seq<Run>, i: nat)
    requires i < |rs| && !rs[i].removed && rs[i].cls in {B, S, WS, ON, LRI, RLI, FSI, PDI}
    ensures N2(rs)[i].cls == if rs[i].level % 2 == 1 then R else L
  {
  }

  /** After the neutral rules every kept character but numbers and leading marks is L or R, and strong ones
      are what they were. */
  lemma NeutralResult(rs: seq<Run>, i: nat)
    requires i < |rs| && !rs[i].removed
    ensures Neutrals(rs)[i].level == rs[i].level && !Neutrals(rs)[i].removed
    ensures if rs[i].cls in {B, S, WS, ON, LRI, RLI, FSI, PDI} then Neutrals(rs)[i].cls in {L, R}
            else Neutrals(rs)[i].cls == rs[i].cls
  {
    BracketsResolved(rs);
    assert N0(rs)[i] == rs[i] || InPair(rs, N0(rs), i);
    assert N1(N0(rs))[i].cls == N1Class(N0(rs), i);
  }

  // ----- Levels -----

  /** The least level of the right parity: R goes to the next odd level unless it is on one, L to the next
      even one unless it is on one, and numbers always go up to an even one. */
  lemma LeastLevel(c: Class, l: nat, r: nat)
    requires c in {L, R, EN, AN}
    ensures r == ImplicitLevel(c, l)
            <==> && (r % 2 == 1 <==> c == R) && l <= r && (c in {EN, AN} ==> r > l)
                 && forall m: nat | l <= m < r && (c in {EN, AN} ==> m > l) :: !(m % 2 == 1 <==> c == R)
  {
    var i := ImplicitLevel(c, l);
    assert forall m: nat | l <= m < i && (c in {EN, AN} ==> m > l) :: !(m % 2 == 1 <==> c == R);
  }
}
