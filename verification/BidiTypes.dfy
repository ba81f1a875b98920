/**
  The data of the bidirectional engine: character classes and the per-character record that
  the phases rewrite.  The engine is modelled on UAX #9 (Unicode Bidirectional Algorithm).
 */
module BidiTypes {

  datatype Class =
    | L | R | AL | EN | ES | ET | AN | CS | NSM | BN | B | S | WS | ON
    | LRE | LRO | RLE | RLO | PDF | LRI | RLI | FSI | PDI

  datatype Run = Run(cp: nat, cls: Class, level: nat, mirrored: bool, removed: bool)

  const MAX_LEVEL: nat := 125

  predicate Odd(level: nat) {
    level % 2 == 1
  }

  predicate IsEmbedding(c: Class) {
    c in {RLE, LRE, RLO, LRO}
  }

  predicate IsIsolateInitiator(c: Class) {
    c in {RLI, LRI, FSI}
  }

  /** The least odd level above `l`. */
  function NextOdd(l: nat): (r: nat)
    ensures l < r <= l + 2 && Odd(r)
  {
    (l + 1) / 2 * 2 + 1
  }

  /** The least even level above `l`. */
  function NextEven(l: nat): (r: nat)
    ensures l < r <= l + 2 && !Odd(r)
  {
    l / 2 * 2 + 2
  }

  /** Whether the first strong character is R or AL. */
  function FirstStrongRtl(rs: seq<Run>): bool {
    if rs == [] then false
    else if rs[0].cls == L then false
    else if rs[0].cls in {R, AL} then true
    else FirstStrongRtl(rs[1..])
  }

  /** It is the first strong character that decides; an Arabic letter counts as right-to-left. */
  lemma {:induction false} FirstStrongDecides(rs: seq<Run>, p: nat)
    requires p < |rs| && rs[p].cls in {L, R, AL} && forall k | 0 <= k < p :: rs[k].cls !in {L, R, AL}
    ensures FirstStrongRtl(rs) <==> rs[p].cls != L
  {
    if p > 0 {
      FirstStrongDecides(rs[1..], p - 1);
    }
  }

  lemma {:induction false} NothingDecides(rs: seq<Run>)
    requires forall k | 0 <= k < |rs| :: rs[k].cls !in {L, R, AL}
    ensures !FirstStrongRtl(rs)
  {
    if rs != [] {
      NothingDecides(rs[1..]);
    }
  }

  method FindFirstStrongRtl(r: array<Run>, from: nat) returns (rtl: bool)
    requires from <= r.Length
    ensures rtl == FirstStrongRtl(r[from..])
  {
    var i := from;
    while i < r.Length
      invariant from <= i <= r.Length
      invariant FirstStrongRtl(r[from..]) == FirstStrongRtl(r[i..])
    {
      assert r[i..][1..] == r[i + 1..];
      if r[i].cls == L {
        return false;
      }
      if r[i].cls == R || r[i].cls == AL {
        return true;
      }
      i := i + 1;
    }
    return false;
  }
}
