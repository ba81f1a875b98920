/**
  The weak-type rules of the bidirectional engine (after section 3.3.4 of UAX #9).

  The engine makes seven passes over the paragraph in place.  For every pass there is a function
  that gives the class of each character from the classes before the pass, independently of the
  order in which the characters are visited; the methods are proved to compute it.
 */
module WeakTypes {
  import opened BidiTypes

  function SetClass(x: Run, c: Class): Run {
    Run(x.cp, c, x.level, x.mirrored, x.removed)
  }

  ghost predicate SameRemoved(a: seq<Run>, b: seq<Run>) {
    |a| == |b| && forall i | 0 <= i < |a| :: a[i].removed == b[i].removed
  }

  /** The last kept character before `i`, or -1. */
  function PrevKept(rs: seq<Run>, i: nat): (p: int)
    requires i <= |rs|
    ensures -1 <= p < i && (p >= 0 ==> !rs[p].removed)
    ensures forall k | p < k < i :: rs[k].removed
  {
    if i == 0 then -1 else if !rs[i - 1].removed then i - 1 else PrevKept(rs, i - 1)
  }

  /** The first kept character after `i`, or -1. */
  function NextKept(rs: seq<Run>, i: nat): (p: int)
    requires i < |rs|
    ensures p == -1 || (i < p < |rs| && !rs[p].removed)
    ensures forall k | i < k < |rs| && (p == -1 || k < p) :: rs[k].removed
    decreases |rs| - i
  {
    if i + 1 == |rs| then -1 else if !rs[i + 1].removed then i + 1 else NextKept(rs, i + 1)
  }

  lemma PrevKeptIs(rs: seq<Run>, i: nat, p: int)
    requires i <= |rs| && -1 <= p < i && (p >= 0 ==> !rs[p].removed)
    requires forall k | p < k < i :: rs[k].removed
    ensures PrevKept(rs, i) == p
  {
  }

  lemma NextKeptIs(rs: seq<Run>, i: nat, p: int)
    requires i < |rs| && (p == -1 || (i < p < |rs| && !rs[p].removed))
    requires forall k | i < k < |rs| && (p == -1 || k < p) :: rs[k].removed
    ensures NextKept(rs, i) == p
  {
  }

  method FindPrevKept(r: array<Run>, i: nat) returns (p: int)
    requires i <= r.Length
    ensures p == PrevKept(r[..], i)
  {
    p := i - 1;
    while p >= 0 && r[p].removed
      invariant -1 <= p < i
      invariant forall k | p < k < i :: r[k].removed
    {
      p := p - 1;
    }
    PrevKeptIs(r[..], i, p);
  }

  method FindNextKept(r: array<Run>, i: nat) returns (p: int)
    requires i < r.Length
    ensures p == NextKept(r[..], i)
  {
    p := i + 1;
    while p < r.Length && r[p].removed
      invariant i < p <= r.Length
      invariant forall k | i < k < p :: r[k].removed
    {
      p := p + 1;
    }
    if p == r.Length {
      p := -1;
    }
    NextKeptIs(r[..], i, p);
  }

  /** The scans look at the removed flags only. */
  lemma KeptByFlags(a: seq<Run>, b: seq<Run>, i: nat)
    requires SameRemoved(a, b) && i < |a|
    ensures PrevKept(a, i) == PrevKept(b, i) && NextKept(a, i) == NextKept(b, i)
  {
    PrevKeptIs(b, i, PrevKept(a, i));
    NextKeptIs(b, i, NextKept(a, i));
  }

  // ----- W1: marks take the class of what they follow -----

  function W1Class(rs: seq<Run>, i: nat): Class
    requires i < |rs|
  {
    if rs[i].removed || rs[i].cls != NSM then rs[i].cls
    else if PrevKept(rs, i) < 0 then NSM
    else W1Class(rs, PrevKept(rs, i))
  }

  function W1(rs: seq<Run>): (r: seq<Run>)
    ensures |r| == |rs| && forall i | 0 <= i < |rs| :: r[i] == SetClass(rs[i], W1Class(rs, i))
  {
    seq(|rs|, i requires 0 <= i < |rs| => SetClass(rs[i], W1Class(rs, i)))
  }

  /** The part before `i` is done, the rest is as it was. */
  ghost predicate Halfway(r: seq<Run>, rs: seq<Run>, out: seq<Run>, i: nat) {
    && |r| == |rs| == |out| && i <= |r|
    && (forall k | 0 <= k < i :: r[k] == out[k])
    && (forall k | i <= k < |r| :: r[k] == rs[k])
    && SameRemoved(rs, out)
  }

  lemma Skip(r: seq<Run>, rs: seq<Run>, out: seq<Run>, i: nat)
    requires Halfway(r, rs, out, i) && i < |rs| && out[i] == rs[i]
    ensures Halfway(r, rs, out, i + 1)
  {
  }

  method SetAt(r: array<Run>, i: nat, c: Class, ghost rs: seq<Run>, ghost out: seq<Run>)
    requires i < r.Length && Halfway(r[..], rs, out, i) && out[i] == SetClass(rs[i], c)
    modifies r
    ensures Halfway(r[..], rs, out, i + 1)
  {
    r[i] := SetClass(r[i], c);
  }

  method PassW1(r: array<Run>)
    modifies r
    ensures r[..] == W1(old(r[..]))
  {
    ghost var rs, out := r[..], W1(r[..]);
    var i := 0;
    while i < r.Length
      invariant 0 <= i <= r.Length && Halfway(r[..], rs, out, i)
    {
      if !r[i].removed && r[i].cls == NSM {
        var p := FindPrevKept(r, i);
        KeptByFlags(r[..], rs, i);
        if p >= 0 {
          SetAt(r, i, r[p].cls, rs, out);
        } else {
          Skip(r[..], rs, out, i);
        }
      } else {
        Skip(r[..], rs, out, i);
      }
      i := i + 1;
    }
  }

  // ----- W2 and W3: European numbers after Arabic letters -----

  /** Whether the last strong character before `i` is an Arabic letter. */
  function AfterArabic(rs: seq<Run>, i: nat): bool
    requires i <= |rs|
  {
    if i == 0 then false
    else if !rs[i - 1].removed && rs[i - 1].cls == AL then true
    else if !rs[i - 1].removed && rs[i - 1].cls in {R, L} then false
    else AfterArabic(rs, i - 1)
  }

  function W3Class(rs: seq<Run>, i: nat): Class
    requires i < |rs|
  {
    if rs[i].removed then rs[i].cls
    else if rs[i].cls == AL then R
    else if rs[i].cls == EN && AfterArabic(rs, i) then AN
    else rs[i].cls
  }

  function W3(rs: seq<Run>): (r: seq<Run>)
    ensures |r| == |rs| && forall i | 0 <= i < |rs| :: r[i] == SetClass(rs[i], W3Class(rs, i))
  {
    seq(|rs|, i requires 0 <= i < |rs| => SetClass(rs[i], W3Class(rs, i)))
  }

  /** One turn of the pass, `last` telling whether the last strong character is an Arabic letter. */
  lemma W3Turn(rs: seq<Run>, i: nat, last: bool)
    requires i < |rs| && last == AfterArabic(rs, i)
    ensures var (c, kept) := (rs[i].cls, !rs[i].removed);
            && W3Class(rs, i) == (if kept && c == AL then R else if kept && c == EN && last then AN else c)
            && AfterArabic(rs, i + 1) == (if kept && (c == AL || c == R || c == L) then c == AL else last)
  {
  }

  method PassW3(r: array<Run>)
    modifies r
    ensures r[..] == W3(old(r[..]))
  {
    ghost var rs, out := r[..], W3(r[..]);
    var lastStrongAl := false;
    var i := 0;
    while i < r.Length
      invariant 0 <= i <= r.Length && Halfway(r[..], rs, out, i)
      invariant lastStrongAl == AfterArabic(rs, i)
    {
      W3Turn(rs, i, lastStrongAl);
      if !r[i].removed && r[i].cls == AL {
        SetAt(r, i, R, rs, out);
        lastStrongAl := true;
      } else if !r[i].removed && r[i].cls == EN && lastStrongAl {
        SetAt(r, i, AN, rs, out);
      } else {
        if !r[i].removed && (r[i].cls == R || r[i].cls == L) {
          lastStrongAl := false;
        }
        Skip(r[..], rs, out, i);
      }
      i := i + 1;
    }
  }

  // ----- W4: single separators between numbers -----

  function ClassAt(rs: seq<Run>, p: int): (c: Class)
    requires p < |rs|
  {
    if p < 0 then ON else rs[p].cls
  }

  /** What becomes of class `c` between the classes `p` and `n`. */
  function Between(c: Class, p: Class, n: Class): (r: Class)
    ensures c !in {ES, CS} ==> r == c
    ensures c in {ES, CS} ==> r in {ES, ON, EN, AN}
  {
    if c == ES then if p == n == EN then EN else ES
    else if c == CS then if p == n && p in {EN, AN} then p else ON
    else c
  }

  function W4Class(rs: seq<Run>, i: nat): Class
    requires i < |rs|
  {
    if rs[i].removed then rs[i].cls
    else Between(rs[i].cls, ClassAt(rs, PrevKept(rs, i)), ClassAt(rs, NextKept(rs, i)))
  }

  function W4(rs: seq<Run>): (r: seq<Run>)
    ensures |r| == |rs| && forall i | 0 <= i < |rs| :: r[i] == SetClass(rs[i], W4Class(rs, i))
  {
    seq(|rs|, i requires 0 <= i < |rs| => SetClass(rs[i], W4Class(rs, i)))
  }

  /** A separator before a separator never becomes a number, so it does not matter that the pass
      has already rewritten the character before `i`. */
  lemma SeparatorBefore(rs: seq<Run>, i: nat)
    requires i < |rs| && !rs[i].removed && rs[i].cls in {ES, CS} && PrevKept(rs, i) >= 0
    ensures var p := PrevKept(rs, i);
            (W4Class(rs, p) == EN <==> rs[p].cls == EN) && (W4Class(rs, p) == AN <==> rs[p].cls == AN)
  {
    NextKeptIs(rs, PrevKept(rs, i), i);
  }

  lemma SameBetween(c: Class, p: Class, q: Class, n: Class)
    requires c in {ES, CS} ==> (p == EN <==> q == EN) && (p == AN <==> q == AN)
    ensures Between(c, p, n) == Between(c, q, n)
  {
  }

  /** What `Between` asks about the character before `i` is answered alike before and after the pass. */
  lemma SameBefore(r: seq<Run>, rs: seq<Run>, i: nat, p: int)
    requires Halfway(r, rs, W4(rs), i) && i < |rs| && p == PrevKept(rs, i)
    requires !rs[i].removed && rs[i].cls in {ES, CS}
    ensures (ClassAt(r, p) == EN <==> ClassAt(rs, p) == EN) && (ClassAt(r, p) == AN <==> ClassAt(rs, p) == AN)
  {
    if p >= 0 {
      SeparatorBefore(rs, i);
      assert r[p] == SetClass(rs[p], W4Class(rs, p));
    }
  }

  lemma W4InPlace(r: seq<Run>, rs: seq<Run>, i: nat, p: int, n: int)
    requires Halfway(r, rs, W4(rs), i) && i < |rs| && !rs[i].removed && rs[i].cls in {ES, CS}
    requires p == PrevKept(r, i) && n == NextKept(r, i)
    ensures W4Class(rs, i) == Between(rs[i].cls, ClassAt(r, p), ClassAt(r, n))
  {
    KeptByFlags(r, rs, i);
    SameBefore(r, rs, i, p);
    SameBetween(rs[i].cls, ClassAt(r, p), ClassAt(rs, p), ClassAt(rs, n));
  }

  method PassW4(r: array<Run>)
    modifies r
    ensures r[..] == W4(old(r[..]))
  {
    ghost var rs, out := r[..], W4(r[..]);
    var i := 0;
    while i < r.Length
      invariant 0 <= i <= r.Length && Halfway(r[..], rs, out, i)
    {
      if !r[i].removed && (r[i].cls == ES || r[i].cls == CS) {
        var p := FindPrevKept(r, i);
        var n := FindNextKept(r, i);
        W4InPlace(r[..], rs, i, p, n);
        var c := W4At(r, i, p, n);
        SetAt(r, i, c, rs, out);
      } else {
        Skip(r[..], rs, out, i);
      }
      i := i + 1;
    }
  }

  method W4At(r: array<Run>, i: nat, p: int, n: int) returns (c: Class)
    requires i < r.Length && r[i].cls in {ES, CS} && -1 <= p < r.Length && -1 <= n < r.Length
    ensures c == Between(r[i].cls, ClassAt(r[..], p), ClassAt(r[..], n))
  {
    c := r[i].cls;
    if c == ES {
      if p >= 0 && n >= 0 && r[p].cls == EN && r[n].cls == EN {
        c := EN;
      }
    } else if p >= 0 && n >= 0 {
      if r[p].cls == r[n].cls && (r[p].cls == EN || r[p].cls == AN) {
        c := r[p].cls;
      } else if r[p].cls == EN && r[n].cls == EN {
        c := EN;
      } else {
        c := ON;
      }
    } else {
      c := ON;
    }
  }

  // ----- W5: terminators next to European numbers -----

  predicate KeptAs(rs: seq<Run>, i: nat, c: Class)
    requires i < |rs|
  {
    !rs[i].removed && rs[i].cls == c
  }

  /** The last character of the unbroken run of terminators from `i` on. */
  function TerminatorsEnd(rs: seq<Run>, i: nat): (e: nat)
    requires i < |rs|
    ensures i <= e < |rs|
    ensures forall k | i < k <= e :: KeptAs(rs, k, ET)
    ensures e + 1 < |rs| ==> !KeptAs(rs, e + 1, ET)
    decreases |rs| - i
  {
    if i + 1 < |rs| && KeptAs(rs, i + 1, ET) then TerminatorsEnd(rs, i + 1) else i
  }

  /** A terminator joins a European number after its unbroken run, or one before it with at most
      other terminators and removed characters between. */
  function JoinsNumber(rs: seq<Run>, i: nat): bool
    requires i < |rs|
  {
    var p := PrevKept(rs, i);
    || ClassAt(rs, NextKept(rs, TerminatorsEnd(rs, i))) == EN
    || ClassAt(rs, p) == EN
    || (ClassAt(rs, p) == ET && p >= 0 && JoinsNumber(rs, p))
  }

  function W5Class(rs: seq<Run>, i: nat): (c: Class)
    requires i < |rs|
    ensures c == rs[i].cls || (rs[i].cls == ET && c == EN)
  {
    if KeptAs(rs, i, ET) && JoinsNumber(rs, i) then EN else rs[i].cls
  }

  function W5(rs: seq<Run>): (r: seq<Run>)
    ensures |r| == |rs| && forall i | 0 <= i < |rs| :: r[i] == SetClass(rs[i], W5Class(rs, i))
  {
    seq(|rs|, i requires 0 <= i < |rs| => SetClass(rs[i], W5Class(rs, i)))
  }

  lemma JoinsNext(rs: seq<Run>, k: nat, p: nat)
    requires p + 1 == k < |rs| && KeptAs(rs, k, ET) && KeptAs(rs, p, ET)
    ensures TerminatorsEnd(rs, k) == TerminatorsEnd(rs, p) && JoinsNumber(rs, k) == JoinsNumber(rs, p)
  {
    PrevKeptIs(rs, k, p);
  }

  /** All terminators of an unbroken run fare alike. */
  lemma {:induction false} RunJoinsAlike(rs: seq<Run>, a: nat, k: nat, e: nat, joins: bool)
    requires a <= k < |rs| && forall j | a <= j <= k :: KeptAs(rs, j, ET)
    requires e == TerminatorsEnd(rs, a) && joins == JoinsNumber(rs, a)
    ensures TerminatorsEnd(rs, k) == e && JoinsNumber(rs, k) == joins
    decreases k - a
  {
    if a < k {
      RunJoinsAlike(rs, a, k - 1, e, joins);
      JoinsNext(rs, k, k - 1);
    }
  }

  method PassW5(r: array<Run>)
    modifies r
    ensures r[..] == W5(old(r[..]))
  {
    ghost var rs, out := r[..], W5(r[..]);
    var i := 0;
    while i < r.Length
      invariant 0 <= i <= r.Length && Halfway(r[..], rs, out, i)
    {
      var end := i;
      if !r[i].removed && r[i].cls == ET {
        end := ResolveTerminators(r, i, rs);
      } else {
        NoTerminator(r[..], rs, i);
      }
      i := end + 1;
    }
  }

  lemma NoTerminator(r: seq<Run>, rs: seq<Run>, i: nat)
    requires Halfway(r, rs, W5(rs), i) && i < |rs| && !KeptAs(rs, i, ET)
    ensures Halfway(r, rs, W5(rs), i + 1)
  {
  }

  /** The test that the pass makes at the two ends of an unbroken run of terminators. */
  lemma JoinsInPlace(r: seq<Run>, rs: seq<Run>, i: nat, e: nat, p: int, n: int)
    requires Halfway(r, rs, W5(rs), i) && i < |rs| && KeptAs(rs, i, ET)
    requires e == TerminatorsEnd(rs, i) && p == PrevKept(r, i) && n == NextKept(r, e)
    ensures JoinsNumber(rs, i) <==> ClassAt(r, p) == EN || ClassAt(r, n) == EN
  {
    KeptByFlags(r, rs, i);
    KeptByFlags(r, rs, e);
    JoinedBefore(r, rs, i, p);
    assert n >= 0 ==> r[n] == rs[n];
  }

  lemma JoinedBefore(r: seq<Run>, rs: seq<Run>, i: nat, p: int)
    requires Halfway(r, rs, W5(rs), i) && i < |rs| && p == PrevKept(rs, i)
    ensures ClassAt(r, p) == EN <==> ClassAt(rs, p) == EN || (p >= 0 && rs[p].cls == ET && JoinsNumber(rs, p))
  {
    if p >= 0 {
      assert r[p] == SetClass(rs[p], W5Class(rs, p));
    }
  }

  lemma RunClass(rs: seq<Run>, i: nat, e: nat, joins: bool)
    requires i < |rs| && KeptAs(rs, i, ET) && e == TerminatorsEnd(rs, i) && joins == JoinsNumber(rs, i)
    ensures forall k | i <= k <= e :: W5Class(rs, k) == if joins then EN else rs[k].cls
  {
    forall k | i <= k <= e ensures W5Class(rs, k) == if joins then EN else rs[k].cls {
      RunJoinsAlike(rs, i, k, e, joins);
      assert KeptAs(rs, k, ET);
    }
  }

  /** Resolves the unbroken run of terminators that starts at `i`. */
  method ResolveTerminators(r: array<Run>, i: nat, ghost rs: seq<Run>) returns (end: nat)
    requires i < r.Length && Halfway(r[..], rs, W5(rs), i) && KeptAs(rs, i, ET)
    modifies r
    ensures i <= end < r.Length && Halfway(r[..], rs, W5(rs), end + 1)
  {
    end := FindTerminatorsEnd(r, i, rs);
    var p := FindPrevKept(r, i);
    var n := FindNextKept(r, end);
    JoinsInPlace(r[..], rs, i, end, p, n);
    var joins := (p >= 0 && r[p].cls == EN) || (n >= 0 && r[n].cls == EN);
    RunClass(rs, i, end, joins);
    if joins {
      FillNumbers(r, i, end);
    }
  }

  method FindTerminatorsEnd(r: array<Run>, i: nat, ghost rs: seq<Run>) returns (end: nat)
    requires i < r.Length == |rs| && forall k | i <= k < |rs| :: r[k] == rs[k]
    ensures end == TerminatorsEnd(rs, i)
  {
    end := i;
    while end + 1 < r.Length && !r[end + 1].removed && r[end + 1].cls == ET
      invariant i <= end < r.Length && TerminatorsEnd(rs, end) == TerminatorsEnd(rs, i)
    {
      end := end + 1;
    }
  }

  method FillNumbers(r: array<Run>, start: nat, end: nat)
    requires start <= end < r.Length
    modifies r
    ensures forall k | 0 <= k < r.Length ::
              r[k] == if start <= k <= end then SetClass(old(r[k]), EN) else old(r[k])
  {
    var k := start;
    while k <= end
      invariant start <= k <= end + 1
      invariant forall j | 0 <= j < r.Length ::
        r[j] == if start <= j < k then SetClass(old(r[j]), EN) else old(r[j])
    {
      r[k] := SetClass(r[k], EN);
      k := k + 1;
    }
  }

  // ----- W6 and W7 -----

  function W6Class(rs: seq<Run>, i: nat): Class
    requires i < |rs|
  {
    if !rs[i].removed && rs[i].cls in {ES, ET, CS} then ON else rs[i].cls
  }

  function W6(rs: seq<Run>): (r: seq<Run>)
    ensures |r| == |rs| && forall i | 0 <= i < |rs| :: r[i] == SetClass(rs[i], W6Class(rs, i))
  {
    seq(|rs|, i requires 0 <= i < |rs| => SetClass(rs[i], W6Class(rs, i)))
  }

  method PassW6(r: array<Run>)
    modifies r
    ensures r[..] == W6(old(r[..]))
  {
    ghost var rs, out := r[..], W6(r[..]);
    var i := 0;
    while i < r.Length
      invariant 0 <= i <= r.Length && Halfway(r[..], rs, out, i)
    {
      if !r[i].removed && (r[i].cls == ES || r[i].cls == ET || r[i].cls == CS) {
        SetAt(r, i, ON, rs, out);
      } else {
        Skip(r[..], rs, out, i);
      }
      i := i + 1;
    }
  }

  /** Whether the last strong character before `i` is L. */
  function AfterL(rs: seq<Run>, i: nat): bool
    requires i <= |rs|
  {
    if i == 0 then false
    else if KeptAs(rs, i - 1, L) then true
    else if !rs[i - 1].removed && rs[i - 1].cls in {R, AL} then false
    else AfterL(rs, i - 1)
  }

  function W7Class(rs: seq<Run>, i: nat): Class
    requires i < |rs|
  {
    if KeptAs(rs, i, EN) && AfterL(rs, i) then L else rs[i].cls
  }

  function W7(rs: seq<Run>): (r: seq<Run>)
    ensures |r| == |rs| && forall i | 0 <= i < |rs| :: r[i] == SetClass(rs[i], W7Class(rs, i))
  {
    seq(|rs|, i requires 0 <= i < |rs| => SetClass(rs[i], W7Class(rs, i)))
  }

  lemma W7Turn(rs: seq<Run>, i: nat, last: bool)
    requires i < |rs| && last == AfterL(rs, i)
    ensures var (c, kept) := (rs[i].cls, !rs[i].removed);
            && W7Class(rs, i) == (if kept && c == EN && last then L else c)
            && AfterL(rs, i + 1) == (if kept && (c == L || c == R || c == AL) then c == L else last)
  {
  }

  method PassW7(r: array<Run>)
    modifies r
    ensures r[..] == W7(old(r[..]))
  {
    ghost var rs, out := r[..], W7(r[..]);
    var lastStrongL := false;
    var i := 0;
    while i < r.Length
      invariant 0 <= i <= r.Length && Halfway(r[..], rs, out, i)
      invariant lastStrongL == AfterL(rs, i)
    {
      W7Turn(rs, i, lastStrongL);
      if !r[i].removed && r[i].cls == EN && lastStrongL {
        SetAt(r, i, L, rs, out);
      } else {
        if !r[i].removed && (r[i].cls == L || r[i].cls == R || r[i].cls == AL) {
          lastStrongL := r[i].cls == L;
        }
        Skip(r[..], rs, out, i);
      }
      i := i + 1;
    }
  }

  function Weak(rs: seq<Run>): seq<Run> {
    W7(W6(W5(W4(W3(W1(rs))))))
  }

  method PhaseWeak(r: array<Run>)
    modifies r
    ensures r[..] == Weak(old(r[..]))
  {
    PassW1(r);
    PassW3(r);
    PassW4(r);
    PassW5(r);
    PassW6(r);
    PassW7(r);
  }

  // ----- What the phase leaves -----

  /** The classes of kept characters as the explicit phase leaves them. */
  predicate KeptClass(c: Class) {
    !IsEmbedding(c) && c !in {PDF, BN}
  }

  /** The classes of kept characters after the weak rules. */
  predicate WeakClass(c: Class) {
    c in {L, R, EN, AN, NSM, B, S, WS, ON, LRI, RLI, FSI, PDI}
  }

  ghost predicate AllKept(rs: seq<Run>, ok: Class -> bool) {
    forall i | 0 <= i < |rs| && !rs[i].removed :: ok(rs[i].cls)
  }

  /** Marks that are left as marks have only marks before them. */
  ghost predicate LeadingMarks(rs: seq<Run>) {
    forall i, k | 0 <= k < i < |rs| && KeptAs(rs, i, NSM) && !rs[k].removed :: rs[k].cls == NSM
  }

  /** Everything but the class is kept, and no pass makes or unmakes a mark. */
  ghost predicate KeepsMarks(rs: seq<Run>, out: seq<Run>) {
    && SameRemoved(rs, out)
    && (forall i | 0 <= i < |rs| :: out[i].cls == NSM <==> rs[i].cls == NSM)
  }

  lemma LeadingMarksKept(rs: seq<Run>, out: seq<Run>)
    requires LeadingMarks(rs) && KeepsMarks(rs, out)
    ensures LeadingMarks(out)
  {
    forall i, k | 0 <= k < i < |out| && KeptAs(out, i, NSM) && !out[k].removed ensures out[k].cls == NSM {
      assert KeptAs(rs, i, NSM) && !rs[k].removed;
    }
  }

  lemma {:induction false} W1Marks(rs: seq<Run>, i: nat, k: nat)
    requires k < i < |rs| && !rs[i].removed && !rs[k].removed && W1Class(rs, i) == NSM
    ensures W1Class(rs, k) == NSM
    decreases i
  {
    var p := PrevKept(rs, i);
    if k < p {
      W1Marks(rs, p, k);
    }
  }

  lemma {:induction false} W1KeepsClasses(rs: seq<Run>, i: nat)
    requires AllKept(rs, KeptClass) && i < |rs| && !rs[i].removed
    ensures KeptClass(W1Class(rs, i))
  {
    if rs[i].cls == NSM && PrevKept(rs, i) >= 0 {
      W1KeepsClasses(rs, PrevKept(rs, i));
    }
  }

  ghost predicate OnlyClasses(rs: seq<Run>, out: seq<Run>) {
    |out| == |rs| && forall i | 0 <= i < |rs| :: out[i] == SetClass(rs[i], out[i].cls)
  }

  lemma W1Result(rs: seq<Run>)
    requires AllKept(rs, KeptClass)
    ensures AllKept(W1(rs), KeptClass) && LeadingMarks(W1(rs))
  {
    var a := W1(rs);
    forall i | 0 <= i < |rs| && !rs[i].removed ensures KeptClass(a[i].cls) {
      W1KeepsClasses(rs, i);
    }
    forall i, k | 0 <= k < i < |a| && KeptAs(a, i, NSM) && !a[k].removed ensures a[k].cls == NSM {
      W1Marks(rs, i, k);
    }
  }

  predicate NoArabicLetter(c: Class) {
    KeptClass(c) && c != AL
  }

  lemma W3Result(rs: seq<Run>)
    requires AllKept(rs, KeptClass) && LeadingMarks(rs)
    ensures AllKept(W3(rs), NoArabicLetter) && LeadingMarks(W3(rs))
  {
    LeadingMarksKept(rs, W3(rs));
  }

  lemma W4Result(rs: seq<Run>)
    requires AllKept(rs, NoArabicLetter) && LeadingMarks(rs)
    ensures AllKept(W4(rs), NoArabicLetter) && LeadingMarks(W4(rs))
  {
    var out := W4(rs);
    forall i | 0 <= i < |rs|
      ensures out[i].cls == NSM <==> rs[i].cls == NSM
      ensures NoArabicLetter(rs[i].cls) ==> NoArabicLetter(out[i].cls)
    {
      assert out[i].cls == W4Class(rs, i);
    }
    LeadingMarksKept(rs, out);
  }

  lemma W5Result(rs: seq<Run>)
    requires AllKept(rs, NoArabicLetter) && LeadingMarks(rs)
    ensures AllKept(W5(rs), NoArabicLetter) && LeadingMarks(W5(rs))
  {
    var out := W5(rs);
    forall i | 0 <= i < |rs|
      ensures out[i].cls == NSM <==> rs[i].cls == NSM
      ensures NoArabicLetter(rs[i].cls) ==> NoArabicLetter(out[i].cls)
    {
      assert out[i].cls == W5Class(rs, i);
    }
    LeadingMarksKept(rs, out);
  }

  lemma W67Result(rs: seq<Run>)
    requires AllKept(rs, NoArabicLetter) && LeadingMarks(rs)
    ensures AllKept(W7(W6(rs)), WeakClass) && LeadingMarks(W7(W6(rs)))
  {
    LeadingMarksKept(rs, W6(rs));
    LeadingMarksKept(W6(rs), W7(W6(rs)));
    assert AllKept(W6(rs), WeakClass);
  }

  /** After the weak rules a kept character has one of thirteen classes, marks stand only at the
      beginning, and nothing but classes has changed. */
  lemma WeakResult(rs: seq<Run>)
    requires AllKept(rs, KeptClass)
    ensures AllKept(Weak(rs), WeakClass) && LeadingMarks(Weak(rs)) && OnlyClasses(rs, Weak(rs))
  {
    W1Result(rs);
    W3Result(W1(rs));
    W4Result(W3(W1(rs)));
    W5Result(W4(W3(W1(rs))));
    W67Result(W5(W4(W3(W1(rs)))));
  }
}
