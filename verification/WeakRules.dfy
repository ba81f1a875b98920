/**
  What the weak rules make of each kind of character, in terms of the kept characters around it: first
  pass by pass, then for the phase as a whole.
 */
module WeakRules {
  import opened BidiTypes
  import opened WeakTypes

  predicate IsStrong(c: Class) {
    c in {L, R, AL}
  }

  /** `p` and `n` hold kept characters with only removed ones between. */
  ghost predicate Neighbours(rs: seq<Run>, p: nat, n: nat) {
    p < n < |rs| && !rs[p].removed && !rs[n].removed && forall k | p < k < n :: rs[k].removed
  }

  /** The last kept strong character before `i`. */
  ghost predicate LastStrong(rs: seq<Run>, p: nat, i: nat) {
    && p < i <= |rs| && !rs[p].removed && IsStrong(rs[p].cls)
    && forall k | p < k < i && !rs[k].removed :: !IsStrong(rs[k].cls)
  }

  ghost predicate NoStrong(rs: seq<Run>, i: nat)
    requires i <= |rs|
  {
    forall k | 0 <= k < i && !rs[k].removed :: !IsStrong(rs[k].cls)
  }

  // ----- Marks -----

  /** A mark takes the class of the last kept character before it that is no mark; a mark without one
      stays a mark, and nothing else changes. */
  lemma {:induction false} MarkTakes(rs: seq<Run>, p: nat, i: nat)
    requires p <= i < |rs| && !rs[p].removed && rs[p].cls != NSM && !rs[i].removed
    requires forall k | p < k <= i && !rs[k].removed :: rs[k].cls == NSM
    ensures W1(rs)[i].cls == rs[p].cls
    decreases i
  {
    if p < i {
      MarkTakes(rs, p, PrevKept(rs, i));
    }
  }

  lemma {:induction false} LeadingMark(rs: seq<Run>, i: nat)
    requires i < |rs| && forall k | 0 <= k <= i && !rs[k].removed :: rs[k].cls == NSM
    ensures W1(rs)[i] == rs[i]
  {
    if !rs[i].removed && PrevKept(rs, i) >= 0 {
      LeadingMark(rs, PrevKept(rs, i));
    }
  }

  lemma NoMark(rs: seq<Run>, i: nat)
    requires i < |rs| && (rs[i].removed || rs[i].cls != NSM)
    ensures W1(rs)[i] == rs[i]
  {
  }

  // ----- Numbers after letters -----

  lemma {:induction false} AfterArabicIs(rs: seq<Run>, p: nat, i: nat)
    requires LastStrong(rs, p, i)
    ensures AfterArabic(rs, i) <==> rs[p].cls == AL
    ensures AfterL(rs, i) <==> rs[p].cls == L
    decreases i
  {
    if p < i - 1 {
      AfterArabicIs(rs, p, i - 1);
    }
  }

  lemma {:induction false} AfterNothing(rs: seq<Run>, i: nat)
    requires i <= |rs| && NoStrong(rs, i)
    ensures !AfterArabic(rs, i) && !AfterL(rs, i)
  {
    if i > 0 {
      AfterNothing(rs, i - 1);
    }
  }

  /** A European number after an Arabic letter, with no other letter between, becomes an Arabic number; no
      other one does. */
  lemma NumberAfterLetter(rs: seq<Run>, p: nat, i: nat)
    requires LastStrong(rs, p, i) && i < |rs| && KeptAs(rs, i, EN)
    ensures W3(rs)[i].cls == if rs[p].cls == AL then AN else EN
  {
    AfterArabicIs(rs, p, i);
  }

  lemma NumberAfterNothing(rs: seq<Run>, i: nat)
    requires i < |rs| && NoStrong(rs, i) && KeptAs(rs, i, EN)
    ensures W3(rs)[i].cls == EN
  {
    AfterNothing(rs, i);
  }

  lemma ArabicLetters(rs: seq<Run>, i: nat)
    requires i < |rs| && !KeptAs(rs, i, EN)
    ensures W3(rs)[i].cls == if KeptAs(rs, i, AL) then R else rs[i].cls
  {
  }

  // ----- Separators -----

  /** A common separator between two European numbers becomes one, between two Arabic numbers becomes one
      of them, and otherwise is neutral; a European separator joins European numbers only. */
  lemma SeparatorBetween(rs: seq<Run>, p: nat, i: nat, n: nat)
    requires Neighbours(rs, p, i) && Neighbours(rs, i, n) && rs[i].cls in {CS, ES}
    ensures rs[p].cls == EN && rs[n].cls == EN ==> W4(rs)[i].cls == EN
    ensures rs[p].cls == AN && rs[n].cls == AN && rs[i].cls == CS ==> W4(rs)[i].cls == AN
    ensures rs[i].cls == CS && !(rs[p].cls == rs[n].cls && rs[p].cls in {EN, AN}) ==> W4(rs)[i].cls == ON
    ensures rs[i].cls == ES && !(rs[p].cls == EN && rs[n].cls == EN) ==> W4(rs)[i].cls == ES
  {
    PrevKeptIs(rs, i, p);
    NextKeptIs(rs, i, n);
  }

  /** At either end of the paragraph there is nothing to join. */
  lemma SeparatorAtEnd(rs: seq<Run>, i: nat)
    requires i < |rs| && !rs[i].removed && rs[i].cls in {CS, ES}
    requires (forall k | 0 <= k < i :: rs[k].removed) || (forall k | i < k < |rs| :: rs[k].removed)
    ensures W4(rs)[i].cls == if rs[i].cls == CS then ON else ES
  {
    if forall k | 0 <= k < i :: rs[k].removed {
      PrevKeptIs(rs, i, -1);
    } else {
      NextKeptIs(rs, i, -1);
    }
  }

  lemma NoSeparator(rs: seq<Run>, i: nat)
    requires i < |rs| && (rs[i].removed || rs[i].cls !in {CS, ES})
    ensures W4(rs)[i] == rs[i]
  {
  }

  // ----- Terminators -----

  /** A European number before `i`, with only terminators and removed characters between. */
  ghost predicate NumberBefore(rs: seq<Run>, q: nat, i: nat) {
    && q < i < |rs| && KeptAs(rs, q, EN)
    && forall k | q < k < i && !rs[k].removed :: rs[k].cls == ET
  }

  /** A European number after `i`: first an unbroken run of terminators up to `e`, then removed characters. */
  ghost predicate NumberAfter(rs: seq<Run>, i: nat, e: nat, q: nat) {
    && i <= e < q < |rs| && KeptAs(rs, q, EN)
    && (forall k | i <= k <= e :: KeptAs(rs, k, ET))
    && (forall k | e < k < q :: rs[k].removed)
  }

  /** A terminator becomes a European number exactly when one stands before it with only terminators
      between, or after it and its unbroken run. */
  lemma TerminatorJoins(rs: seq<Run>, i: nat)
    requires i < |rs| && KeptAs(rs, i, ET)
    ensures W5(rs)[i].cls == EN
            <==> (exists q: nat :: NumberBefore(rs, q, i)) || (exists e: nat, q: nat :: NumberAfter(rs, i, e, q))
    ensures W5(rs)[i].cls in {EN, ET}
  {
    JoinsExactly(rs, i);
  }

  lemma {:induction false} JoinsExactly(rs: seq<Run>, i: nat)
    requires i < |rs| && KeptAs(rs, i, ET)
    ensures JoinsNumber(rs, i)
            <==> (exists q: nat :: NumberBefore(rs, q, i)) || (exists e: nat, q: nat :: NumberAfter(rs, i, e, q))
    decreases i
  {
    AfterRun(rs, i);
    var p := PrevKept(rs, i);
    if p >= 0 && rs[p].cls == ET {
      JoinsExactly(rs, p);
      BeforeStep(rs, p, i);
      LeftRun(rs, p, i);
    } else {
      BeforeDirect(rs, i, p);
    }
  }

  lemma BeforeDirect(rs: seq<Run>, i: nat, p: int)
    requires i < |rs| && p == PrevKept(rs, i) && (p < 0 || rs[p].cls != ET)
    ensures (exists q: nat :: NumberBefore(rs, q, i)) <==> ClassAt(rs, p) == EN
  {
    if p >= 0 && rs[p].cls == EN {
      assert NumberBefore(rs, p, i);
    }
    forall q: nat | NumberBefore(rs, q, i) ensures q == p {
      assert !rs[q].removed;
    }
  }

  lemma BeforeStep(rs: seq<Run>, p: nat, i: nat)
    requires i < |rs| && p == PrevKept(rs, i) && rs[p].cls == ET
    ensures (exists q: nat :: NumberBefore(rs, q, i)) <==> exists q: nat :: NumberBefore(rs, q, p)
  {
    forall q: nat ensures NumberBefore(rs, q, i) <==> NumberBefore(rs, q, p) {
      if NumberBefore(rs, q, i) {
        assert q != p;
        assert !(p < q);
      }
    }
  }

  /** The kept character after a run of terminators decides whether a number follows. */
  lemma AfterRun(rs: seq<Run>, i: nat)
    requires i < |rs| && KeptAs(rs, i, ET)
    ensures (exists e: nat, q: nat :: NumberAfter(rs, i, e, q))
            <==> ClassAt(rs, NextKept(rs, TerminatorsEnd(rs, i))) == EN
  {
    var end := TerminatorsEnd(rs, i);
    var n := NextKept(rs, end);
    if ClassAt(rs, n) == EN {
      assert NumberAfter(rs, i, end, n);
    }
    forall e: nat, q: nat | NumberAfter(rs, i, e, q) ensures ClassAt(rs, n) == EN {
      RunEndIs(rs, i, e);
      NextKeptIs(rs, end, q);
    }
  }

  lemma {:induction false} RunEndIs(rs: seq<Run>, i: nat, e: nat)
    requires i <= e < |rs| && forall k | i <= k <= e :: KeptAs(rs, k, ET)
    requires e + 1 < |rs| ==> !KeptAs(rs, e + 1, ET)
    ensures TerminatorsEnd(rs, i) == e
    decreases e - i
  {
    if i < e {
      RunEndIs(rs, i + 1, e);
    }
  }

  /** A number after the run of the terminator before `i` is one after the run of `i`: the two runs are one,
      since a gap would be followed by `i` itself. */
  lemma LeftRun(rs: seq<Run>, p: nat, i: nat)
    requires i < |rs| && p == PrevKept(rs, i) && KeptAs(rs, p, ET) && KeptAs(rs, i, ET)
    ensures (exists e: nat, q: nat :: NumberAfter(rs, p, e, q)) ==> exists e: nat, q: nat :: NumberAfter(rs, i, e, q)
  {
    forall e: nat, q: nat | NumberAfter(rs, p, e, q) ensures NumberAfter(rs, i, e, q) {
      assert !rs[i].removed && rs[i].cls != EN;
    }
  }

  lemma NoTerminatorKept(rs: seq<Run>, i: nat)
    requires i < |rs| && !KeptAs(rs, i, ET)
    ensures W5(rs)[i] == rs[i]
  {
  }

  // ----- What is left of them, and numbers after Latin letters -----

  /** Separators and terminators that joined no number are neutral. */
  lemma LeftOver(rs: seq<Run>, i: nat)
    requires i < |rs|
    ensures W6(rs)[i].cls == if !rs[i].removed && rs[i].cls in {ES, ET, CS} then ON else rs[i].cls
  {
  }

  lemma NumberAfterLatin(rs: seq<Run>, p: nat, i: nat)
    requires LastStrong(rs, p, i) && i < |rs| && KeptAs(rs, i, EN)
    ensures W7(rs)[i].cls == if rs[p].cls == L then L else EN
  {
    AfterArabicIs(rs, p, i);
  }

  // ----- The phase -----

  /** The base of a mark is strong exactly when the last strong character is the base. */
  lemma {:induction false} StrongAfterW1(rs: seq<Run>, i: nat)
    requires i < |rs| && !rs[i].removed && IsStrong(W1Class(rs, i))
    ensures AfterArabic(rs, i + 1) <==> W1Class(rs, i) == AL
    ensures AfterL(rs, i + 1) <==> W1Class(rs, i) == L
  {
    if rs[i].cls == NSM {
      var p := PrevKept(rs, i);
      StrongAfterW1(rs, p);
      NothingStrong(rs, p + 1, i + 1);
    }
  }

  lemma {:induction false} NothingStrong(rs: seq<Run>, a: nat, b: nat)
    requires a <= b <= |rs| && forall k | a <= k < b && !rs[k].removed :: !IsStrong(rs[k].cls)
    ensures AfterArabic(rs, b) == AfterArabic(rs, a) && AfterL(rs, b) == AfterL(rs, a)
    decreases b
  {
    if a < b {
      NothingStrong(rs, a, b - 1);
    }
  }

  /** Marks that have become letters do not change which letter is the last one. */
  lemma {:induction false} SameAfterW1(rs: seq<Run>, i: nat)
    requires i <= |rs|
    ensures AfterArabic(W1(rs), i) == AfterArabic(rs, i) && AfterL(W1(rs), i) == AfterL(rs, i)
  {
    if i > 0 {
      SameAfterW1(rs, i - 1);
      if KeptAs(rs, i - 1, NSM) && IsStrong(W1Class(rs, i - 1)) {
        StrongAfterW1(rs, i - 1);
      }
    }
  }

  /** The same letters to the left and to the right, Arabic ones counting as right-to-left. */
  ghost predicate SameLetters(a: seq<Run>, b: seq<Run>) {
    && SameRemoved(a, b)
    && (forall k | 0 <= k < |a| && !a[k].removed :: a[k].cls == L <==> b[k].cls == L)
    && (forall k | 0 <= k < |a| && !a[k].removed :: a[k].cls in {R, AL} <==> b[k].cls in {R, AL})
  }

  lemma {:induction false} SameAfterL(a: seq<Run>, b: seq<Run>, i: nat)
    requires SameLetters(a, b) && i <= |a|
    ensures AfterL(a, i) == AfterL(b, i)
  {
    if i > 0 {
      SameAfterL(a, b, i - 1);
    }
  }

  /** The classes before the last pass. */
  function BeforeW7(a: seq<Run>): (r: seq<Run>)
    ensures |r| == |a|
  {
    W6(W5(W4(a)))
  }

  lemma LettersStay(a: seq<Run>)
    ensures SameLetters(a, W3(a)) && SameLetters(W3(a), BeforeW7(W3(a)))
  {
    var b := W3(a);
    forall k | 0 <= k < |a| ensures SameRun(a[k], b[k]) && SameRun(b[k], BeforeW7(b)[k]) {
      LetterStays(b, k);
    }
  }

  predicate SameRun(x: Run, y: Run) {
    && x.removed == y.removed
    && (!x.removed ==> (x.cls == L <==> y.cls == L) && (x.cls in {R, AL} <==> y.cls in {R, AL}))
  }

  lemma LetterStays(b: seq<Run>, k: nat)
    requires k < |b|
    ensures SameRun(b[k], BeforeW7(b)[k])
  {
    assert W4(b)[k].cls == W4Class(b, k) && W5(W4(b))[k].cls == W5Class(W4(b), k);
    assert BeforeW7(b)[k].cls == W6Class(W5(W4(b)), k);
  }

  /** Numbers are not touched between the third and the last pass. */
  lemma NumbersStay(b: seq<Run>, k: nat)
    requires k < |b| && !b[k].removed && b[k].cls in {EN, AN}
    ensures !BeforeW7(b)[k].removed && BeforeW7(b)[k].cls == b[k].cls
  {
    assert W4(b)[k].cls == W4Class(b, k) && W5(W4(b))[k].cls == W5Class(W4(b), k);
  }

  lemma AfterLThrough(rs: seq<Run>, i: nat)
    requires i <= |rs|
    ensures AfterL(BeforeW7(W3(W1(rs))), i) == AfterL(rs, i)
  {
    SameAfterW1(rs, i);
    LettersStay(W1(rs));
    SameAfterL(W1(rs), W3(W1(rs)), i);
    SameAfterL(W3(W1(rs)), BeforeW7(W3(W1(rs))), i);
  }

  lemma NumberThrough(rs: seq<Run>, i: nat)
    requires i < |rs| && KeptAs(rs, i, EN)
    ensures Weak(rs)[i].cls == if AfterArabic(rs, i) then AN else if AfterL(rs, i) then L else EN
  {
    SameAfterW1(rs, i);
    AfterLThrough(rs, i);
    NumbersStay(W3(W1(rs)), i);
  }

  /** What the phase makes of a European number depends on the last letter before it: an Arabic number
      after an Arabic letter, L after a left-to-right letter, itself after any other or none. */
  lemma NumberResult(rs: seq<Run>, p: nat, i: nat)
    requires LastStrong(rs, p, i) && i < |rs| && KeptAs(rs, i, EN)
    ensures Weak(rs)[i].cls == if rs[p].cls == AL then AN else if rs[p].cls == L then L else EN
  {
    AfterArabicIs(rs, p, i);
    NumberThrough(rs, i);
  }

  lemma FirstNumberResult(rs: seq<Run>, i: nat)
    requires i < |rs| && NoStrong(rs, i) && KeptAs(rs, i, EN)
    ensures Weak(rs)[i].cls == EN
  {
    AfterNothing(rs, i);
    NumberThrough(rs, i);
  }

  /** Letters end as L and R; Arabic numbers and neutrals stay. */
  lemma OthersResult(rs: seq<Run>, i: nat)
    requires i < |rs| && !rs[i].removed && rs[i].cls !in {NSM, EN, ES, ET, CS}
    ensures Weak(rs)[i].cls == if rs[i].cls == AL then R else rs[i].cls
  {
    var b := W3(W1(rs));
    assert W4(b)[i].cls == W4Class(b, i) && W5(W4(b))[i].cls == W5Class(W4(b), i);
  }

  lemma NeighboursKept(a: seq<Run>, b: seq<Run>, p: nat, i: nat)
    requires SameRemoved(a, b) && Neighbours(a, p, i)
    ensures Neighbours(b, p, i)
  {
  }

  /** Between neighbours there is no letter, so numbers side by side fare alike in the last pass. */
  lemma AlikeInW7(c: seq<Run>, p: nat, i: nat)
    requires Neighbours(c, p, i) && c[p].cls == EN && c[i].cls == EN
    ensures W7(c)[p].cls == W7(c)[i].cls && W7(c)[i].cls in {EN, L}
  {
    NothingStrong(c, p, i);
  }

  lemma SameFlags(b: seq<Run>)
    ensures SameRemoved(b, W4(b)) && SameRemoved(b, BeforeW7(b))
  {
  }

  /** What the phase makes of a separator between two kept characters, by their classes after the third
      pass: between European numbers it ends as they do, a common one between Arabic numbers is one of
      them, and otherwise it is neutral. */
  lemma SeparatorResult(rs: seq<Run>, b: seq<Run>, p: nat, i: nat, n: nat)
    requires Neighbours(rs, p, i) && Neighbours(rs, i, n) && rs[i].cls in {CS, ES} && b == W3(W1(rs))
    ensures if b[p].cls == EN && b[n].cls == EN
            then Weak(rs)[i].cls == Weak(rs)[p].cls == Weak(rs)[n].cls && Weak(rs)[i].cls in {EN, L}
            else Weak(rs)[i].cls == if rs[i].cls == CS && b[p].cls == AN && b[n].cls == AN then AN else ON
  {
    NeighboursKept(rs, b, p, i);
    NeighboursKept(rs, b, i, n);
    SeparatorBetween(b, p, i, n);
    var c := BeforeW7(b);
    AfterSeparator(b, i, W4(b)[i].cls);
    if b[p].cls == EN && b[n].cls == EN {
      SameFlags(b);
      NumbersStay(b, p);
      NumbersStay(b, n);
      NeighboursKept(b, c, p, i);
      NeighboursKept(b, c, i, n);
      AlikeInW7(c, p, i);
      AlikeInW7(c, i, n);
    }
  }

  lemma AfterSeparator(b: seq<Run>, i: nat, c: Class)
    requires i < |b| && !b[i].removed && c == W4(b)[i].cls
    ensures c in {EN, AN, ON} ==> BeforeW7(b)[i].cls == c
    ensures c in {ES, CS} ==> BeforeW7(b)[i].cls == ON
    ensures !BeforeW7(b)[i].removed
  {
    SixthAfterFourth(W4(b), i, c);
  }

  lemma SixthAfterFourth(d: seq<Run>, i: nat, c: Class)
    requires i < |d| && !d[i].removed && c == d[i].cls
    ensures c in {EN, AN, ON} ==> W6(W5(d))[i].cls == c
    ensures c in {ES, CS} ==> W6(W5(d))[i].cls == ON
    ensures !W6(W5(d))[i].removed
  {
    assert W5(d)[i].cls == W5Class(d, i);
  }

  /** For instance the colon of 12:30: between two European numbers with no Arabic letter before them, a
      separator of either kind ends as they do; after an Arabic letter all of them are Arabic numbers, and a
      European separator is neutral. */
  lemma BetweenDigits(rs: seq<Run>, p: nat, i: nat, n: nat)
    requires Neighbours(rs, p, i) && Neighbours(rs, i, n) && rs[i].cls in {CS, ES}
    requires rs[p].cls == EN && rs[n].cls == EN
    ensures if !AfterArabic(rs, p) then Weak(rs)[i].cls == Weak(rs)[p].cls == Weak(rs)[n].cls
            else Weak(rs)[p].cls == AN == Weak(rs)[n].cls && Weak(rs)[i].cls == if rs[i].cls == CS then AN else ON
  {
    NothingStrong(rs, p, n);
    SameAfterW1(rs, p);
    SameAfterW1(rs, n);
    NumberThrough(rs, p);
    NumberThrough(rs, n);
    SeparatorResult(rs, W3(W1(rs)), p, i, n);
  }
}
