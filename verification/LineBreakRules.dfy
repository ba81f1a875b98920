/**
  The outcome of every pair of break classes, and what the zones of the codepoint space mean for it.
 */
module LineBreakRules {
  import opened Options
  import opened LineBreak

  // ----- Pairs of classes -----

  predicate Hard(p: Class, c: Class) {
    (p in {BK, CR, LF, NL} || c in {LF, NL}) && !(p == CR && c == LF)
  }

  /** Letters, ideographs and syllables. */
  predicate Letter(c: Class) {
    c in {AL, HL, ID, EB, EM, H2, H3, JL, JV, JT}
  }

  /** What holds two characters together: word joiners on either side, glue on either side unless a space
      follows, spaces in a row, the inside of words and numbers, and punctuation on its proper side.  After
      a zero width space only a word joiner does. */
  predicate Tied(p: Class, c: Class) {
    || p == WJ || c == WJ
    || (p != ZW
        && ((p == GL && c != SP) || c == GL || (p == SP && c == SP)
            || ((Letter(p) || p == NU) && (Letter(c) || c == NU))
            || p == OP || p == QU || c in {CL, CP, EX}))
  }

  lemma RuleMatches(p: Class, c: Class, r: nat)
    requires r == FirstRule(p, c, 0)
    ensures r <= RULES && Matches(r, p, c) && PairRule(p, c) == Outcome(r)
    ensures forall j: nat | j < r :: !Matches(j, p, c)
  {
  }

  /** No break is allowed exactly inside CR LF and, where nothing breaks hard, between tied characters. */
  lemma NoBreaks(p: Class, c: Class)
    ensures PairRule(p, c) == NoBreak <==> (p == CR && c == LF) || (!Hard(p, c) && Tied(p, c))
  {
    var r := FirstRule(p, c, 0);
    RuleMatches(p, c, r);
    assert Matches(0, p, c) ==> r == 0;
    assert Matches(1, p, c) ==> r <= 1;
    assert Matches(2, p, c) ==> r <= 2;
    assert Matches(3, p, c) ==> r <= 3;
    LateRules(p, c, r);
  }

  lemma LateRules(p: Class, c: Class, r: nat)
    requires r <= RULES && Matches(r, p, c) && forall j: nat | j < r :: !Matches(j, p, c)
    ensures !Matches(0, p, c) && !Matches(1, p, c) && !Matches(2, p, c) && !Matches(3, p, c) ==>
              (4 <= r <= 10 <==> Tied(p, c))
  {
    assert Matches(4, p, c) ==> r <= 4;
    assert Matches(5, p, c) ==> r <= 5;
    assert Matches(6, p, c) ==> r <= 6;
    assert Matches(7, p, c) ==> r <= 7;
    assert Matches(8, p, c) ==> r <= 8;
    assert Matches(9, p, c) ==> r <= 9;
    assert Matches(10, p, c) ==> r <= 10;
  }

  /** The four outcomes: hard breaks, none, the break between a letter and a currency or unit sign, and an
      opportunity everywhere else. */
  lemma PairExactly(p: Class, c: Class)
    ensures PairRule(p, c)
            == if p == CR && c == LF then NoBreak
               else if Hard(p, c) then MustBreak
               else if Tied(p, c) then NoBreak
               else if Letter(p) && c in {PR, PO} then AlphanumBreak
               else CanBreak
  {
    MustBreaks(p, c);
    NoBreaks(p, c);
    AlphanumBreaks(p, c);
  }

  // ----- Codepoints -----

  /** A tailoring is asked first; then the table of the Unicode zone, where what is not listed is unknown. */
  lemma TailoredClass(cp: nat, overrides: seq<Range>, k: nat)
    requires k < |overrides| && Sorted(overrides) && Contains(overrides[k], cp)
    ensures Classified(cp, overrides) == overrides[k].cls
  {
    ScanFinds(overrides, cp, k);
  }

  lemma ListedClass(cp: nat, overrides: seq<Range>, k: nat)
    requires k < |BRIDGE| && Contains(BRIDGE[k], cp) && forall i | 0 <= i < |overrides| :: !Contains(overrides[i], cp)
    ensures Classified(cp, overrides) == BRIDGE[k].cls
  {
    ScanMisses(overrides, cp);
    BridgeSorted();
    ScanFinds(BRIDGE, cp, k);
    BridgeInZone(k);
  }

  lemma BridgeInZone(k: nat)
    requires k < |BRIDGE|
    ensures BRIDGE[k].hi <= 0x10FFFF
  {
    var n := |BRIDGE_ASCII|;
    if k < n {
      AsciiNeighbours(k);
    } else {
      RestInZone(k - n);
    }
  }

  lemma RestInZone(k: nat)
    requires k < |BRIDGE_REST|
    ensures BRIDGE_REST[k].hi <= 0x10FFFF
  {
  }

  lemma UnlistedClass(cp: nat, overrides: seq<Range>)
    requires forall i | 0 <= i < |overrides| :: !Contains(overrides[i], cp)
    requires cp <= 0x10FFFF && forall k | 0 <= k < |BRIDGE| :: !Contains(BRIDGE[k], cp)
    ensures Classified(cp, overrides) == XX
  {
    ScanMisses(overrides, cp);
    ScanMisses(BRIDGE, cp);
  }

  ghost predicate Plain(cp: nat, overrides: seq<Range>) {
    forall i | 0 <= i < |overrides| :: !Contains(overrides[i], cp)
  }

  /** Above the Unicode zone the classes go by zone: markers, other controls, native words, and the rest. */
  lemma ZoneClasses(cp: nat, overrides: seq<Range>)
    requires Plain(cp, overrides) && cp >= 0x110000
    ensures Classified(cp, overrides) == ID <==> 0x120000 <= cp < 0x100_0000
    ensures Classified(cp, overrides) == GL <==> cp == 0x110021
    ensures Classified(cp, overrides) == BA <==> cp == 0x110022
    ensures Classified(cp, overrides) == BK <==> cp < 0x120000 && cp !in {0x110021, 0x110022}
    ensures Classified(cp, overrides) == XX <==> cp >= 0x100_0000
  {
    ScanMisses(overrides, cp);
  }

  /** A tailoring may name a class that does not exist; it counts as unknown on either side. */
  lemma NoSuchClass(prev: nat, cur: nat, overrides: seq<Range>, p: Class, c: Class)
    requires p == Classified(prev, overrides) && c == Classified(cur, overrides) && !IsMarker(cur)
    ensures Pair(prev, cur, overrides)
            == PairRule(if 0 <= p < 39 then p else XX, if 0 <= c < 39 then c else XX)
  {
  }

  /** A marker decides the boundary before it, whatever stands there and whatever the tailoring says. */
  lemma BeforeMarker(prev: nat, cur: nat, overrides: seq<Range>)
    requires cur in {0x110020, 0x110021, 0x110022}
    ensures Pair(prev, cur, overrides)
            == if cur == 0x110020 then MustBreak else if cur == 0x110021 then NoBreak else CanBreak
  {
  }

  /** After a control of the control plane that is not one of the two softer markers every boundary is
      hard, unless a marker follows. */
  lemma AfterControl(prev: nat, cur: nat, overrides: seq<Range>)
    requires 0x110000 <= prev < 0x120000 && prev !in {0x110021, 0x110022} && Plain(prev, overrides)
    requires cur !in {0x110020, 0x110021, 0x110022}
    ensures Pair(prev, cur, overrides) == MustBreak
  {
    ScanMisses(overrides, prev);
    PairExactly(BK, Known(Classified(cur, overrides)));
  }

  /** Native words hold together; a prohibiting marker ties the next one to itself, an opportunistic one
      leaves it free, and beyond the native words there is an opportunity everywhere. */
  lemma NativePairs(prev: nat, cur: nat, overrides: seq<Range>)
    requires Plain(prev, overrides) && Plain(cur, overrides) && 0x120000 <= cur
    ensures 0x120000 <= prev < 0x100_0000 && cur < 0x100_0000 ==> Pair(prev, cur, overrides) == NoBreak
    ensures prev == 0x110021 ==> Pair(prev, cur, overrides) == NoBreak
    ensures prev == 0x110022 ==> Pair(prev, cur, overrides) == CanBreak
    ensures 0x120000 <= prev && (prev >= 0x100_0000 || cur >= 0x100_0000) ==> Pair(prev, cur, overrides) == CanBreak
  {
    ScanMisses(overrides, prev);
    ScanMisses(overrides, cur);
    PairExactly(Known(Classified(prev, overrides)), Known(Classified(cur, overrides)));
  }
}
