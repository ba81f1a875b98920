/**
  A whole paragraph through the bidirectional engine: classification, paragraph level, the explicit,
  weak, neutral and implicit phases, the visual order and mirroring.  The class of a codepoint is a
  parameter.
 */
module Paragraph {
  import opened BidiTypes
  import opened ExplicitLevels
  import opened WeakTypes
  import opened NeutralTypes
  import opened PairTables
  import opened Reorder

  datatype Direction = Ltr | Rtl | Auto

  datatype BidiStatus = Ok | TooLong

  function LoadedRun(cp: nat, classify: nat -> Class): Run {
    Run(cp, classify(cp), 0, false, false)
  }

  function Loaded(cps: seq<nat>, classify: nat -> Class): (r: seq<Run>)
    ensures |r| == |cps|
  {
    seq(|cps|, i requires 0 <= i < |cps| => LoadedRun(cps[i], classify))
  }

  function ParagraphLevel(rs: seq<Run>, dir: Direction): (para: nat)
    ensures para <= 1
  {
    match dir
    case Ltr => 0
    case Rtl => 1
    case Auto => if FirstStrongRtl(rs) then 1 else 0
  }

  /** The paragraph when all levels are settled. */
  function Leveled(rs: seq<Run>, para: nat): seq<Run>
    requires para <= MAX_LEVEL
  {
    Implicit(Neutrals(Weak(Explicit(rs, para))))
  }

  function MirroredRun(x: Run): Run {
    if !x.removed && Odd(x.level) && MirrorOf(x.cp).With? then Run(MirrorOf(x.cp).cp, x.cls, x.level, true, x.removed)
    else Run(x.cp, x.cls, x.level, false, x.removed)
  }

  function Mirrored(rs: seq<Run>): (r: seq<Run>)
    ensures |r| == |rs| && forall i | 0 <= i < |rs| :: r[i] == MirroredRun(rs[i])
  {
    seq(|rs|, i requires 0 <= i < |rs| => MirroredRun(rs[i]))
  }

  function Resolved(cps: seq<nat>, classify: nat -> Class, para: nat): seq<Run>
    requires para <= MAX_LEVEL
  {
    Mirrored(Leveled(Loaded(cps, classify), para))
  }

  /** Resolves the paragraph into the front of `out`; the caller may decline the visual order by passing
      null.  `runs` is the part of the caller's array that the call works in. */
  method ResolveParagraph(cps: seq<nat>, dir: Direction, classify: nat -> Class, out: array<Run>, visual: array?<nat>)
    returns (status: BidiStatus, para: nat)
    requires out.Length >= |cps| && (visual != null ==> visual.Length >= |cps|)
    modifies out, visual
    ensures status == if |cps| > MAX_LEN then TooLong else Ok
    ensures status == TooLong ==> out[..] == old(out[..])
    ensures status == TooLong && visual != null ==> visual[..] == old(visual[..])
    ensures status == Ok && |cps| > 0 ==> para == ParagraphLevel(Loaded(cps, classify), dir)
    ensures status == Ok && |cps| > 0 ==> out[..|cps|] == Resolved(cps, classify, para)
    ensures out[|cps|..] == old(out[..])[|cps|..]
    ensures status == Ok && visual != null ==>
              visual[|cps|..] == old(visual[..])[|cps|..]
              && (|cps| > 0 ==> visual[..|cps|] == VisualMap(Leveled(Loaded(cps, classify), para), para))
  {
    if |cps| == 0 {
      return Ok, 0;
    }
    if |cps| > MAX_LEN {
      return TooLong, 0;
    }
    var runs := new Run[|cps|](_ => Run(0, ON, 0, false, false));
    Load(cps, classify, runs);
    para := Settle(runs, dir);
    if visual != null {
      PhaseReorder(runs, para, visual);
    }
    PhaseMirror(runs);
    StoreRuns(runs, out);
    status := Ok;
  }

  method Load(cps: seq<nat>, classify: nat -> Class, runs: array<Run>)
    requires runs.Length == |cps|
    modifies runs
    ensures runs[..] == Loaded(cps, classify)
  {
    for i := 0 to |cps|
      invariant runs[..i] == Loaded(cps, classify)[..i]
    {
      runs[i] := LoadedRun(cps[i], classify);
    }
  }

  /** The paragraph level, and the phases that settle all levels. */
  method Settle(runs: array<Run>, dir: Direction) returns (para: nat)
    modifies runs
    ensures para == ParagraphLevel(old(runs[..]), dir)
    ensures runs[..] == Leveled(old(runs[..]), para)
  {
    match dir {
      case Ltr => para := 0;
      case Rtl => para := 1;
      case Auto =>
        var rtl := FindFirstStrongRtl(runs, 0);
        assert runs[0..] == runs[..];
        para := if rtl then 1 else 0;
    }
    PhaseExplicit(runs, para);
    PhaseWeak(runs);
    PhaseNeutral(runs);
    PhaseImplicit(runs);
  }

  method StoreRuns(runs: array<Run>, out: array<Run>)
    requires runs.Length <= out.Length && runs != out
    modifies out
    ensures out[..runs.Length] == runs[..] && out[runs.Length..] == old(out[..])[runs.Length..]
  {
    for i := 0 to runs.Length
      invariant forall k | 0 <= k < i :: out[k] == runs[k]
      invariant forall k | i <= k < out.Length :: out[k] == old(out[k])
    {
      out[i] := runs[i];
    }
  }

  method PhaseMirror(r: array<Run>)
    modifies r
    ensures r[..] == Mirrored(old(r[..]))
  {
    ghost var rs, out := r[..], Mirrored(r[..]);
    for i := 0 to r.Length
      invariant forall k | 0 <= k < i :: r[k] == out[k]
      invariant forall k | i <= k < r.Length :: r[k] == rs[k]
    {
      var x := r[i];
      var paired, mirrored := x.cp, false;
      if !x.removed && Odd(x.level) {
        paired, mirrored := BidiMirror(x.cp);
      }
      r[i] := Run(paired, x.cls, x.level, mirrored, x.removed);
    }
    assert r[..] == out;
  }

  /** The caller's direction counts whatever the text is.  Without one the first strong character of the
      text decides, and a text without any is left-to-right. */
  lemma AutoLevel(cps: seq<nat>, classify: nat -> Class, p: nat)
    requires p <= |cps| && forall k | 0 <= k < p :: classify(cps[k]) !in {L, R, AL}
    requires p < |cps| ==> classify(cps[p]) in {L, R, AL}
    ensures ParagraphLevel(Loaded(cps, classify), Auto)
            == if p < |cps| && classify(cps[p]) in {R, AL} then 1 else 0
    ensures ParagraphLevel(Loaded(cps, classify), Ltr) == 0 && ParagraphLevel(Loaded(cps, classify), Rtl) == 1
  {
    if p < |cps| {
      FirstStrongDecides(Loaded(cps, classify), p);
    } else {
      NothingDecides(Loaded(cps, classify));
    }
  }

  // ----- What a resolved paragraph looks like -----

  predicate Resolvable(c: Class) {
    c in {L, R, EN, AN, NSM}
  }

  /** After the neutral rules a kept character is strong, a number or a leading mark. */
  lemma NeutralResult(rs: seq<Run>)
    requires AllKept(rs, WeakClass) && LeadingMarks(rs)
    ensures AllKept(Neutrals(rs), Resolvable) && LeadingMarks(Neutrals(rs)) && OnlyClasses(rs, Neutrals(rs))
  {
    var a := N0(rs);
    BracketsResult(rs, a);
    NeutralsResult(a);
    assert N2(N1(a)) == Neutrals(rs);
  }

  lemma BracketsResult(rs: seq<Run>, a: seq<Run>)
    requires AllKept(rs, WeakClass) && LeadingMarks(rs) && a == N0(rs)
    ensures AllKept(a, WeakClass) && LeadingMarks(a) && OnlyClasses(rs, a)
  {
    BracketsResolved(rs);
    forall j: nat | j < |rs|
      ensures a[j].cls == NSM <==> rs[j].cls == NSM
      ensures WeakClass(rs[j].cls) ==> WeakClass(a[j].cls)
    {
      assert a[j] == rs[j] || InPair(rs, a, j);
    }
    LeadingMarksKept(rs, a);
  }

  lemma NeutralsResult(a: seq<Run>)
    requires AllKept(a, WeakClass) && LeadingMarks(a)
    ensures var c := N2(N1(a)); AllKept(c, Resolvable) && LeadingMarks(c) && OnlyClasses(a, c)
  {
    var b := N1(a);
    forall j | 0 <= j < |a| ensures b[j].cls == a[j].cls || (IsNeutral(a[j].cls) && b[j].cls in {L, R}) {
      assert b[j].cls == N1Class(a, j);
    }
    LeadingMarksKept(a, b);
    LeadingMarksKept(b, N2(b));
  }

  /** The weak, neutral and implicit phases after the explicit one. */
  lemma LevelsSettled(rs: seq<Run>, para: nat)
    requires para <= MAX_LEVEL && forall i | 0 <= i < |rs| :: !rs[i].removed && rs[i].level <= MAX_LEVEL
    ensures AllKept(Leveled(rs, para), Resolvable) && LeadingMarks(Leveled(rs, para))
    ensures |Leveled(rs, para)| == |rs| == |Explicit(rs, para)|
    ensures forall i | 0 <= i < |rs| :: Settled(Explicit(rs, para)[i], Leveled(rs, para)[i])
  {
    var e := Explicit(rs, para);
    forall i: nat | i < |rs|
      ensures !e[i].removed ==> KeptClass(e[i].cls)
      ensures e[i].level <= MAX_LEVEL
    {
      KeptAfterExplicit(rs, para, i);
      ExplicitLevelBound(rs, para, i);
    }
    WeakResult(e);
    NeutralResult(Weak(e));
    ImplicitResult(e, Neutrals(Weak(e)));
  }

  /** `y` has its final level, `x` being the character after the explicit phase. */
  predicate Settled(x: Run, y: Run) {
    && y.cp == x.cp && y.removed == x.removed
    && x.level <= y.level <= x.level + 2 && y.level <= MAX_LEVEL + 1
    && (y.removed ==> y.level == x.level)
    && (!y.removed && y.cls == R ==> Odd(y.level) && y.level <= x.level + 1)
    && (!y.removed && y.cls == L ==> !Odd(y.level) && y.level <= x.level + 1)
    && (!y.removed && y.cls in {EN, AN} ==> !Odd(y.level) && x.level < y.level)
    && (!y.removed && y.cls == NSM ==> y.level == x.level)
  }

  lemma ImplicitResult(e: seq<Run>, rs: seq<Run>)
    requires |e| == |rs| && (forall i | 0 <= i < |e| :: rs[i] == SetClass(e[i], rs[i].cls) && e[i].level <= MAX_LEVEL)
    requires AllKept(rs, Resolvable) && LeadingMarks(rs)
    ensures AllKept(Implicit(rs), Resolvable) && LeadingMarks(Implicit(rs))
    ensures forall i | 0 <= i < |e| :: Settled(e[i], Implicit(rs)[i])
  {
    LeadingMarksKept(rs, Implicit(rs));
  }

  /** What becomes of a character of class `c`, `x` being the character after the explicit phase and
      `y` the resolved one. */
  predicate ResolvedAs(c: Class, x: Run, y: Run) {
    && (y.removed <==> IsEmbedding(c) || c in {PDF, BN})
    && x.level <= y.level <= x.level + 2 && y.level <= 126
    && (if y.removed then y.level == x.level
        else (y.cls == R && Odd(y.level) && y.level <= x.level + 1)
             || (y.cls == L && !Odd(y.level) && y.level <= x.level + 1)
             || (y.cls in {EN, AN} && !Odd(y.level) && x.level < y.level)
             || (y.cls == NSM && y.level == x.level))
  }

  /** For every text, every classification and either paragraph level: exactly the embedding
      controls, PDF and BN are removed; every other character ends up left-to-right on the least even
      level from its explicit one on, right-to-left on the least odd one, or a number on the least even
      one above it, or is a mark on its explicit level with only marks before it; no level is above 126. */
  lemma EveryCharacterResolved(cps: seq<nat>, classify: nat -> Class, para: nat, e: seq<Run>, f: seq<Run>, i: nat)
    requires para <= 1 && i < |cps|
    requires e == Explicit(Loaded(cps, classify), para) && f == Resolved(cps, classify, para)
    ensures |e| == |f| == |cps| && ResolvedAs(classify(cps[i]), e[i], f[i])
    ensures LeadingMarks(f)
  {
    var rs := Loaded(cps, classify);
    LevelsSettled(rs, para);
    KeptAfterExplicit(rs, para, i);
    SettledResolved(rs[i].cls, e, Leveled(rs, para), f, i);
  }

  lemma SettledResolved(c: Class, e: seq<Run>, lv: seq<Run>, f: seq<Run>, i: nat)
    requires |e| == |lv| && f == Mirrored(lv) && AllKept(lv, Resolvable) && LeadingMarks(lv)
    requires i < |e| && Settled(e[i], lv[i]) && (e[i].removed <==> IsEmbedding(c) || c in {PDF, BN})
    ensures ResolvedAs(c, e[i], f[i]) && LeadingMarks(f)
  {
    LeadingMarksKept(lv, f);
  }

  /** Mirroring loses nothing: exactly the kept characters on odd levels that have a mirror image
      are replaced by it, and the original text can be read back. */
  lemma TextReadBack(cps: seq<nat>, classify: nat -> Class, para: nat, i: nat)
    requires para <= 1 && i < |cps|
    ensures var y := Resolved(cps, classify, para)[i];
            && (y.mirrored <==> !y.removed && Odd(y.level) && MirrorOf(cps[i]).With?)
            && (if y.mirrored then MirrorOf(y.cp) == With(cps[i]) && y.cp != cps[i] else y.cp == cps[i])
  {
    var rs := Loaded(cps, classify);
    LevelsSettled(rs, para);
    ExplicitKeepsText(rs, para, i);
    assert Settled(Explicit(rs, para)[i], Leveled(rs, para)[i]);
    if MirrorOf(cps[i]).With? {
      MirroredTwice(cps[i]);
    }
  }

  lemma ExplicitKeepsText(rs: seq<Run>, para: nat, i: nat)
    requires para <= MAX_LEVEL && i < |rs|
    ensures Explicit(rs, para)[i].cp == rs[i].cp
  {
    ExplicitOnTrace(rs, para, i);
  }

  // ----- Reordering a resolved paragraph -----

  function LevelsOf(rs: seq<Run>): (lvl: Levels)
    ensures |lvl| == |rs|
  {
    seq(|rs|, i requires 0 <= i < |rs| => rs[i].level)
  }

  lemma {:induction false} NoTrail(rs: seq<Run>, t: nat)
    requires AllKept(rs, Resolvable) && t <= |rs|
    ensures forall i | TrailStart(rs, t) <= i < t :: rs[i].removed
  {
    if t > 0 {
      NoTrail(rs, t - 1);
    }
  }

  /** The loop for trailing white space never changes a level: by the time it runs, no kept
      character is white space or a separator any more. */
  lemma TrailingSpaceKeepsItsLevel(cps: seq<nat>, classify: nat -> Class, para: nat)
    requires para <= 1
    ensures var rs := Leveled(Loaded(cps, classify), para); LineLevels(rs, para) == LevelsOf(rs)
  {
    var rs := Leveled(Loaded(cps, classify), para);
    LevelsSettled(Loaded(cps, classify), para);
    NoTrail(rs, |rs|);
  }

  /** The visual order of a resolved paragraph: the inverse of reversing, from the highest level
      down to the one above the paragraph's, the runs of at least that level. */
  lemma VisualOrder(cps: seq<nat>, classify: nat -> Class, para: nat, rs: seq<Run>)
    requires para <= 1 && rs == Leveled(Loaded(cps, classify), para)
    ensures Inverse(VisualMap(rs, para), L2Down(LevelsOf(rs), para + 1, Highest(rs, para) + 1))
    ensures forall i | 0 <= i < |rs| && rs[i].level <= para :: VisualMap(rs, para)[i] == i
  {
    TrailingSpaceKeepsItsLevel(cps, classify, para);
    OrderByLevels(rs, para);
  }

  lemma OrderByLevels(rs: seq<Run>, para: nat)
    requires LineLevels(rs, para) == LevelsOf(rs)
    ensures Inverse(VisualMap(rs, para), L2Down(LevelsOf(rs), para + 1, Highest(rs, para) + 1))
    ensures forall i | 0 <= i < |rs| && rs[i].level <= para :: VisualMap(rs, para)[i] == i
  {
    VisualMapInvertsDescending(rs, para);
    assert forall i | 0 <= i < |rs| :: LineLevels(rs, para)[i] == rs[i].level;
  }

  // ----- Paragraphs without controls -----

  ghost predicate PlainText(rs: seq<Run>) {
    forall i | 0 <= i < |rs| :: Ordinary(rs[i].cls)
  }

  /** Without controls the explicit phase only sets the paragraph level. */
  lemma PlainExplicit(rs: seq<Run>, para: nat, i: nat)
    requires para <= MAX_LEVEL && i < |rs| && PlainText(rs)
    ensures Explicit(rs, para)[i] == SetLevel(rs[i], para)
  {
    TraceIsTrace(rs, para);
    OrdinaryKeepsState(rs, Trace(rs, para), 0, i);
    ExplicitOnTrace(rs, para, i);
  }

  lemma PlainLevels(cps: seq<nat>, classify: nat -> Class, para: nat, i: nat)
    requires para <= 1 && i < |cps| && PlainText(Loaded(cps, classify))
    ensures para <= Leveled(Loaded(cps, classify), para)[i].level <= para + 2
  {
    var rs := Loaded(cps, classify);
    PlainExplicit(rs, para, i);
    LevelsSettled(rs, para);
  }

  /** In a left-to-right paragraph without controls the visual order is that of rule L2 exactly when
      the reversal at level 1 mirrors all neighbours on level 2: a run of right-to-left text with a
      longer number in it must have another number at the mirrored place. */
  lemma PlainVisualOrder(cps: seq<nat>, classify: nat -> Class, rs: seq<Run>, lvl: Levels, k: nat, order: seq<nat>)
    requires PlainText(Loaded(cps, classify)) && rs == Leveled(Loaded(cps, classify), 0) && lvl == LevelsOf(rs)
    requires LowestOdd(lvl, k) && order == L2Down(lvl, k, Highest(rs, 0) + 1)
    ensures VisualMap(rs, 0) == order <==> PairsMirrored(lvl, 1, 2)
  {
    TrailingSpaceKeepsItsLevel(cps, classify, 0);
    LevelsSettled(Loaded(cps, classify), 0);
    forall i | 0 <= i < |rs| ensures rs[i].level <= 2 {
      PlainLevels(cps, classify, 0, i);
    }
    VisualMapIsL2(rs, lvl, k, order);
  }

  /** Kept characters that the weak and neutral rules leave alone. */
  ghost predicate LettersAndDigits(rs: seq<Run>) {
    forall i | 0 <= i < |rs| :: !rs[i].removed && rs[i].cls in {R, EN}
  }

  lemma {:induction false} NothingBefore(rs: seq<Run>, i: nat)
    requires LettersAndDigits(rs) && i <= |rs|
    ensures !AfterArabic(rs, i) && !AfterL(rs, i)
  {
    if i > 0 {
      NothingBefore(rs, i - 1);
    }
  }

  lemma WeakIdle(rs: seq<Run>)
    requires LettersAndDigits(rs)
    ensures Weak(rs) == rs
  {
    forall i | 0 <= i < |rs| ensures W3Class(rs, i) == W7Class(rs, i) == rs[i].cls {
      NothingBefore(rs, i);
    }
    assert W1(rs) == rs && W3(rs) == rs && W4(rs) == rs;
    assert W5(rs) == rs && W6(rs) == rs && W7(rs) == rs;
  }

  lemma {:induction false} NoBrackets(rs: seq<Run>, i: nat)
    requires LettersAndDigits(rs) && i <= |rs|
    ensures BracketsUpTo(rs, i) == rs
  {
    if i > 0 {
      NoBrackets(rs, i - 1);
    }
  }

  lemma NeutralsIdle(rs: seq<Run>)
    requires LettersAndDigits(rs)
    ensures Neutrals(rs) == rs
  {
    NoBrackets(rs, |rs|);
    assert N1(rs) == rs && N2(rs) == rs;
  }

  /** Letters and digits in a paragraph of level `para`. */
  lemma LettersAndDigitsLeveled(rs: seq<Run>, para: nat)
    requires para <= MAX_LEVEL && LettersAndDigits(rs)
    ensures |Leveled(rs, para)| == |rs|
    ensures forall i | 0 <= i < |rs| :: Leveled(rs, para)[i] == SetLevel(rs[i], ImplicitLevel(rs[i].cls, para))
  {
    var e := Explicit(rs, para);
    forall i | 0 <= i < |rs| ensures e[i] == SetLevel(rs[i], para) {
      PlainExplicit(rs, para, i);
    }
    WeakIdle(e);
    NeutralsIdle(e);
  }

  /** The visual order is in general not that of rule L2: two digits before a right-to-left letter.
      The map stores that the letter goes to the front, rule L2 that the digits come from the front. */
  lemma VisualMapIsNotL2(classify: nat -> Class)
    requires classify(0x30) == EN && classify(0x5D0) == R
    ensures var rs := Leveled(Loaded([0x30, 0x30, 0x5D0], classify), 0);
            && LevelsOf(rs) == [2, 2, 1] && LowestOdd(LevelsOf(rs), 1)
            && VisualMap(rs, 0) == [1, 2, 0] && L2Down(LevelsOf(rs), 1, Highest(rs, 0) + 1) == [2, 0, 1]
  {
    var cps := [0x30, 0x30, 0x5D0];
    var rs := Leveled(Loaded(cps, classify), 0);
    LettersAndDigitsLeveled(Loaded(cps, classify), 0);
    TrailingSpaceKeepsItsLevel(cps, classify, 0);
    assert LevelsOf(rs) == [2, 2, 1];
    OrdersDiffer(rs, LevelsOf(rs), Highest(rs, 0) + 1);
  }

  lemma OrdersDiffer(rs: seq<Run>, lvl: Levels, hi: nat)
    requires lvl == LevelsOf(rs) == LineLevels(rs, 0) == [2, 2, 1] && hi == Highest(rs, 0) + 1
    ensures VisualMap(rs, 0) == [1, 2, 0] && L2Down(lvl, 1, hi) == [2, 0, 1] && LowestOdd(lvl, 1)
  {
    LineBounds(rs, 0, lvl, hi);
    HighestIsTwo(rs, lvl);
    L2OnFixedPositions(lvl, 1, hi);
    TwoTwoOne(lvl);
    assert lvl[2] == 1;
  }

  lemma HighestIsTwo(rs: seq<Run>, lvl: Levels)
    requires lvl == LevelsOf(rs) == [2, 2, 1]
    ensures Highest(rs, 0) == 2
  {
    assert rs[0].level == lvl[0] && rs[1].level == lvl[1] && rs[2].level == lvl[2];
    HighestAtMost(rs, 0, 2);
  }

  // ----- Right-to-left paragraphs -----

  /** Two neighbouring characters are neither embedding controls nor PDF. */
  ghost predicate TextPair(cps: seq<nat>, classify: nat -> Class) {
    exists i :: 0 <= i && i + 1 < |cps| && !KeepsLevel(classify(cps[i])) && !KeepsLevel(classify(cps[i + 1]))
  }

  lemma LevelFromParagraph(cps: seq<nat>, classify: nat -> Class, para: nat, i: nat)
    requires para <= 1 && i < |cps|
    ensures var level := Leveled(Loaded(cps, classify), para)[i].level;
            if KeepsLevel(classify(cps[i])) then level == 0 else level >= para
  {
    var rs := Loaded(cps, classify);
    LevelsSettled(rs, para);
    LevelsFromParagraph(rs, para, i);
    KeptAfterExplicit(rs, para, i);
  }

  lemma RaisedNeighbours(cps: seq<nat>, classify: nat -> Class, lvl: Levels)
    requires lvl == LevelsOf(Leveled(Loaded(cps, classify), 1)) && |lvl| == |cps|
    ensures NeighboursAbove(lvl, 1) <==> TextPair(cps, classify)
  {
    forall i | 0 <= i < |cps| ensures lvl[i] >= 1 <==> !KeepsLevel(classify(cps[i])) {
      LevelFromParagraph(cps, classify, 1, i);
    }
    PairsMatch(cps, classify, lvl);
  }

  lemma PairsMatch(cps: seq<nat>, classify: nat -> Class, lvl: Levels)
    requires |lvl| == |cps| && forall i | 0 <= i < |cps| :: lvl[i] >= 1 <==> !KeepsLevel(classify(cps[i]))
    ensures NeighboursAbove(lvl, 1) <==> TextPair(cps, classify)
  {
    if NeighboursAbove(lvl, 1) {
      var i :| 0 <= i && i + 1 < |lvl| && lvl[i] >= 1 && lvl[i + 1] >= 1;
      assert !KeepsLevel(classify(cps[i])) && !KeepsLevel(classify(cps[i + 1]));
    }
    if TextPair(cps, classify) {
      var i :| 0 <= i && i + 1 < |cps| && !KeepsLevel(classify(cps[i])) && !KeepsLevel(classify(cps[i + 1]));
      assert lvl[i] >= 1 && lvl[i + 1] >= 1;
    }
  }

  /** In a right-to-left paragraph the visual order is the inverse of rule L2 exactly when of any two
      neighbouring characters of the text one is an embedding control or PDF. */
  lemma RightToLeftText(cps: seq<nat>, classify: nat -> Class, rs: seq<Run>, k: nat)
    requires rs == Leveled(Loaded(cps, classify), 1) && LowestOdd(LevelsOf(rs), k)
    ensures Inverse(VisualMap(rs, 1), L2Down(LevelsOf(rs), k, Highest(rs, 1) + 1)) <==> !TextPair(cps, classify)
  {
    TrailingSpaceKeepsItsLevel(cps, classify, 1);
    LevelsSettled(Loaded(cps, classify), 1);
    RaisedNeighbours(cps, classify, LevelsOf(rs));
    RightToLeftParagraph(rs, k);
  }

  /** For instance two Hebrew letters: rule L2 swaps them, the stored map does not. */
  lemma TwoLettersStay(classify: nat -> Class)
    requires classify(0x5D0) == R
    ensures var rs := Leveled(Loaded([0x5D0, 0x5D0], classify), 1);
            && LevelsOf(rs) == [1, 1] && LowestOdd(LevelsOf(rs), 1)
            && VisualMap(rs, 1) == [0, 1] && L2Down(LevelsOf(rs), 1, Highest(rs, 1) + 1) == [1, 0]
  {
    var cps := [0x5D0, 0x5D0];
    var rs := Leveled(Loaded(cps, classify), 1);
    LettersAndDigitsLeveled(Loaded(cps, classify), 1);
    TrailingSpaceKeepsItsLevel(cps, classify, 1);
    assert LevelsOf(rs) == [1, 1];
    TwoOnLevelOne(rs, LevelsOf(rs), Highest(rs, 1) + 1);
  }

  lemma TwoOnLevelOne(rs: seq<Run>, lvl: Levels, hi: nat)
    requires lvl == LevelsOf(rs) == LineLevels(rs, 1) == [1, 1] && hi == Highest(rs, 1) + 1
    ensures VisualMap(rs, 1) == [0, 1] && L2Down(lvl, 1, hi) == [1, 0] && LowestOdd(lvl, 1)
  {
    LineBounds(rs, 1, lvl, hi);
    assert rs[0].level == lvl[0] && rs[1].level == lvl[1];
    HighestAtMost(rs, 1, 1);
    L2OnFixedPositions(lvl, 1, hi);
    assert IsRun(lvl, 1, 0, 2);
    InRun(lvl, 1, 0, 2, 0);
    InRun(lvl, 1, 0, 2, 1);
    assert lvl[0] == 1;
  }

  // ----- Rule L1 -----

  /** From `i` on, every kept character is white space or a separator. */
  ghost predicate Trailing(rs: seq<Run>, i: nat) {
    forall k | i <= k < |rs| && !rs[k].removed :: rs[k].cls in {S, WS, B}
  }

  predicate Untouched(c: Class) {
    c in {S, WS, B, L, R}
  }

  lemma EarlyPassesKeep(rs: seq<Run>, j: nat)
    requires j < |rs| && Untouched(rs[j].cls)
    ensures W1(rs)[j] == rs[j] && W3(rs)[j] == rs[j] && W4(rs)[j] == rs[j]
  {
  }

  lemma LatePassesKeep(rs: seq<Run>, j: nat)
    requires j < |rs| && Untouched(rs[j].cls)
    ensures W5(rs)[j] == rs[j] && W6(rs)[j] == rs[j] && W7(rs)[j] == rs[j]
  {
  }

  lemma WeakKeepsClass(rs: seq<Run>, j: nat)
    requires j < |rs| && Untouched(rs[j].cls)
    ensures |Weak(rs)| == |rs| && Weak(rs)[j] == rs[j]
  {
    var a := W1(rs);
    var b := W3(a);
    var c := W4(b);
    EarlyPassesKeep(rs, j);
    EarlyPassesKeep(a, j);
    EarlyPassesKeep(b, j);
    LatePassesKeep(c, j);
    LatePassesKeep(W5(c), j);
    LatePassesKeep(W6(W5(c)), j);
  }

  lemma BracketsKeep(rs: seq<Run>, j: nat)
    requires j < |rs| && rs[j].cls != ON
    ensures N0(rs)[j] == rs[j]
  {
    Settles(rs, 0, |rs|, j);
  }

  /** A neutral with nothing strong after it takes the direction of its level. */
  lemma NeutralBeforeNothing(a: seq<Run>, i: nat)
    requires i < |a| && !a[i].removed && a[i].cls in {S, WS, B} && Trailing(a, i)
    ensures N1(a)[i] == a[i]
  {
    NothingStrongAfter(a, i, NeutralsEnd(a, i));
  }

  lemma NothingStrongAfter(a: seq<Run>, i: nat, e: nat)
    requires i <= e < |a| && Trailing(a, i)
    ensures StrongSide(ClassAt(a, NextKept(a, e))) == Unknown
  {
  }

  lemma LevelOfSide(x: Run)
    requires !x.removed && x.cls in {S, WS, B}
    ensures ImplicitRun(SetClass(x, N2Class(x))).level == x.level
  {
  }

  lemma {:induction false} TrailingLevel(e: seq<Run>, i: nat)
    requires i < |e| && !e[i].removed && e[i].cls in {S, WS, B} && Trailing(e, i)
    ensures |Implicit(Neutrals(Weak(e)))| == |e| && Implicit(Neutrals(Weak(e)))[i].level == e[i].level
  {
    var w := Weak(e);
    var a := N0(w);
    WeakKeepsClass(e, i);
    BracketsKeep(w, i);
    BracketsResolved(w);
    forall k | i <= k < |a| && !a[k].removed ensures a[k].cls in {S, WS, B} {
      assert w[k].removed == e[k].removed && a[k].removed == w[k].removed;
      WeakKeepsClass(e, k);
      BracketsKeep(w, k);
    }
    NeutralBeforeNothing(a, i);
    LevelOfSide(a[i]);
  }

  lemma StrongKeepsLevel(e: seq<Run>, i: nat)
    requires i < |e| && !e[i].removed && ((e[i].cls == L && !Odd(e[i].level)) || (e[i].cls == R && Odd(e[i].level)))
    ensures |Implicit(Neutrals(Weak(e)))| == |e| && Implicit(Neutrals(Weak(e)))[i].level == e[i].level
  {
    WeakKeepsClass(e, i);
    BracketsKeep(Weak(e), i);
    StrongLevel(N0(Weak(e)), i);
  }

  lemma StrongLevel(a: seq<Run>, i: nat)
    requires i < |a| && !a[i].removed && ((a[i].cls == L && !Odd(a[i].level)) || (a[i].cls == R && Odd(a[i].level)))
    ensures Implicit(N2(N1(a)))[i].level == a[i].level
  {
    assert N1(a)[i] == a[i] && N2(N1(a))[i] == a[i];
  }

  /** What rule L1 asks for, at the last kept character: white space or a separator there ends on its
      explicit level, so it is on the paragraph level exactly when it is a paragraph separator or no
      embedding, override or isolate is open. */
  lemma LastSpaceLevel(cps: seq<nat>, classify: nat -> Class, para: nat, i: nat)
    requires para <= 1 && i < |cps| && classify(cps[i]) in {S, WS, B}
    requires forall k | i < k < |cps| :: KeepsLevel(classify(cps[k])) || classify(cps[k]) == BN
    ensures var rs := Loaded(cps, classify);
            && !Leveled(rs, para)[i].removed && Leveled(rs, para)[i].level == Explicit(rs, para)[i].level
            && (Leveled(rs, para)[i].level == para <==> classify(cps[i]) == B || |Trace(rs, para)[i].stack| == 1)
  {
    var rs := Loaded(cps, classify);
    LevelsSettled(rs, para);
    SpaceAfterExplicit(rs, para, i);
    AllRemovedAfter(rs, para, i);
    LastSpaceKeepsLevel(Explicit(rs, para), i);
  }

  lemma AllRemovedAfter(rs: seq<Run>, para: nat, i: nat)
    requires para <= 1 && forall k | i < k < |rs| :: !rs[k].removed && (KeepsLevel(rs[k].cls) || rs[k].cls == BN)
    ensures forall k | i < k < |rs| :: Explicit(rs, para)[k].removed
  {
    forall k | i < k < |rs| ensures Explicit(rs, para)[k].removed {
      KeptAfterExplicit(rs, para, k);
    }
  }

  lemma LastSpaceKeepsLevel(e: seq<Run>, i: nat)
    requires i < |e| && !e[i].removed && forall k | i < k < |e| :: e[k].removed
    requires e[i].cls in {S, WS, B} || (e[i].cls == L && !Odd(e[i].level)) || (e[i].cls == R && Odd(e[i].level))
    ensures |Implicit(Neutrals(Weak(e)))| == |e| && Implicit(Neutrals(Weak(e)))[i].level == e[i].level
  {
    if e[i].cls in {S, WS, B} {
      TrailingLevel(e, i);
    } else {
      StrongKeepsLevel(e, i);
    }
  }

  /** For instance a space after an unclosed embedding: it stays on the level of the embedding, which is 1
      in a paragraph of level 0. */
  lemma SpaceStaysRaised(classify: nat -> Class, para: nat)
    requires para <= 1 && classify(0x202B) == RLE && classify(0x20) == WS
    ensures var rs := Leveled(Loaded([0x202B, 0x20], classify), para);
            !rs[1].removed && rs[1].level == LineLevels(rs, para)[1] == NextOdd(para) > para
  {
    var cps := [0x202B, 0x20];
    var rs := Loaded(cps, classify);
    LastSpaceLevel(cps, classify, para, 1);
    TrailingSpaceKeepsItsLevel(cps, classify, para);
    EmbeddedLevel(rs, para, Trace(rs, para));
  }

  lemma EmbeddedLevel(rs: seq<Run>, para: nat, sts: seq<State>)
    requires para <= 1 && |rs| > 1 && rs[0].cls == RLE && rs[1].cls == WS && sts == Trace(rs, para)
    ensures Explicit(rs, para)[1].level == NextOdd(para)
  {
    DirectlyInside(rs, para, sts, Explicit(rs, para), 0, 1);
  }
}
