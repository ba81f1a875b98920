/**
  The streaming manifest reader: lines are fed one after the other, directives update the header,
  records are validated, counters accumulate.
 */
module ManifestReader {
  import opened Options
  import opened ManifestRanges
  import opened ManifestFields
  import opened ManifestRecords
  import opened ManifestDirectives

  const PLANE_MASK_ALL: nat := 0x0F

  /** The counters are 32 bits wide. */
  const COUNTER_SPAN: nat := 0x1_0000_0000

  datatype Header = Header(version: string, total: nat, planes: set<Plane>, sawManifest: bool, sawRecords: bool)

  datatype Counters = Counters(lines: nat, records: nat, comments: nat, directives: nat, errors: nat)

  datatype State = State(header: Header, counters: Counters, firstErrorLine: nat, lastError: ScmsError,
                         observed: set<Plane>)

  function Inc(n: nat): nat {
    (n + 1) % COUNTER_SPAN
  }

  /** The planes whose bits are set in `v`. */
  function PlanesOf(v: nat): set<Plane> {
    (if v % 2 == 1 then {Bridge} else {})
    + (if v / 2 % 2 == 1 then {Scp} else {})
    + (if v / 4 % 2 == 1 then {Native} else {})
    + (if v / 8 % 2 == 1 then {Rnur} else {})
  }

  function Begin(): State {
    State(Header("", 0, {}, false, false), Counters(0, 0, 0, 0, 0), 0, NoError, {})
  }

  // ----- What a line means, by itself -----

  datatype Meaning =
    | Blank
    | Comment
    | Version(version: string)
    | Total(total: nat)
    | Planes(planes: set<Plane>)
    | Reserved
    | Range(start: nat, end: nat)
    | Bad(why: ScmsError, directive: bool)

  function DirectiveMeaning(line: string): (m: Meaning)
    ensures m.Bad? || DirectiveError(line) == NoError
    ensures m.Bad? ==> m.why != NoError && m.directive
  {
    if DirectiveError(line) != NoError then Bad(DirectiveError(line), true)
    else if NameOf(line) == "manifest" then Version(ValueOf(line))
    else if NameOf(line) == "records" then
      match DecodeDec(ValueOf(line), UINT32_MAX)
      case Some(v) => Total(v)
      case None => Bad(BadDirective, true)
    else if NameOf(line) == "planes" then
      match DecodeHex(ValueOf(line), PLANE_MASK_ALL)
      case Some(v) => Planes(PlanesOf(v))
      case None => Bad(BadDirective, true)
    else Reserved
  }

  function RecordMeaning(line: string): (m: Meaning)
    ensures m.Range? || (m.Bad? && !m.directive)
    ensures m.Bad? ==> m.why != NoError
    ensures m.Range? ==> RangeAdmissible(m.start, m.end)
  {
    ValidationMatchesColumns(line);
    NoRecordIsNoError(line);
    match Validated(line)
    case Accepted(d) => Range(d.start, d.end)
    case Rejected(why) => Bad(why, false)
  }

  /** What a line amounts to; it does not depend on the lines before it. */
  function MeaningOf(line: string): (m: Meaning)
    ensures m.Bad? ==> m.why != NoError
    ensures m.Range? ==> RangeAdmissible(m.start, m.end)
  {
    if |line| >= MAX_LINE then Bad(LineTooLong, false)
    else if line == "" then Blank
    else if line[0] == '#' then Comment
    else if line[0] == '%' then DirectiveMeaning(line)
    else RecordMeaning(line)
  }

  lemma NoRecordIsNoError(line: string)
    ensures Validated(line).Rejected? ==> Validated(line).why != NoError
  {
    if |line| < MAX_LINE && line != "" && line[0] != '#' && line[0] != '%' && CheckColumns(Fields(line), 0) == NoError {
      ColumnsChecked(Fields(line), 0);
    }
  }

  function Meanings(ls: seq<string>): (ms: seq<Meaning>)
    ensures |ms| == |ls| && Sound(ms) && forall i | 0 <= i < |ls| :: ms[i] == MeaningOf(ls[i])
  {
    seq(|ls|, i requires 0 <= i < |ls| => MeaningOf(ls[i]))
  }

  /** What holds of the meanings of lines. */
  ghost predicate Sound(ms: seq<Meaning>) {
    forall i | 0 <= i < |ms| ::
      (ms[i].Bad? ==> ms[i].why != NoError) && (ms[i].Range? ==> RangeAdmissible(ms[i].start, ms[i].end))
  }

  // ----- Feeding -----

  predicate IsDirectiveLine(m: Meaning) {
    m.Version? || m.Total? || m.Planes? || m.Reserved? || (m.Bad? && m.directive)
  }

  function FoldHeader(h: Header, m: Meaning): Header {
    match m
    case Version(v) => Header(v, h.total, h.planes, true, h.sawRecords)
    case Total(n) => Header(h.version, n, h.planes, h.sawManifest, true)
    case Planes(p) => Header(h.version, h.total, p, h.sawManifest, h.sawRecords)
    case _ => h
  }

  function Counted(c: Counters, m: Meaning): Counters {
    Counters(Inc(c.lines),
             if m.Range? then Inc(c.records) else c.records,
             if m.Comment? then Inc(c.comments) else c.comments,
             if IsDirectiveLine(m) then Inc(c.directives) else c.directives,
             if m.Bad? then Inc(c.errors) else c.errors)
  }

  function PlanesIn(m: Meaning): set<Plane> {
    if m.Range? then PlaneMask(m.start, m.end) else {}
  }

  function Feed(st: State, m: Meaning): State {
    var first := m.Bad? && st.firstErrorLine == 0;
    State(FoldHeader(st.header, m), Counted(st.counters, m),
          if first then Inc(st.counters.lines) else st.firstErrorLine,
          if first then m.why else st.lastError,
          st.observed + PlanesIn(m))
  }

  /** What is left to do when the line has been counted. */
  function Folded(st: State, m: Meaning): State {
    var first, c := m.Bad? && st.firstErrorLine == 0, Counted(st.counters, m);
    State(FoldHeader(st.header, m), Counters(st.counters.lines, c.records, c.comments, c.directives, c.errors),
          if first then st.counters.lines else st.firstErrorLine,
          if first then m.why else st.lastError,
          st.observed + PlanesIn(m))
  }

  /** What closing a manifest says. */
  function EndVerdict(st: State): ScmsError {
    if !st.header.sawManifest then MissingHeader
    else if st.counters.records == 0 then EmptyManifest
    else if st.counters.errors != 0 then st.lastError
    else if st.header.sawRecords && st.header.total != st.counters.records then CountMismatch
    else NoError
  }

  /** Every plane that the records touched was declared. */
  predicate DeclaresPlanes(st: State) {
    st.header.sawManifest && st.observed <= st.header.planes
  }

  /** The state after the first `n` lines. */
  function After(ms: seq<Meaning>, n: nat): State
    requires n <= |ms|
  {
    if n == 0 then Begin() else Feed(After(ms, n - 1), ms[n - 1])
  }

  // ----- The reader in memory -----

  /** Takes a directive apart and decodes its value. */
  method ReadDirective(line: string) returns (m: Meaning)
    ensures m == DirectiveMeaning(line)
  {
    var why := ValidateDirective(line);
    if why != NoError {
      return Bad(why, true);
    }
    var i := ValueOffset(line);
    var same := NameIs(line, "manifest");
    if same {
      return Version(line[i..]);
    }
    same := NameIs(line, "records");
    if same {
      var v := ReadDec(line[i..], UINT32_MAX);
      return if v.None? then Bad(BadDirective, true) else Total(v.value);
    }
    same := NameIs(line, "planes");
    if same {
      var v := ReadFlags(line[i..], PLANE_MASK_ALL);
      return if v.None? then Bad(BadDirective, true) else Planes(PlanesOf(v.value));
    }
    return Reserved;
  }

  class Reader {
    var version: string
    var total: nat
    var planeMask: set<Plane>
    var lines: nat
    var records: nat
    var comments: nat
    var directives: nat
    var errors: nat
    var firstErrorLine: nat
    var lastError: ScmsError
    var observed: set<Plane>
    var sawManifest: bool
    var sawRecords: bool

    ghost function Snapshot(): State
      reads this
    {
      State(Header(version, total, planeMask, sawManifest, sawRecords),
            Counters(lines, records, comments, directives, errors), firstErrorLine, lastError, observed)
    }

    constructor ()
      ensures Snapshot() == Begin()
    {
      version, total, planeMask := "", 0, {};
      lines, records, comments, directives, errors := 0, 0, 0, 0, 0;
      firstErrorLine, lastError, observed := 0, NoError, {};
      sawManifest, sawRecords := false, false;
    }

    method NoteError(why: ScmsError)
      modifies this`errors, this`firstErrorLine, this`lastError
      ensures errors == Inc(old(errors))
      ensures firstErrorLine == if old(firstErrorLine) == 0 then lines else old(firstErrorLine)
      ensures lastError == if old(firstErrorLine) == 0 then why else old(lastError)
    {
      errors := Inc(errors);
      if firstErrorLine == 0 {
        firstErrorLine := lines;
        lastError := why;
      }
    }

    /** Folds one line into the state and says whether it was accepted. */
    method FeedLine(line: string) returns (ok: bool)
      modifies this
      ensures Snapshot() == Feed(old(Snapshot()), MeaningOf(line)) && ok == !MeaningOf(line).Bad?
    {
      lines := Inc(lines);
      if |line| >= MAX_LINE {
        NoteError(LineTooLong);
        return false;
      }
      if |line| == 0 {
        return true;
      }
      ok := FoldContent(line);
    }

    /** The line has been counted, and it is neither too long nor empty. */
    method FoldContent(line: string) returns (ok: bool)
      requires 0 < |line| < MAX_LINE
      modifies this
      ensures Snapshot() == Folded(old(Snapshot()), MeaningOf(line)) && ok == !MeaningOf(line).Bad?
    {
      if line[0] == '#' {
        comments := Inc(comments);
        return true;
      }
      if line[0] == '%' {
        directives := Inc(directives);
        ok := FoldDirective(line);
        return;
      }
      ok := FoldRecord(line);
    }

    method FoldRecord(line: string) returns (ok: bool)
      requires 0 < |line| < MAX_LINE && line[0] != '#' && line[0] != '%'
      modifies `records, `observed, `errors, `firstErrorLine, `lastError
      ensures Snapshot() == Folded(old(Snapshot()), MeaningOf(line)) && ok == !MeaningOf(line).Bad?
    {
      var r := ValidateRecord(line);
      if r.Rejected? {
        NoteError(r.why);
        return false;
      }
      records := Inc(records);
      observed := observed + PlaneMask(r.desc.start, r.desc.end);
      return true;
    }

    method FoldDirective(line: string) returns (ok: bool)
      modifies `version, `total, `planeMask, `errors, `firstErrorLine, `lastError, `sawManifest, `sawRecords
      ensures var m := DirectiveMeaning(line);
              && ok == !m.Bad?
              && errors == (if ok then old(errors) else Inc(old(errors)))
              && firstErrorLine == (if !ok && old(firstErrorLine) == 0 then lines else old(firstErrorLine))
              && lastError == (if !ok && old(firstErrorLine) == 0 then m.why else old(lastError))
              && Snapshot().header == FoldHeader(old(Snapshot().header), m)
    {
      var m := ReadDirective(line);
      match m {
        case Bad(why, _) =>
          NoteError(why);
        case Version(v) =>
          version := v;
          sawManifest := true;
        case Total(n) =>
          total := n;
          sawRecords := true;
        case Planes(p) =>
          planeMask := p;
        case _ =>
      }
      return !m.Bad?;
    }

    method End() returns (why: ScmsError)
      ensures why == EndVerdict(Snapshot())
    {
      if !sawManifest {
        return MissingHeader;
      }
      if records == 0 {
        return EmptyManifest;
      }
      if errors != 0 {
        return lastError;
      }
      if sawRecords && total != records {
        return CountMismatch;
      }
      return NoError;
    }

    method PlanesDeclared() returns (declared: bool)
      ensures declared <==> DeclaresPlanes(Snapshot())
    {
      if !sawManifest {
        return false;
      }
      return observed <= planeMask;
    }
  }

  // ----- What a run of the reader amounts to -----

  ghost function Count(ms: seq<Meaning>, n: nat, p: Meaning -> bool): (c: nat)
    requires n <= |ms|
    ensures c <= n && (c == 0 <==> forall i | 0 <= i < n :: !p(ms[i]))
  {
    if n == 0 then 0 else Count(ms, n - 1, p) + if p(ms[n - 1]) then 1 else 0
  }

  predicate IsBad(m: Meaning) { m.Bad? }

  predicate IsRange(m: Meaning) { m.Range? }

  predicate IsComment(m: Meaning) { m.Comment? }

  predicate IsVersion(m: Meaning) { m.Version? }

  predicate IsTotal(m: Meaning) { m.Total? }

  predicate IsPlanes(m: Meaning) { m.Planes? }

  /** The last of the first `n` lines that satisfies `p`, or -1. */
  ghost function Last(ms: seq<Meaning>, n: nat, p: Meaning -> bool): (i: int)
    requires n <= |ms|
    ensures -1 <= i < n && (i >= 0 ==> p(ms[i])) && forall k | i < k < n :: !p(ms[k])
  {
    if n == 0 then -1 else if p(ms[n - 1]) then n - 1 else Last(ms, n - 1, p)
  }

  ghost predicate CountersAre(c: Counters, ms: seq<Meaning>, n: nat)
    requires n <= |ms|
  {
    && c.lines == n && c.errors == Count(ms, n, IsBad) && c.records == Count(ms, n, IsRange)
    && c.comments == Count(ms, n, IsComment) && c.directives == Count(ms, n, IsDirectiveLine)
  }

  lemma CountNext(c: Counters, ms: seq<Meaning>, n: nat)
    requires 0 < n <= |ms| && n < COUNTER_SPAN && CountersAre(c, ms, n - 1)
    ensures CountersAre(Counted(c, ms[n - 1]), ms, n)
  {
    BumpOne(ms, n, IsBad);
    BumpOne(ms, n, IsRange);
    BumpOne(ms, n, IsComment);
    BumpOne(ms, n, IsDirectiveLine);
  }

  lemma BumpOne(ms: seq<Meaning>, n: nat, p: Meaning -> bool)
    requires 0 < n <= |ms| && n < COUNTER_SPAN
    ensures Count(ms, n, p) == if p(ms[n - 1]) then Inc(Count(ms, n - 1, p)) else Count(ms, n - 1, p)
  {
  }

  /** The counters count, as long as they do not wrap. */
  lemma {:induction false} CountersCount(ms: seq<Meaning>, n: nat)
    requires n <= |ms| && n < COUNTER_SPAN
    ensures CountersAre(After(ms, n).counters, ms, n)
  {
    if n > 0 {
      CountersCount(ms, n - 1);
      CountNext(After(ms, n - 1).counters, ms, n);
    }
  }

  ghost predicate HeaderIs(h: Header, ms: seq<Meaning>, n: nat)
    requires n <= |ms|
  {
    var v, t, p := Last(ms, n, IsVersion), Last(ms, n, IsTotal), Last(ms, n, IsPlanes);
    && h.sawManifest == (v >= 0) && (v >= 0 ==> ms[v] == Version(h.version))
    && h.sawRecords == (t >= 0) && (t >= 0 ==> ms[t] == Total(h.total))
    && (if p >= 0 then ms[p] == Planes(h.planes) else h.planes == {})
  }

  lemma HeaderNext(h: Header, ms: seq<Meaning>, n: nat)
    requires 0 < n <= |ms| && HeaderIs(h, ms, n - 1)
    ensures HeaderIs(FoldHeader(h, ms[n - 1]), ms, n)
  {
    LastNext(ms, n, IsVersion);
    LastNext(ms, n, IsTotal);
    LastNext(ms, n, IsPlanes);
  }

  lemma LastNext(ms: seq<Meaning>, n: nat, p: Meaning -> bool)
    requires 0 < n <= |ms|
    ensures Last(ms, n, p) == if p(ms[n - 1]) then n - 1 else Last(ms, n - 1, p)
  {
  }

  /** The header holds the values of the last directives of each kind that were accepted. */
  lemma {:induction false} HeaderHoldsLast(ms: seq<Meaning>, n: nat)
    requires n <= |ms|
    ensures HeaderIs(After(ms, n).header, ms, n)
  {
    if n > 0 {
      HeaderHoldsLast(ms, n - 1);
      HeaderNext(After(ms, n - 1).header, ms, n);
    }
  }

  /** `cp` lies in the range of a record that was accepted among the first `n` lines. */
  ghost predicate Covered(ms: seq<Meaning>, n: nat, cp: nat)
    requires n <= |ms|
  {
    exists i :: 0 <= i < n && ms[i].Range? && ms[i].start <= cp <= ms[i].end
  }

  ghost predicate Touched(ms: seq<Meaning>, n: nat, p: Plane)
    requires n <= |ms|
  {
    exists cp: nat :: Covered(ms, n, cp) && InPlane(cp, p)
  }

  /** The observed planes are those that some codepoint of some accepted record lies in. */
  lemma {:induction false} ObservedIsTouched(ms: seq<Meaning>, n: nat, p: Plane)
    requires n <= |ms|
    ensures p in After(ms, n).observed <==> Touched(ms, n, p)
  {
    if n > 0 {
      ObservedIsTouched(ms, n - 1, p);
      TouchedNext(ms, n, p);
    }
  }

  lemma TouchedNext(ms: seq<Meaning>, n: nat, p: Plane)
    requires 0 < n <= |ms|
    ensures Touched(ms, n, p) <==> Touched(ms, n - 1, p) || p in PlanesIn(ms[n - 1])
  {
    var m := ms[n - 1];
    if m.Range? {
      PlaneMaskPointwise(m.start, m.end, p);
    }
    forall cp: nat | Covered(ms, n - 1, cp) ensures Covered(ms, n, cp) {
    }
    if p in PlanesIn(m) {
      var cp: nat :| m.start <= cp <= m.end && InPlane(cp, p);
      assert Covered(ms, n, cp);
    }
  }

  /** The error that is kept is that of the first rejected line. */
  lemma {:induction false} FirstErrorKept(ms: seq<Meaning>, n: nat, i: nat)
    requires i < n <= |ms| && n < COUNTER_SPAN && ms[i].Bad? && forall k | 0 <= k < i :: !ms[k].Bad?
    ensures After(ms, n).firstErrorLine == i + 1 && After(ms, n).lastError == ms[i].why
    decreases n
  {
    LinesCounted(ms, n - 1);
    if i < n - 1 {
      FirstErrorKept(ms, n - 1, i);
    } else {
      NoErrorNoted(ms, n - 1);
    }
  }

  lemma LinesCounted(ms: seq<Meaning>, n: nat)
    requires n <= |ms| && n < COUNTER_SPAN
    ensures After(ms, n).counters.lines == n
  {
    CountersCount(ms, n);
  }

  lemma {:induction false} NoErrorNoted(ms: seq<Meaning>, n: nat)
    requires n <= |ms| && forall k | 0 <= k < n :: !ms[k].Bad?
    ensures After(ms, n).firstErrorLine == 0 && After(ms, n).lastError == NoError
  {
    if n > 0 {
      NoErrorNoted(ms, n - 1);
    }
  }

  ghost predicate Has(ms: seq<Meaning>, p: Meaning -> bool) {
    exists i :: 0 <= i < |ms| && p(ms[i])
  }

  /** Closing succeeds exactly when a %manifest directive and a record were accepted, no line was
      rejected, and the last accepted %records directive, if any, gives the number of records. */
  lemma EndSucceeds(ls: seq<string>, ms: seq<Meaning>)
    requires ms == Meanings(ls) && |ls| < COUNTER_SPAN
    ensures EndVerdict(After(ms, |ms|)) == NoError
            <==> && Has(ms, IsVersion) && Has(ms, IsRange) && !Has(ms, IsBad)
                 && var t := Last(ms, |ms|, IsTotal); t >= 0 ==> ms[t] == Total(Count(ms, |ms|, IsRange))
  {
    CountersCount(ms, |ms|);
    HeaderHoldsLast(ms, |ms|);
    if Has(ms, IsBad) {
      var i := FirstBad(ms, |ms|);
      FirstErrorKept(ms, |ms|, i);
    }
  }

  lemma {:induction false} FirstBad(ms: seq<Meaning>, n: nat) returns (i: nat)
    requires n <= |ms| && exists k :: 0 <= k < n && ms[k].Bad?
    ensures i < n && ms[i].Bad? && forall k | 0 <= k < i :: !ms[k].Bad?
  {
    if exists k :: 0 <= k < n - 1 && ms[k].Bad? {
      i := FirstBad(ms, n - 1);
    } else {
      i := n - 1;
    }
  }

  /** A manifest with a header and a record fails to close with the reason why its first rejected
      line was rejected. */
  lemma EndBlamesFirst(ls: seq<string>, ms: seq<Meaning>, i: nat)
    requires ms == Meanings(ls) && |ls| < COUNTER_SPAN
    requires i < |ls| && MeaningOf(ls[i]).Bad? && forall k | 0 <= k < i :: !MeaningOf(ls[k]).Bad?
    requires Has(ms, IsVersion) && Has(ms, IsRange)
    ensures EndVerdict(After(ms, |ms|)) == MeaningOf(ls[i]).why
  {
    CountersCount(ms, |ms|);
    HeaderHoldsLast(ms, |ms|);
    FirstErrorKept(ms, |ms|, i);
  }

  /** Without a %planes directive the planes count as declared exactly when there is a %manifest
      directive and no record was accepted; the header file says never. */
  lemma UndeclaredPlanes(ls: seq<string>, ms: seq<Meaning>)
    requires ms == Meanings(ls) && !Has(ms, IsPlanes)
    ensures DeclaresPlanes(After(ms, |ms|)) <==> Has(ms, IsVersion) && !Has(ms, IsRange)
  {
    HeaderHoldsLast(ms, |ms|);
    ObservedEmpty(ms, |ms|);
  }

  lemma HeaderMeans(line: string, name: string, gap: string, value: string)
    requires name == "manifest" && gap == " " && value == "1" && line == "%" + name + gap + value
    ensures MeaningOf(line) == Version(value)
  {
    DirectiveParts(line, name, gap, value);
  }

  /** Such a manifest: the header alone. */
  lemma HeaderAlone(ls: seq<string>, ms: seq<Meaning>)
    requires ls == ["%" + "manifest" + " " + "1"] && ms == Meanings(ls)
    ensures ms == [Version("1")] && !Has(ms, IsPlanes) && DeclaresPlanes(After(ms, |ms|))
  {
    HeaderMeans(ls[0], "manifest", " ", "1");
    assert IsVersion(ms[0]);
    UndeclaredPlanes(ls, ms);
  }

  lemma {:induction false} ObservedEmpty(ms: seq<Meaning>, n: nat)
    requires n <= |ms| && Sound(ms)
    ensures After(ms, n).observed == {} <==> forall i | 0 <= i < n :: !ms[i].Range?
  {
    if n > 0 {
      ObservedEmpty(ms, n - 1);
      if ms[n - 1].Range? {
        AdmissibleTouches(ms[n - 1].start, ms[n - 1].end);
      }
    }
  }
}
