/**
  The verdicts of the manifest reader one by one: which fault of a record line is named, what each
  directive is taken for, and how closing a manifest fails.
 */
module ManifestVerdicts {
  import opened Options
  import opened ManifestRanges
  import opened ManifestFields
  import opened ManifestDigits
  import opened ManifestRecords
  import opened ManifestDirectives
  import opened ManifestReader

  // ----- Columns -----

  predicate Decimal(f: string, max: nat, v: nat) {
    1 <= |f| <= 10 && v < Power(10, |f|) && f == PaddedDec(v, |f|) && v <= max
  }

  /** What may stand in column `k`, and for which number. */
  predicate ColumnForm(k: nat, f: string, v: nat) {
    match k
    case 0 | 1 => Writes(f, {'U', 'u'}, {'+'}, 8, v)
    case 2 => Decimal(f, 214, v)
    case 3 => Decimal(f, 255, v)
    case 4 => Writes(f, {'0'}, {'x', 'X'}, 4, v)
    case _ => Decimal(f, 0xFFFF_FFFF, v)
  }

  lemma ColumnExactly(k: nat, f: string, v: nat)
    ensures ColumnValue(k, f) == Some(v) <==> ColumnForm(k, f, v)
  {
    match k
    case 0 | 1 =>
      CpExactly(f, v);
    case 2 =>
      DecimalExactly(f, 214, v);
    case 3 =>
      DecimalExactly(f, 255, v);
    case 4 =>
      FlagsExactly(f, 0xFFFF, v);
      if Writes(f, {'0'}, {'x', 'X'}, 4, v) {
        FourDigits(f, v);
      }
    case _ =>
      DecimalExactly(f, 0xFFFF_FFFF, v);
  }

  lemma FourDigits(f: string, v: nat)
    requires Writes(f, {'0'}, {'x', 'X'}, 4, v)
    ensures v <= 0xFFFF
  {
    Powers();
    PowerGrows(|f| - 2, 4);
  }

  lemma {:induction false} PowerGrows(a: nat, b: nat)
    requires a <= b
    ensures Power(16, a) <= Power(16, b)
    decreases b
  {
    if a < b {
      PowerGrows(a, b - 1);
    }
  }

  // ----- The first fault of a record line -----

  predicate IsRecordLine(line: string) {
    0 < |line| < 128 && line[0] != '#' && line[0] != '%'
  }

  /** The first `k` columns hold what they may hold. */
  ghost predicate GoodColumns(fields: seq<string>, k: nat) {
    k <= |fields| && forall j: nat | j < k :: GoodColumn(j, fields[j])
  }

  ghost predicate GoodColumn(k: nat, f: string) {
    exists v :: ColumnForm(k, f, v)
  }

  lemma GoodIsRead(k: nat, f: string)
    ensures GoodColumn(k, f) <==> ColumnValue(k, f).Some?
  {
    if v :| ColumnForm(k, f, v) {
      ColumnExactly(k, f, v);
    }
    if ColumnValue(k, f).Some? {
      ColumnExactly(k, f, ColumnValue(k, f).value);
    }
  }

  lemma {:induction false} ChecksFrom(fields: seq<string>, k: nat)
    requires k <= COLUMNS && GoodColumns(fields, k)
    ensures CheckColumns(fields, 0) == CheckColumns(fields, k)
  {
    if k > 0 {
      assert GoodColumns(fields, k - 1);
      ChecksFrom(fields, k - 1);
      GoodIsRead(k - 1, fields[k - 1]);
    }
  }

  const FAULTS: seq<ScmsError> := [BadCodepoint, BadCodepoint, BadRadical, BadStrokes, BadFlags, BadWeight]

  /** With `k` good columns the next one decides: it is missing, empty, or malformed in its own way. */
  lemma FirstFault(line: string, fields: seq<string>, k: nat)
    requires IsRecordLine(line) && fields == Fields(line) && k < 6 && GoodColumns(fields, k)
    ensures k == |fields| ==> Validated(line) == Rejected(BadFieldCount)
    ensures k < |fields| && fields[k] == "" ==> Validated(line) == Rejected(EmptyField)
    ensures k < |fields| && fields[k] != "" && !GoodColumn(k, fields[k]) ==>
              Validated(line) == Rejected(FAULTS[k])
  {
    ChecksFrom(fields, k);
    if k < |fields| {
      GoodIsRead(k, fields[k]);
    }
  }

  /** With six good columns a seventh is a fault, and then the range is looked at: its order, its codepoints,
      its width. */
  lemma RangeFault(line: string, fields: seq<string>, start: nat, end: nat)
    requires IsRecordLine(line) && fields == Fields(line) && GoodColumns(fields, 6)
    requires ColumnForm(0, fields[0], start) && ColumnForm(1, fields[1], end)
    ensures Validated(line)
            == if |fields| > 6 then Rejected(BadFieldCount)
               else if start > end then Rejected(RangeOrder)
               else if exists cp: nat :: start <= cp <= end && !IsData(cp) then Rejected(Inadmissible)
               else if end - start >= 0x110000 then Rejected(RangeTooWide)
               else Accepted(Descriptor(start, end, 6, start == end))
  {
    ChecksFrom(fields, 6);
    ColumnExactly(0, fields[0], start);
    ColumnExactly(1, fields[1], end);
    if start <= end {
      HoldsNoData(start, end);
    }
  }

  lemma HoldsNoData(start: nat, end: nat)
    requires start <= end
    ensures (exists cp: nat :: start <= cp <= end && !IsData(cp)) <==> CheckRange(start, end) == Inadmissible
  {
    if CheckRange(start, end) == Inadmissible {
      var cp := if !IsData(start) then start else if !IsData(end) then end
                else if start <= SCP_MAX && end >= SCP_MIN then SCP_MIN else TRAP_MIN;
      assert start <= cp <= end && !IsData(cp);
    }
  }

  lemma NoRecord(line: string)
    ensures |line| >= 128 ==> Validated(line) == Rejected(LineTooLong)
    ensures |line| < 128 && !IsRecordLine(line) ==> Validated(line) == Rejected(BadFieldCount)
  {
  }

  /** Reading one column: the number it holds, or why there is none.  A malformed column of any kind is
      reported as a bad codepoint. */
  lemma FieldExactly(line: string, fields: seq<string>, k: nat, v: nat)
    requires fields == Fields(line)
    ensures FieldAt(line, k) == Found(v) <==> |line| < 128 && k < 6 && k < |fields| && ColumnForm(k, fields[k], v)
    ensures FieldAt(line, k) == Missing(LineTooLong) <==> |line| >= 128
    ensures FieldAt(line, k) == Missing(BadFieldCount) <==> |line| < 128 && (k >= 6 || k >= |fields|)
    ensures FieldAt(line, k) == Missing(BadCodepoint)
            <==> |line| < 128 && k < 6 && k < |fields| && !GoodColumn(k, fields[k])
  {
    if k < |fields| {
      ColumnExactly(k, fields[k], v);
      GoodIsRead(k, fields[k]);
    }
  }

  // ----- Lines -----

  /** The kinds of line that need no decoding. */
  lemma OtherLines(line: string)
    ensures MeaningOf(line) == Bad(LineTooLong, false) <==> |line| >= 128
    ensures MeaningOf(line) == Blank <==> line == ""
    ensures MeaningOf(line) == Comment <==> 0 < |line| < 128 && line[0] == '#'
  {
  }

  /** A record line counts for the range of its first two columns, or is rejected for its fault. */
  lemma RecordLine(line: string)
    requires IsRecordLine(line)
    ensures match Validated(line)
            case Accepted(d) => MeaningOf(line) == Range(d.start, d.end)
            case Rejected(why) => MeaningOf(line) == Bad(why, false)
  {
  }

  // ----- Directives -----

  /** The bits of a set of planes. */
  function Mask(planes: set<Plane>): nat {
    (if Bridge in planes then 1 else 0) + (if Scp in planes then 2 else 0)
    + (if Native in planes then 4 else 0) + (if Rnur in planes then 8 else 0)
  }

  lemma MaskOfPlanes(v: nat)
    requires v < 16
    ensures Mask(PlanesOf(v)) == v
  {
  }

  lemma PlanesOfMask(planes: set<Plane>)
    ensures Mask(planes) < 16 && PlanesOf(Mask(planes)) == planes
  {
    var m := Mask(planes);
    assert m % 2 == 1 <==> Bridge in planes;
    assert m / 2 % 2 == 1 <==> Scp in planes;
    assert m / 4 % 2 == 1 <==> Native in planes;
    assert m / 8 % 2 == 1 <==> Rnur in planes;
    forall p: Plane ensures p in PlanesOf(m) <==> p in planes {
      match p
      case Bridge =>
      case Scp =>
      case Native =>
      case Rnur =>
    }
  }

  /** A version is any value. */
  lemma VersionLine(line: string, name: string, gap: string, value: string)
    requires IsDirective(line, name, gap, value) && name == "manifest"
    ensures MeaningOf(line) == Version(value)
  {
    DirectiveParts(line, name, gap, value);
  }

  /** A total is a decimal number of 32 bits. */
  lemma TotalLine(line: string, name: string, gap: string, value: string, v: nat)
    requires IsDirective(line, name, gap, value) && name == "records"
    ensures MeaningOf(line) == Total(v) <==> Decimal(value, 0xFFFF_FFFF, v)
    ensures MeaningOf(line).Total? || MeaningOf(line) == Bad(BadDirective, true)
  {
    DirectiveParts(line, name, gap, value);
    DecimalExactly(value, 0xFFFF_FFFF, v);
  }

  /** Planes are declared by a hexadecimal word whose four bits stand for them. */
  lemma PlanesLine(line: string, name: string, gap: string, value: string, planes: set<Plane>)
    requires IsDirective(line, name, gap, value) && name == "planes"
    ensures MeaningOf(line) == Planes(planes) <==> Writes(value, {'0'}, {'x', 'X'}, 4, Mask(planes))
    ensures MeaningOf(line).Planes? || MeaningOf(line) == Bad(BadDirective, true)
  {
    DirectiveParts(line, name, gap, value);
    FlagsExactly(value, 15, Mask(planes));
    PlanesOfMask(planes);
    if DecodeHex(value, 15).Some? {
      MaskOfPlanes(DecodeHex(value, 15).value);
    }
  }

  /** Any other well-formed directive is ignored, and a malformed one is rejected. */
  lemma ReservedLine(line: string, name: string, gap: string, value: string)
    requires IsDirective(line, name, gap, value) && name !in {"manifest", "records", "planes"}
    ensures MeaningOf(line) == Reserved
  {
    DirectiveParts(line, name, gap, value);
  }

  lemma MalformedDirective(line: string)
    requires 0 < |line| < 128 && line[0] == '%'
    requires !exists name: string, gap: string, value: string :: IsDirective(line, name, gap, value)
    ensures MeaningOf(line) == Bad(BadDirective, true)
  {
    DirectiveExact(line);
  }

  // ----- Closing -----

  /** How closing fails: without a header, without a record, with the first error, and with a wrong total. */
  lemma EndFails(ls: seq<string>, ms: seq<Meaning>)
    requires ms == Meanings(ls) && |ls| < COUNTER_SPAN
    ensures EndVerdict(After(ms, |ms|)) == MissingHeader <==> !Has(ms, IsVersion)
    ensures EndVerdict(After(ms, |ms|)) == EmptyManifest <==> Has(ms, IsVersion) && !Has(ms, IsRange)
    ensures Has(ms, IsVersion) && Has(ms, IsRange) && !Has(ms, IsBad) ==>
              (EndVerdict(After(ms, |ms|)) == CountMismatch
               <==> var t := Last(ms, |ms|, IsTotal); t >= 0 && ms[t] != Total(Count(ms, |ms|, IsRange)))
  {
    CountersCount(ms, |ms|);
    HeaderHoldsLast(ms, |ms|);
    if Has(ms, IsBad) {
      var i := FirstBad(ms, |ms|);
      FirstErrorKept(ms, |ms|, i);
      LineErrors(ls[i]);
    }
  }

  /** No line by itself is rejected with a verdict of closing. */
  lemma LineErrors(line: string)
    ensures MeaningOf(line).Bad? ==> MeaningOf(line).why !in {NoError, MissingHeader, EmptyManifest, CountMismatch}
  {
    ColumnErrors(Fields(line), 0);
  }

  lemma {:induction false} ColumnErrors(fields: seq<string>, k: nat)
    requires k <= COLUMNS
    ensures CheckColumns(fields, k) !in {MissingHeader, EmptyManifest, CountMismatch}
    decreases COLUMNS - k
  {
    if k < COLUMNS {
      ColumnErrors(fields, k + 1);
    }
  }
}
