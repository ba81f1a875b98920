/** Record lines of the manifest reader: validation, column access, and the printer they invert. */
module ManifestRecords {
  import opened Options
  import opened ManifestRanges
  import opened ManifestFields

  const MAX_LINE: nat := 128
  const COLUMNS: nat := 6
  const RADICAL_MAX: nat := 214
  const STROKES_MAX: nat := 255
  const FLAGS_MAX: nat := 0xFFFF

  datatype ScmsError =
    | NoError | LineTooLong | EmptyField | BadFieldCount | BadCodepoint | Inadmissible | RangeOrder | RangeTooWide
    | BadRadical | BadStrokes | BadFlags | BadWeight | BadDirective | MissingHeader | CountMismatch | EmptyManifest

  datatype Descriptor = Descriptor(start: nat, end: nat, fieldCount: nat, aligned: bool)

  datatype Checked = Accepted(desc: Descriptor) | Rejected(why: ScmsError)

  datatype Value = Found(value: nat) | Missing(why: ScmsError)

  function ColumnValue(k: nat, f: string): (r: Option<nat>)
    ensures r.Some? ==> f != ""
  {
    match k
    case 0 | 1 => DecodeCp(f)
    case 2 => DecodeDec(f, RADICAL_MAX)
    case 3 => DecodeDec(f, STROKES_MAX)
    case 4 => DecodeHex(f, FLAGS_MAX)
    case _ => DecodeDec(f, UINT32_MAX)
  }

  function ColumnError(k: nat): ScmsError {
    match k
    case 0 | 1 => BadCodepoint
    case 2 => BadRadical
    case 3 => BadStrokes
    case 4 => BadFlags
    case _ => BadWeight
  }

  /** The first thing that is wrong with the columns from `k` on. */
  function CheckColumns(fields: seq<string>, k: nat): ScmsError
    requires k <= COLUMNS
    decreases COLUMNS - k
  {
    if k == COLUMNS then (if |fields| > COLUMNS then BadFieldCount else NoError)
    else if k >= |fields| then BadFieldCount
    else if fields[k] == "" then EmptyField
    else if ColumnValue(k, fields[k]).None? then ColumnError(k)
    else CheckColumns(fields, k + 1)
  }

  function CheckRange(start: nat, end: nat): ScmsError {
    if start > end then RangeOrder
    else if !CodepointAdmissible(start) || !CodepointAdmissible(end) then Inadmissible
    else if (start <= SCP_MAX && end >= SCP_MIN) || (start <= TRAP_MAX && end >= TRAP_MIN) then Inadmissible
    else if end - start > RANGE_MAX_SPAN then RangeTooWide
    else NoError
  }

  lemma {:induction false} ColumnsChecked(fields: seq<string>, k: nat)
    requires k <= COLUMNS
    ensures CheckColumns(fields, k) == NoError
            <==> (if k < COLUMNS then |fields| == COLUMNS else |fields| <= COLUMNS)
                 && forall j | k <= j < COLUMNS :: ColumnValue(j, fields[j]).Some?
    decreases COLUMNS - k
  {
    if k < COLUMNS && k < |fields| {
      ColumnsChecked(fields, k + 1);
    }
  }

  /** What validation makes of a line. */
  function Validated(line: string): Checked {
    if |line| >= MAX_LINE then Rejected(LineTooLong)
    else if line == "" || line[0] == '#' || line[0] == '%' then Rejected(BadFieldCount)
    else
      var fields := Fields(line);
      var why := CheckColumns(fields, 0);
      if why != NoError then Rejected(why) else RangeChecked(fields)
  }

  function RangeChecked(fields: seq<string>): Checked
    requires CheckColumns(fields, 0) == NoError
  {
    ColumnsChecked(fields, 0);
    var start, end := DecodeCp(fields[0]).value, DecodeCp(fields[1]).value;
    if CheckRange(start, end) != NoError then Rejected(CheckRange(start, end))
    else Accepted(Descriptor(start, end, COLUMNS, start == end))
  }

  // ----- Validation as it runs -----

  method ReadColumn(k: nat, f: string) returns (r: Option<nat>)
    requires k < COLUMNS
    ensures r == ColumnValue(k, f)
  {
    match k {
      case 0 | 1 => r := ReadCp(f);
      case 2 => r := ReadDec(f, RADICAL_MAX);
      case 3 => r := ReadDec(f, STROKES_MAX);
      case 4 => r := ReadFlags(f, FLAGS_MAX);
      case _ => r := ReadDec(f, UINT32_MAX);
    }
  }

  /** Checks column `k`, which begins at `pos`. */
  method Column(line: string, pos: nat, k: nat, ghost fields: seq<string>)
    returns (why: ScmsError, value: nat, next: nat)
    requires pos <= |line| && k < COLUMNS && k <= |fields| && Fields(line[pos..]) == fields[k..]
    ensures why != NoError ==> CheckColumns(fields, k) == why
    ensures why == NoError ==>
              && k < |fields| && next <= |line| && Fields(line[next..]) == fields[k + 1..]
              && CheckColumns(fields, k) == CheckColumns(fields, k + 1)
              && ColumnValue(k, fields[k]) == Some(value)
  {
    value := 0;
    var found, end, after := NextField(line, pos);
    next := after;
    if !found {
      return BadFieldCount, 0, next;
    }
    assert fields[k..][0] == fields[k] && fields[k..][1..] == fields[k + 1..];
    if end == pos {
      return EmptyField, 0, next;
    }
    var r := ReadColumn(k, line[pos..end]);
    if r.None? {
      return ColumnError(k), 0, next;
    }
    return NoError, r.value, next;
  }

  /** The two columns that bound the range. */
  method Bounds(line: string, ghost fields: seq<string>) returns (why: ScmsError, start: nat, end: nat, next: nat)
    requires fields == Fields(line)
    ensures why != NoError ==> CheckColumns(fields, 0) == why
    ensures why == NoError ==>
              && 2 <= |fields| && next <= |line| && Fields(line[next..]) == fields[2..]
              && CheckColumns(fields, 0) == CheckColumns(fields, 2)
              && DecodeCp(fields[0]) == Some(start) && DecodeCp(fields[1]) == Some(end)
  {
    assert line[0..] == line && fields[0..] == fields;
    end := 0;
    why, start, next := Column(line, 0, 0, fields);
    if why == NoError {
      why, end, next := Column(line, next, 1, fields);
    }
  }

  /** The columns after them. */
  method OtherColumns(line: string, pos: nat, ghost fields: seq<string>) returns (why: ScmsError, next: nat)
    requires pos <= |line| && 2 <= |fields| && Fields(line[pos..]) == fields[2..]
    ensures why != NoError ==> CheckColumns(fields, 2) == why
    ensures why == NoError ==>
              && COLUMNS <= |fields| && next <= |line| && Fields(line[next..]) == fields[COLUMNS..]
              && CheckColumns(fields, 2) == CheckColumns(fields, COLUMNS)
  {
    var value: nat;
    why, value, next := Column(line, pos, 2, fields);
    if why != NoError { return; }
    why, value, next := Column(line, next, 3, fields);
    if why != NoError { return; }
    why, value, next := Column(line, next, 4, fields);
    if why != NoError { return; }
    why, value, next := Column(line, next, 5, fields);
  }

  method ValidateRecord(line: string) returns (r: Checked)
    ensures r == Validated(line)
  {
    if |line| >= MAX_LINE {
      return Rejected(LineTooLong);
    }
    if |line| == 0 || line[0] == '#' || line[0] == '%' {
      return Rejected(BadFieldCount);
    }
    ghost var fields := Fields(line);
    var why, start, end, pos := Bounds(line, fields);
    if why != NoError { return Rejected(why); }
    why, pos := OtherColumns(line, pos, fields);
    if why != NoError { return Rejected(why); }
    assert Fields(line[pos..]) != [] <==> pos < |line|;
    if pos < |line| {
      return Rejected(BadFieldCount);
    }
    if CheckRange(start, end) != NoError {
      return Rejected(CheckRange(start, end));
    }
    return Accepted(Descriptor(start, end, COLUMNS, start == end));
  }

  // ----- Column access -----

  function FieldAt(line: string, index: nat): Value {
    if |line| >= MAX_LINE then Missing(LineTooLong)
    else if index >= COLUMNS then Missing(BadFieldCount)
    else if index >= |Fields(line)| then Missing(BadFieldCount)
    else if ColumnValue(index, Fields(line)[index]).None? then Missing(BadCodepoint)
    else Found(ColumnValue(index, Fields(line)[index]).value)
  }

  method ReadFieldAt(line: string, index: nat) returns (r: Value)
    ensures r == FieldAt(line, index)
  {
    if |line| >= MAX_LINE {
      return Missing(LineTooLong);
    }
    if index >= COLUMNS {
      return Missing(BadFieldCount);
    }
    ghost var fields := Fields(line);
    assert line[0..] == line && fields[0..] == fields;
    var n: nat, pos: nat := 0, 0;
    var found, end, next := NextField(line, pos);
    while found
      invariant n <= index && n <= |fields| && pos <= |line|
      invariant Fields(line[pos..]) == fields[n..]
      invariant found <==> pos < |line|
      invariant found ==> pos <= end <= next <= |line| && fields[n..] == [line[pos..end]] + Fields(line[next..])
      invariant !found ==> fields[n..] == []
      decreases |fields| - n
    {
      assert fields[n..][0] == fields[n] && fields[n..][1..] == fields[n + 1..];
      if n == index {
        var v := ReadColumn(index, line[pos..end]);
        return if v.None? then Missing(BadCodepoint) else Found(v.value);
      }
      n := n + 1;
      pos := next;
      found, end, next := NextField(line, pos);
    }
    return Missing(BadFieldCount);
  }

  /** Validation and column access agree: a line is a valid record exactly when it fits, its six
      columns can all be read, there is no seventh, and the range they give is admissible; the
      descriptor then holds the first two columns. */
  lemma ValidationMatchesColumns(line: string)
    ensures Validated(line).Accepted?
            <==> && |line| < MAX_LINE && |Fields(line)| == COLUMNS
                 && (forall k | 0 <= k < COLUMNS :: FieldAt(line, k).Found?)
                 && RangeAdmissible(FieldAt(line, 0).value, FieldAt(line, 1).value)
    ensures Validated(line).Accepted? ==>
              && FieldAt(line, 0) == Found(Validated(line).desc.start)
              && FieldAt(line, 1) == Found(Validated(line).desc.end)
  {
    var fields := Fields(line);
    ColumnsChecked(fields, 0);
    FoundColumns(line, fields);
    if |fields| > 0 && DecodeCp(fields[0]).Some? {
      FirstCharacter(line);
    }
  }

  lemma FoundColumns(line: string, fields: seq<string>)
    requires fields == Fields(line)
    ensures (forall k | 0 <= k < COLUMNS :: FieldAt(line, k).Found?)
            <==> |line| < MAX_LINE && |fields| >= COLUMNS
                 && forall k | 0 <= k < COLUMNS :: ColumnValue(k, fields[k]).Some?
  {
    if forall k | 0 <= k < COLUMNS :: FieldAt(line, k).Found? {
      assert FieldAt(line, 5).Found?;
      forall k | 0 <= k < COLUMNS ensures ColumnValue(k, fields[k]).Some? {
        assert FieldAt(line, k).Found?;
      }
    }
  }

  lemma FirstCharacter(line: string)
    requires |Fields(line)| > 0 && Fields(line)[0] != ""
    ensures line != "" && line[0] == Fields(line)[0][0]
  {
  }

  // ----- The grammar -----

  /** Six fields without tabs, each in the form of its column. */
  predicate WellFormed(fs: seq<string>) {
    |fs| == COLUMNS && forall k | 0 <= k < COLUMNS :: TabFree(fs[k]) && ColumnValue(k, fs[k]).Some?
  }

  predicate IsRecord(line: string, fs: seq<string>) {
    && |line| < MAX_LINE && WellFormed(fs)
    && (line == Join(fs) || line == Join(fs) + "\t")
    && RangeAdmissible(ColumnValue(0, fs[0]).value, ColumnValue(1, fs[1]).value)
  }

  /** The exact grammar: a line is accepted exactly when it is shorter than 128 characters and
      consists of six well-formed fields with an admissible range, separated by single tabs and
      followed by nothing or by one more tab. */
  lemma GrammarExact(line: string)
    ensures Validated(line).Accepted? <==> exists fs: seq<string> :: IsRecord(line, fs)
  {
    ValidationMatchesColumns(line);
    if Validated(line).Accepted? {
      JoinOfFields(line, Fields(line));
      forall k | 0 <= k < COLUMNS ensures ColumnValue(k, Fields(line)[k]).Some? {
        assert FieldAt(line, k).Found?;
      }
      assert IsRecord(line, Fields(line));
    }
    forall fs: seq<string> | IsRecord(line, fs) ensures Validated(line).Accepted? {
      RecordFields(line, fs);
    }
  }

  lemma RecordFields(line: string, fs: seq<string>)
    requires IsRecord(line, fs)
    ensures Fields(line) == fs && Validated(line).Accepted?
  {
    FieldsOfJoin(fs, "");
    FieldsOfJoin(fs, "\t");
    assert Join(fs) + "" == Join(fs);
    forall k | 0 <= k < COLUMNS ensures FieldAt(line, k) == Found(ColumnValue(k, fs[k]).value) {
    }
    ValidationMatchesColumns(line);
  }

  /** One tab after the last column changes nothing, as long as the line still fits. */
  lemma TrailingTab(line: string)
    requires Validated(line).Accepted? && line[|line| - 1] != '\t' && |line| + 1 < MAX_LINE
    ensures Validated(line + "\t") == Validated(line)
  {
    ValidationMatchesColumns(line);
    JoinOfFields(line, Fields(line));
    forall k | 0 <= k < COLUMNS ensures ColumnValue(k, Fields(line)[k]).Some? {
      assert FieldAt(line, k).Found?;
    }
    RecordFields(line + "\t", Fields(line));
  }

  // ----- The printer -----

  function Columns(start: nat, end: nat, radical: nat, strokes: nat, flags: nat, weight: nat): seq<string> {
    [PrintCp(start), PrintCp(end), Dec(radical), Dec(strokes), PrintFlags(flags), Dec(weight)]
  }

  function PrintRecord(start: nat, end: nat, radical: nat, strokes: nat, flags: nat, weight: nat): string {
    Join(Columns(start, end, radical, strokes, flags, weight))
  }

  lemma {:induction false} JoinLength(fs: seq<string>)
    requires fs != [] && forall i | 0 <= i < |fs| :: |fs[i]| <= 10
    ensures |Join(fs)| <= 11 * |fs|
  {
    if |fs| > 1 {
      JoinLength(fs[1..]);
    }
  }

  /** Field `f` reads as `v` in column `k`. */
  predicate Reads(k: nat, f: string, v: nat) {
    TabFree(f) && |f| <= 10 && ColumnValue(k, f) == Some(v)
  }

  lemma CpReads(k: nat, v: nat)
    requires k <= 1 && v <= UINT32_MAX
    ensures Reads(k, PrintCp(v), v)
  {
    CpInverse(v);
  }

  lemma DecReads(k: nat, f: string, max: nat, v: nat)
    requires (k == 2 && max == RADICAL_MAX) || (k == 3 && max == STROKES_MAX) || (k == 5 && max == UINT32_MAX)
    requires DecodeDec(f, max) == Some(v) && |f| <= 10 && TabFree(f)
    ensures Reads(k, f, v)
  {
  }

  lemma FlagsRead(v: nat)
    requires v <= FLAGS_MAX
    ensures Reads(4, PrintFlags(v), v)
  {
    FlagsInverse(v, FLAGS_MAX);
  }

  /** A line of six fields that read as `values` is a valid record when the range is admissible. */
  lemma ReadsBack(fs: seq<string>, values: seq<nat>)
    requires |fs| == |values| == COLUMNS && forall k | 0 <= k < COLUMNS :: Reads(k, fs[k], values[k])
    requires RangeAdmissible(values[0], values[1])
    ensures var line := Join(fs);
            && Validated(line) == Accepted(Descriptor(values[0], values[1], COLUMNS, values[0] == values[1]))
            && forall k | 0 <= k < COLUMNS :: FieldAt(line, k) == Found(values[k])
  {
    var line := Join(fs);
    JoinLength(fs);
    assert Reads(0, fs[0], values[0]) && Reads(1, fs[1], values[1]);
    RecordFields(line, fs);
    ValidationMatchesColumns(line);
  }

  lemma DecimalRead(k: nat, max: nat, v: nat)
    requires (k == 2 && max == RADICAL_MAX) || (k == 3 && max == STROKES_MAX) || (k == 5 && max == UINT32_MAX)
    requires v <= max
    ensures Reads(k, Dec(v), v)
  {
    DecimalInverse(v, max);
    DecReads(k, Dec(v), max, v);
  }

  lemma ColumnsRead(start: nat, end: nat, radical: nat, strokes: nat, flags: nat, weight: nat)
    requires RangeAdmissible(start, end) && radical <= RADICAL_MAX && strokes <= STROKES_MAX
    requires flags <= FLAGS_MAX && weight <= UINT32_MAX
    ensures Reads(0, PrintCp(start), start) && Reads(1, PrintCp(end), end)
    ensures Reads(2, Dec(radical), radical) && Reads(3, Dec(strokes), strokes)
    ensures Reads(4, PrintFlags(flags), flags) && Reads(5, Dec(weight), weight)
  {
    CpReads(0, start);
    CpReads(1, end);
    DecimalRead(2, RADICAL_MAX, radical);
    DecimalRead(3, STROKES_MAX, strokes);
    FlagsRead(flags);
    DecimalRead(5, UINT32_MAX, weight);
  }

  /** The reader undoes the printer: a printed line is a valid record with its range, and each of
      the six columns reads back as the number that was printed. */
  lemma PrintedRecordReadsBack(start: nat, end: nat, radical: nat, strokes: nat, flags: nat, weight: nat)
    requires RangeAdmissible(start, end) && radical <= RADICAL_MAX && strokes <= STROKES_MAX
    requires flags <= FLAGS_MAX && weight <= UINT32_MAX
    ensures var line := PrintRecord(start, end, radical, strokes, flags, weight);
            var values := [start, end, radical, strokes, flags, weight];
            && Validated(line) == Accepted(Descriptor(start, end, COLUMNS, start == end))
            && forall k | 0 <= k < COLUMNS :: FieldAt(line, k) == Found(values[k])
  {
    ColumnsRead(start, end, radical, strokes, flags, weight);
    ReadsBack(Columns(start, end, radical, strokes, flags, weight), [start, end, radical, strokes, flags, weight]);
  }

  lemma HexHan()
    ensures Hex(0x4E00) == "4E00"
  {
    assert Hex(0x4) == "4";
    assert Hex(0x4E) == "4E";
    assert Hex(0x4E0) == "4E0";
  }

  lemma HanPrinted()
    ensures PrintCp(0x4E00) == "U+4E00"
  {
    HexHan();
    assert "U+" + "4E00" == "U+4E00";
  }

  lemma SmallPrinted()
    ensures Dec(1) == "1" && Dec(0) == "0" && PrintFlags(0) == "0x0"
  {
    assert Hex(0) == "0";
  }

  lemma JoinSix(a: string, b: string, c: string, d: string, e: string, f: string)
    ensures Join([a, b, c, d, e, f])
            == a + "\t" + b + "\t" + c + "\t" + d + "\t" + e + "\t" + f
  {
    var fs := [a, b, c, d, e, f];
    assert fs[1..] == [b, c, d, e, f] && fs[2..] == [c, d, e, f] && fs[3..] == [d, e, f];
    assert Join([f]) == f && Join([e, f]) == e + "\t" + f;
    assert Join([d, e, f]) == d + "\t" + Join([e, f]);
    assert Join([c, d, e, f]) == c + "\t" + Join([d, e, f]);
    assert Join([b, c, d, e, f]) == b + "\t" + Join([c, d, e, f]);
  }

  lemma ReadsBackWithTab(fs: seq<string>, values: seq<nat>, line: string)
    requires |fs| == |values| == COLUMNS && forall k | 0 <= k < COLUMNS :: Reads(k, fs[k], values[k])
    requires RangeAdmissible(values[0], values[1]) && line == Join(fs) + "\t"
    ensures Validated(line) == Accepted(Descriptor(values[0], values[1], COLUMNS, values[0] == values[1]))
  {
    JoinLength(fs);
    assert Reads(0, fs[0], values[0]) && Reads(1, fs[1], values[1]);
    RecordFields(line, fs);
    ValidationMatchesColumns(line);
  }

  /** A printed record and one more tab. */
  lemma PrintedWithTab(start: nat, end: nat, radical: nat, strokes: nat, flags: nat, weight: nat, line: string)
    requires RangeAdmissible(start, end) && radical <= RADICAL_MAX && strokes <= STROKES_MAX
    requires flags <= FLAGS_MAX && weight <= UINT32_MAX
    requires line == PrintRecord(start, end, radical, strokes, flags, weight) + "\t"
    ensures Validated(line) == Accepted(Descriptor(start, end, COLUMNS, start == end))
  {
    ColumnsRead(start, end, radical, strokes, flags, weight);
    var values := [start, end, radical, strokes, flags, weight];
    ReadsBackWithTab(Columns(start, end, radical, strokes, flags, weight), values, line);
  }

  /** A line that ends in a tab and is accepted nevertheless: its columns are U+4E00, U+4E00, 1, 0, 0x0, 1. */
  lemma TabAccepted(han: string, one: string, zero: string, flags: string, line: string)
    requires han == "U+4E00" && one == "1" && zero == "0" && flags == "0x0"
    requires line == han + "\t" + han + "\t" + one + "\t" + zero + "\t" + flags + "\t" + one + "\t"
    ensures Validated(line) == Accepted(Descriptor(0x4E00, 0x4E00, COLUMNS, true))
  {
    HanPrinted();
    SmallPrinted();
    JoinSix(han, han, one, zero, flags, one);
    PrintedWithTab(0x4E00, 0x4E00, 1, 0, 0, 1, line);
  }
}
