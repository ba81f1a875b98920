/**
  The bounded field decoders of the manifest reader, the walk over tab-delimited fields, and the
  printers that the decoders invert.
 */
module ManifestFields {
  import opened Options

  const CODEPOINT_HEX_MAX: nat := 8
  const FLAGS_HEX_MAX: nat := 4
  const DECIMAL_MAX: nat := 10
  const UINT32_MAX: nat := 0xFFFF_FFFF

  // ----- Digits -----

  function HexDigit(c: char): (d: int)
    ensures -1 <= d < 16
  {
    if '0' <= c <= '9' then c as int - '0' as int
    else if 'a' <= c <= 'f' then c as int - 'a' as int + 10
    else if 'A' <= c <= 'F' then c as int - 'A' as int + 10
    else -1
  }

  predicate IsDec(c: char) {
    '0' <= c <= '9'
  }

  predicate AllHex(s: string) {
    forall i | 0 <= i < |s| :: HexDigit(s[i]) >= 0
  }

  predicate AllDec(s: string) {
    forall i | 0 <= i < |s| :: IsDec(s[i])
  }

  function HexValue(s: string): nat
    requires AllHex(s)
  {
    if s == "" then 0 else HexValue(s[..|s| - 1]) * 16 + HexDigit(s[|s| - 1])
  }

  function DecValue(s: string): nat
    requires AllDec(s)
  {
    if s == "" then 0 else DecValue(s[..|s| - 1]) * 10 + (s[|s| - 1] as int - '0' as int)
  }

  // ----- Decoders -----

  function DecodeCp(f: string): Option<nat> {
    if |f| < 3 || |f| - 2 > CODEPOINT_HEX_MAX then None
    else if f[0] !in {'U', 'u'} || f[1] != '+' || !AllHex(f[2..]) then None
    else Some(HexValue(f[2..]))
  }

  function DecodeHex(f: string, max: nat): Option<nat> {
    if |f| < 3 || |f| - 2 > FLAGS_HEX_MAX then None
    else if f[0] != '0' || f[1] !in {'x', 'X'} || !AllHex(f[2..]) then None
    else if HexValue(f[2..]) > max then None
    else Some(HexValue(f[2..]))
  }

  function DecodeDec(f: string, max: nat): Option<nat> {
    if |f| == 0 || |f| > DECIMAL_MAX || !AllDec(f) then None
    else if DecValue(f) > max then None
    else Some(DecValue(f))
  }

  /** The digits of `f` from `from` on, if all of them are digits. */
  method ReadHex(f: string, from: nat) returns (r: Option<nat>)
    requires from <= |f|
    ensures r == if AllHex(f[from..]) then Some(HexValue(f[from..])) else None
  {
    var v := 0;
    var i := from;
    while i < |f|
      invariant from <= i <= |f| && AllHex(f[from..i]) && v == HexValue(f[from..i])
    {
      var d := HexDigit(f[i]);
      if d < 0 {
        assert f[from..][i - from] == f[i];
        return None;
      }
      assert f[from..i + 1][..i - from] == f[from..i];
      v := v * 16 + d;
      i := i + 1;
    }
    assert f[from..i] == f[from..];
    return Some(v);
  }

  method ReadCp(f: string) returns (r: Option<nat>)
    ensures r == DecodeCp(f)
  {
    if |f| < 3 || |f| - 2 > CODEPOINT_HEX_MAX {
      return None;
    }
    if f[0] != 'U' && f[0] != 'u' {
      return None;
    }
    if f[1] != '+' {
      return None;
    }
    r := ReadHex(f, 2);
  }

  method ReadFlags(f: string, max: nat) returns (r: Option<nat>)
    ensures r == DecodeHex(f, max)
  {
    if |f| < 3 || |f| - 2 > FLAGS_HEX_MAX {
      return None;
    }
    if f[0] != '0' {
      return None;
    }
    if f[1] != 'x' && f[1] != 'X' {
      return None;
    }
    r := ReadHex(f, 2);
    if r.Some? && r.value > max {
      return None;
    }
  }

  lemma {:induction false} DecPrefix(s: string, i: nat)
    requires AllDec(s) && i <= |s|
    ensures DecValue(s[..i]) <= DecValue(s)
  {
    if i < |s| {
      DecPrefix(s[..|s| - 1], i);
      assert s[..|s| - 1][..i] == s[..i];
    } else {
      assert s[..i] == s;
    }
  }

  /** Decimal fields; the loop also stops as soon as the value leaves 32 bits. */
  method ReadDec(f: string, max: nat) returns (r: Option<nat>)
    requires max <= UINT32_MAX
    ensures r == DecodeDec(f, max)
  {
    if |f| == 0 || |f| > DECIMAL_MAX {
      return None;
    }
    var v := 0;
    var i := 0;
    while i < |f|
      invariant 0 <= i <= |f| && AllDec(f[..i]) && v == DecValue(f[..i]) <= UINT32_MAX
    {
      if !IsDec(f[i]) {
        return None;
      }
      assert f[..i + 1][..i] == f[..i];
      v := v * 10 + (f[i] as int - '0' as int);
      i := i + 1;
      if v > UINT32_MAX {
        if AllDec(f) {
          DecPrefix(f, i);
        }
        return None;
      }
    }
    assert f[..i] == f;
    return if v > max then None else Some(v);
  }

  // ----- Printers -----

  predicate TabFree(f: string) {
    forall i | 0 <= i < |f| :: f[i] != '\t'
  }

  function HexChar(d: nat): (c: char)
    requires d < 16
    ensures HexDigit(c) == d
  {
    if d < 10 then ('0' as int + d) as char else ('A' as int + d - 10) as char
  }

  function Hex(v: nat): string {
    (if v < 16 then "" else Hex(v / 16)) + [HexChar(v % 16)]
  }

  function DecChar(d: nat): (c: char)
    requires d < 10
    ensures IsDec(c) && c as int - '0' as int == d
  {
    ('0' as int + d) as char
  }

  function Dec(v: nat): string {
    (if v < 10 then "" else Dec(v / 10)) + [DecChar(v % 10)]
  }

  function Power(base: nat, k: nat): nat {
    if k == 0 then 1 else base * Power(base, k - 1)
  }

  lemma HexSnoc(head: string, d: nat)
    requires AllHex(head) && d < 16
    ensures AllHex(head + [HexChar(d)]) && HexValue(head + [HexChar(d)]) == HexValue(head) * 16 + d
  {
    assert (head + [HexChar(d)])[..|head|] == head;
  }

  lemma Digits(v: nat, q: nat, base: nat, k: nat)
    requires base > 0 && k > 0 && q == v / base && v < Power(base, k)
    ensures v == q * base + v % base && q < Power(base, k - 1)
  {
  }

  /** Printing in hexadecimal is undone by reading, and takes no more digits than needed. */
  lemma {:induction false} HexInverse(v: nat, k: nat)
    requires k > 0 && v < Power(16, k)
    ensures 0 < |Hex(v)| <= k && AllHex(Hex(v)) && HexValue(Hex(v)) == v
    decreases k
  {
    Digits(v, v / 16, 16, k);
    if v < 16 {
      HexSnoc("", v);
      assert "" + [HexChar(v)] == [HexChar(v)];
    } else {
      HexInverse(v / 16, k - 1);
      HexSnoc(Hex(v / 16), v % 16);
    }
  }

  lemma DecSnoc(head: string, d: nat)
    requires AllDec(head) && d < 10
    ensures AllDec(head + [DecChar(d)]) && DecValue(head + [DecChar(d)]) == DecValue(head) * 10 + d
  {
    assert (head + [DecChar(d)])[..|head|] == head;
  }

  lemma {:induction false} DecInverse(v: nat, k: nat)
    requires k > 0 && v < Power(10, k)
    ensures 0 < |Dec(v)| <= k && AllDec(Dec(v)) && DecValue(Dec(v)) == v
    decreases k
  {
    Digits(v, v / 10, 10, k);
    if v < 10 {
      DecSnoc("", v);
      assert "" + [DecChar(v)] == [DecChar(v)];
    } else {
      DecInverse(v / 10, k - 1);
      DecSnoc(Dec(v / 10), v % 10);
    }
  }

  lemma Powers()
    ensures Power(16, 4) == 0x1_0000 && Power(16, 8) == 0x1_0000_0000 && Power(10, 10) == 10_000_000_000
  {
    assert Power(16, 2) == 256 && Power(16, 4) == 0x1_0000;
    assert Power(16, 6) == 0x100_0000;
    assert Power(10, 2) == 100 && Power(10, 4) == 10_000 && Power(10, 6) == 1_000_000 && Power(10, 8) == 100_000_000;
  }

  function PrintCp(v: nat): string {
    "U+" + Hex(v)
  }

  function PrintFlags(v: nat): string {
    "0x" + Hex(v)
  }

  lemma CpInverse(v: nat)
    requires v <= UINT32_MAX
    ensures DecodeCp(PrintCp(v)) == Some(v) && |PrintCp(v)| <= 10 && TabFree(PrintCp(v))
  {
    Powers();
    HexInverse(v, 8);
    AfterPrefix("U+", Hex(v));
  }

  lemma FlagsInverse(v: nat, max: nat)
    requires v <= max <= 0xFFFF
    ensures DecodeHex(PrintFlags(v), max) == Some(v) && |PrintFlags(v)| <= 6 && TabFree(PrintFlags(v))
  {
    Powers();
    HexInverse(v, 4);
    AfterPrefix("0x", Hex(v));
  }

  lemma AfterPrefix(prefix: string, digits: string)
    requires |prefix| == 2 && TabFree(prefix) && AllHex(digits)
    ensures (prefix + digits)[2..] == digits && TabFree(prefix + digits)
  {
    assert HexDigit('\t') < 0;
  }

  lemma DecimalInverse(v: nat, max: nat)
    requires v <= max <= UINT32_MAX
    ensures DecodeDec(Dec(v), max) == Some(v) && 0 < |Dec(v)| <= 10 && TabFree(Dec(v))
  {
    Powers();
    DecInverse(v, 10);
  }

  // ----- Fields -----

  /** The first field of `s` is `s[..e]`. */
  predicate EndsField(s: string, e: nat) {
    e <= |s| && TabFree(s[..e]) && (e < |s| ==> s[e] == '\t')
  }

  function FieldEnd(s: string): (e: nat)
    ensures EndsField(s, e)
  {
    if s == "" || s[0] == '\t' then 0 else 1 + FieldEnd(s[1..])
  }

  lemma {:induction false} FieldEndIs(s: string, e: nat)
    requires EndsField(s, e)
    ensures FieldEnd(s) == e
  {
    if e > 0 {
      assert s[..e][0] == s[0];
      assert s[1..][..e - 1] == s[..e][1..];
      FieldEndIs(s[1..], e - 1);
    }
  }

  /** The fields that the walk finds: a tab at the very end does not begin another field. */
  function Fields(s: string): seq<string> {
    if s == "" then []
    else if FieldEnd(s) == |s| then [s]
    else [s[..FieldEnd(s)]] + Fields(s[FieldEnd(s) + 1..])
  }

  /** The next field from `pos` on: `s[pos..end]`, the walk going on at `next`. */
  method NextField(s: string, pos: nat) returns (found: bool, end: nat, next: nat)
    requires pos <= |s|
    ensures found <==> pos < |s|
    ensures found ==> pos <= end <= next <= |s| && Fields(s[pos..]) == [s[pos..end]] + Fields(s[next..])
    ensures !found ==> Fields(s[pos..]) == [] && next == pos
  {
    if pos >= |s| {
      return false, pos, pos;
    }
    var i := pos;
    while i < |s| && s[i] != '\t'
      invariant pos <= i <= |s| && TabFree(s[pos..i])
    {
      assert s[pos..i + 1] == s[pos..i] + [s[i]];
      i := i + 1;
    }
    assert s[pos..][..i - pos] == s[pos..i];
    FieldEndIs(s[pos..], i - pos);
    found, end, next := true, i, if i < |s| then i + 1 else i;
    if i < |s| {
      assert s[pos..][i - pos + 1..] == s[i + 1..];
    } else {
      assert s[i..] == "" && s[pos..i] == s[pos..];
    }
  }

  /** Fields separated by single tabs. */
  function Join(fs: seq<string>): string
    requires fs != []
  {
    if |fs| == 1 then fs[0] else fs[0] + "\t" + Join(fs[1..])
  }

  /** The walk takes apart what `Join` puts together, whether or not one more tab follows. */
  lemma {:induction false} FieldsOfJoin(fs: seq<string>, tail: string)
    requires fs != [] && tail in {"", "\t"} && forall i | 0 <= i < |fs| :: TabFree(fs[i]) && fs[i] != ""
    ensures Fields(Join(fs) + tail) == fs
  {
    var s := Join(fs) + tail;
    var e := |fs[0]|;
    if |fs| == 1 {
      assert s[..e] == fs[0];
      FieldEndIs(s, e);
      assert tail != "" ==> s[e + 1..] == "";
      assert Fields("") == [];
      assert tail == "" ==> s == fs[0];
      assert fs == [fs[0]] && [fs[0]] + [] == [fs[0]];
    } else {
      assert s == fs[0] + "\t" + (Join(fs[1..]) + tail);
      assert s[..e] == fs[0] && s[e + 1..] == Join(fs[1..]) + tail;
      FieldEndIs(s, e);
      FieldsOfJoin(fs[1..], tail);
    }
  }

  lemma SplitAt(s: string, e: nat)
    requires e < |s| && s[e] == '\t'
    ensures s == s[..e] + "\t" + s[e + 1..]
  {
  }

  lemma JoinMore(f: string, fs: seq<string>)
    requires fs != []
    ensures Join([f] + fs) == f + "\t" + Join(fs)
  {
    assert ([f] + fs)[1..] == fs;
  }

  /** Every line is the join of its fields, or that and one tab. */
  lemma {:induction false} JoinOfFields(s: string, fs: seq<string>)
    requires s != "" && fs == Fields(s)
    ensures fs != [] && (s == Join(fs) || s == Join(fs) + "\t")
    ensures forall i | 0 <= i < |fs| :: TabFree(fs[i])
  {
    var e := FieldEnd(s);
    if e == |s| {
      assert s[..e] == s;
    } else {
      var rest := s[e + 1..];
      SplitAt(s, e);
      if rest != "" {
        JoinOfFields(rest, Fields(rest));
        JoinMore(s[..e], Fields(rest));
        Reassociate(s[..e], Join(Fields(rest)), rest);
      }
    }
  }

  lemma Reassociate(f: string, joined: string, rest: string)
    requires rest == joined || rest == joined + "\t"
    ensures f + "\t" + rest == f + "\t" + joined || f + "\t" + rest == f + "\t" + joined + "\t"
  {
  }
}
