/**
  Exactly which fields the decoders of the manifest reader accept, and for which numbers: those that a
  printer with a fixed number of digits writes, hexadecimal letters in either case.
 */
module ManifestDigits {
  import opened Options
  import opened ManifestFields

  /** The capital form of a hexadecimal letter. */
  function Upper(c: char): char {
    match c
    case 'a' => 'A'
    case 'b' => 'B'
    case 'c' => 'C'
    case 'd' => 'D'
    case 'e' => 'E'
    case 'f' => 'F'
    case _ => c
  }

  function UpperAll(s: string): (r: string)
    ensures |r| == |s| && forall i | 0 <= i < |s| :: r[i] == Upper(s[i])
  {
    seq(|s|, i requires 0 <= i < |s| => Upper(s[i]))
  }

  const CAPITALS: string := "0123456789ABCDEF"

  /** `v` in `n` hexadecimal digits, zeros first. */
  function Padded(v: nat, n: nat): (s: string)
    ensures |s| == n
  {
    if n == 0 then "" else Padded(v / 16, n - 1) + [CAPITALS[v % 16]]
  }

  /** `v` in `n` decimal digits. */
  function PaddedDec(v: nat, n: nat): (s: string)
    ensures |s| == n
  {
    if n == 0 then "" else PaddedDec(v / 10, n - 1) + [CAPITALS[v % 10]]
  }

  /** A digit has the value of its place among the sixteen capitals. */
  lemma DigitIs(c: char, d: nat)
    requires d < 16
    ensures HexDigit(c) == d <==> Upper(c) == CAPITALS[d]
  {
  }

  lemma UpperSnoc(s: string)
    requires s != ""
    ensures UpperAll(s) == UpperAll(s[..|s| - 1]) + [Upper(s[|s| - 1])]
  {
  }

  lemma SnocEqual(a: string, x: char, b: string, y: char)
    ensures a + [x] == b + [y] <==> a == b && x == y
  {
    assert a + [x] == b + [y] ==> |a| == |b| && (a + [x])[..|a|] == a && (b + [y])[..|b|] == b;
    assert a + [x] == b + [y] ==> (a + [x])[|a|] == (b + [y])[|b|];
  }

  /** Reading hexadecimal digits is the inverse of writing them. */
  lemma {:induction false} HexExactly(s: string, v: nat)
    ensures AllHex(s) && HexValue(s) == v <==> v < Power(16, |s|) && UpperAll(s) == Padded(v, |s|)
    decreases |s|
  {
    if s != "" {
      var t, c := s[..|s| - 1], s[|s| - 1];
      HexExactly(t, v / 16);
      UpperSnoc(s);
      SnocEqual(UpperAll(t), Upper(c), Padded(v / 16, |t|), CAPITALS[v % 16]);
      DigitIs(c, v % 16);
      HexParts(s, t, c, v);
      SplitHex(v, |s|);
    }
  }

  lemma HexParts(s: string, t: string, c: char, v: nat)
    requires s != "" && t == s[..|s| - 1] && c == s[|s| - 1]
    ensures AllHex(s) && HexValue(s) == v <==> AllHex(t) && HexValue(t) == v / 16 && HexDigit(c) == v % 16
  {
    assert AllHex(s) <==> AllHex(t) && HexDigit(c) >= 0;
  }

  lemma SplitHex(v: nat, n: nat)
    requires n > 0
    ensures v < Power(16, n) <==> v / 16 < Power(16, n - 1)
  {
  }

  lemma SplitDec(v: nat, n: nat)
    requires n > 0
    ensures v < Power(10, n) <==> v / 10 < Power(10, n - 1)
  {
  }

  lemma {:induction false} DecExactly(s: string, v: nat)
    ensures AllDec(s) && DecValue(s) == v <==> v < Power(10, |s|) && s == PaddedDec(v, |s|)
    decreases |s|
  {
    if s != "" {
      var t, c := s[..|s| - 1], s[|s| - 1];
      DecExactly(t, v / 10);
      assert s == t + [c];
      SnocEqual(t, c, PaddedDec(v / 10, |t|), CAPITALS[v % 10]);
      DecParts(s, t, c, v);
      SplitDec(v, |s|);
    }
  }

  lemma DecParts(s: string, t: string, c: char, v: nat)
    requires s != "" && t == s[..|s| - 1] && c == s[|s| - 1]
    ensures AllDec(s) && DecValue(s) == v <==> AllDec(t) && DecValue(t) == v / 10 && c == CAPITALS[v % 10]
  {
    assert AllDec(s) <==> AllDec(t) && IsDec(c);
  }

  // ----- Fields -----

  /** `v` written with a prefix of two characters and one to `max` digits, in either case. */
  predicate Writes(f: string, first: set<char>, second: set<char>, max: nat, v: nat) {
    && 3 <= |f| <= max + 2 && f[0] in first && f[1] in second
    && v < Power(16, |f| - 2) && UpperAll(f[2..]) == Padded(v, |f| - 2)
  }

  /** A codepoint field: U or u, a plus sign, one to eight digits. */
  lemma CpExactly(f: string, v: nat)
    ensures DecodeCp(f) == Some(v) <==> Writes(f, {'U', 'u'}, {'+'}, 8, v)
  {
    if |f| >= 2 {
      HexExactly(f[2..], v);
    }
  }

  /** A flag word: a zero, x or X, one to four digits, within the bound. */
  lemma FlagsExactly(f: string, max: nat, v: nat)
    ensures DecodeHex(f, max) == Some(v) <==> Writes(f, {'0'}, {'x', 'X'}, 4, v) && v <= max
  {
    if |f| >= 2 {
      HexExactly(f[2..], v);
    }
  }

  /** A decimal field: one to ten digits, within the bound. */
  lemma DecimalExactly(f: string, max: nat, v: nat)
    ensures DecodeDec(f, max) == Some(v)
            <==> 1 <= |f| <= 10 && v < Power(10, |f|) && f == PaddedDec(v, |f|) && v <= max
  {
    DecExactly(f, v);
  }

  /** Whether hexadecimal letters are small or capital makes no difference to any field. */
  lemma CaseBlind(f: string, g: string, max: nat)
    requires |f| == |g| >= 2 && UpperAll(f[2..]) == UpperAll(g[2..])
    ensures f[0] in {'U', 'u'} && g[0] in {'U', 'u'} && f[1] == g[1] ==> DecodeCp(f) == DecodeCp(g)
    ensures f[0] == g[0] && f[1] in {'x', 'X'} && g[1] in {'x', 'X'} ==> DecodeHex(f, max) == DecodeHex(g, max)
  {
    SameDigits(f[2..], g[2..]);
  }

  lemma SameDigits(s: string, t: string)
    requires UpperAll(s) == UpperAll(t)
    ensures AllHex(s) <==> AllHex(t)
    ensures AllHex(s) ==> HexValue(s) == HexValue(t)
  {
    if AllHex(s) {
      HexExactly(s, HexValue(s));
      HexExactly(t, HexValue(s));
    }
    if AllHex(t) {
      HexExactly(t, HexValue(t));
      HexExactly(s, HexValue(t));
    }
  }

  /** For instance u+4e00 and U+4E00. */
  lemma SmallLetters(f: string, digits: string, n: nat, v: nat)
    requires digits == "4e00" && f == "u+" + digits && n == |digits| && v == 0x4E00
    ensures DecodeCp(f) == Some(v)
  {
    assert f[2..] == digits;
    CapitalHan(digits);
    PaddedHan(n, v);
    CpExactly(f, v);
  }

  lemma CapitalHan(digits: string)
    requires digits == "4e00"
    ensures UpperAll(digits) == "4E00"
  {
  }

  lemma PaddedHan(n: nat, v: nat)
    requires n == 4 && v == 0x4E00
    ensures v < Power(16, n) && Padded(v, n) == "4E00"
  {
    Powers();
    assert Padded(0x4, 1) == "4";
    assert Padded(0x4E, 2) == "4E";
    assert Padded(0x4E0, 3) == "4E0";
  }
}
