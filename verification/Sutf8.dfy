/**
  The SUTF-8 transport codec of the volume index: streams of one to six bytes for the 31-bit
  codepoints of SUCS.  The bit layout is that of section 3 of RFC 3629, extended to six bytes
  as in section 2 of RFC 2279, with the boundary between four and five bytes at 0x10FFFF.

  Bytes and codepoints are numbers; a masked comparison such as `(b & 0xE0) == 0xC0` is
  written `b / 32 == 6`, and `(cp << 6) | (b & 0x3F)` is `cp * 64 + b % 64`.
 */
module Sutf8 {

  type Byte = b: nat | b < 256

  const MAX_CODEPOINT: nat := 0x7FFF_FFFF
  const INVALID_CODEPOINT: nat := 0x7FFF_FFFF
  const TRAP_RANGE_MIN: nat := 0x7FFF_FFF0
  const TRAP_RANGE_MAX: nat := 0x7FFF_FFFE
  const PATH_MAX: nat := 128

  /** `len == 0` means that the bytes were rejected. */
  datatype Decoded = Decoded(len: nat, cp: nat)

  const REJECTED: Decoded := Decoded(0, INVALID_CODEPOINT)

  predicate Valid(cp: nat) {
    cp <= MAX_CODEPOINT && !(TRAP_RANGE_MIN <= cp <= TRAP_RANGE_MAX) && cp != INVALID_CODEPOINT
  }

  function CodepointLength(cp: nat): (n: nat)
    ensures n <= 6 && (n == 0 <==> !Valid(cp))
  {
    if !Valid(cp) then 0
    else if cp <= 0x7F then 1
    else if cp <= 0x7FF then 2
    else if cp <= 0xFFFF then 3
    else if cp <= 0x0010_FFFF then 4
    else if cp <= 0x03FF_FFFF then 5
    else 6
  }

  /** The stream length a lead byte announces, 0 for a byte that cannot lead. */
  function LeadLength(b: Byte): (n: nat)
    ensures n <= 6
  {
    if b < 0x80 then 1
    else if b / 32 == 6 then 2
    else if b / 16 == 14 then 3
    else if b / 8 == 30 then 4
    else if b / 4 == 62 then 5
    else if b / 2 == 126 then 6
    else 0
  }

  function LeadBits(b: Byte): nat {
    if b < 0x80 then b
    else if b / 32 == 6 then b % 32
    else if b / 16 == 14 then b % 16
    else if b / 8 == 30 then b % 8
    else if b / 4 == 62 then b % 4
    else b % 2
  }

  predicate IsContinuation(b: Byte) {
    b / 64 == 2
  }

  predicate AllContinuations(s: seq<Byte>) {
    forall i | 0 <= i < |s| :: IsContinuation(s[i])
  }

  function Accumulate(lead: nat, s: seq<Byte>): nat {
    if s == [] then lead else Accumulate(lead, s[..|s| - 1]) * 64 + s[|s| - 1] % 64
  }

  /** What decoding the first character of `s` gives, for a reader that is told `size` bytes. */
  function Decode(s: seq<Byte>, size: nat): Decoded {
    if s == [] || size == 0 then REJECTED
    else
      var len := LeadLength(s[0]);
      if len == 0 || size < len || |s| < len || !AllContinuations(s[1..len]) then REJECTED
      else
        var cp := Accumulate(LeadBits(s[0]), s[1..len]);
        if CodepointLength(cp) != len then REJECTED else Decoded(len, cp)
  }

  // ----- The decoder as the loop it is -----

  ghost predicate Terminated(mem: seq<Byte>, pos: nat) {
    exists k :: pos <= k < |mem| && mem[k] == 0
  }

  /** Where the bytes from `pos` on may be read: `size` of them, or up to a terminator. */
  ghost predicate Readable(mem: seq<Byte>, pos: nat, size: nat) {
    pos + size <= |mem| || Terminated(mem, pos)
  }

  method DecodeChar(mem: seq<Byte>, pos: nat, size: nat) returns (r: Decoded)
    requires pos <= |mem| && Readable(mem, pos, size)
    ensures r == Decode(mem[pos..], size)
  {
    if size == 0 {
      return REJECTED;
    }
    var b0 := mem[pos];
    var len, cp: nat := LeadLength(b0), LeadBits(b0);
    if len == 0 || size < len {
      return REJECTED;
    }
    ghost var s := mem[pos..];
    var i := 1;
    while i < len
      invariant 1 <= i <= len && i <= |s|
      invariant AllContinuations(s[1..i])
      invariant cp == Accumulate(LeadBits(b0), s[1..i])
    {
      StillReadable(mem, pos, size, i);
      if !IsContinuation(mem[pos + i]) {
        assert len <= |s| ==> s[1..len][i - 1] == mem[pos + i];
        return REJECTED;
      }
      AccumulateNext(LeadBits(b0), s, i);
      cp := cp * 64 + mem[pos + i] % 64;
      i := i + 1;
    }
    if CodepointLength(cp) != len {
      return REJECTED;
    }
    return Decoded(len, cp);
  }

  lemma AccumulateNext(lead: nat, s: seq<Byte>, i: nat)
    requires 1 <= i < |s|
    ensures s[1..i + 1] == s[1..i] + [s[i]]
    ensures Accumulate(lead, s[1..i + 1]) == Accumulate(lead, s[1..i]) * 64 + s[i] % 64
  {
    assert s[1..i + 1][..i - 1] == s[1..i];
  }

  /** The terminator is no continuation byte, so the byte after good ones may still be read. */
  lemma StillReadable(mem: seq<Byte>, pos: nat, size: nat, i: nat)
    requires pos < |mem| && Readable(mem, pos, size) && 1 <= i < size && i <= |mem[pos..]|
    requires LeadLength(mem[pos]) > i
    requires AllContinuations(mem[pos..][1..i])
    ensures pos + i < |mem|
  {
    forall k | pos <= k < pos + i ensures mem[k] != 0 {
      assert k > pos ==> IsContinuation(mem[pos..][1..i][k - pos - 1]);
    }
  }

  // ----- The reference encoder -----

  function LeadMark(len: nat): nat {
    if len == 2 then 0xC0 else if len == 3 then 0xE0 else if len == 4 then 0xF0
    else if len == 5 then 0xF8 else if len == 6 then 0xFC else 0
  }

  /** `v` without its `k` lowest groups of six bits. */
  function Top(v: nat, k: nat): nat {
    if k == 0 then v else Top(v / 64, k - 1)
  }

  /** The `k` lowest groups of six bits, as continuation bytes. */
  function Tail(v: nat, k: nat): (s: seq<Byte>)
    ensures |s| == k
  {
    if k == 0 then [] else Tail(v / 64, k - 1) + [0x80 + v % 64]
  }

  lemma TopFits(cp: nat)
    requires Valid(cp)
    ensures var len := CodepointLength(cp);
            LeadMark(len) + Top(cp, len - 1) < 256
            && LeadLength(LeadMark(len) + Top(cp, len - 1)) == len
            && LeadBits(LeadMark(len) + Top(cp, len - 1)) == Top(cp, len - 1)
  {
    var len := CodepointLength(cp);
    TopIsQuotient(cp);
    if len == 1 {
    } else if len == 2 {
      assert Top(cp, 1) < 32;
    } else if len == 3 {
      assert Top(cp, 2) < 16;
    } else if len == 4 {
      assert Top(cp, 3) < 8;
    } else if len == 5 {
      assert Top(cp, 4) < 4;
    } else {
      assert Top(cp, 5) < 2;
    }
  }

  lemma TopIsQuotient(v: nat)
    ensures Top(v, 0) == v && Top(v, 1) == v / 64 && Top(v, 2) == v / 0x1000
    ensures Top(v, 3) == v / 0x4_0000 && Top(v, 4) == v / 0x100_0000 && Top(v, 5) == v / 0x4000_0000
  {
    assert Top(v, 2) == Top(v / 64, 1) == v / 64 / 64;
    assert Top(v, 3) == Top(v / 64, 2) == v / 64 / 64 / 64;
    assert Top(v, 4) == Top(v / 64, 3) == v / 64 / 64 / 64 / 64;
    assert Top(v, 5) == Top(v / 64, 4) == v / 64 / 64 / 64 / 64 / 64;
  }

  /** The one canonical stream of a valid codepoint. */
  function Encode(cp: nat): (s: seq<Byte>)
    requires Valid(cp)
    ensures |s| == CodepointLength(cp)
  {
    TopFits(cp);
    var len := CodepointLength(cp);
    [LeadMark(len) + Top(cp, len - 1)] + Tail(cp, len - 1)
  }

  lemma AccumulateSnoc(lead: nat, s: seq<Byte>, b: Byte)
    requires AllContinuations(s) && IsContinuation(b)
    ensures Accumulate(lead, s + [b]) == Accumulate(lead, s) * 64 + b % 64 && AllContinuations(s + [b])
  {
    assert (s + [b])[..|s|] == s;
  }

  lemma {:induction false} AccumulateTail(v: nat, k: nat)
    ensures Accumulate(Top(v, k), Tail(v, k)) == v && AllContinuations(Tail(v, k))
  {
    if k > 0 {
      AccumulateTail(v / 64, k - 1);
      AccumulateSnoc(Top(v, k), Tail(v / 64, k - 1), 0x80 + v % 64);
    }
  }

  lemma {:induction false} TailAccumulate(lead: nat, s: seq<Byte>)
    requires AllContinuations(s)
    ensures Top(Accumulate(lead, s), |s|) == lead && Tail(Accumulate(lead, s), |s|) == s
  {
    if s != [] {
      var t, b := s[..|s| - 1], s[|s| - 1];
      TailAccumulate(lead, t);
      assert IsContinuation(b);
      assert Accumulate(lead, s) / 64 == Accumulate(lead, t);
      assert s == t + [b];
    }
  }

  lemma LeadByte(b: Byte)
    requires LeadLength(b) != 0
    ensures b == LeadMark(LeadLength(b)) + LeadBits(b)
  {
  }

  lemma EncodedDecodes(s: seq<Byte>, size: nat, cp: nat)
    requires Valid(cp) && |Encode(cp)| <= size && Encode(cp) <= s
    ensures Decode(s, size) == Decoded(|Encode(cp)|, cp)
  {
    var len := CodepointLength(cp);
    TopFits(cp);
    assert Encode(cp) == s[..len];
    assert s[1..len] == Encode(cp)[1..] == Tail(cp, len - 1);
    AccumulateTail(cp, len - 1);
  }

  lemma DecodedEncodes(s: seq<Byte>, size: nat)
    requires Decode(s, size).len > 0
    ensures var d := Decode(s, size);
            Valid(d.cp) && d.len == |Encode(d.cp)| <= size && d.len <= |s| && s[..d.len] == Encode(d.cp)
  {
    var d := Decode(s, size);
    LeadByte(s[0]);
    TailAccumulate(LeadBits(s[0]), s[1..d.len]);
    assert s[..d.len] == [s[0]] + s[1..d.len];
  }

  /** The decoder accepts exactly the canonical encodings of valid codepoints. */
  lemma DecodeIsCanonical(s: seq<Byte>, size: nat, len: nat, cp: nat)
    requires len > 0
    ensures Decode(s, size) == Decoded(len, cp)
            <==> Valid(cp) && len == |Encode(cp)| <= size && Encode(cp) <= s
  {
    if Valid(cp) && len == |Encode(cp)| <= size && Encode(cp) <= s {
      EncodedDecodes(s, size, cp);
    }
    if Decode(s, size) == Decoded(len, cp) {
      DecodedEncodes(s, size);
    }
  }

  lemma DecodeRejects(s: seq<Byte>, size: nat)
    ensures Decode(s, size).len == 0
            <==> forall cp | Valid(cp) :: !(|Encode(cp)| <= size && Encode(cp) <= s)
  {
    var d := Decode(s, size);
    if d.len != 0 {
      DecodeIsCanonical(s, size, d.len, d.cp);
    } else {
      forall cp | Valid(cp) ensures !(|Encode(cp)| <= size && Encode(cp) <= s) {
        DecodeIsCanonical(s, size, |Encode(cp)|, cp);
      }
    }
  }

  // ----- Strings -----

  datatype Count = Malformed | Counted(n: nat)

  /** The number of characters of a string, when it is well formed. */
  function CountCodepoints(s: seq<Byte>): Count {
    if s == [] then Counted(0)
    else
      var d := Decode(s, PATH_MAX);
      if d.len == 0 || d.len > |s| then Malformed
      else Plus(1, CountCodepoints(s[d.len..]))
  }

  function Plus(n: nat, c: Count): Count {
    match c
    case Malformed => Malformed
    case Counted(m) => Counted(n + m)
  }

  predicate IsSutf8(s: seq<Byte>) {
    CountCodepoints(s).Counted?
  }

  /** The bytes from `pos` up to the terminator. */
  ghost function StringAt(mem: seq<Byte>, pos: nat): (s: seq<Byte>)
    requires Terminated(mem, pos)
    ensures 0 !in s && pos + |s| < |mem| && mem[pos + |s|] == 0
    decreases |mem| - pos
  {
    if mem[pos] == 0 then [] else [mem[pos]] + StringAt(mem, pos + 1)
  }

  lemma {:induction false} StringIsSlice(mem: seq<Byte>, pos: nat)
    requires Terminated(mem, pos)
    ensures mem[pos..pos + |StringAt(mem, pos)|] == StringAt(mem, pos)
    decreases |mem| - pos
  {
    if mem[pos] != 0 {
      StringIsSlice(mem, pos + 1);
    }
  }

  lemma DecodeStopsAtTerminator(s: seq<Byte>, junk: seq<Byte>)
    requires s != [] && 0 !in s
    ensures Decode(s + [0] + junk, PATH_MAX) == Decode(s, PATH_MAX)
  {
    var t := s + [0] + junk;
    var len := LeadLength(s[0]);
    if 1 <= len <= |s| {
      assert t[1..len] == s[1..len];
    } else if 1 <= len <= |t| {
      assert t[1..len][|s| - 1] == 0;
    }
  }

  lemma SplitAt(mem: seq<Byte>, pos: nat, k: nat)
    requires pos <= k < |mem|
    ensures mem[pos..] == mem[pos..k] + [mem[k]] + mem[k + 1..]
  {
  }

  lemma DecodeInMemory(mem: seq<Byte>, pos: nat)
    requires Terminated(mem, pos) && mem[pos] != 0
    ensures Decode(mem[pos..], PATH_MAX) == Decode(StringAt(mem, pos), PATH_MAX)
  {
    var s := StringAt(mem, pos);
    StringIsSlice(mem, pos);
    SplitAt(mem, pos, pos + |s|);
    DecodeStopsAtTerminator(s, mem[pos + |s| + 1..]);
  }

  lemma {:induction false} StringAfter(mem: seq<Byte>, pos: nat, len: nat)
    requires Terminated(mem, pos) && len <= |StringAt(mem, pos)|
    ensures Terminated(mem, pos + len) && StringAt(mem, pos + len) == StringAt(mem, pos)[len..]
    decreases len
  {
    if len > 0 {
      StringAfter(mem, pos + 1, len - 1);
    }
  }

  lemma DecodeBounded(s: seq<Byte>)
    ensures Decode(s, PATH_MAX).len <= |s|
  {
  }

  /** One turn of the loops over a terminated string. */
  lemma CountStep(mem: seq<Byte>, p: nat, len: nat, left: Count) returns (next: Count)
    requires Terminated(mem, p) && mem[p] != 0 && len == Decode(mem[p..], PATH_MAX).len
    requires left == CountCodepoints(StringAt(mem, p))
    ensures if len == 0 then left == Malformed
            else Terminated(mem, p + len) && next == CountCodepoints(StringAt(mem, p + len)) && left == Plus(1, next)
  {
    var s := StringAt(mem, p);
    DecodeInMemory(mem, p);
    DecodeBounded(s);
    StringAfter(mem, p, len);
    next := CountCodepoints(StringAt(mem, p + len));
  }

  method DecodedLength(mem: seq<Byte>, p: nat) returns (len: nat)
    requires Terminated(mem, p)
    ensures len == Decode(mem[p..], PATH_MAX).len
  {
    var d := DecodeChar(mem, p, PATH_MAX);
    len := d.len;
  }

  /** Decodes one character of a terminated string. */
  method Advance(mem: seq<Byte>, p: nat, ghost left: Count) returns (len: nat, ghost next: Count)
    requires Terminated(mem, p) && mem[p] != 0 && left == CountCodepoints(StringAt(mem, p))
    ensures len == 0 ==> left == Malformed
    ensures len > 0 ==>
              Terminated(mem, p + len) && next == CountCodepoints(StringAt(mem, p + len)) && left == Plus(1, next)
  {
    len := DecodedLength(mem, p);
    next := CountStep(mem, p, len, left);
  }

  lemma NothingLeft(mem: seq<Byte>, p: nat)
    requires Terminated(mem, p) && mem[p] == 0
    ensures CountCodepoints(StringAt(mem, p)) == Counted(0)
  {
  }

  lemma PlusNext(n: nat, c: Count)
    ensures Plus(n, Plus(1, c)) == Plus(n + 1, c)
  {
  }

  /** Walks a terminated string; nothing after the terminator is looked at. */
  method CountInMemory(mem: seq<Byte>) returns (c: Count)
    requires Terminated(mem, 0)
    ensures c == CountCodepoints(StringAt(mem, 0))
  {
    var p, n := 0, 0;
    ghost var whole := CountCodepoints(StringAt(mem, 0));
    ghost var left := whole;
    while mem[p] != 0
      invariant Terminated(mem, p)
      invariant left == CountCodepoints(StringAt(mem, p)) && whole == Plus(n, left)
      decreases |mem| - p
    {
      var len;
      len, left := Advance(mem, p, left);
      if len == 0 {
        return Malformed;
      }
      PlusNext(n, left);
      p, n := p + len, n + 1;
    }
    NothingLeft(mem, p);
    return Counted(n);
  }

  method IsSutf8InMemory(mem: seq<Byte>) returns (ok: bool)
    requires Terminated(mem, 0)
    ensures ok == IsSutf8(StringAt(mem, 0))
  {
    var p := 0;
    ghost var whole := CountCodepoints(StringAt(mem, 0));
    ghost var left := whole;
    while mem[p] != 0
      invariant Terminated(mem, p)
      invariant left == CountCodepoints(StringAt(mem, p)) && whole.Counted? == left.Counted?
      decreases |mem| - p
    {
      var len;
      len, left := Advance(mem, p, left);
      if len == 0 {
        return false;
      }
      p := p + len;
    }
    NothingLeft(mem, p);
    return true;
  }

  /** A string with its terminator, as it stands in memory. */
  lemma {:induction false} AsMemory(mem: seq<Byte>, pos: nat)
    requires pos < |mem| && mem[|mem| - 1] == 0 && forall i | pos <= i < |mem| - 1 :: mem[i] != 0
    ensures Terminated(mem, pos) && StringAt(mem, pos) == mem[pos..|mem| - 1]
    decreases |mem| - pos
  {
    if pos < |mem| - 1 {
      AsMemory(mem, pos + 1);
    }
  }

  ghost predicate AllValid(cs: seq<nat>) {
    forall i | 0 <= i < |cs| :: Valid(cs[i])
  }

  function EncodeAll(cs: seq<nat>): seq<Byte>
    requires AllValid(cs)
  {
    if cs == [] then [] else Encode(cs[0]) + EncodeAll(cs[1..])
  }

  lemma EncodeAllCons(cp: nat, cs: seq<nat>)
    requires Valid(cp) && AllValid(cs)
    ensures AllValid([cp] + cs) && EncodeAll([cp] + cs) == Encode(cp) + EncodeAll(cs)
  {
    assert ([cp] + cs)[1..] == cs;
  }

  /** The characters of a well-formed string. */
  function Parse(s: seq<Byte>): (cs: seq<nat>)
    requires IsSutf8(s)
    ensures |cs| == CountCodepoints(s).n
  {
    if s == [] then []
    else
      var d := Decode(s, PATH_MAX);
      [d.cp] + Parse(s[d.len..])
  }

  lemma {:induction false} ParseEncodes(s: seq<Byte>)
    requires IsSutf8(s)
    ensures AllValid(Parse(s)) && EncodeAll(Parse(s)) == s
    decreases |s|
  {
    if s != [] {
      var cp, rest := ParseFirst(s);
      ParseEncodes(rest);
      EncodeAllCons(cp, Parse(rest));
    }
  }

  /** The first character of a well-formed string, and what follows it. */
  lemma ParseFirst(s: seq<Byte>) returns (cp: nat, rest: seq<Byte>)
    requires IsSutf8(s) && s != []
    ensures Valid(cp) && |rest| < |s| && IsSutf8(rest) && s == Encode(cp) + rest && Parse(s) == [cp] + Parse(rest)
  {
    var d := Decode(s, PATH_MAX);
    DecodedEncodes(s, PATH_MAX);
    cp, rest := d.cp, s[d.len..];
    assert s == s[..d.len] + s[d.len..];
  }

  /** Encoding any valid characters gives a well-formed string that parses back to them: a
      string has at most one parse, and its length in characters is the count. */
  lemma {:induction false} EncodeAllParses(cs: seq<nat>)
    requires AllValid(cs)
    ensures CountCodepoints(EncodeAll(cs)) == Counted(|cs|)
    ensures Parse(EncodeAll(cs)) == cs
  {
    if cs != [] {
      var s := EncodeAll(cs);
      EncodeAllParses(cs[1..]);
      EncodedDecodes(s, PATH_MAX, cs[0]);
      assert s[|Encode(cs[0])|..] == EncodeAll(cs[1..]);
    }
  }

  lemma WellFormedIffEncoded(s: seq<Byte>, n: nat)
    ensures CountCodepoints(s) == Counted(n)
            <==> exists cs :: AllValid(cs) && |cs| == n && EncodeAll(cs) == s
  {
    if IsSutf8(s) {
      var cs := Parse(s);
      ParseEncodes(s);
      assert AllValid(cs) && EncodeAll(cs) == s;
    }
    forall cs | AllValid(cs) && EncodeAll(cs) == s ensures CountCodepoints(s) == Counted(|cs|) {
      EncodeAllParses(cs);
    }
  }

  /** The count is additive over concatenation, and a good prefix can be split off. */
  lemma {:induction false} CountConcat(a: seq<Byte>, b: seq<Byte>)
    requires IsSutf8(a)
    ensures CountCodepoints(a + b) == Plus(CountCodepoints(a).n, CountCodepoints(b))
    decreases |a|
  {
    if a == [] {
      assert a + b == b;
    } else {
      var d := Decode(a, PATH_MAX);
      DecodedEncodes(a, PATH_MAX);
      EncodedDecodes(a + b, PATH_MAX, d.cp);
      assert (a + b)[d.len..] == a[d.len..] + b;
      CountConcat(a[d.len..], b);
    }
  }

  /** A string of ASCII characters is well formed. */
  lemma {:induction false} AsciiIsSutf8(s: seq<Byte>)
    requires forall i | 0 <= i < |s| :: 0 < s[i] < 0x80
    ensures IsSutf8(s)
    decreases |s|
  {
    if s != [] {
      AsciiIsSutf8(s[1..]);
      AsciiDecodes(s);
    }
  }

  lemma AsciiDecodes(s: seq<Byte>)
    requires s != [] && 0 < s[0] < 0x80
    ensures Decode(s, PATH_MAX) == Decoded(1, s[0])
  {
    assert s[1..1] == [];
  }
}
