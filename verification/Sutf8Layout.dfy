/**
  The bytes of every codepoint written out, length by length: the table of section 3 of RFC 3629 and
  section 2 of RFC 2279, with five bytes from U+110000 on.
 */
module Sutf8Layout {
  import opened Sutf8

  /** Continuation byte `k` of `cp`, counted from the last one. */
  function Group(cp: nat, k: nat): Byte {
    0x80 + Shifted(cp, k) % 64
  }

  /** `cp` without its `k` lowest groups of six bits. */
  function Shifted(cp: nat, k: nat): nat {
    match k
    case 0 => cp
    case 1 => cp / 0x40
    case 2 => cp / 0x1000
    case 3 => cp / 0x4_0000
    case 4 => cp / 0x100_0000
    case _ => cp / 0x4000_0000
  }

  /** Valid codepoints are those below the trap range. */
  lemma ValidExactly(cp: nat)
    ensures Valid(cp) <==> cp < 0x7FFF_FFF0
  {
  }

  lemma TailIs(v: nat, k: nat)
    requires k <= 5
    ensures Tail(v, k) == if k == 0 then [] else Tail(Shifted(v, 1), k - 1) + [Group(v, 0)]
  {
  }

  lemma ShiftedTwice(v: nat, k: nat)
    requires k <= 4
    ensures Shifted(Shifted(v, 1), k) == Shifted(v, k + 1)
  {
  }

  /** The last `k` bytes of an encoding. */
  lemma {:induction false} TailAt(v: nat, k: nat, i: nat)
    requires i < k <= 5
    ensures Tail(v, k)[i] == Group(v, k - 1 - i)
  {
    TailIs(v, k);
    if i < k - 1 {
      TailAt(Shifted(v, 1), k - 1, i);
      ShiftedTwice(v, k - 2 - i);
    }
  }

  lemma LeadIs(v: nat, k: nat)
    requires k <= 5
    ensures Top(v, k) == Shifted(v, k)
  {
    TopIsQuotient(v);
  }

  /** The first byte that announces `n` bytes, without the bits of the codepoint. */
  function FirstByte(n: nat): nat {
    match n
    case 1 => 0
    case 2 => 0xC0
    case 3 => 0xE0
    case 4 => 0xF0
    case 5 => 0xF8
    case _ => 0xFC
  }

  /** How many bytes a codepoint takes. */
  lemma EncodedLength(cp: nat)
    requires Valid(cp)
    ensures |Encode(cp)| == if cp < 0x80 then 1 else if cp < 0x800 then 2 else if cp < 0x1_0000 then 3
                            else if cp < 0x11_0000 then 4 else if cp < 0x400_0000 then 5 else 6
  {
  }

  /** Its first byte holds the announcement and its highest bits, each further one the next six bits. */
  lemma EncodedBytes(cp: nat, n: nat, i: nat)
    requires Valid(cp) && n == |Encode(cp)| && i < n
    ensures n <= 6 && Encode(cp)[i] == if i == 0 then FirstByte(n) + Shifted(cp, n - 1) else Group(cp, n - 1 - i)
  {
    LeadIs(cp, n - 1);
    if i > 0 {
      TailAt(cp, n - 1, i - 1);
    }
  }

  /** Decoding undoes that layout and accepts nothing else: what it gives was written so. */
  lemma DecodedBytes(s: seq<Byte>, size: nat, d: Decoded, i: nat)
    requires d == Decode(s, size) && i < d.len
    ensures d.cp < 0x7FFF_FFF0 && d.len <= 6 && d.len <= |s| && d.len <= size
    ensures s[i] == if i == 0 then FirstByte(d.len) + Shifted(d.cp, d.len - 1) else Group(d.cp, d.len - 1 - i)
  {
    DecodedEncodes(s, size);
    EncodedBytes(d.cp, d.len, i);
    assert s[..d.len][i] == s[i];
  }
}
