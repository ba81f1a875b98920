/**
  Keys of the volume index: the 64-bit FNV-1a hash of a path, cut to 44 bits, and the eleven
  nibbles of such a key, the most significant one first.
 */
module PathKey {
  import opened ExclusiveOr
  import opened PathTrie
  import opened Sutf8

  const KEY_SPACE: nat := 0x1000_0000_0000

  const WORD: nat := 0x1_0000_0000_0000_0000
  const FNV_OFFSET: nat := 0xCBF2_9CE4_8422_2325
  const FNV_PRIME: nat := 0x100_0000_01B3

  /** One round on a 64-bit word: the byte is mixed into the low eight bits, and the product wraps. */
  function Mix(h: nat, b: Byte): (r: nat)
    ensures r < WORD
  {
    (h / 256 * 256 + Xor8(h % 256, b)) * FNV_PRIME % WORD
  }

  function Fnv1a(s: seq<Byte>): (h: nat)
    ensures h < WORD
  {
    if s == [] then FNV_OFFSET else Mix(Fnv1a(s[..|s| - 1]), s[|s| - 1])
  }

  /** The 44-bit mask keeps the remainder modulo 2^44. */
  function HashPath(s: seq<Byte>): (h: nat)
    ensures h < KEY_SPACE
  {
    Fnv1a(s) % KEY_SPACE
  }

  method HashBytes(s: seq<Byte>) returns (h: nat)
    ensures h == HashPath(s)
  {
    h := FNV_OFFSET;
    var i := 0;
    while i < |s|
      invariant 0 <= i <= |s| && h == Fnv1a(s[..i])
    {
      assert s[..i + 1][..i] == s[..i];
      h := Mix(h, s[i]);
      i := i + 1;
    }
    assert s[..i] == s;
    h := h % KEY_SPACE;
  }

  // ----- Working a hash out -----

  /** One round for one more byte. */
  lemma NextRound(p: seq<Byte>, b: Byte, h: nat)
    requires h == Fnv1a(p)
    ensures Fnv1a(p + [b]) == Mix(h, b)
  {
    assert (p + [b])[..|p|] == p;
  }

  lemma LowAndHigh(h: nat, n: nat, low: Byte)
    requires h == 256 * n + low
    ensures h % 256 == low && h / 256 == n
  {
  }

  lemma Wraps(m: nat, q: nat, r: nat)
    requires m == q * WORD + r && r < WORD
    ensures m % WORD == r
  {
  }

  /** One round worked out: the word is `256 * n + low`, and the product wraps `q` times. */
  lemma MixIs(h: nat, b: Byte, n: nat, low: Byte, x: Byte, q: nat, r: nat)
    requires h == 256 * n + low && Xor8(low, b) == x
    requires (256 * n + x) * FNV_PRIME == q * WORD + r && r < WORD
    ensures Mix(h, b) == r
  {
    LowAndHigh(h, n, low);
    Wraps((256 * n + x) * FNV_PRIME, q, r);
  }

  // ----- Nibbles -----

  function Pow16(n: nat): nat {
    if n == 0 then 1 else 16 * Pow16(n - 1)
  }

  /** The nibble at a trie level, cut out of the key by shifting and masking. */
  function NibbleAt(key: nat, level: nat): Nibble
    requires level < NIBBLE_COUNT
  {
    Pow16Positive(NIBBLE_COUNT - 1 - level);
    key / Pow16(NIBBLE_COUNT - 1 - level) % 16
  }

  lemma Pow16Positive(n: nat)
    ensures Pow16(n) > 0
  {
  }

  /** The `n` lowest nibbles of `v`, the most significant one first. */
  function Nibbles(v: nat, n: nat): (p: Path)
    ensures |p| == n
  {
    if n == 0 then [] else Nibbles(v / 16, n - 1) + [v % 16]
  }

  /** The path of a key: at each level the nibble that the walk cuts out. */
  function KeyPath(key: nat): (p: Path)
    ensures |p| == NIBBLE_COUNT
  {
    seq(NIBBLE_COUNT, level requires 0 <= level < NIBBLE_COUNT => NibbleAt(key, level))
  }

  lemma {:induction false} NibblesAt(v: nat, n: nat, i: nat)
    requires i < n
    ensures Pow16(n - 1 - i) > 0 && Nibbles(v, n)[i] == v / Pow16(n - 1 - i) % 16
    decreases n
  {
    Pow16Positive(n - 1 - i);
    if i < n - 1 {
      NibblesAt(v / 16, n - 1, i);
      DivDiv(v, Pow16(n - 2 - i));
    }
  }

  lemma DivDiv(v: nat, d: nat)
    requires d > 0
    ensures v / (16 * d) == v / 16 / d
  {
    var q, r := v / 16 / d, v / 16 % d;
    assert v / 16 == d * q + r;
    var s := v % 16;
    assert v == 16 * (v / 16) + s;
    assert v == (16 * d) * q + (16 * r + s) by {
      assert 16 * (d * q + r) == (16 * d) * q + 16 * r;
    }
    assert 16 * r + s < 16 * d;
    QuotientUnique(v, 16 * d, q, 16 * r + s);
  }

  lemma QuotientUnique(v: nat, d: nat, q: nat, r: nat)
    requires d > 0 && v == d * q + r && r < d
    ensures v / d == q
  {
    var x := q - v / d;
    assert d * x == v % d - r by {
      assert v == d * (v / d) + v % d;
      assert d * x == d * q - d * (v / d);
    }
    MultipleIsFar(d, x);
  }

  lemma MultipleIsFar(d: nat, x: int)
    ensures x >= 1 ==> d * x >= d
    ensures x <= -1 ==> d * x + d <= 0
  {
    assert d * x == d * (x - 1) + d;
    assert d * x == d * (x + 1) - d;
  }

  /** The walk and the key agree on every nibble. */
  lemma KeyPathAt(key: nat, level: nat)
    requires level < NIBBLE_COUNT
    ensures KeyPath(key)[level] == NibbleAt(key, level)
  {
  }

  /** The path consists of the key's lowest nibbles, whatever the way they are cut out. */
  lemma KeyPathIsNibbles(key: nat)
    ensures KeyPath(key) == Nibbles(key, NIBBLE_COUNT)
  {
    forall i | 0 <= i < NIBBLE_COUNT ensures KeyPath(key)[i] == Nibbles(key, NIBBLE_COUNT)[i] {
      NibblesAt(key, NIBBLE_COUNT, i);
    }
  }

  lemma {:induction false} NibblesInjective(a: nat, b: nat, n: nat)
    requires a < Pow16(n) && b < Pow16(n) && Nibbles(a, n) == Nibbles(b, n)
    ensures a == b
  {
    if n > 0 {
      var p, q := Nibbles(a, n), Nibbles(b, n);
      assert p[..n - 1] == Nibbles(a / 16, n - 1) && q[..n - 1] == Nibbles(b / 16, n - 1);
      assert p[n - 1] == a % 16 && q[n - 1] == b % 16;
      NibblesInjective(a / 16, b / 16, n - 1);
    }
  }

  /** Different 44-bit keys have different paths in the trie. */
  lemma KeyPathInjective(a: nat, b: nat)
    requires a < KEY_SPACE && b < KEY_SPACE && KeyPath(a) == KeyPath(b)
    ensures a == b
  {
    assert Pow16(11) == KEY_SPACE by {
      assert Pow16(3) == 0x1000 && Pow16(6) == 0x100_0000 && Pow16(9) == 0x10_0000_0000;
    }
    KeyPathIsNibbles(a);
    KeyPathIsNibbles(b);
    NibblesInjective(a, b, NIBBLE_COUNT);
  }
}
