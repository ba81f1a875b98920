/**
  Short paths whose keys begin with chosen nibbles: one of six beginnings and one more character, such
  that the last FNV-1a round multiplies a known low byte.  The keys of the first four groups of sixteen
  all differ in their first two nibbles; those of the last two share them with the second and third.
 */
module CrowdedPaths {
  import opened ExclusiveOr
  import opened PathTrie
  import opened PathKey
  import opened Sutf8
  import opened VolumeTable

  const FULL: nat := 49

  // ----- The paths -----

  function Letters(n: nat): (p: seq<Byte>)
    ensures |p| == n && forall i | 0 <= i < n :: p[i] == 97
  {
    if n == 0 then [] else Letters(n - 1) + [97]
  }

  /** The beginning of the paths of group `g`. */
  function Prefix(g: nat): (p: seq<Byte>)
    requires g < 6
    ensures 1 <= |p| <= 4 && forall i | 0 <= i < |p| :: 97 <= p[i] <= 112
  {
    match g
    case 4 => [100, 97]
    case 5 => [97, 112, 97]
    case _ => Letters(g + 1)
  }

  /** The low byte of its hash. */
  function LowByte(g: nat): Byte {
    match g
    case 0 => 140
    case 1 => 183
    case 2 => 162
    case 3 => 89
    case 4 => 150
    case _ => 111
  }

  /** The low byte after the last letter has been mixed in. */
  function Mixed(g: nat, v: nat): Byte
    requires v < 16
  {
    (match g case 0 => 224 case 1 => 208 case 2 => 192 case 3 => 48 case 4 => 240 case _ => 0) + v
  }

  lemma HighHalves(g: nat)
    ensures XorBits(LowByte(g) / 16, Mixed(g, 0) / 16, 4) == 6
  {
    assert XorBits(2, 3, 2) == XorBits(1, 0, 2) == XorBits(0, 1, 2) == 1;
    match g
    case 0 => assert XorBits(8, 14, 4) == 6;
    case 1 => assert XorBits(11, 13, 4) == 6;
    case 2 => assert XorBits(10, 12, 4) == 6;
    case 3 => assert XorBits(5, 3, 4) == 6;
    case 4 => assert XorBits(9, 15, 4) == 6;
    case _ => assert XorBits(6, 0, 4) == 6;
  }

  lemma LetterRange(low: nat, x: nat)
    requires XorBits(low / 16, x / 16, 4) == 6
    ensures 0x60 <= Xor8(low, x) <= 0x6F
  {
    XorHigh(low, x);
  }

  function LastLetter(g: nat, v: nat): (b: Byte)
    requires v < 16
    ensures 0x60 <= b <= 0x6F
  {
    HighHalves(g);
    assert Mixed(g, v) / 16 == Mixed(g, 0) / 16;
    LetterRange(LowByte(g), Mixed(g, v));
    Xor8(LowByte(g), Mixed(g, v))
  }

  function Crowd(j: nat): (path: CString)
    requires j < 96
    ensures |path| <= 5 && forall i | 0 <= i < |path| :: 0 < path[i] < 0x80
  {
    Prefix(j / 16) + [LastLetter(j / 16, j % 16)]
  }

  lemma CrowdIsGood(j: nat)
    requires j < 96
    ensures GoodLength(Crowd(j)) && IsSutf8(Crowd(j))
  {
    AsciiIsSutf8(Crowd(j));
  }

  // ----- Their keys -----

  /** The rest of the hash. */
  function LettersHigh(g: nat): nat {
    match g
    case 0 => 12638187200555641856
    case 1 => 620444549055354368
    case 2 => 16653392337757490432
    case 3 => 17663506432727785984
    case 4 => 617361518450418432
    case _ => 16667743163526062080
  }

  function LettersHash(g: nat): nat {
    LettersHigh(g) + LowByte(g)
  }

  lemma XorLetter0()
    ensures Xor8(0x25, 97) == 68
  {
    assert XorBits(0, 1, 2) == 1;
    assert XorBits(2, 6, 4) == 4;
    assert XorBits(9, 24, 6) == 17;
  }

  lemma XorLetter1()
    ensures Xor8(140, 97) == 237
  {
    assert XorBits(2, 1, 2) == 3;
    assert XorBits(8, 6, 4) == 14;
    assert XorBits(35, 24, 6) == 59;
  }

  lemma XorLetter2()
    ensures Xor8(183, 97) == 214
  {
    assert XorBits(2, 1, 2) == 3;
    assert XorBits(11, 6, 4) == 13;
    assert XorBits(45, 24, 6) == 53;
  }

  lemma XorLetter3()
    ensures Xor8(162, 97) == 195
  {
    assert XorBits(2, 1, 2) == 3;
    assert XorBits(10, 6, 4) == 12;
    assert XorBits(40, 24, 6) == 48;
  }

  lemma FirstRound(h: nat)
    requires h == FNV_OFFSET
    ensures Mix(h, 97) == LettersHash(0)
  {
    XorLetter0();
    MixIs(h, 97, 57406175934947875, 0x25, 68, 875948729822, LettersHash(0));
  }

  lemma SecondRound(h: nat)
    requires h == LettersHash(0)
    ensures Mix(h, 97) == LettersHash(1)
  {
    XorLetter1();
    MixIs(h, 97, 49367918752170476, 140, 237, 753294658992, LettersHash(1));
  }

  lemma ThirdRound(h: nat)
    requires h == LettersHash(1)
    ensures Mix(h, 97) == LettersHash(2)
  {
    XorLetter2();
    MixIs(h, 97, 2423611519747478, 183, 214, 36981376963, LettersHash(2));
  }

  lemma FourthRound(h: nat)
    requires h == LettersHash(2)
    ensures Mix(h, 97) == LettersHash(3)
  {
    XorLetter3();
    MixIs(h, 97, 65052313819365197, 162, 195, 992619534989, LettersHash(3));
  }

  lemma {:induction false} LettersHashed(g: nat)
    requires g < 4
    ensures Fnv1a(Letters(g + 1)) == LettersHash(g)
  {
    if g > 0 {
      LettersHashed(g - 1);
    }
    var h := Fnv1a(Letters(g));
    NextRound(Letters(g), 97, h);
    match g
    case 0 => FirstRound(h);
    case 1 => SecondRound(h);
    case 2 => ThirdRound(h);
    case _ => FourthRound(h);
  }

  lemma RoundOfD(h: nat)
    requires h == FNV_OFFSET
    ensures Mix(h, 100) == 12638183902020757363
  {
    assert XorBits(0, 1, 2) == 1;
    assert XorBits(2, 6, 4) == 4;
    assert XorBits(9, 25, 6) == 16;
    assert Xor8(37, 100) == 65;
    MixIs(h, 100, 57406175934947875, 37, 65, 875948729822, 12638183902020757363);
  }

  lemma RoundAfterD(h: nat)
    requires h == 12638183902020757363
    ensures Mix(h, 97) == LettersHash(4)
  {
    assert XorBits(1, 1, 2) == 0;
    assert XorBits(7, 6, 4) == 1;
    assert XorBits(28, 24, 6) == 4;
    assert Xor8(115, 97) == 18;
    MixIs(h, 97, 49367905867268583, 115, 18, 753294462384, LettersHash(4));
  }

  lemma RoundOfP(h: nat)
    requires h == LettersHash(0)
    ensures Mix(h, 112) == 620461041729777716
  {
    assert XorBits(2, 1, 2) == 3;
    assert XorBits(8, 7, 4) == 15;
    assert XorBits(35, 28, 6) == 63;
    assert Xor8(140, 112) == 252;
    MixIs(h, 112, 49367918752170476, 140, 252, 753294658992, 620461041729777716);
  }

  lemma RoundAfterP(h: nat)
    requires h == 620461041729777716
    ensures Mix(h, 97) == LettersHash(5)
  {
    assert XorBits(0, 1, 2) == 1;
    assert XorBits(3, 6, 4) == 5;
    assert XorBits(13, 24, 6) == 21;
    assert Xor8(52, 97) == 85;
    MixIs(h, 97, 2423675944256944, 52, 85, 36982360003, LettersHash(5));
  }

  lemma OtherHashed()
    ensures Fnv1a(Prefix(4)) == LettersHash(4) && Fnv1a(Prefix(5)) == LettersHash(5)
  {
    RoundOfD(FNV_OFFSET);
    RoundAfterD(12638183902020757363);
    TwoRounds([], 100, 97, FNV_OFFSET, 12638183902020757363);
    LettersHashed(0);
    RoundOfP(LettersHash(0));
    RoundAfterP(620461041729777716);
    TwoRounds(Letters(1), 112, 97, LettersHash(0), 620461041729777716);
    assert Prefix(4) == [] + [100] + [97] && Prefix(5) == Letters(1) + [112] + [97];
  }

  lemma TwoRounds(p: seq<Byte>, b: Byte, c: Byte, h: nat, h1: nat)
    requires h == Fnv1a(p) && h1 == Mix(h, b)
    ensures Fnv1a(p + [b] + [c]) == Mix(h1, c)
  {
    NextRound(p, b, h);
    NextRound(p + [b], c, h1);
  }

  lemma PrefixHashed(g: nat)
    requires g < 6
    ensures Fnv1a(Prefix(g)) == LettersHash(g)
  {
    if g < 4 {
      LettersHashed(g);
    } else {
      OtherHashed();
    }
  }

  /** The last round, with the low byte `x` of the word once the letter has been mixed in. */
  lemma LastMix(p: seq<Byte>, h: nat, low: Byte, x: Byte, b: Byte)
    requires Fnv1a(p) == h && h % 256 == low && b == Xor8(low, x)
    ensures HashPath(p + [b]) == (h / 256 * 256 + x) * FNV_PRIME % WORD % KEY_SPACE
  {
    XorTwice(low, x);
    NextRound(p, b, h);
  }

  lemma LettersHighIs(g: nat)
    ensures LettersHash(g) % 256 == LowByte(g) && LettersHash(g) / 256 * 256 == LettersHigh(g)
  {
  }

  lemma CrowdHash(j: nat)
    requires j < 96
    ensures HashPath(Crowd(j))
            == (LettersHigh(j / 16) + Mixed(j / 16, j % 16)) * FNV_PRIME % WORD % KEY_SPACE
  {
    var g, v := j / 16, j % 16;
    PrefixHashed(g);
    LettersHighIs(g);
    LastMix(Prefix(g), LettersHash(g), LowByte(g), Mixed(g, v), LastLetter(g, v));
  }

  const TOP: nat := 0x100_0000_0000

  lemma MaskTwice(m: nat)
    ensures m % WORD % KEY_SPACE == m % KEY_SPACE
  {
    var q := m / WORD;
    assert m == WORD * q + m % WORD;
  }

  lemma LowOf(m: nat, q: nat, r: nat)
    requires m == KEY_SPACE * q + r && r < KEY_SPACE
    ensures m % KEY_SPACE == r
  {
  }

  lemma ModSum(a: nat, b: nat, c: nat)
    requires c < TOP
    ensures (KEY_SPACE * a + TOP * b + c) % KEY_SPACE == b % 16 * TOP + c
  {
    LowOf(KEY_SPACE * a + TOP * b + c, a + b / 16, b % 16 * TOP + c);
  }

  /** The product by the prime 2^40 + 435, where the low byte of the other factor is `x`. */
  lemma LastRound(high: nat, x: nat, k: nat)
    requires high % 256 == 0 && x < 256 && k == high * 435 % KEY_SPACE && k % TOP + 435 * x < TOP
    ensures (high + x) * FNV_PRIME % WORD % KEY_SPACE == (k / TOP + x) % 16 * TOP + (k % TOP + 435 * x)
  {
    var m, q, n := (high + x) * FNV_PRIME, high / 256, high * 435 / KEY_SPACE;
    MaskTwice(m);
    assert high == 256 * q;
    assert high * 435 == KEY_SPACE * n + k;
    assert m == KEY_SPACE * (16 * q + n) + (TOP * x + k + 435 * x);
    ModSum(16 * q + n, k / TOP + x, k % TOP + 435 * x);
  }

  lemma NibbleIs(key: nat, level: nat, d: nat)
    requires level < NIBBLE_COUNT && d == Pow16(NIBBLE_COUNT - 1 - level)
    ensures d > 0 && KeyPath(key)[level] == key / d % 16
  {
    KeyPathAt(key, level);
    Pow16Positive(NIBBLE_COUNT - 1 - level);
  }

  lemma HighPowers()
    ensures Pow16(10) == TOP && Pow16(9) == 0x10_0000_0000 && Pow16(8) == 0x1_0000_0000
  {
    assert Pow16(2) == 0x100 && Pow16(4) == 0x1_0000 && Pow16(6) == 0x100_0000;
  }

  lemma SecondOfKey(key: nat, a: nat, c: nat)
    requires key == a * TOP + c && a < 16 && c < TOP
    ensures key / TOP % 16 == a && key / 0x10_0000_0000 % 16 == c / 0x10_0000_0000
  {
    assert key == 0x10_0000_0000 * (16 * a) + c;
  }

  lemma ThirdOfKey(key: nat, a: nat, c: nat)
    requires key == a * TOP + c
    ensures key / 0x1_0000_0000 % 16 == c / 0x1_0000_0000 % 16
  {
    var q, r := c / 0x1_0000_0000, c % 0x1_0000_0000;
    assert key == 0x1_0000_0000 * (256 * a + q) + r;
    SameLow(16 * a, q, key / 0x1_0000_0000);
  }

  lemma SameLow(a: nat, q: nat, n: nat)
    requires n == 16 * a + q
    ensures n % 16 == q % 16
  {
  }

  lemma HeadOfKey(key: nat, a: nat, c: nat)
    requires key == a * TOP + c && a < 16 && c < TOP
    ensures KeyPath(key)[0] == a && KeyPath(key)[1] == c / 0x10_0000_0000
    ensures KeyPath(key)[2] == c / 0x1_0000_0000 % 16
  {
    HighPowers();
    NibbleIs(key, 0, TOP);
    NibbleIs(key, 1, 0x10_0000_0000);
    NibbleIs(key, 2, 0x1_0000_0000);
    SecondOfKey(key, a, c);
    ThirdOfKey(key, a, c);
  }

  function KeyOf(path: CString): (key: Path)
    ensures |key| == NIBBLE_COUNT
  {
    KeyPath(HashPath(path))
  }

  function FirstOffset(g: nat): nat {
    match g
    case 0 => 6
    case 1 => 6
    case 2 => 14
    case 3 => 3
    case 4 => 10
    case _ => 2
  }

  function SecondNibble(g: nat): Nibble {
    match g
    case 0 => 0
    case 1 => 1
    case 2 => 8
    case 3 => 2
    case 4 => 1
    case _ => 8
  }

  function ThirdNibble(g: nat): Nibble {
    match g
    case 0 => 7
    case 1 => 9
    case 2 => 3
    case 3 => 7
    case 4 => 8
    case _ => 4
  }

  /** The first nibble steps through all sixteen values, the second one belongs to the group. */
  function Head(j: nat): Path {
    [(FirstOffset(j / 16) + j % 16) % 16, SecondNibble(j / 16)]
  }

  /** The part of the product that does not depend on the last letter. */
  function Rest(g: nat): nat {
    match g
    case 0 => 6630175671296
    case 1 => 6704531890688
    case 2 => 15959738799872
    case 3 => 3468531910144
    case 4 => 11102294767872
    case _ => 2766834360320
  }

  lemma RestIs(g: nat)
    ensures LettersHigh(g) % 256 == 0 && LettersHigh(g) * 435 % KEY_SPACE == Rest(g)
  {
    match g
    case 0 =>
    case 1 =>
    case 2 =>
    case 3 =>
    case 4 =>
    case _ =>
  }

  lemma RestSplit(g: nat, v: nat, x: nat, c: nat)
    requires g < 6 && v < 16 && x == Mixed(g, v) && c == Rest(g) % TOP + 435 * x
    ensures c < TOP && c / 0x10_0000_0000 == SecondNibble(g) && c / 0x1_0000_0000 % 16 == ThirdNibble(g)
    ensures (Rest(g) / TOP + x) % 16 == (FirstOffset(g) + v) % 16
  {
    assert Rest(g) / TOP == FirstOffset(g);
  }

  lemma CrowdHead(j: nat)
    requires j < 96
    ensures KeyOf(Crowd(j))[..2] == Head(j) && KeyOf(Crowd(j))[2] == ThirdNibble(j / 16)
  {
    var g, v := j / 16, j % 16;
    CrowdHash(j);
    RestIs(g);
    HeadFrom(g, v, HashPath(Crowd(j)), Mixed(g, v), LettersHigh(g), Rest(g));
  }

  lemma HeadFrom(g: nat, v: nat, key: nat, x: nat, high: nat, k: nat)
    requires g < 6 && v < 16 && x == Mixed(g, v) && high % 256 == 0 && k == high * 435 % KEY_SPACE == Rest(g)
    requires key == (high + x) * FNV_PRIME % WORD % KEY_SPACE
    ensures KeyPath(key)[0] == (FirstOffset(g) + v) % 16 && KeyPath(key)[1] == SecondNibble(g)
    ensures KeyPath(key)[2] == ThirdNibble(g)
  {
    RestSplit(g, v, x, k % TOP + 435 * x);
    LastRound(high, x, k);
    HeadOfKey(key, (k / TOP + x) % 16, k % TOP + 435 * x);
  }

  lemma SameStep(f: nat, u: nat, v: nat)
    requires u < 16 && v < 16 && (f + u) % 16 == (f + v) % 16
    ensures u == v
  {
  }

  lemma HeadsDiffer(i: nat, j: nat)
    requires i < 64 && j < 64 && Head(i) == Head(j)
    ensures i == j
  {
    assert SecondNibble(i / 16) == Head(i)[1] == Head(j)[1] == SecondNibble(j / 16);
    assert i / 16 == j / 16;
    SameStep(FirstOffset(i / 16), i % 16, j % 16);
  }
}
