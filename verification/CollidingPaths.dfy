/**
  Two acceptable paths with the same 44-bit key.
 */
module CollidingPaths {
  import opened ExclusiveOr
  import opened PathKey
  import opened Sutf8
  import opened VolumeTable

  /** "mv8c8c" */
  function FirstPath(): CString {
    [109, 118, 56, 99, 56, 99]
  }

  /** "p0vtji" */
  function SecondPath(): CString {
    [112, 48, 118, 116, 106, 105]
  }

  ghost predicate RoundAt(s: seq<Byte>, words: seq<nat>, i: nat)
    requires i < |s| < |words|
  {
    words[i + 1] == Mix(words[i], s[i])
  }

  /** The hash from the words between the rounds. */
  lemma {:induction false} Rounds(s: seq<Byte>, words: seq<nat>, k: nat)
    requires k <= |s| < |words| && words[0] == FNV_OFFSET && forall i: nat | i < k :: RoundAt(s, words, i)
    ensures Fnv1a(s[..k]) == words[k]
  {
    if k > 0 {
      Rounds(s, words, k - 1);
      assert RoundAt(s, words, k - 1);
      NextRound(s[..k - 1], s[k - 1], words[k - 1]);
      assert s[..k] == s[..k - 1] + [s[k - 1]];
    }
  }

  lemma HashFromWords(s: seq<Byte>, words: seq<nat>)
    requires |words| == |s| + 1 && words[0] == FNV_OFFSET && forall i: nat | i < |s| :: RoundAt(s, words, i)
    ensures HashPath(s) == words[|s|] % KEY_SPACE
  {
    Rounds(s, words, |s|);
    assert s[..|s|] == s;
  }

  lemma SixRounds(s: seq<Byte>, h1: nat, h2: nat, h3: nat, h4: nat, h5: nat, h6: nat)
    requires |s| == 6 && Mix(FNV_OFFSET, s[0]) == h1 && Mix(h1, s[1]) == h2 && Mix(h2, s[2]) == h3
    requires Mix(h3, s[3]) == h4 && Mix(h4, s[4]) == h5 && Mix(h5, s[5]) == h6
    ensures HashPath(s) == h6 % KEY_SPACE
  {
    var words := [FNV_OFFSET, h1, h2, h3, h4, h5, h6];
    assert RoundAt(s, words, 0) && RoundAt(s, words, 1) && RoundAt(s, words, 2);
    assert RoundAt(s, words, 3) && RoundAt(s, words, 4) && RoundAt(s, words, 5);
    HashFromWords(s, words);
  }

  lemma First1(h: nat)
    requires h == FNV_OFFSET
    ensures Mix(h, 109) == 12638191598602154840
  {
    assert XorBits(0, 1, 2) == 1;
    assert XorBits(2, 6, 4) == 4;
    assert XorBits(9, 27, 6) == 18;
    assert Xor8(37, 109) == 72;
    MixIs(h, 109, 57406175934947875, 37, 72, 875948729822, 12638191598602154840);
  }

  lemma First2(h: nat)
    requires h == 12638191598602154840
    ensures Mix(h, 118) == 624118017404450602
  {
    assert XorBits(1, 1, 2) == 0;
    assert XorBits(5, 7, 4) == 2;
    assert XorBits(22, 29, 6) == 11;
    assert Xor8(88, 118) == 46;
    MixIs(h, 118, 49367935932039667, 88, 46, 753294921136, 624118017404450602);
  }

  lemma First3(h: nat)
    requires h == 624118017404450602
    ensures Mix(h, 56) == 570284903255348118
  {
    assert XorBits(0, 0, 2) == 0;
    assert XorBits(2, 3, 4) == 1;
    assert XorBits(10, 14, 6) == 4;
    assert Xor8(42, 56) == 18;
    MixIs(h, 56, 2437961005486135, 42, 18, 37200332740, 570284903255348118);
  }

  lemma First4(h: nat)
    requires h == 570284903255348118
    ensures Mix(h, 99) == 13856340900698024271
  {
    assert XorBits(2, 1, 2) == 3;
    assert XorBits(9, 6, 4) == 15;
    assert XorBits(37, 24, 6) == 61;
    assert Xor8(150, 99) == 245;
    MixIs(h, 99, 2227675403341203, 150, 245, 33991629092, 13856340900698024271);
  }

  lemma First5(h: nat)
    requires h == 13856340900698024271
    ensures Mix(h, 56) == 10584760163020387637
  {
    assert XorBits(1, 0, 2) == 1;
    assert XorBits(4, 3, 4) == 7;
    assert XorBits(19, 14, 6) == 29;
    assert Xor8(79, 56) == 119;
    MixIs(h, 56, 54126331643351657, 79, 119, 825902277599, 10584760163020387637);
  }

  lemma First6(h: nat)
    requires h == 10584760163020387637
    ensures Mix(h, 99) == 2571555601442513186
  {
    assert XorBits(0, 1, 2) == 1;
    assert XorBits(3, 6, 4) == 5;
    assert XorBits(13, 24, 6) == 21;
    assert Xor8(53, 99) == 86;
    MixIs(h, 99, 41346719386798389, 53, 86, 630900869799, 2571555601442513186);
  }

  lemma FirstHash()
    ensures HashPath(FirstPath()) == 0x31e025a122
  {
    First1(FNV_OFFSET);
    First2(12638191598602154840);
    First3(624118017404450602);
    First4(570284903255348118);
    First5(13856340900698024271);
    First6(10584760163020387637);
    SixRounds(FirstPath(), 12638191598602154840, 624118017404450602, 570284903255348118,
              13856340900698024271, 10584760163020387637, 2571555601442513186);
  }

  lemma Second1(h: nat)
    requires h == FNV_OFFSET
    ensures Mix(h, 112) == 12638205892253321583
  {
    assert XorBits(0, 1, 2) == 1;
    assert XorBits(2, 7, 4) == 5;
    assert XorBits(9, 28, 6) == 21;
    assert Xor8(37, 112) == 85;
    MixIs(h, 112, 57406175934947875, 37, 85, 875948729822, 12638205892253321583);
  }

  lemma Second2(h: nat)
    requires h == 12638205892253321583
    ensures Mix(h, 48) == 636582081219390573
  {
    assert XorBits(1, 0, 2) == 1;
    assert XorBits(6, 3, 4) == 5;
    assert XorBits(27, 12, 6) == 23;
    assert Xor8(111, 48) == 95;
    MixIs(h, 48, 49367991766614537, 111, 95, 753295773104, 636582081219390573);
  }

  lemma Second3(h: nat)
    requires h == 636582081219390573
    ensures Mix(h, 118) == 8709240508546822625
  {
    assert XorBits(1, 1, 2) == 0;
    assert XorBits(6, 7, 4) == 1;
    assert XorBits(27, 29, 6) == 6;
    assert Xor8(109, 118) == 27;
    MixIs(h, 118, 2486648754763244, 109, 27, 37943248836, 8709240508546822625);
  }

  lemma Second4(h: nat)
    requires h == 8709240508546822625
    ensures Mix(h, 116) == 13868571236142170159
  {
    assert XorBits(3, 1, 2) == 2;
    assert XorBits(14, 7, 4) == 9;
    assert XorBits(56, 29, 6) == 37;
    assert Xor8(225, 116) == 149;
    MixIs(h, 116, 34020470736511025, 225, 149, 519111186980, 13868571236142170159);
  }

  lemma Second5(h: nat)
    requires h == 13868571236142170159
    ensures Mix(h, 106) == 9119946792032089407
  {
    assert XorBits(0, 1, 2) == 1;
    assert XorBits(2, 6, 4) == 4;
    assert XorBits(11, 26, 6) == 17;
    assert Xor8(47, 106) == 69;
    MixIs(h, 106, 54174106391180352, 47, 69, 826631262399, 9119946792032089407);
  }

  lemma Second6(h: nat)
    requires h == 9119946792032089407
    ensures Mix(h, 105) == 11013781801367085346
  {
    assert XorBits(0, 1, 2) == 1;
    assert XorBits(3, 6, 4) == 5;
    assert XorBits(15, 26, 6) == 21;
    assert Xor8(63, 105) == 86;
    MixIs(h, 105, 35624792156375349, 63, 86, 543591189124, 11013781801367085346);
  }

  lemma SecondHash()
    ensures HashPath(SecondPath()) == 0x31e025a122
  {
    Second1(FNV_OFFSET);
    Second2(12638205892253321583);
    Second3(636582081219390573);
    Second4(8709240508546822625);
    Second5(13868571236142170159);
    Second6(9119946792032089407);
    SixRounds(SecondPath(), 12638205892253321583, 636582081219390573, 8709240508546822625,
              13868571236142170159, 9119946792032089407, 11013781801367085346);
  }

  /** The two paths differ, both are acceptable, and the index cannot tell them apart. */
  lemma Collision()
    ensures FirstPath() != SecondPath() && HashPath(FirstPath()) == HashPath(SecondPath())
    ensures GoodLength(FirstPath()) && IsSutf8(FirstPath())
    ensures GoodLength(SecondPath()) && IsSutf8(SecondPath())
  {
    FirstHash();
    SecondHash();
    AsciiIsSutf8(FirstPath());
    AsciiIsSutf8(SecondPath());
  }
}
