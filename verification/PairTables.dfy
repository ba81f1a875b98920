/**
  The two fixed tables of the bidirectional engine: mirrored characters (rule L4) and bracket
  pairs (rule N0), both searched from the front.
 */
module PairTables {

  const UNICODE_MAX: nat := 0x10FFFF

  const MIRRORS: seq<(nat, nat)> := [
    (0x0028, 0x0029), (0x0029, 0x0028), (0x003C, 0x003E), (0x003E, 0x003C),
    (0x005B, 0x005D), (0x005D, 0x005B), (0x007B, 0x007D), (0x007D, 0x007B),
    (0x00AB, 0x00BB), (0x00BB, 0x00AB), (0x2018, 0x2019), (0x2019, 0x2018),
    (0x201C, 0x201D), (0x201D, 0x201C), (0x2039, 0x203A), (0x203A, 0x2039),
    (0x27E6, 0x27E7), (0x27E7, 0x27E6), (0x27E8, 0x27E9), (0x27E9, 0x27E8),
    (0x27EA, 0x27EB), (0x27EB, 0x27EA), (0x2772, 0x2773), (0x2773, 0x2772),
    (0x301A, 0x301B), (0x301B, 0x301A), (0xFF08, 0xFF09), (0xFF09, 0xFF08),
    (0xFF3B, 0xFF3D), (0xFF3D, 0xFF3B), (0xFF5B, 0xFF5D), (0xFF5D, 0xFF5B)]

  const BRACKETS: seq<(nat, nat)> := [
    (0x0028, 0x0029), (0x005B, 0x005D), (0x007B, 0x007D), (0x00AB, 0x00BB),
    (0x2018, 0x2019), (0x201C, 0x201D), (0x2039, 0x203A), (0x27E6, 0x27E7),
    (0x27E8, 0x27E9), (0x27EA, 0x27EB), (0x2772, 0x2773), (0x301A, 0x301B),
    (0xFF08, 0xFF09), (0xFF3B, 0xFF3D), (0xFF5B, 0xFF5D)]

  datatype Partner = Alone | With(cp: nat)

  /** The partner of the first entry for `cp` at or after `i`. */
  function FirstMatch(table: seq<(nat, nat)>, cp: nat, i: nat): Partner
    requires i <= |table|
    decreases |table| - i
  {
    if i == |table| then Alone
    else if table[i].0 == cp then With(table[i].1)
    else FirstMatch(table, cp, i + 1)
  }

  method Search(table: seq<(nat, nat)>, cp: nat) returns (p: Partner)
    ensures p == FirstMatch(table, cp, 0)
  {
    for i := 0 to |table|
      invariant FirstMatch(table, cp, 0) == FirstMatch(table, cp, i)
    {
      if table[i].0 == cp {
        return With(table[i].1);
      }
    }
    return Alone;
  }

  function CloseOf(cp: nat): Partner {
    FirstMatch(BRACKETS, cp, 0)
  }

  function MirrorOf(cp: nat): Partner {
    if cp > UNICODE_MAX then Alone else FirstMatch(MIRRORS, cp, 0)
  }

  method BidiMirror(cp: nat) returns (paired: nat, mirrored: bool)
    ensures mirrored <==> MirrorOf(cp).With?
    ensures paired == if MirrorOf(cp).With? then MirrorOf(cp).cp else cp
  {
    if cp > UNICODE_MAX {
      return cp, false;
    }
    var p := Search(MIRRORS, cp);
    match p {
      case With(q) => return q, true;
      case Alone => return cp, false;
    }
  }

  lemma {:induction false} FoundAt(table: seq<(nat, nat)>, cp: nat, i: nat) returns (k: nat)
    requires i <= |table| && FirstMatch(table, cp, i).With?
    ensures i <= k < |table| && table[k] == (cp, FirstMatch(table, cp, i).cp)
    decreases |table| - i
  {
    if table[i].0 == cp {
      k := i;
    } else {
      k := FoundAt(table, cp, i + 1);
    }
  }

  /** Searching from the front, an entry is found unless an earlier one has the same key. */
  lemma {:induction false} Finds(table: seq<(nat, nat)>, i: nat, k: nat)
    requires i <= k < |table| && forall j | i <= j < k :: table[j].0 != table[k].0
    ensures FirstMatch(table, table[k].0, i) == With(table[k].1)
    decreases k - i
  {
    if i < k {
      Finds(table, i + 1, k);
    }
  }

  /** The mirror table is sorted but for two entries, 0x2772 and 0x2773, that come six places late. */
  lemma AlmostSorted(k: nat)
    requires k + 1 < |MIRRORS|
    ensures k != 21 ==> MIRRORS[k].0 < MIRRORS[k + 1].0
    ensures MIRRORS[15].0 < MIRRORS[22].0 < MIRRORS[23].0 < MIRRORS[16].0 < MIRRORS[21].0 < MIRRORS[24].0
  {
  }

  lemma {:induction false} Climbs(j: nat, k: nat)
    requires j < k < |MIRRORS| && (k <= 21 || 22 <= j)
    ensures MIRRORS[j].0 < MIRRORS[k].0
  {
    AlmostSorted(k - 1);
    if j < k - 1 {
      Climbs(j, k - 1);
    }
  }

  lemma KeysDiffer(j: nat, k: nat)
    requires j < k < |MIRRORS|
    ensures MIRRORS[j].0 != MIRRORS[k].0
  {
    AlmostSorted(0);
    if k <= 21 || 22 <= j {
      Climbs(j, k);
    } else {
      if j < 15 { Climbs(j, 15); }
      if j > 16 { Climbs(16, j); }
      if j < 21 { Climbs(j, 21); }
      if k > 22 { Climbs(22, k); }
      if k > 24 { Climbs(24, k); }
    }
  }

  /** Entries `2h` and `2h + 1` are each the reverse of the other. */
  predicate PairsUp(table: seq<(nat, nat)>, h: nat)
    requires 2 * h + 1 < |table|
  {
    table[2 * h + 1] == (table[2 * h].1, table[2 * h].0) && table[2 * h].0 < table[2 * h].1 <= UNICODE_MAX
  }

  lemma MirrorsPairUp(h: nat)
    requires 2 * h + 1 < |MIRRORS|
    ensures PairsUp(MIRRORS, h)
  {
  }

  lemma Reverse(table: seq<(nat, nat)>, k: nat) returns (m: nat)
    requires k < |table| && |table| % 2 == 0 && forall h: nat | 2 * h + 1 < |table| :: PairsUp(table, h)
    ensures m < |table| && table[m] == (table[k].1, table[k].0)
    ensures table[k].0 != table[k].1 && table[k].0 <= UNICODE_MAX && table[k].1 <= UNICODE_MAX
  {
    assert PairsUp(table, k / 2);
    m := 4 * (k / 2) + 1 - k;
  }

  lemma ReverseMirror(k: nat) returns (m: nat)
    requires k < |MIRRORS|
    ensures m < |MIRRORS| && MIRRORS[m] == (MIRRORS[k].1, MIRRORS[k].0)
    ensures MIRRORS[k].0 != MIRRORS[k].1 && MIRRORS[k].0 <= UNICODE_MAX
  {
    forall h: nat | 2 * h + 1 < |MIRRORS| ensures PairsUp(MIRRORS, h) {
      MirrorsPairUp(h);
    }
    m := Reverse(MIRRORS, k);
  }

  lemma MirrorEntry(k: nat)
    requires k < |MIRRORS|
    ensures MirrorOf(MIRRORS[k].0) == With(MIRRORS[k].1)
  {
    forall j | 0 <= j < k ensures MIRRORS[j].0 != MIRRORS[k].0 {
      KeysDiffer(j, k);
    }
    Finds(MIRRORS, 0, k);
    var _ := ReverseMirror(k);
  }

  /** Mirroring twice gives the character back. */
  lemma MirroredTwice(cp: nat)
    requires MirrorOf(cp).With?
    ensures MirrorOf(MirrorOf(cp).cp) == With(cp) && MirrorOf(cp).cp != cp
  {
    var k := FoundAt(MIRRORS, cp, 0);
    var m := ReverseMirror(k);
    MirrorEntry(m);
  }

  /** Every bracket pair is an entry of the mirror table. */
  lemma BracketAt(k: nat) returns (m: nat)
    requires k < |BRACKETS|
    ensures m < |MIRRORS| && MIRRORS[m] == BRACKETS[k]
  {
    m := if k == 0 then 0 else 2 * k + 2;
  }

  /** Every opening bracket mirrors to the closing one of its pair. */
  lemma BracketsMirror(cp: nat)
    requires CloseOf(cp).With?
    ensures MirrorOf(cp) == CloseOf(cp)
  {
    var k := FoundAt(BRACKETS, cp, 0);
    var m := BracketAt(k);
    MirrorEntry(m);
  }

  lemma {:induction false} FindsSome(table: seq<(nat, nat)>, cp: nat, i: nat, k: nat)
    requires i <= k < |table| && table[k].0 == cp
    ensures FirstMatch(table, cp, i).With?
    decreases k - i
  {
    if i < k {
      FindsSome(table, cp, i + 1, k);
    }
  }

  /** Exactly the entries of the table are mirrored. */
  lemma MirrorExactly(cp: nat, q: nat)
    ensures MirrorOf(cp) == With(q) <==> (cp, q) in MIRRORS
  {
    if MirrorOf(cp) == With(q) {
      var k := FoundAt(MIRRORS, cp, 0);
    }
    if k: nat :| k < |MIRRORS| && MIRRORS[k] == (cp, q) {
      MirrorEntry(k);
    }
  }

  /** Exactly the entries of the table are opening brackets. */
  lemma CloseExactly(cp: nat, q: nat)
    ensures CloseOf(cp) == With(q) <==> (cp, q) in BRACKETS
  {
    if CloseOf(cp) == With(q) {
      var k := FoundAt(BRACKETS, cp, 0);
    }
    if k: nat :| k < |BRACKETS| && BRACKETS[k] == (cp, q) {
      FindsSome(BRACKETS, cp, 0, k);
      BracketsMirror(cp);
      var m := BracketAt(k);
      MirrorEntry(m);
    }
  }
}
