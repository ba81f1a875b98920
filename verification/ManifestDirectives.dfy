/** Directive lines of the manifest reader: a percent sign, a name, white space, a value. */
module ManifestDirectives {
  import opened Options
  import opened ManifestFields
  import opened ManifestRecords

  const NAME_MAX: nat := 16

  predicate IsAlpha(c: char) {
    'a' <= c <= 'z' || 'A' <= c <= 'Z'
  }

  predicate IsGap(c: char) {
    c == ' ' || c == '\t'
  }

  predicate IsGraphic(c: char) {
    0x20 < c as int <= 0x7E
  }

  /** The first position from `i` on that does not hold a letter. */
  function AlphaEnd(s: string, i: nat): (e: nat)
    requires i <= |s|
    ensures i <= e <= |s| && (forall k | i <= k < e :: IsAlpha(s[k])) && (e < |s| ==> !IsAlpha(s[e]))
    decreases |s| - i
  {
    if i < |s| && IsAlpha(s[i]) then AlphaEnd(s, i + 1) else i
  }

  /** The first position from `i` on that does not hold a space or a tab. */
  function GapEnd(s: string, i: nat): (e: nat)
    requires i <= |s|
    ensures i <= e <= |s| && (forall k | i <= k < e :: IsGap(s[k])) && (e < |s| ==> !IsGap(s[e]))
    decreases |s| - i
  {
    if i < |s| && IsGap(s[i]) then GapEnd(s, i + 1) else i
  }

  /** What is wrong with a directive line. */
  function DirectiveError(line: string): ScmsError {
    if |line| >= MAX_LINE then LineTooLong
    else if |line| < 3 || line[0] != '%' then BadDirective
    else
      var n := AlphaEnd(line, 1);
      if !(1 <= n - 1 <= NAME_MAX) || n == |line| || !IsGap(line[n]) then BadDirective
      else
        var v := GapEnd(line, n);
        if v == |line| || exists k :: v <= k < |line| && !IsGraphic(line[k]) then BadDirective
        else NoError
  }

  function NameOf(line: string): string
    requires DirectiveError(line) == NoError
  {
    line[1..AlphaEnd(line, 1)]
  }

  function ValueOf(line: string): string
    requires DirectiveError(line) == NoError
  {
    line[GapEnd(line, AlphaEnd(line, 1))..]
  }

  method ValidateDirective(line: string) returns (why: ScmsError)
    ensures why == DirectiveError(line)
  {
    if |line| >= MAX_LINE {
      return LineTooLong;
    }
    if |line| < 3 || line[0] != '%' {
      return BadDirective;
    }
    var i := 1;
    while i < |line| && IsAlpha(line[i])
      invariant 1 <= i <= |line| && AlphaEnd(line, i) == AlphaEnd(line, 1)
    {
      i := i + 1;
    }
    if i - 1 == 0 || i - 1 > NAME_MAX {
      return BadDirective;
    }
    if i >= |line| || !IsGap(line[i]) {
      return BadDirective;
    }
    ghost var n := i;
    while i < |line| && IsGap(line[i])
      invariant n <= i <= |line| && GapEnd(line, i) == GapEnd(line, n)
    {
      i := i + 1;
    }
    if |line| - i == 0 {
      return BadDirective;
    }
    ghost var v := i;
    while i < |line|
      invariant v <= i <= |line| && forall k | v <= k < i :: IsGraphic(line[k])
    {
      if !IsGraphic(line[i]) {
        return BadDirective;
      }
      i := i + 1;
    }
    return NoError;
  }

  /** Compares the name of a directive, which ends at the first space or tab. */
  method NameIs(line: string, name: string) returns (same: bool)
    requires DirectiveError(line) == NoError
    ensures same <==> NameOf(line) == name
  {
    ghost var n := AlphaEnd(line, 1);
    var i, j := 1, 0;
    while i < |line| && !IsGap(line[i])
      invariant 1 <= i <= n && j == i - 1 <= |name| && line[1..i] == name[..j]
    {
      if j == |name| || line[i] != name[j] {
        assert line[1..n][j] == line[i];
        return false;
      }
      assert line[1..i + 1] == line[1..i] + [line[i]] && name[..j + 1] == name[..j] + [name[j]];
      i, j := i + 1, j + 1;
    }
    return j == |name|;
  }

  method ValueOffset(line: string) returns (i: nat)
    requires DirectiveError(line) == NoError
    ensures i <= |line| && line[i..] == ValueOf(line)
  {
    ghost var n := AlphaEnd(line, 1);
    i := 1;
    while i < |line| && !IsGap(line[i])
      invariant 1 <= i <= n
    {
      i := i + 1;
    }
    while i < |line| && IsGap(line[i])
      invariant n <= i <= |line| && GapEnd(line, i) == GapEnd(line, n)
    {
      i := i + 1;
    }
  }

  // ----- The grammar -----

  /** A percent sign, one to sixteen letters, spaces or tabs, and printable characters without a space. */
  predicate IsDirective(line: string, name: string, gap: string, value: string) {
    && |line| < 128 && line == "%" + name + gap + value
    && 1 <= |name| <= 16 && (forall k | 0 <= k < |name| :: 'a' <= name[k] <= 'z' || 'A' <= name[k] <= 'Z')
    && |gap| >= 1 && (forall k | 0 <= k < |gap| :: gap[k] in {' ', '\t'})
    && |value| >= 1 && (forall k | 0 <= k < |value| :: '!' <= value[k] <= '~')
  }

  lemma {:induction false} AlphaEndIs(s: string, i: nat, e: nat)
    requires i <= e <= |s| && (forall k | i <= k < e :: IsAlpha(s[k])) && (e < |s| ==> !IsAlpha(s[e]))
    ensures AlphaEnd(s, i) == e
    decreases e - i
  {
    if i < e {
      AlphaEndIs(s, i + 1, e);
    }
  }

  lemma {:induction false} GapEndIs(s: string, i: nat, e: nat)
    requires i <= e <= |s| && (forall k | i <= k < e :: IsGap(s[k])) && (e < |s| ==> !IsGap(s[e]))
    ensures GapEnd(s, i) == e
    decreases e - i
  {
    if i < e {
      GapEndIs(s, i + 1, e);
    }
  }

  /** A directive can be taken apart in only one way, and the reader finds it. */
  lemma DirectiveParts(line: string, name: string, gap: string, value: string)
    requires IsDirective(line, name, gap, value)
    ensures DirectiveError(line) == NoError && NameOf(line) == name && ValueOf(line) == value
  {
    var n, v := 1 + |name|, 1 + |name| + |gap|;
    assert line[1..n] == name && line[n..v] == gap && line[v..] == value;
    assert line[n] == gap[0] && line[v] == value[0];
    forall k | 1 <= k < n ensures IsAlpha(line[k]) {
      assert line[k] == name[k - 1];
    }
    forall k | n <= k < v ensures IsGap(line[k]) {
      assert line[k] == gap[k - n];
    }
    AlphaEndIs(line, 1, n);
    GapEndIs(line, n, v);
    forall k | v <= k < |line| ensures IsGraphic(line[k]) {
      assert line[k] == value[k - v];
    }
  }

  lemma DirectiveExact(line: string)
    ensures DirectiveError(line) == NoError
            <==> exists name: string, gap: string, value: string :: IsDirective(line, name, gap, value)
  {
    if DirectiveError(line) == NoError {
      var n := AlphaEnd(line, 1);
      var v := GapEnd(line, n);
      assert line == line[..1] + line[1..n] + line[n..v] + line[v..];
      assert line[..1] == "%";
      assert IsDirective(line, line[1..n], line[n..v], line[v..]);
    }
    forall name: string, gap: string, value: string | IsDirective(line, name, gap, value)
      ensures DirectiveError(line) == NoError
    {
      DirectiveParts(line, name, gap, value);
    }
  }
}
