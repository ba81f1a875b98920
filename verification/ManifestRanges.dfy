/** Zones, admissible ranges and plane masks of the manifest reader. */
module ManifestRanges {

  const UNICODE_MAX: nat := 0x10FFFF
  const SCP_MIN: nat := 0x110000
  const SCP_MAX: nat := 0x11FFFF
  const NATIVE_MIN: nat := 0x120000
  const NATIVE_LAST: nat := 0x7FFFFFEF
  const TRAP_MIN: nat := 0x7FFFFFF0
  const TRAP_MAX: nat := 0x7FFFFFFE
  const RNUR_MIN: nat := 0x160000
  const RNUR_MAX: nat := 0x16FFFF
  const RANGE_MAX_SPAN: nat := 0x10FFFF

  datatype Plane = Bridge | Scp | Native | Rnur

  predicate Overlaps(a0: nat, a1: nat, b0: nat, b1: nat) {
    a0 <= b1 && b0 <= a1
  }

  predicate CodepointAdmissible(cp: nat) {
    cp <= NATIVE_LAST && !(SCP_MIN <= cp <= SCP_MAX)
  }

  predicate RangeAdmissible(start: nat, end: nat) {
    && start <= end
    && CodepointAdmissible(start) && CodepointAdmissible(end)
    && end - start <= RANGE_MAX_SPAN
    && !(start <= SCP_MAX && end >= SCP_MIN)
    && !(start <= TRAP_MAX && end >= TRAP_MIN)
  }

  /** Text of the Unicode zone or below the last allocatable native codepoint, not the control plane. */
  predicate IsData(cp: nat) {
    cp < 0x110000 || 0x120000 <= cp < 0x7FFF_FFF0
  }

  /** The constant-time test agrees with looking at every codepoint of the range. */
  lemma RangeAdmissiblePointwise(start: nat, end: nat)
    ensures RangeAdmissible(start, end)
            <==> start <= end && end - start < 0x110000 && forall cp: nat | start <= cp <= end :: IsData(cp)
  {
    assert forall cp: nat :: CodepointAdmissible(cp) <==> IsData(cp);
    if start <= end {
      assert CodepointAdmissible(start) ==> start < SCP_MIN || SCP_MAX < start;
      assert !IsData(SCP_MIN) && !IsData(TRAP_MIN);
    }
  }

  predicate InPlane(cp: nat, p: Plane) {
    match p
    case Bridge => cp < 0x110000
    case Scp => 0x110000 <= cp < 0x120000
    case Native => 0x120000 <= cp < 0x7FFF_FFF0
    case Rnur => 0x160000 <= cp < 0x170000
  }

  /** The planes whose bit the mask of the range has. */
  function PlaneMask(start: nat, end: nat): set<Plane> {
    if start > end then {}
    else
      (if Overlaps(start, end, 0, UNICODE_MAX) then {Bridge} else {})
      + (if Overlaps(start, end, SCP_MIN, SCP_MAX) then {Scp} else {})
      + (if Overlaps(start, end, NATIVE_MIN, NATIVE_LAST) then {Native} else {})
      + (if Overlaps(start, end, RNUR_MIN, RNUR_MAX) then {Rnur} else {})
  }

  function FirstOf(p: Plane): nat {
    match p
    case Bridge => 0
    case Scp => SCP_MIN
    case Native => NATIVE_MIN
    case Rnur => RNUR_MIN
  }

  /** A range has the bit of a plane exactly when one of its codepoints lies in the plane. */
  lemma PlaneMaskPointwise(start: nat, end: nat, p: Plane)
    ensures p in PlaneMask(start, end) <==> exists cp: nat :: start <= cp <= end && InPlane(cp, p)
  {
    if p in PlaneMask(start, end) {
      assert InPlane(if start <= FirstOf(p) then FirstOf(p) else start, p);
    }
  }

  /** The mask of a range is the union of the masks of any two ranges it is cut into. */
  lemma MasksJoin(start: nat, cut: nat, end: nat)
    requires start <= cut < end
    ensures PlaneMask(start, end) == PlaneMask(start, cut) + PlaneMask(cut + 1, end)
  {
    forall p: Plane
      ensures p in PlaneMask(start, end) <==> p in PlaneMask(start, cut) || p in PlaneMask(cut + 1, end)
    {
      PlaneMaskPointwise(start, end, p);
      PlaneMaskPointwise(start, cut, p);
      PlaneMaskPointwise(cut + 1, end, p);
    }
  }

  /** An admissible range touches a plane, and never the control plane. */
  lemma AdmissibleTouches(start: nat, end: nat)
    requires RangeAdmissible(start, end)
    ensures PlaneMask(start, end) != {} && Scp !in PlaneMask(start, end)
  {
    assert Bridge in PlaneMask(start, end) || Native in PlaneMask(start, end);
  }
}
