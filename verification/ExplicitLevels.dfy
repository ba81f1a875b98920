/**
  The explicit phase of the bidirectional engine: a stack machine over the embedding, override
  and isolate controls (section 3.3.2 of UAX #9), which gives every character its level.
 */
module ExplicitLevels {
  import opened BidiTypes

  const STATUS_STACK: nat := 128

  datatype Override = Neutral | ForceL | ForceR

  datatype Status = Status(level: nat, override: Override, isolate: bool)

  /** `stack` is the used part of the status stack, its last element the top. */
  datatype State = State(stack: seq<Status>, overIso: nat, overEmb: nat, validIso: nat)

  function Isolates(stack: seq<Status>): nat {
    if stack == [] then 0
    else Isolates(stack[..|stack| - 1]) + if stack[|stack| - 1].isolate then 1 else 0
  }

  /** What holds of the stack machine in every state it can reach. */
  ghost predicate Safe(st: State) {
    && st.stack != [] && !st.stack[0].isolate
    && (forall i, j | 0 <= i < j < |st.stack| :: st.stack[i].level < st.stack[j].level)
    && (forall i | 0 <= i < |st.stack| :: st.stack[i].level <= MAX_LEVEL)
    && st.validIso == Isolates(st.stack)
  }

  /** Levels that grow strictly and stay below 126 leave room in a stack of 128. */
  lemma StackFits(st: State)
    requires Safe(st)
    ensures |st.stack| <= MAX_LEVEL + 1 < STATUS_STACK
  {
    LevelsAtLeast(st.stack, |st.stack| - 1);
  }

  lemma {:induction false} LevelsAtLeast(stack: seq<Status>, i: nat)
    requires i < |stack| && forall a, b | 0 <= a < b < |stack| :: stack[a].level < stack[b].level
    ensures stack[i].level >= i
  {
    if i > 0 {
      LevelsAtLeast(stack, i - 1);
    }
  }

  function Top(st: State): Status
    requires st.stack != []
  {
    st.stack[|st.stack| - 1]
  }

  function InitState(para: nat): (st: State)
    requires para <= MAX_LEVEL
    ensures Safe(st)
  {
    State([Status(para, Neutral, false)], 0, 0, 0)
  }

  lemma IsolatesSnoc(stack: seq<Status>, s: Status)
    ensures Isolates(stack + [s]) == Isolates(stack) + if s.isolate then 1 else 0
  {
    assert (stack + [s])[..|stack|] == stack;
  }

  lemma {:induction false} IsolatesPrefix(stack: seq<Status>, k: nat)
    requires k <= |stack|
    ensures Isolates(stack[..k]) <= Isolates(stack)
    decreases |stack|
  {
    if k < |stack| {
      IsolatesPrefix(stack[..|stack| - 1], k);
      assert stack[..|stack| - 1][..k] == stack[..k];
    } else {
      assert stack[..k] == stack;
    }
  }

  function Push(st: State, level: nat, override: Override, isolate: bool): (r: State)
    requires Safe(st) && Top(st).level < level <= MAX_LEVEL
    ensures Safe(r)
  {
    IsolatesSnoc(st.stack, Status(level, override, isolate));
    State(st.stack + [Status(level, override, isolate)], st.overIso, st.overEmb,
          st.validIso + if isolate then 1 else 0)
  }

  /** Pops entries up to and including the topmost isolate entry. */
  function PopIsolate(stack: seq<Status>): (r: seq<Status>)
    requires Isolates(stack) > 0
    ensures r < stack && stack[|r|].isolate
    ensures Isolates(r) == Isolates(stack) - 1
  {
    var rest := stack[..|stack| - 1];
    if stack[|stack| - 1].isolate then rest else PopIsolate(rest)
  }

  function EmbeddingOverride(c: Class): Override {
    if c == LRO then ForceL else if c == RLO then ForceR else Neutral
  }

  /** Whether there is room for one more level. */
  predicate Opens(st: State, level: nat) {
    level <= MAX_LEVEL && st.overIso == 0 && st.overEmb == 0
  }

  function EmbeddingState(st: State, c: Class): (r: State)
    requires Safe(st)
    ensures Safe(r)
  {
    var level := if c in {RLE, RLO} then NextOdd(Top(st).level) else NextEven(Top(st).level);
    if Opens(st, level) then Push(st, level, EmbeddingOverride(c), false)
    else if st.overIso == 0 then State(st.stack, st.overIso, st.overEmb + 1, st.validIso)
    else st
  }

  function PdfState(st: State): (r: State)
    requires Safe(st)
    ensures Safe(r)
  {
    if st.overIso > 0 then st
    else if st.overEmb > 0 then State(st.stack, st.overIso, st.overEmb - 1, st.validIso)
    else if !Top(st).isolate && |st.stack| > 1
    then State(st.stack[..|st.stack| - 1], st.overIso, st.overEmb, st.validIso)
    else st
  }

  function InitiatorState(st: State, c: Class, rtlAhead: bool): (r: State)
    requires Safe(st)
    ensures Safe(r)
  {
    var odd := c == RLI || (c == FSI && rtlAhead);
    var level := if odd then NextOdd(Top(st).level) else NextEven(Top(st).level);
    if Opens(st, level) then Push(st, level, Neutral, true)
    else State(st.stack, st.overIso + 1, st.overEmb, st.validIso)
  }

  function PdiState(st: State): (r: State)
    requires Safe(st)
    ensures Safe(r)
  {
    if st.overIso > 0 then State(st.stack, st.overIso - 1, st.overEmb, st.validIso)
    else if st.validIso == 0 then st
    else State(PopIsolate(st.stack), 0, 0, st.validIso - 1)
  }

  /** The state after a character of class `c`; `rtlAhead` is what FSI finds ahead of it. */
  function StepState(st: State, c: Class, rtlAhead: bool): (r: State)
    requires Safe(st)
    ensures Safe(r)
  {
    if IsEmbedding(c) then EmbeddingState(st, c)
    else if c == PDF then PdfState(st)
    else if IsIsolateInitiator(c) then InitiatorState(st, c, rtlAhead)
    else if c == PDI then PdiState(st)
    else st
  }

  function Overridden(c: Class, o: Override): Class {
    match o
    case Neutral => c
    case ForceL => L
    case ForceR => R
  }

  /** What becomes of a character: `st` is the state before it, `st2` the state after it. */
  function StepRun(st: State, st2: State, x: Run, para: nat): Run
    requires Safe(st) && Safe(st2)
  {
    Rewritten(Top(st), Top(st2), x, para)
  }

  /** The character as rewritten, `cur` being the top status before it and `next` the one after it. */
  function Rewritten(cur: Status, next: Status, x: Run, para: nat): Run {
    if IsEmbedding(x.cls) || x.cls == PDF then Run(x.cp, x.cls, x.level, x.mirrored, true)
    else if IsIsolateInitiator(x.cls) then
      Run(x.cp, Overridden(x.cls, cur.override), cur.level, x.mirrored, false)
    else if x.cls == PDI then
      Run(x.cp, Overridden(x.cls, next.override), next.level, x.mirrored, false)
    else if x.cls == B then Run(x.cp, x.cls, para, x.mirrored, x.removed)
    else if x.cls == BN then Run(x.cp, x.cls, cur.level, x.mirrored, true)
    else Run(x.cp, Overridden(x.cls, cur.override), cur.level, x.mirrored, x.removed)
  }

  /** The state before character `i`. */
  function StateAt(rs: seq<Run>, para: nat, i: nat): (st: State)
    requires para <= MAX_LEVEL && i <= |rs|
    ensures Safe(st)
  {
    if i == 0 then InitState(para)
    else StepState(StateAt(rs, para, i - 1), rs[i - 1].cls, FirstStrongRtl(rs[i..]))
  }

  function RunAt(rs: seq<Run>, para: nat, i: nat): Run
    requires para <= MAX_LEVEL && i < |rs|
  {
    StepRun(StateAt(rs, para, i), StateAt(rs, para, i + 1), rs[i], para)
  }

  function Explicit(rs: seq<Run>, para: nat): (r: seq<Run>)
    requires para <= MAX_LEVEL
    ensures |r| == |rs|
  {
    seq(|rs|, i requires 0 <= i < |rs| => RunAt(rs, para, i))
  }

  /** The states before each character and after the last one. */
  ghost function Trace(rs: seq<Run>, para: nat): (sts: seq<State>)
    requires para <= MAX_LEVEL
    ensures |sts| == |rs| + 1
  {
    seq(|rs| + 1, i requires 0 <= i <= |rs| => StateAt(rs, para, i))
  }

  ghost predicate Follows(rs: seq<Run>, sts: seq<State>, i: nat)
    requires i < |rs| && |sts| == |rs| + 1
  {
    Safe(sts[i]) && Safe(sts[i + 1]) && sts[i + 1] == StepState(sts[i], rs[i].cls, FirstStrongRtl(rs[i + 1..]))
  }

  ghost predicate IsTrace(rs: seq<Run>, sts: seq<State>) {
    |sts| == |rs| + 1 && forall i: nat {:trigger Follows(rs, sts, i)} | i < |rs| :: Follows(rs, sts, i)
  }

  lemma TraceIsTrace(rs: seq<Run>, para: nat)
    requires para <= MAX_LEVEL
    ensures IsTrace(rs, Trace(rs, para))
  {
  }

  lemma ExplicitOnTrace(rs: seq<Run>, para: nat, i: nat)
    requires para <= MAX_LEVEL && i < |rs|
    ensures var sts := Trace(rs, para);
            sts[i].stack != [] && sts[i + 1].stack != []
            && Explicit(rs, para)[i] == RunAt(rs, para, i) == Rewritten(Top(sts[i]), Top(sts[i + 1]), rs[i], para)
  {
    RunAtIs(rs, para, i, StateAt(rs, para, i), StateAt(rs, para, i + 1));
  }

  lemma RunAtIs(rs: seq<Run>, para: nat, i: nat, st: State, next: State)
    requires para <= MAX_LEVEL && i < |rs| && st == StateAt(rs, para, i) && next == StateAt(rs, para, i + 1)
    ensures RunAt(rs, para, i) == Rewritten(Top(st), Top(next), rs[i], para)
  {
  }

  // ----- The phase in place -----

  /** Rewrites the paragraph in place.  The status stack never needs more than its 128 entries, and
      the pop loop of PDI never runs past the bottom. */
  method PhaseExplicit(r: array<Run>, para: nat)
    requires para <= MAX_LEVEL
    modifies r
    ensures r[..] == Explicit(old(r[..]), para)
  {
    ghost var rs := r[..];
    TraceIsTrace(rs, para);
    forall i | 0 <= i < |rs| ensures RewrittenAt(rs, Explicit(rs, para), Trace(rs, para), para, i) {
      ExplicitOnTrace(rs, para, i);
    }
    RewriteAll(r, para, rs, Explicit(rs, para), Trace(rs, para));
  }

  ghost predicate RewrittenAt(rs: seq<Run>, out: seq<Run>, sts: seq<State>, para: nat, i: nat) {
    && i < |rs| == |out| && |sts| == |rs| + 1 && sts[i].stack != [] && sts[i + 1].stack != []
    && out[i] == Rewritten(Top(sts[i]), Top(sts[i + 1]), rs[i], para)
  }

  /** The loop over the paragraph, `out` and `sts` being the characters and states that it goes through. */
  method RewriteAll(r: array<Run>, para: nat, ghost rs: seq<Run>, ghost out: seq<Run>, ghost sts: seq<State>)
    requires para <= MAX_LEVEL && r[..] == rs && |out| == |rs| && IsTrace(rs, sts) && sts[0] == InitState(para)
    requires forall i | 0 <= i < |rs| :: RewrittenAt(rs, out, sts, para, i)
    modifies r
    ensures r[..] == out
  {
    var stack := new Status[STATUS_STACK](_ => Status(0, Neutral, false));
    var sp, overIso, overEmb, validIso := 0, 0, 0, 0;
    stack[0] := Status(para, Neutral, false);
    assert stack[..1] == [Status(para, Neutral, false)];
    var i := 0;
    while i < r.Length
      invariant 0 <= i <= r.Length && 0 <= sp < STATUS_STACK
      invariant fresh(stack) && stack.Length == STATUS_STACK
      invariant State(stack[..sp + 1], overIso, overEmb, validIso) == sts[i]
      invariant forall k | 0 <= k < i :: r[k] == out[k]
      invariant forall k | i <= k < r.Length :: r[k] == rs[k]
    {
      assert RewrittenAt(rs, out, sts, para, i);
      sp, overIso, overEmb, validIso := RewriteOne(r, i, stack, sp, overIso, overEmb, validIso, para, rs, sts);
      i := i + 1;
    }
    assert r[..] == out;
  }

  /** One turn of the loop. */
  method RewriteOne(r: array<Run>, i: nat, stack: array<Status>, top: nat, iso: nat, emb: nat, valid: nat, para: nat,
                    ghost rs: seq<Run>, ghost sts: seq<State>)
    returns (sp: nat, overIso: nat, overEmb: nat, validIso: nat)
    requires i < r.Length == |rs| && IsTrace(rs, sts) && (forall k | i <= k < r.Length :: r[k] == rs[k])
    requires stack.Length == STATUS_STACK && top < STATUS_STACK && State(stack[..top + 1], iso, emb, valid) == sts[i]
    modifies r, stack
    ensures sp < STATUS_STACK && State(stack[..sp + 1], overIso, overEmb, validIso) == sts[i + 1]
    ensures sts[i].stack != [] && sts[i + 1].stack != []
    ensures r[i] == Rewritten(Top(sts[i]), Top(sts[i + 1]), rs[i], para)
    ensures forall k | 0 <= k < r.Length && k != i :: r[k] == old(r[k])
  {
    var x, cur := r[i], stack[top];
    var rtl := false;
    if x.cls == FSI {
      rtl := FindFirstStrongRtl(r, i + 1);
      assert r[i + 1..] == rs[i + 1..];
    }
    assert cur == Top(sts[i]);
    NextOnTrace(rs, sts, i, rtl);
    sp, overIso, overEmb, validIso := StepMachine(stack, top, iso, emb, valid, x.cls, rtl);
    assert stack[sp] == Top(sts[i + 1]);
    r[i] := Rewritten(cur, stack[sp], x, para);
  }

  lemma NextOnTrace(rs: seq<Run>, sts: seq<State>, i: nat, rtl: bool)
    requires i < |rs| && IsTrace(rs, sts) && (rs[i].cls == FSI ==> rtl == FirstStrongRtl(rs[i + 1..]))
    ensures Safe(sts[i]) && Safe(sts[i + 1]) && sts[i + 1] == StepState(sts[i], rs[i].cls, rtl)
  {
    assert Follows(rs, sts, i);
    OnlyFsiLooksAhead(sts[i], rs[i].cls, rtl, FirstStrongRtl(rs[i + 1..]));
  }

  lemma OnlyFsiLooksAhead(st: State, c: Class, a: bool, b: bool)
    requires Safe(st) && (c == FSI ==> a == b)
    ensures StepState(st, c, a) == StepState(st, c, b)
  {
  }

  /** One turn of the stack machine on the status stack in memory. */
  method StepMachine(stack: array<Status>, top: nat, iso: nat, emb: nat, valid: nat, c: Class, rtl: bool)
    returns (sp: nat, overIso: nat, overEmb: nat, validIso: nat)
    requires stack.Length == STATUS_STACK && top < STATUS_STACK
    requires Safe(State(stack[..top + 1], iso, emb, valid))
    modifies stack
    ensures sp < STATUS_STACK
    ensures State(stack[..sp + 1], overIso, overEmb, validIso)
            == StepState(State(old(stack[..top + 1]), iso, emb, valid), c, rtl)
  {
    sp, overIso, overEmb, validIso := top, iso, emb, valid;
    if IsEmbedding(c) {
      sp, overEmb := OpenEmbedding(stack, top, iso, emb, valid, c);
    } else if c == PDF {
      sp, overEmb := CloseEmbedding(stack, top, iso, emb, valid);
    } else if IsIsolateInitiator(c) {
      sp, overIso, validIso := OpenIsolate(stack, top, iso, emb, valid, c, rtl);
    } else if c == PDI {
      sp, overIso, overEmb, validIso := CloseIsolate(stack, top, iso, emb, valid);
    }
  }

  method OpenEmbedding(stack: array<Status>, top: nat, overIso: nat, emb: nat, ghost validIso: nat, c: Class)
    returns (sp: nat, overEmb: nat)
    requires stack.Length == STATUS_STACK && top < STATUS_STACK
    requires Safe(State(stack[..top + 1], overIso, emb, validIso))
    modifies stack
    ensures sp < STATUS_STACK
    ensures State(stack[..sp + 1], overIso, overEmb, validIso)
            == EmbeddingState(State(old(stack[..top + 1]), overIso, emb, validIso), c)
  {
    sp, overEmb := top, emb;
    ghost var st := State(stack[..top + 1], overIso, emb, validIso);
    assert Top(st) == stack[top];
    var level := if c in {RLE, RLO} then NextOdd(stack[top].level) else NextEven(stack[top].level);
    if level <= MAX_LEVEL && overIso == 0 && overEmb == 0 {
      sp := PushStatus(stack, top, Status(level, EmbeddingOverride(c), false), overIso, emb, validIso);
    } else if overIso == 0 {
      overEmb := overEmb + 1;
    }
  }

  method CloseEmbedding(stack: array<Status>, top: nat, overIso: nat, emb: nat, ghost validIso: nat)
    returns (sp: nat, overEmb: nat)
    requires stack.Length == STATUS_STACK && top < STATUS_STACK
    requires Safe(State(stack[..top + 1], overIso, emb, validIso))
    ensures sp < STATUS_STACK
    ensures State(stack[..sp + 1], overIso, overEmb, validIso)
            == PdfState(State(stack[..top + 1], overIso, emb, validIso))
  {
    sp, overEmb := top, emb;
    if overIso > 0 {
    } else if overEmb > 0 {
      overEmb := overEmb - 1;
    } else if !stack[sp].isolate && sp > 0 {
      sp := sp - 1;
      assert stack[..top + 1][..top] == stack[..top];
    }
  }

  method OpenIsolate(stack: array<Status>, top: nat, iso: nat, overEmb: nat, valid: nat, c: Class, rtl: bool)
    returns (sp: nat, overIso: nat, validIso: nat)
    requires stack.Length == STATUS_STACK && top < STATUS_STACK
    requires Safe(State(stack[..top + 1], iso, overEmb, valid))
    modifies stack
    ensures sp < STATUS_STACK
    ensures State(stack[..sp + 1], overIso, overEmb, validIso)
            == InitiatorState(State(old(stack[..top + 1]), iso, overEmb, valid), c, rtl)
  {
    sp, overIso, validIso := top, iso, valid;
    ghost var st := State(stack[..top + 1], iso, overEmb, valid);
    var odd := c == RLI || (c == FSI && rtl);
    var level := if odd then NextOdd(stack[top].level) else NextEven(stack[top].level);
    InitiatorIs(st, stack[top].level, c, rtl, level);
    if level <= MAX_LEVEL && overIso == 0 && overEmb == 0 {
      validIso := validIso + 1;
      sp := PushStatus(stack, top, Status(level, Neutral, true), iso, overEmb, valid);
    } else {
      overIso := overIso + 1;
    }
  }

  lemma InitiatorIs(st: State, topLevel: nat, c: Class, rtl: bool, level: nat)
    requires Safe(st) && topLevel == Top(st).level
    requires level == if c == RLI || (c == FSI && rtl) then NextOdd(topLevel) else NextEven(topLevel)
    ensures InitiatorState(st, c, rtl)
            == if Opens(st, level) then State(st.stack + [Status(level, Neutral, true)], 0, 0, st.validIso + 1)
               else State(st.stack, st.overIso + 1, st.overEmb, st.validIso)
  {
  }

  method CloseIsolate(stack: array<Status>, top: nat, iso: nat, emb: nat, valid: nat)
    returns (sp: nat, overIso: nat, overEmb: nat, validIso: nat)
    requires stack.Length == STATUS_STACK && top < STATUS_STACK
    requires Safe(State(stack[..top + 1], iso, emb, valid))
    ensures sp < STATUS_STACK
    ensures State(stack[..sp + 1], overIso, overEmb, validIso)
            == PdiState(State(stack[..top + 1], iso, emb, valid))
  {
    sp, overIso, overEmb, validIso := top, iso, emb, valid;
    if overIso > 0 {
      overIso := overIso - 1;
    } else if validIso == 0 {
    } else {
      overEmb := 0;
      sp := PopToIsolate(stack, sp);
      validIso := validIso - 1;
    }
  }

  method PushStatus(stack: array<Status>, top: nat, s: Status, ghost iso: nat, ghost emb: nat, ghost valid: nat)
    returns (sp: nat)
    requires stack.Length == STATUS_STACK && top < STATUS_STACK
    requires Safe(State(stack[..top + 1], iso, emb, valid)) && stack[top].level < s.level <= MAX_LEVEL
    modifies stack
    ensures sp == top + 1 < STATUS_STACK && stack[..sp + 1] == old(stack[..top + 1]) + [s]
  {
    StackFits(State(stack[..top + 1], iso, emb, valid));
    sp := top + 1;
    stack[sp] := s;
  }

  /** The pop loop of PDI. */
  method PopToIsolate(stack: array<Status>, top: nat) returns (sp: nat)
    requires top < stack.Length && !stack[0].isolate && Isolates(stack[..top + 1]) > 0
    ensures sp < top && stack[..sp + 1] == PopIsolate(stack[..top + 1])
  {
    sp := top;
    while sp > 0 && !stack[sp].isolate
      invariant 0 <= sp <= top && Isolates(stack[..sp + 1]) > 0
      invariant PopIsolate(stack[..sp + 1]) == PopIsolate(stack[..top + 1])
    {
      assert stack[..sp + 1][..sp] == stack[..sp];
      sp := sp - 1;
    }
    assert stack[..sp + 1][..sp] == stack[..sp];
    sp := sp - 1;
  }

  // ----- Isolation -----

  /** The isolate initiators and PDIs of `rs[a..b]` match up, `d` of them being open at `a`. */
  predicate Balanced(rs: seq<Run>, a: nat, b: nat, d: nat)
    requires a <= b <= |rs|
    decreases b - a
  {
    if a == b then d == 0
    else if IsIsolateInitiator(rs[a].cls) then Balanced(rs, a + 1, b, d + 1)
    else if rs[a].cls == PDI then d > 0 && Balanced(rs, a + 1, b, d - 1)
    else Balanced(rs, a + 1, b, d)
  }

  /** Inside a valid isolate whose entry is the top of `base`, with `d` inner isolates open. */
  ghost predicate InValid(st: State, base: State, d: nat) {
    && base.stack != [] && Top(base).isolate
    && base.stack <= st.stack
    && st.overIso + st.validIso == Isolates(base.stack) + d
  }

  /** Inside an overflow isolate that was met in state `base`. */
  ghost predicate InOverflow(st: State, base: State, d: nat) {
    st == State(base.stack, base.overIso + 1 + d, base.overEmb, base.validIso)
  }

  function DepthAfter(c: Class, d: nat): nat
    requires c == PDI ==> d > 0
  {
    if IsIsolateInitiator(c) then d + 1 else if c == PDI then d - 1 else d
  }

  lemma StepInValid(st: State, base: State, d: nat, c: Class, rtlAhead: bool)
    requires Safe(st) && InValid(st, base, d) && (c == PDI ==> d > 0)
    ensures InValid(StepState(st, c, rtlAhead), base, DepthAfter(c, d))
  {
    if IsEmbedding(c) {
      EmbeddingInValid(st, base, d, c);
    } else if c == PDF {
      PdfInValid(st, base, d);
    } else if IsIsolateInitiator(c) {
      InitiatorInValid(st, base, d, c, rtlAhead);
    } else if c == PDI {
      PdiInValid(st, base, d);
    }
  }

  lemma EmbeddingInValid(st: State, base: State, d: nat, c: Class)
    requires Safe(st) && InValid(st, base, d)
    ensures InValid(EmbeddingState(st, c), base, d)
  {
  }

  lemma InitiatorInValid(st: State, base: State, d: nat, c: Class, rtlAhead: bool)
    requires Safe(st) && InValid(st, base, d)
    ensures InValid(InitiatorState(st, c, rtlAhead), base, d + 1)
  {
  }

  lemma PdfInValid(st: State, base: State, d: nat)
    requires Safe(st) && InValid(st, base, d)
    ensures InValid(PdfState(st), base, d)
  {
    var k := |base.stack|;
    assert st.stack[..k] == base.stack;
    if |st.stack| > k {
      assert st.stack[..|st.stack| - 1][..k] == base.stack;
    }
  }

  lemma PdiInValid(st: State, base: State, d: nat)
    requires Safe(st) && InValid(st, base, d) && d > 0
    ensures InValid(PdiState(st), base, d - 1)
  {
    var k := |base.stack|;
    assert st.stack[..k] == base.stack;
    if st.overIso == 0 {
      NotBelow(st.stack, PopIsolate(st.stack), k);
    }
  }

  /** With more isolates than the first `k` entries hold, a pop stays above them. */
  lemma {:induction false} NotBelow(stack: seq<Status>, r: seq<Status>, k: nat)
    requires Isolates(stack) > 0 && k <= |stack| && r == PopIsolate(stack)
    ensures Isolates(stack) > Isolates(stack[..k]) ==> |r| >= k
    decreases |stack|
  {
    if k == |stack| {
      assert stack[..k] == stack;
    } else if !stack[|stack| - 1].isolate {
      assert stack[..|stack| - 1][..k] == stack[..k];
      NotBelow(stack[..|stack| - 1], r, k);
    }
  }

  lemma NextInValid(rs: seq<Run>, sts: seq<State>, a: nat, d: nat, base: State)
    requires IsTrace(rs, sts) && a < |rs| && InValid(sts[a], base, d) && (rs[a].cls == PDI ==> d > 0)
    ensures InValid(sts[a + 1], base, DepthAfter(rs[a].cls, d))
  {
    assert Follows(rs, sts, a);
    StepInValid(sts[a], base, d, rs[a].cls, FirstStrongRtl(rs[a + 1..]));
  }

  lemma {:induction false} RunInValid(rs: seq<Run>, sts: seq<State>, a: nat, b: nat, d: nat, base: State)
    requires IsTrace(rs, sts) && a <= b <= |rs| && Balanced(rs, a, b, d)
    requires InValid(sts[a], base, d)
    ensures InValid(sts[b], base, 0)
    decreases b - a
  {
    if a < b {
      NextInValid(rs, sts, a, d, base);
      RunInValid(rs, sts, a + 1, b, DepthAfter(rs[a].cls, d), base);
    }
  }

  lemma StepInOverflow(st: State, base: State, d: nat, c: Class, rtlAhead: bool)
    requires Safe(st) && InOverflow(st, base, d) && (c == PDI ==> d > 0)
    ensures InOverflow(StepState(st, c, rtlAhead), base, DepthAfter(c, d))
  {
  }

  lemma NextInOverflow(rs: seq<Run>, sts: seq<State>, a: nat, d: nat, base: State)
    requires IsTrace(rs, sts) && a < |rs| && InOverflow(sts[a], base, d) && (rs[a].cls == PDI ==> d > 0)
    ensures InOverflow(sts[a + 1], base, DepthAfter(rs[a].cls, d))
  {
    assert Follows(rs, sts, a);
    StepInOverflow(sts[a], base, d, rs[a].cls, FirstStrongRtl(rs[a + 1..]));
  }

  lemma {:induction false} RunInOverflow(rs: seq<Run>, sts: seq<State>, a: nat, b: nat, d: nat, base: State)
    requires IsTrace(rs, sts) && a <= b <= |rs| && Balanced(rs, a, b, d)
    requires InOverflow(sts[a], base, d)
    ensures InOverflow(sts[b], base, 0)
    decreases b - a
  {
    if a < b {
      NextInOverflow(rs, sts, a, d, base);
      RunInOverflow(rs, sts, a + 1, b, DepthAfter(rs[a].cls, d), base);
    }
  }

  /** The isolate that was entered from `st`, giving `base`, can be closed. */
  ghost predicate Entered(st: State, base: State) {
    && st.overIso == st.overEmb == 0 && base.stack != []
    && base.stack[..|base.stack| - 1] == st.stack
    && Isolates(base.stack) == st.validIso + 1
  }

  /** When all inner isolates are closed, the next PDI pops exactly the entry of the isolate. */
  lemma CloseValid(last: State, base: State, st: State)
    requires Safe(last) && InValid(last, base, 0) && Entered(st, base)
    ensures PdiState(last) == st
  {
    TopOfPrefix(last.stack, base.stack);
    PopsLast(last.stack, |st.stack|);
  }

  lemma TopOfPrefix(stack: seq<Status>, base: seq<Status>)
    requires base != [] && base <= stack
    ensures stack[|base| - 1] == base[|base| - 1] && stack[..|base| - 1] == base[..|base| - 1]
    ensures Isolates(base) <= Isolates(stack)
  {
    assert stack[..|base|] == base;
    IsolatesPrefix(stack, |base|);
  }

  lemma {:induction false} PopsLast(stack: seq<Status>, k: nat)
    requires k < |stack| && stack[k].isolate && Isolates(stack) == Isolates(stack[..k]) + 1
    ensures PopIsolate(stack) == stack[..k]
    decreases |stack|
  {
    if k < |stack| - 1 {
      var rest := stack[..|stack| - 1];
      IsolatesPrefix(rest, k + 1);
      assert rest[..k + 1] == stack[..k + 1] && stack[..k + 1][..k] == stack[..k] && rest[..k] == stack[..k];
      PopsLast(rest, k);
    }
  }

  /** An isolate initiator either pushes an isolate entry or counts as an overflow. */
  lemma EnterIsolate(st: State, c: Class, rtlAhead: bool)
    requires Safe(st) && IsIsolateInitiator(c)
    ensures var base := InitiatorState(st, c, rtlAhead);
            (Entered(st, base) && InValid(base, base, 0)) || InOverflow(base, st, 0)
  {
  }

  lemma IsolationOnTrace(rs: seq<Run>, sts: seq<State>, i: nat, j: nat)
    requires IsTrace(rs, sts) && i < j < |rs|
    requires IsIsolateInitiator(rs[i].cls) && rs[j].cls == PDI && Balanced(rs, i + 1, j, 0)
    ensures sts[j + 1] == sts[i]
  {
    var st, base, last := sts[i], sts[i + 1], sts[j];
    AtInitiator(rs, sts, i);
    AtPdi(rs, sts, j);
    if InOverflow(base, st, 0) {
      RunInOverflow(rs, sts, i + 1, j, 0, st);
      CloseOverflow(last, st);
    } else {
      RunInValid(rs, sts, i + 1, j, 0, base);
      CloseValid(last, base, st);
    }
  }

  lemma AtInitiator(rs: seq<Run>, sts: seq<State>, i: nat)
    requires IsTrace(rs, sts) && i < |rs| && IsIsolateInitiator(rs[i].cls)
    ensures (Entered(sts[i], sts[i + 1]) && InValid(sts[i + 1], sts[i + 1], 0))
            || InOverflow(sts[i + 1], sts[i], 0)
  {
    assert Follows(rs, sts, i);
    EnterIsolate(sts[i], rs[i].cls, FirstStrongRtl(rs[i + 1..]));
  }

  lemma AtPdi(rs: seq<Run>, sts: seq<State>, j: nat)
    requires IsTrace(rs, sts) && j < |rs| && rs[j].cls == PDI
    ensures Safe(sts[j]) && sts[j + 1] == PdiState(sts[j])
  {
    assert Follows(rs, sts, j);
  }

  lemma CloseOverflow(last: State, st: State)
    requires Safe(last) && InOverflow(last, st, 0)
    ensures PdiState(last) == st
  {
  }

  /** Isolation: whatever stands between an isolate initiator and its matching PDI (embeddings,
      overrides and pops in any order, isolates as long as they match up), the state after the PDI
      is the state before the initiator, and the two get the same level and, under an override, the same
      class. */
  lemma Isolation(rs: seq<Run>, para: nat, i: nat, j: nat)
    requires para <= MAX_LEVEL && i < j < |rs|
    requires IsIsolateInitiator(rs[i].cls) && rs[j].cls == PDI && Balanced(rs, i + 1, j, 0)
    ensures Trace(rs, para)[j + 1] == Trace(rs, para)[i]
    ensures SameTreatment(rs[i].cls, Explicit(rs, para)[i], Explicit(rs, para)[j])
  {
    var sts := Trace(rs, para);
    TraceIsTrace(rs, para);
    IsolationOnTrace(rs, sts, i, j);
    ExplicitOnTrace(rs, para, i);
    ExplicitOnTrace(rs, para, j);
    EndsAlike(Top(sts[i]), Top(sts[i + 1]), Top(sts[j]), rs[i], rs[j], para);
  }

  /** `x` and `y` are what becomes of an isolate initiator of class `c` and of its PDI. */
  predicate SameTreatment(c: Class, x: Run, y: Run) {
    x.level == y.level && ((x.cls == c && y.cls == PDI) || (x.cls == y.cls && x.cls in {L, R}))
  }

  lemma EndsAlike(outer: Status, inner: Status, last: Status, a: Run, b: Run, para: nat)
    requires IsIsolateInitiator(a.cls) && b.cls == PDI
    ensures SameTreatment(a.cls, Rewritten(outer, inner, a, para), Rewritten(last, outer, b, para))
  {
  }

  // ----- Text directly inside a control -----

  /** Characters that change neither the stack nor their own fate. */
  predicate Ordinary(c: Class) {
    !IsEmbedding(c) && !IsIsolateInitiator(c) && c !in {PDF, PDI, B, BN}
  }

  lemma {:induction false} OrdinaryKeepsState(rs: seq<Run>, sts: seq<State>, a: nat, b: nat)
    requires IsTrace(rs, sts) && a <= b <= |rs| && forall k | a <= k < b :: Ordinary(rs[k].cls)
    ensures sts[b] == sts[a]
    decreases b - a
  {
    if a < b {
      OrdinaryKeepsState(rs, sts, a, b - 1);
      assert Follows(rs, sts, b - 1);
    }
  }

  /** The level that an embedding control or isolate initiator asks for. */
  function AskedLevel(l: nat, c: Class, rtlAhead: bool): nat {
    if c in {RLE, RLO, RLI} || (c == FSI && rtlAhead) then NextOdd(l) else NextEven(l)
  }

  /** What an open control makes of the class of the text inside. */
  function InsideClass(c: Class, control: Class): Class {
    if control == LRO then L else if control == RLO then R else c
  }

  /** What an entry of the stack makes of a class. */
  function Forced(c: Class, override: Override): Class {
    match override
    case Neutral => c
    case ForceL => L
    case ForceR => R
  }

  /** Up to the next control, text after an embedding control or isolate initiator that opens has the
      next level of the control's direction, and an override gives it that direction; after one that
      does not open it is treated like the text before the control.  An isolate initiator is treated
      like the text before it. */
  lemma DirectlyInside(rs: seq<Run>, para: nat, sts: seq<State>, e: seq<Run>, i: nat, k: nat)
    requires para <= MAX_LEVEL && sts == Trace(rs, para) && e == Explicit(rs, para)
    requires i < k < |rs| && (IsEmbedding(rs[i].cls) || IsIsolateInitiator(rs[i].cls))
    requires (forall j | i < j < k :: Ordinary(rs[j].cls)) && (Ordinary(rs[k].cls) || IsIsolateInitiator(rs[k].cls))
    ensures Safe(sts[i])
    ensures var level := AskedLevel(Top(sts[i]).level, rs[i].cls, FirstStrongRtl(rs[i + 1..]));
            if level <= MAX_LEVEL && sts[i].overIso == 0 && sts[i].overEmb == 0
            then e[k].level == level && e[k].cls == InsideClass(rs[k].cls, rs[i].cls)
            else e[k].level == Top(sts[i]).level && e[k].cls == Forced(rs[k].cls, Top(sts[i]).override)
  {
    TraceIsTrace(rs, para);
    ExplicitOnTrace(rs, para, k);
    InsideOnTrace(rs, para, sts, i, k, e[k]);
  }

  lemma InsideOnTrace(rs: seq<Run>, para: nat, sts: seq<State>, i: nat, k: nat, x: Run)
    requires IsTrace(rs, sts) && i < k < |rs| && (IsEmbedding(rs[i].cls) || IsIsolateInitiator(rs[i].cls))
    requires (forall j | i < j < k :: Ordinary(rs[j].cls)) && (Ordinary(rs[k].cls) || IsIsolateInitiator(rs[k].cls))
    requires sts[k].stack != [] && sts[k + 1].stack != []
    requires x == Rewritten(Top(sts[k]), Top(sts[k + 1]), rs[k], para)
    ensures Safe(sts[i])
    ensures var level := AskedLevel(Top(sts[i]).level, rs[i].cls, FirstStrongRtl(rs[i + 1..]));
            if level <= MAX_LEVEL && sts[i].overIso == 0 && sts[i].overEmb == 0
            then x.level == level && x.cls == InsideClass(rs[k].cls, rs[i].cls)
            else x.level == Top(sts[i]).level && x.cls == Forced(rs[k].cls, Top(sts[i]).override)
  {
    OrdinaryKeepsState(rs, sts, i + 1, k);
    TopInside(rs, sts, i);
    TextRewritten(Top(sts[k]), Top(sts[k + 1]), rs[k], para);
  }

  lemma TopInside(rs: seq<Run>, sts: seq<State>, i: nat)
    requires IsTrace(rs, sts) && i < |rs| && (IsEmbedding(rs[i].cls) || IsIsolateInitiator(rs[i].cls))
    ensures Safe(sts[i]) && Safe(sts[i + 1])
    ensures var level := AskedLevel(Top(sts[i]).level, rs[i].cls, FirstStrongRtl(rs[i + 1..]));
            if Opens(sts[i], level)
            then Top(sts[i + 1]).level == level && Top(sts[i + 1]).override == EmbeddingOverride(rs[i].cls)
            else Top(sts[i + 1]) == Top(sts[i])
  {
    assert Follows(rs, sts, i);
    TopAfter(sts[i], rs[i].cls, FirstStrongRtl(rs[i + 1..]));
  }

  lemma TextRewritten(cur: Status, next: Status, x: Run, para: nat)
    requires Ordinary(x.cls) || IsIsolateInitiator(x.cls)
    ensures var y := Rewritten(cur, next, x, para); y.level == cur.level && y.cls == Forced(x.cls, cur.override)
  {
  }

  lemma TopAfter(st: State, c: Class, rtlAhead: bool)
    requires Safe(st) && (IsEmbedding(c) || IsIsolateInitiator(c))
    ensures var level := AskedLevel(Top(st).level, c, rtlAhead);
            var top := Top(StepState(st, c, rtlAhead));
            if Opens(st, level) then top.level == level && top.override == EmbeddingOverride(c)
            else top == Top(st)
  {
  }

  // ----- Levels -----

  /** The levels that the phase gives out stay within the stack's. */
  lemma ExplicitLevelBound(rs: seq<Run>, para: nat, i: nat)
    requires para <= MAX_LEVEL && i < |rs| && rs[i].level <= MAX_LEVEL
    ensures Explicit(rs, para)[i].level <= MAX_LEVEL
  {
    SafeTops(rs, para, i, Trace(rs, para));
    ExplicitOnTrace(rs, para, i);
    RewrittenBound(Top(Trace(rs, para)[i]), Top(Trace(rs, para)[i + 1]), rs[i], para);
  }

  lemma SafeTops(rs: seq<Run>, para: nat, i: nat, sts: seq<State>)
    requires para <= MAX_LEVEL && i < |rs| && sts == Trace(rs, para)
    ensures sts[i].stack != [] && sts[i + 1].stack != []
    ensures Top(sts[i]).level <= MAX_LEVEL && Top(sts[i + 1]).level <= MAX_LEVEL
  {
    TraceIsTrace(rs, para);
    assert Follows(rs, sts, i);
  }

  lemma RewrittenBound(cur: Status, next: Status, x: Run, para: nat)
    requires cur.level <= MAX_LEVEL && next.level <= MAX_LEVEL && x.level <= MAX_LEVEL && para <= MAX_LEVEL
    ensures Rewritten(cur, next, x, para).level <= MAX_LEVEL
  {
  }

  // ----- The bottom of the stack -----

  lemma StepKeepsBottom(st: State, c: Class, rtlAhead: bool)
    requires Safe(st)
    ensures StepState(st, c, rtlAhead).stack[0] == st.stack[0]
  {
  }

  /** The paragraph's own entry stays at the bottom, and everything above it has a higher level. */
  lemma {:induction false} BottomStays(rs: seq<Run>, sts: seq<State>, para: nat, i: nat)
    requires para <= MAX_LEVEL && IsTrace(rs, sts) && sts[0] == InitState(para) && i <= |rs|
    ensures Safe(sts[i]) && sts[i].stack[0] == Status(para, Neutral, false)
  {
    if i > 0 {
      BottomStays(rs, sts, para, i - 1);
      assert Follows(rs, sts, i - 1);
      StepKeepsBottom(sts[i - 1], rs[i - 1].cls, FirstStrongRtl(rs[i..]));
    }
  }

  lemma TopLevel(st: State, para: nat)
    requires Safe(st) && st.stack[0] == Status(para, Neutral, false)
    ensures Top(st).level >= para && (Top(st).level == para <==> |st.stack| == 1)
  {
  }

  lemma AboveBottom(rs: seq<Run>, sts: seq<State>, para: nat, i: nat)
    requires para <= MAX_LEVEL && IsTrace(rs, sts) && sts[0] == InitState(para) && i <= |rs|
    ensures sts[i].stack != [] && Top(sts[i]).level >= para && (Top(sts[i]).level == para <==> |sts[i].stack| == 1)
  {
    BottomStays(rs, sts, para, i);
    TopLevel(sts[i], para);
  }

  lemma TopsAbove(rs: seq<Run>, para: nat, i: nat, sts: seq<State>)
    requires para <= MAX_LEVEL && i < |rs| && sts == Trace(rs, para)
    ensures sts[i].stack != [] && sts[i + 1].stack != []
    ensures Top(sts[i]).level >= para && Top(sts[i + 1]).level >= para
    ensures Top(sts[i]).level == para <==> |sts[i].stack| == 1
  {
    TraceStarts(rs, para, sts);
    AboveBottom(rs, sts, para, i);
    AboveBottom(rs, sts, para, i + 1);
    assert IsTrace(rs, sts);
  }

  lemma TraceStarts(rs: seq<Run>, para: nat, sts: seq<State>)
    requires para <= MAX_LEVEL && sts == Trace(rs, para)
    ensures IsTrace(rs, sts) && sts[0] == InitState(para)
  {
    TraceIsTrace(rs, para);
  }

  /** Embedding controls and PDF keep the level they came with. */
  predicate KeepsLevel(c: Class) {
    IsEmbedding(c) || c == PDF
  }

  /** Every other character gets the paragraph level or a higher one. */
  lemma LevelsFromParagraph(rs: seq<Run>, para: nat, i: nat)
    requires para <= MAX_LEVEL && i < |rs|
    ensures var level := Explicit(rs, para)[i].level;
            if KeepsLevel(rs[i].cls) then level == rs[i].level else level >= para
  {
    var sts := Trace(rs, para);
    TopsAbove(rs, para, i, sts);
    ExplicitOnTrace(rs, para, i);
    RewrittenFromParagraph(Top(sts[i]), Top(sts[i + 1]), rs[i], para);
  }

  lemma RewrittenFromParagraph(cur: Status, next: Status, x: Run, para: nat)
    requires cur.level >= para && next.level >= para
    ensures var level := Rewritten(cur, next, x, para).level;
            if KeepsLevel(x.cls) then level == x.level else level >= para
  {
  }

  // ----- Overrides -----

  /** An override to L stands on an even level, one to R on an odd level. */
  ghost predicate Matched(stack: seq<Status>) {
    forall j | 0 <= j < |stack| ::
      (stack[j].override == ForceL ==> !Odd(stack[j].level)) && (stack[j].override == ForceR ==> Odd(stack[j].level))
  }

  lemma PushKeepsMatched(st: State, level: nat, override: Override, isolate: bool)
    requires Safe(st) && Matched(st.stack) && Top(st).level < level <= MAX_LEVEL
    requires Matched([Status(level, override, isolate)])
    ensures Matched(Push(st, level, override, isolate).stack)
  {
    assert [Status(level, override, isolate)][0].override == override;
  }

  lemma EmbeddingKeepsMatched(st: State, c: Class)
    requires Safe(st) && Matched(st.stack) && IsEmbedding(c)
    ensures Matched(EmbeddingState(st, c).stack)
  {
    var level := if c in {RLE, RLO} then NextOdd(Top(st).level) else NextEven(Top(st).level);
    if Opens(st, level) {
      PushKeepsMatched(st, level, EmbeddingOverride(c), false);
    }
  }

  lemma InitiatorKeepsMatched(st: State, c: Class, rtlAhead: bool)
    requires Safe(st) && Matched(st.stack)
    ensures Matched(InitiatorState(st, c, rtlAhead).stack)
  {
    var odd := c == RLI || (c == FSI && rtlAhead);
    var level := if odd then NextOdd(Top(st).level) else NextEven(Top(st).level);
    if Opens(st, level) {
      PushKeepsMatched(st, level, Neutral, true);
    }
  }

  lemma PrefixKeepsMatched(stack: seq<Status>, r: seq<Status>)
    requires Matched(stack) && r <= stack
    ensures Matched(r)
  {
  }

  lemma StepKeepsMatched(st: State, c: Class, rtlAhead: bool)
    requires Safe(st) && Matched(st.stack)
    ensures Matched(StepState(st, c, rtlAhead).stack)
  {
    if IsEmbedding(c) {
      EmbeddingKeepsMatched(st, c);
    } else if IsIsolateInitiator(c) {
      InitiatorKeepsMatched(st, c, rtlAhead);
    } else {
      PrefixKeepsMatched(st.stack, StepState(st, c, rtlAhead).stack);
    }
  }

  lemma {:induction false} OverridesMatch(rs: seq<Run>, sts: seq<State>, para: nat, i: nat)
    requires para <= MAX_LEVEL && IsTrace(rs, sts) && sts[0] == InitState(para) && i <= |rs|
    ensures Safe(sts[i]) && Matched(sts[i].stack)
  {
    if i > 0 {
      OverridesMatch(rs, sts, para, i - 1);
      assert Follows(rs, sts, i - 1);
      StepKeepsMatched(sts[i - 1], rs[i - 1].cls, FirstStrongRtl(rs[i..]));
    }
  }

  /** White space and separators after the explicit phase: neutral still, or overridden to the direction
      of their level. */
  lemma SpaceAfterExplicit(rs: seq<Run>, para: nat, i: nat)
    requires para <= MAX_LEVEL && i < |rs| && rs[i].cls in {S, WS, B}
    ensures var x := Explicit(rs, para)[i];
            && x.removed == rs[i].removed
            && (x.cls == rs[i].cls || (x.cls == L && !Odd(x.level)) || (x.cls == R && Odd(x.level)))
            && (x.level == para <==> rs[i].cls == B || |Trace(rs, para)[i].stack| == 1)
  {
    var sts := Trace(rs, para);
    TraceStarts(rs, para, sts);
    OverridesMatch(rs, sts, para, i);
    TopsAbove(rs, para, i, sts);
    ExplicitOnTrace(rs, para, i);
    SpaceRewritten(sts[i].stack, Top(sts[i + 1]), rs[i], para);
  }

  lemma SpaceRewritten(stack: seq<Status>, next: Status, x: Run, para: nat)
    requires stack != [] && Matched(stack) && x.cls in {S, WS, B}
    ensures var (cur, y) := (stack[|stack| - 1], Rewritten(stack[|stack| - 1], next, x, para));
            && y.removed == x.removed && y.level == (if x.cls == B then para else cur.level)
            && (y.cls == x.cls || (y.cls == L && !Odd(y.level)) || (y.cls == R && Odd(y.level)))
  {
  }

  /** Only embedding controls, PDF and BN are removed. */
  lemma KeptAfterExplicit(rs: seq<Run>, para: nat, i: nat)
    requires para <= MAX_LEVEL && i < |rs| && !rs[i].removed
    ensures Explicit(rs, para)[i].removed <==> IsEmbedding(rs[i].cls) || rs[i].cls in {PDF, BN}
    ensures var x := Explicit(rs, para)[i];
            !x.removed ==> !IsEmbedding(x.cls) && x.cls !in {PDF, BN}
  {
    ExplicitOnTrace(rs, para, i);
    var sts := Trace(rs, para);
    KeptRewritten(Top(sts[i]), Top(sts[i + 1]), rs[i], para);
  }

  lemma KeptRewritten(cur: Status, next: Status, x: Run, para: nat)
    requires !x.removed
    ensures var y := Rewritten(cur, next, x, para);
            (y.removed <==> IsEmbedding(x.cls) || x.cls in {PDF, BN})
            && (!y.removed ==> !IsEmbedding(y.cls) && y.cls !in {PDF, BN})
  {
  }
}
