/**
  The streaming isolate framer: it labels every codepoint with a direction, under a stack of
  isolates that four directive codepoints open, close and turn.  The table of direction flags for
  codepoints of the Unicode zone is a parameter.
 */
module Framer {

  const STACK_DEPTH: nat := 32
  const DIR_LTR: nat := 0x110101
  const DIR_RTL: nat := 0x110102
  const ISOLATE_PUSH: nat := 0x110104
  const ISOLATE_POP: nat := 0x110108

  /** The last codepoint of the Unicode zone. */
  const UNICODE_MAX: nat := 0x10FFFF

  /** A framed word holds 31 bits of the codepoint. */
  const CODEPOINT_SPAN: nat := 0x8000_0000

  datatype Dir = Undirected | Ltr | Rtl | MirroredLtr | MirroredRtl

  datatype Flag = LtrFlag | RtlFlag | ArabicFlag | NeutralFlag | MirroredFlag | WhitespaceFlag

  datatype Word = Word(codepoint: nat, dir: Dir, mirrored: bool)

  datatype Isolate = Isolate(base: Dir, cur: Dir)

  datatype Runtime = Active | Ended | Broken

  datatype Status = Ok | InvalidArg | BufferTooSmall | StackOverflow | StackUnderflow | ErrState

  /** `stack` is the part of the isolate stack that is in use, the root first. */
  datatype State = State(stack: seq<Isolate>, runtime: Runtime)

  datatype Outcome = Outcome(state: State, status: Status, words: seq<Word>)

  predicate IsDirective(cp: nat) {
    cp in {DIR_LTR, DIR_RTL, ISOLATE_PUSH, ISOLATE_POP}
  }

  predicate Safe(st: State) {
    && 1 <= |st.stack| <= STACK_DEPTH
    && forall i | 0 <= i < |st.stack| :: st.stack[i].cur in {Ltr, Rtl}
  }

  function Init(initial: Dir): (st: State)
    ensures Safe(st) && |st.stack| == 1 && st.runtime == Active
  {
    var d := if initial in {Ltr, Rtl} then initial else Ltr;
    State([Isolate(d, d)], Active)
  }

  /** The flags of a codepoint: those of the table in the Unicode zone, neutral above it. */
  function FlagsOf(cp: nat, bidi: nat -> set<Flag>): set<Flag> {
    if cp > UNICODE_MAX then {NeutralFlag} else bidi(cp)
  }

  function Classified(cp: nat, resolved: Dir, mask: set<Flag>): Word {
    var c := cp % CODEPOINT_SPAN;
    if MirroredFlag in mask then
      Word(c, if resolved in {Rtl, MirroredRtl} then MirroredRtl else MirroredLtr, true)
    else if ArabicFlag in mask || RtlFlag in mask then Word(c, Rtl, false)
    else if LtrFlag in mask then Word(c, Ltr, false)
    else Word(c, Undirected, false)
  }

  function Top(st: State): Isolate
    requires Safe(st)
  {
    st.stack[|st.stack| - 1]
  }

  function Turned(st: State, d: Dir): (r: State)
    requires Safe(st) && d in {Ltr, Rtl}
    ensures Safe(r)
  {
    State(st.stack[|st.stack| - 1 := Isolate(Top(st).base, d)], st.runtime)
  }

  function Pushed(st: State): (r: State)
    requires Safe(st) && |st.stack| < STACK_DEPTH
    ensures Safe(r)
  {
    State(st.stack + [Isolate(Top(st).cur, Top(st).cur)], st.runtime)
  }

  function Popped(st: State): (r: State)
    requires Safe(st) && |st.stack| > 1
    ensures Safe(r)
  {
    State(st.stack[..|st.stack| - 1], st.runtime)
  }

  function Step(st: State, cp: nat, bidi: nat -> set<Flag>): (r: Outcome)
    requires Safe(st)
    ensures Safe(r.state)
  {
    if st.runtime != Active then Outcome(st, ErrState, [])
    else if cp == DIR_LTR then Outcome(Turned(st, Ltr), Ok, [])
    else if cp == DIR_RTL then Outcome(Turned(st, Rtl), Ok, [])
    else if cp == ISOLATE_PUSH then
      if |st.stack| >= STACK_DEPTH then Outcome(State(st.stack, Broken), StackOverflow, [])
      else Outcome(Pushed(st), Ok, [])
    else if cp == ISOLATE_POP then
      if |st.stack| <= 1 then Outcome(State(st.stack, Broken), StackUnderflow, [])
      else Outcome(Popped(st), Ok, [])
    else Outcome(st, Ok, [Classified(cp, Top(st).cur, FlagsOf(cp, bidi))])
  }

  /** The state before codepoint `i`, the stream having started in `st`. */
  function After(st: State, cps: seq<nat>, bidi: nat -> set<Flag>, i: nat): (r: State)
    requires Safe(st) && i <= |cps|
    ensures Safe(r)
  {
    if i == 0 then st else Step(After(st, cps, bidi, i - 1), cps[i - 1], bidi).state
  }

  /** The words that the first `i` codepoints give. */
  function Words(st: State, cps: seq<nat>, bidi: nat -> set<Flag>, i: nat): seq<Word>
    requires Safe(st) && i <= |cps|
  {
    if i == 0 then []
    else Words(st, cps, bidi, i - 1) + Step(After(st, cps, bidi, i - 1), cps[i - 1], bidi).words
  }

  /** Step `i` of a run: `sts` holds the states, `ws` the words given so far. */
  ghost predicate Follows(cps: seq<nat>, bidi: nat -> set<Flag>, sts: seq<State>, ws: seq<seq<Word>>, i: nat)
    requires i < |cps| && |sts| == |ws| == |cps| + 1
  {
    && Safe(sts[i])
    && sts[i + 1] == Step(sts[i], cps[i], bidi).state
    && ws[i + 1] == ws[i] + Step(sts[i], cps[i], bidi).words
  }

  /** `sts` and `ws` are the run of the framer over `cps` from `st`. */
  ghost predicate IsRun(st: State, cps: seq<nat>, bidi: nat -> set<Flag>, sts: seq<State>, ws: seq<seq<Word>>) {
    && |sts| == |ws| == |cps| + 1 && sts[0] == st && ws[0] == [] && Safe(st)
    && forall i: nat {:trigger Follows(cps, bidi, sts, ws, i)} | i < |cps| :: Follows(cps, bidi, sts, ws, i)
  }

  /** The states of a run, and the words given before each codepoint and after the last. */
  function States(st: State, cps: seq<nat>, bidi: nat -> set<Flag>): (sts: seq<State>)
    requires Safe(st)
    ensures |sts| == |cps| + 1
  {
    seq(|cps| + 1, i requires 0 <= i <= |cps| => After(st, cps, bidi, i))
  }

  function Log(st: State, cps: seq<nat>, bidi: nat -> set<Flag>): (ws: seq<seq<Word>>)
    requires Safe(st)
    ensures |ws| == |cps| + 1
  {
    seq(|cps| + 1, i requires 0 <= i <= |cps| => Words(st, cps, bidi, i))
  }

  /** Every stream has a run. */
  lemma RunOf(st: State, cps: seq<nat>, bidi: nat -> set<Flag>)
    requires Safe(st)
    ensures IsRun(st, cps, bidi, States(st, cps, bidi), Log(st, cps, bidi))
  {
  }

  // ----- The framer in memory -----

  class SdfFramer {
    const stack: array<Isolate>
    var depth: nat
    var runtime: Runtime

    ghost predicate Valid()
      reads this, stack
    {
      && stack.Length == STACK_DEPTH && 1 <= depth <= STACK_DEPTH
      && Safe(Snapshot())
    }

    ghost function Snapshot(): State
      requires depth <= stack.Length
      reads this, stack
    {
      State(stack[..depth], runtime)
    }

    constructor (initial: Dir)
      ensures Valid() && fresh(stack) && Snapshot() == Init(initial)
    {
      var d := if initial == Ltr || initial == Rtl then initial else Ltr;
      stack := new Isolate[STACK_DEPTH](i => if i == 0 then Isolate(d, d) else Isolate(Ltr, Ltr));
      depth := 1;
      runtime := Active;
    }

    /** Consumes one codepoint; `words` is empty or the one word that it gives. */
    method ProcessCodepoint(cp: nat, bidi: nat -> set<Flag>) returns (status: Status, words: seq<Word>)
      requires Valid()
      modifies this, stack
      ensures Valid() && Outcome(Snapshot(), status, words) == Step(old(Snapshot()), cp, bidi)
    {
      if runtime != Active {
        return ErrState, [];
      }
      var top := depth - 1;
      if cp == DIR_LTR {
        stack[top] := Isolate(stack[top].base, Ltr);
        return Ok, [];
      } else if cp == DIR_RTL {
        stack[top] := Isolate(stack[top].base, Rtl);
        return Ok, [];
      } else if cp == ISOLATE_PUSH {
        if depth >= STACK_DEPTH {
          runtime := Broken;
          return StackOverflow, [];
        }
        stack[depth] := Isolate(stack[top].cur, stack[top].cur);
        depth := depth + 1;
        return Ok, [];
      } else if cp == ISOLATE_POP {
        if depth <= 1 {
          runtime := Broken;
          return StackUnderflow, [];
        }
        depth := depth - 1;
        assert stack[..depth] == old(stack[..depth])[..depth];
        return Ok, [];
      }
      return Ok, [Classified(cp, stack[top].cur, FlagsOf(cp, bidi))];
    }

    method Finish() returns (status: Status)
      requires Valid()
      modifies this`runtime
      ensures Valid() && Snapshot().stack == old(Snapshot().stack)
      ensures status == if old(runtime) == Broken then ErrState else Ok
      ensures runtime == if old(runtime) == Broken then Broken else Ended
    {
      if runtime == Broken {
        return ErrState;
      }
      runtime := Ended;
      return Ok;
    }

    method CurrentDir() returns (d: Dir)
      requires Valid()
      ensures d == Top(Snapshot()).cur && d in {Ltr, Rtl}
    {
      assert Snapshot().stack[depth - 1] == stack[depth - 1];
      d := stack[depth - 1].cur;
    }
  }

  /** One-shot framing of a whole buffer.  The status of a codepoint is looked at only to see
      whether the framer had already stopped. */
  method Frame(cps: seq<nat>, bidi: nat -> set<Flag>, out: array<Word>) returns (status: Status, count: nat)
    modifies out
    ensures status == FrameStatus(cps, bidi, out.Length)
    ensures count <= out.Length && out[count..] == old(out[..])[count..]
    ensures out[..count] <= Words(Init(Ltr), cps, bidi, |cps|)
    ensures status == Ok ==> out[..count] == Words(Init(Ltr), cps, bidi, |cps|)
  {
    RunOf(Init(Ltr), cps, bidi);
    status, count := FrameAll(cps, bidi, out, States(Init(Ltr), cps, bidi), Log(Init(Ltr), cps, bidi));
  }

  method FrameAll(cps: seq<nat>, bidi: nat -> set<Flag>, out: array<Word>, ghost sts: seq<State>,
                  ghost ws: seq<seq<Word>>)
    returns (status: Status, count: nat)
    requires IsRun(Init(Ltr), cps, bidi, sts, ws)
    modifies out
    ensures status == StatusOf(sts, ws, out.Length)
    ensures count <= out.Length && out[count..] == old(out[..])[count..]
    ensures out[..count] <= ws[|cps|] && (status == Ok ==> out[..count] == ws[|cps|])
  {
    count := 0;
    if out.Length == 0 {
      return InvalidArg, 0;
    }
    var framer := new SdfFramer(Ltr);
    for i := 0 to |cps|
      invariant framer.Valid() && fresh(framer) && fresh(framer.stack) && framer.Snapshot() == sts[i]
      invariant count <= out.Length && out[..count] == ws[i] && out[count..] == old(out[..])[count..]
      invariant i > 0 ==> sts[i - 1].runtime == Active
    {
      WordsGrow(cps, bidi, sts, ws, i, |cps|);
      var stopped, words := FrameOne(framer, cps, i, bidi, sts, ws);
      if stopped {
        StoppedAt(cps, bidi, sts, ws, i, |cps| - 1);
        StoppedAt(cps, bidi, sts, ws, i, |cps|);
        return ErrState, count;
      }
      if |words| > 0 {
        if count == out.Length {
          WordsGrow(cps, bidi, sts, ws, i + 1, |cps|);
          return BufferTooSmall, count;
        }
        out[count] := words[0];
        count := count + 1;
        assert out[..count] == ws[i] + words;
      }
    }
    return Ok, count;
  }

  method FrameOne(framer: SdfFramer, cps: seq<nat>, i: nat, bidi: nat -> set<Flag>, ghost sts: seq<State>,
                  ghost ws: seq<seq<Word>>)
    returns (stopped: bool, words: seq<Word>)
    requires i < |cps| && IsRun(Init(Ltr), cps, bidi, sts, ws) && framer.Valid() && framer.Snapshot() == sts[i]
    modifies framer, framer.stack
    ensures framer.Valid() && framer.Snapshot() == sts[i + 1]
    ensures |words| <= 1 && ws[i + 1] == ws[i] + words && (stopped <==> sts[i].runtime != Active)
  {
    assert Follows(cps, bidi, sts, ws, i);
    var rc;
    rc, words := framer.ProcessCodepoint(cps[i], bidi);
    stopped := rc == ErrState;
  }

  /** What one-shot framing returns: the error of the last codepoint goes unnoticed. */
  function StatusOf(sts: seq<State>, ws: seq<seq<Word>>, capacity: nat): Status
    requires |sts| == |ws| > 0
  {
    var n := |sts| - 1;
    if capacity == 0 then InvalidArg
    else if |ws[n]| > capacity then BufferTooSmall
    else if n > 0 && sts[n - 1].runtime != Active then ErrState
    else Ok
  }

  function FrameStatus(cps: seq<nat>, bidi: nat -> set<Flag>, capacity: nat): Status {
    StatusOf(States(Init(Ltr), cps, bidi), Log(Init(Ltr), cps, bidi), capacity)
  }

  lemma {:induction false} WordsGrow(cps: seq<nat>, bidi: nat -> set<Flag>, sts: seq<State>, ws: seq<seq<Word>>,
                                     i: nat, n: nat)
    requires |sts| > 0 && IsRun(sts[0], cps, bidi, sts, ws) && i <= n <= |cps|
    ensures ws[i] <= ws[n]
    decreases n - i
  {
    if i < n {
      WordsGrow(cps, bidi, sts, ws, i, n - 1);
      assert Follows(cps, bidi, sts, ws, n - 1);
    }
  }

  /** A stopped framer stays stopped, whatever follows, and gives no more words. */
  lemma {:induction false} StoppedAt(cps: seq<nat>, bidi: nat -> set<Flag>, sts: seq<State>, ws: seq<seq<Word>>,
                                     i: nat, n: nat)
    requires |sts| > 0 && IsRun(sts[0], cps, bidi, sts, ws) && i <= n <= |cps| && sts[i].runtime != Active
    ensures sts[n] == sts[i] && ws[n] == ws[i]
    decreases n - i
  {
    if i < n {
      StoppedAt(cps, bidi, sts, ws, i, n - 1);
      assert Follows(cps, bidi, sts, ws, n - 1);
    }
  }

  // ----- Depth -----

  /** Pushes less pops among the first `i` codepoints. */
  function Net(cps: seq<nat>, i: nat): int
    requires i <= |cps|
  {
    if i == 0 then 0
    else Net(cps, i - 1) + if cps[i - 1] == ISOLATE_PUSH then 1 else if cps[i - 1] == ISOLATE_POP then -1 else 0
  }

  /** Every prefix keeps the number of open isolates within what the stack holds. */
  ghost predicate WithinStack(cps: seq<nat>, i: nat)
    requires i <= |cps|
  {
    forall k | 0 <= k <= i :: 0 <= Net(cps, k) < STACK_DEPTH
  }

  /** A framer is still active exactly when no prefix pops more than it pushes or has more than 31
      isolates open; as long as it is, its depth is one more than the pushes less the pops. */
  lemma {:induction false} DepthCounts(initial: Dir, cps: seq<nat>, bidi: nat -> set<Flag>, sts: seq<State>,
                                       ws: seq<seq<Word>>, i: nat)
    requires IsRun(Init(initial), cps, bidi, sts, ws) && i <= |cps|
    ensures sts[i].runtime == Active <==> WithinStack(cps, i)
    ensures WithinStack(cps, i) ==> |sts[i].stack| == 1 + Net(cps, i)
  {
    if i > 0 {
      DepthCounts(initial, cps, bidi, sts, ws, i - 1);
      assert WithinStack(cps, i) <==> WithinStack(cps, i - 1) && 0 <= Net(cps, i) < STACK_DEPTH;
      assert Follows(cps, bidi, sts, ws, i - 1);
      DepthStep(sts[i - 1], cps[i - 1], bidi);
    }
  }

  lemma DepthStep(st: State, cp: nat, bidi: nat -> set<Flag>)
    requires Safe(st)
    ensures var d := |st.stack| + if cp == ISOLATE_PUSH then 1 else if cp == ISOLATE_POP then -1 else 0;
            var next := Step(st, cp, bidi).state;
            && (next.runtime == Active <==> st.runtime == Active && 1 <= d <= STACK_DEPTH)
            && (next.runtime == Active ==> |next.stack| == d)
  {
  }

  // ----- Isolation -----

  /** The pushes and pops of `cps[a..b]` match up, `d` isolates being open at `a`. */
  predicate Balanced(cps: seq<nat>, a: nat, b: nat, d: nat)
    requires a <= b <= |cps|
    decreases b - a
  {
    if a == b then d == 0
    else if cps[a] == ISOLATE_PUSH then Balanced(cps, a + 1, b, d + 1)
    else if cps[a] == ISOLATE_POP then d > 0 && Balanced(cps, a + 1, b, d - 1)
    else Balanced(cps, a + 1, b, d)
  }

  function Nested(d: nat, cp: nat): nat
    requires cp == ISOLATE_POP ==> d > 0
  {
    if cp == ISOLATE_PUSH then d + 1 else if cp == ISOLATE_POP then d - 1 else d
  }

  /** The isolates of `cps[a..b]` match up, `d` being open at `a`, and no direction directive stands
      outside all of them. */
  predicate Quiet(cps: seq<nat>, a: nat, b: nat, d: nat)
    requires a <= b <= |cps|
    decreases b - a
  {
    if a == b then d == 0
    else if cps[a] == ISOLATE_POP then d > 0 && Quiet(cps, a + 1, b, d - 1)
    else (cps[a] in {DIR_LTR, DIR_RTL} ==> d > 0) && Quiet(cps, a + 1, b, Nested(d, cps[a]))
  }

  /** `d` isolates are open above `base`. */
  ghost predicate Above(st: State, base: seq<Isolate>, d: nat) {
    |st.stack| == |base| + d && base <= st.stack
  }

  lemma StepAbove(st: State, base: seq<Isolate>, d: nat, cp: nat, bidi: nat -> set<Flag>)
    requires Safe(st) && Above(st, base, d) && (cp in {ISOLATE_POP, DIR_LTR, DIR_RTL} ==> d > 0)
    requires Step(st, cp, bidi).state.runtime == Active
    ensures Above(Step(st, cp, bidi).state, base, Nested(d, cp))
  {
  }

  lemma ActiveBefore(cps: seq<nat>, bidi: nat -> set<Flag>, sts: seq<State>, ws: seq<seq<Word>>, a: nat, b: nat)
    requires |sts| > 0 && IsRun(sts[0], cps, bidi, sts, ws) && a <= b <= |cps| && sts[b].runtime == Active
    ensures sts[a].runtime == Active
  {
    if sts[a].runtime != Active {
      StoppedAt(cps, bidi, sts, ws, a, b);
    }
  }

  lemma {:induction false} RunAbove(cps: seq<nat>, bidi: nat -> set<Flag>, sts: seq<State>, ws: seq<seq<Word>>,
                                    a: nat, b: nat, d: nat, base: seq<Isolate>)
    requires |sts| > 0 && IsRun(sts[0], cps, bidi, sts, ws) && a <= b <= |cps| && Quiet(cps, a, b, d)
    requires sts[b].runtime == Active && Above(sts[a], base, d)
    ensures sts[b].stack == base
    decreases b - a
  {
    if a < b {
      ActiveBefore(cps, bidi, sts, ws, a + 1, b);
      assert Follows(cps, bidi, sts, ws, a);
      StepAbove(sts[a], base, d, cps[a], bidi);
      RunAbove(cps, bidi, sts, ws, a + 1, b, Nested(d, cps[a]), base);
    }
  }

  /** Ordinary codepoints and whole isolates, whatever is inside them, leave the state as it was. */
  lemma QuietKeeps(st: State, cps: seq<nat>, bidi: nat -> set<Flag>, sts: seq<State>, ws: seq<seq<Word>>,
                   a: nat, b: nat)
    requires IsRun(st, cps, bidi, sts, ws) && a <= b <= |cps| && Quiet(cps, a, b, 0) && sts[b].runtime == Active
    ensures sts[b] == sts[a]
  {
    ActiveBefore(cps, bidi, sts, ws, a, b);
    RunAbove(cps, bidi, sts, ws, a, b, 0, sts[a].stack);
  }

  lemma {:induction false} InnerQuiet(cps: seq<nat>, a: nat, j: nat, d: nat)
    requires a <= j < |cps| && Balanced(cps, a, j, d) && cps[j] == ISOLATE_POP
    ensures Quiet(cps, a, j + 1, d + 1)
    decreases j - a
  {
    if a < j {
      InnerQuiet(cps, a + 1, j, Nested(d, cps[a]));
    }
  }

  /** Whatever stands between a push and its matching pop, direction directives included, the
      enclosing isolates and their directions are afterwards what they were before. */
  lemma IsolateRestores(st: State, cps: seq<nat>, bidi: nat -> set<Flag>, sts: seq<State>, ws: seq<seq<Word>>,
                        i: nat, j: nat)
    requires IsRun(st, cps, bidi, sts, ws) && i < j < |cps|
    requires cps[i] == ISOLATE_PUSH && cps[j] == ISOLATE_POP && Balanced(cps, i + 1, j, 0)
    requires sts[j + 1].runtime == Active
    ensures sts[j + 1] == sts[i]
  {
    InnerQuiet(cps, i + 1, j, 0);
    QuietKeeps(st, cps, bidi, sts, ws, i, j + 1);
  }

  /** The direction in force is that of the last directive at the same depth, isolates in between not
      counting; an isolate starts with the direction in force at its push. */
  lemma LastDirectiveWins(st: State, cps: seq<nat>, bidi: nat -> set<Flag>, sts: seq<State>, ws: seq<seq<Word>>,
                          a: nat, b: nat)
    requires IsRun(st, cps, bidi, sts, ws) && a < b <= |cps| && Quiet(cps, a + 1, b, 0) && sts[b].runtime == Active
    ensures Safe(sts[a]) && Safe(sts[b])
    ensures cps[a] == DIR_LTR ==> Top(sts[b]).cur == Ltr
    ensures cps[a] == DIR_RTL ==> Top(sts[b]).cur == Rtl
    ensures cps[a] in {DIR_LTR, DIR_RTL} ==> Top(sts[b]).base == Top(sts[a]).base
    ensures cps[a] == ISOLATE_PUSH ==> Top(sts[b]).cur == Top(sts[b]).base == Top(sts[a]).cur
  {
    QuietKeeps(st, cps, bidi, sts, ws, a + 1, b);
    assert Follows(cps, bidi, sts, ws, a);
    ActiveBefore(cps, bidi, sts, ws, a, b);
  }

  // ----- One word per ordinary codepoint -----

  function Ordinary(cps: seq<nat>, i: nat): seq<nat>
    requires i <= |cps|
  {
    if i == 0 then []
    else if IsDirective(cps[i - 1]) then Ordinary(cps, i - 1)
    else Ordinary(cps, i - 1) + [cps[i - 1] % CODEPOINT_SPAN]
  }

  function Codepoints(words: seq<Word>): seq<nat> {
    seq(|words|, k requires 0 <= k < |words| => words[k].codepoint)
  }

  /** An active framer has given one word for every codepoint that is not a directive, in order. */
  lemma {:induction false} OneWordEach(cps: seq<nat>, bidi: nat -> set<Flag>, sts: seq<State>, ws: seq<seq<Word>>,
                                       i: nat)
    requires |sts| > 0 && IsRun(sts[0], cps, bidi, sts, ws) && i <= |cps| && sts[i].runtime == Active
    ensures Codepoints(ws[i]) == Ordinary(cps, i)
  {
    if i > 0 {
      ActiveBefore(cps, bidi, sts, ws, i - 1, i);
      OneWordEach(cps, bidi, sts, ws, i - 1);
      assert Follows(cps, bidi, sts, ws, i - 1);
      WordOf(sts[i - 1], cps[i - 1], bidi);
      CodepointsConcat(ws[i - 1], Step(sts[i - 1], cps[i - 1], bidi).words);
    }
  }

  lemma WordOf(st: State, cp: nat, bidi: nat -> set<Flag>)
    requires Safe(st) && st.runtime == Active
    ensures Codepoints(Step(st, cp, bidi).words) == if IsDirective(cp) then [] else [cp % CODEPOINT_SPAN]
  {
  }

  lemma CodepointsConcat(a: seq<Word>, b: seq<Word>)
    ensures Codepoints(a + b) == Codepoints(a) + Codepoints(b)
  {
  }

  // ----- Directions of words -----

  /** The words that carry no direction are exactly those of codepoints without a directional flag;
      the others follow their own flags, and only a mirrored one follows the isolate. */
  lemma DirectionOf(st: State, cp: nat, bidi: nat -> set<Flag>)
    requires Safe(st) && st.runtime == Active && !IsDirective(cp)
    ensures var flags, words := FlagsOf(cp, bidi), Step(st, cp, bidi).words;
            && |words| == 1
            && (words[0].dir == Undirected <==> flags !! {MirroredFlag, ArabicFlag, RtlFlag, LtrFlag})
            && (MirroredFlag in flags ==> (words[0].dir == MirroredRtl <==> Top(st).cur == Rtl))
            && (MirroredFlag !in flags ==> forall d | d in {Ltr, Rtl} ::
                  Step(Turned(st, d), cp, bidi).words == words)
  {
  }

  /** `w` is labelled as the flags ask: a mirrored character like the isolate, whose direction is `cur`; any
      other one right-to-left when it is strongly so or an Arabic letter, left-to-right when it is strongly
      so and neither of those, and not at all otherwise. */
  predicate Labelled(w: Word, flags: set<Flag>, cur: Dir) {
    && (w.mirrored <==> MirroredFlag in flags)
    && (w.dir == MirroredRtl <==> MirroredFlag in flags && cur == Rtl)
    && (w.dir == MirroredLtr <==> MirroredFlag in flags && cur != Rtl)
    && (w.dir == Rtl <==> MirroredFlag !in flags && (RtlFlag in flags || ArabicFlag in flags))
    && (w.dir == Ltr <==> MirroredFlag !in flags && LtrFlag in flags && RtlFlag !in flags && ArabicFlag !in flags)
  }

  /** The word of each ordinary codepoint of a run. */
  lemma WordLabelled(cps: seq<nat>, bidi: nat -> set<Flag>, sts: seq<State>, ws: seq<seq<Word>>, i: nat)
    requires |sts| > 0 && IsRun(sts[0], cps, bidi, sts, ws) && i < |cps| && sts[i].runtime == Active
    requires !IsDirective(cps[i])
    ensures |ws[i + 1]| == |ws[i]| + 1 && ws[i] <= ws[i + 1] && Safe(sts[i])
    ensures var w := ws[i + 1][|ws[i]|];
            var flags := if cps[i] <= UNICODE_MAX then bidi(cps[i]) else {NeutralFlag};
            w.codepoint == cps[i] % CODEPOINT_SPAN && Labelled(w, flags, Top(sts[i]).cur)
  {
    assert Follows(cps, bidi, sts, ws, i);
  }

  /** A stream starts in the direction that was asked for, or left-to-right, and on the root isolate. */
  lemma StartsIn(initial: Dir)
    ensures Top(Init(initial)).cur == Top(Init(initial)).base == if initial == Rtl then Rtl else Ltr
  {
  }

  /** What an active framer refuses, and how: a push at depth 32 and a pop at depth 1, each of which breaks
      it; a framer that is not active refuses everything. */
  lemma RefusesExactly(st: State, cp: nat, bidi: nat -> set<Flag>)
    requires Safe(st)
    ensures var r := Step(st, cp, bidi);
            && (r.status == ErrState <==> st.runtime != Active)
            && (r.status == StackOverflow <==> st.runtime == Active && cp == ISOLATE_PUSH && |st.stack| == STACK_DEPTH)
            && (r.status == StackUnderflow <==> st.runtime == Active && cp == ISOLATE_POP && |st.stack| == 1)
            && (r.status != Ok ==> r.words == [] && r.state.stack == st.stack && r.state.runtime != Active)
            && (r.status == Ok ==> r.state.runtime == Active)
            && r.status in {Ok, ErrState, StackOverflow, StackUnderflow}
  {
  }

  /** No codepoint above the Unicode zone, control or native, takes the direction of its isolate:
      wherever it stands in a stream, its word is undirected, while the isolate always has a direction. */
  lemma NativeIsUndirected(cps: seq<nat>, bidi: nat -> set<Flag>, sts: seq<State>, ws: seq<seq<Word>>, i: nat)
    requires |sts| > 0 && IsRun(sts[0], cps, bidi, sts, ws) && i < |cps| && sts[i].runtime == Active
    requires cps[i] > UNICODE_MAX && !IsDirective(cps[i])
    ensures ws[i + 1] == ws[i] + [Word(cps[i] % CODEPOINT_SPAN, Undirected, false)]
    ensures Safe(sts[i]) && sts[i + 1] == sts[i] && Top(sts[i]).cur in {Ltr, Rtl}
  {
    assert Follows(cps, bidi, sts, ws, i);
  }

  /** For instance, the first native codepoint after a right-to-left directive. */
  lemma NativeAfterTurn(bidi: nat -> set<Flag>)
    ensures var st := Step(Init(Ltr), DIR_RTL, bidi).state;
            Top(st).cur == Rtl && Step(st, 0x12_0000, bidi).words == [Word(0x12_0000, Undirected, false)]
  {
  }

  /** One-shot framing reports success although the stream failed exactly when the words fit and
      it is the last codepoint that breaks the framer: a push at depth 32 or a pop at depth 1. */
  lemma LastErrorSwallowed(cps: seq<nat>, bidi: nat -> set<Flag>, sts: seq<State>, ws: seq<seq<Word>>, capacity: nat)
    requires IsRun(Init(Ltr), cps, bidi, sts, ws)
    ensures var n := |cps|;
            StatusOf(sts, ws, capacity) == Ok && sts[n].runtime != Active
            <==>
            && capacity > 0 && n > 0 && |ws[n]| <= capacity
            && WithinStack(cps, n - 1)
            && ((cps[n - 1] == ISOLATE_POP && Net(cps, n - 1) == 0)
                || (cps[n - 1] == ISOLATE_PUSH && Net(cps, n - 1) == STACK_DEPTH - 1))
  {
    var n := |cps|;
    DepthCounts(Ltr, cps, bidi, sts, ws, n);
    if n > 0 {
      DepthCounts(Ltr, cps, bidi, sts, ws, n - 1);
      assert Net(cps, n) == Net(cps, n - 1)
                            + if cps[n - 1] == ISOLATE_PUSH then 1 else if cps[n - 1] == ISOLATE_POP then -1 else 0;
      assert WithinStack(cps, n) <==> WithinStack(cps, n - 1) && 0 <= Net(cps, n) < STACK_DEPTH;
    }
  }

  /** The other verdicts: no room at all, words that do not fit, and a codepoint refused before the last. */
  lemma FrameRefuses(cps: seq<nat>, bidi: nat -> set<Flag>, sts: seq<State>, ws: seq<seq<Word>>, capacity: nat)
    requires IsRun(Init(Ltr), cps, bidi, sts, ws)
    ensures StatusOf(sts, ws, capacity) == InvalidArg <==> capacity == 0
    ensures StatusOf(sts, ws, capacity) == BufferTooSmall <==> 0 < capacity < |ws[|cps|]|
    ensures StatusOf(sts, ws, capacity) == ErrState
            <==> 0 < capacity && |ws[|cps|]| <= capacity && cps != [] && !WithinStack(cps, |cps| - 1)
  {
    if cps != [] {
      DepthCounts(Ltr, cps, bidi, sts, ws, |cps| - 1);
    }
  }

  /** The smallest such input: a single pop. */
  lemma LonePop(bidi: nat -> set<Flag>)
    ensures FrameStatus([ISOLATE_POP], bidi, 1) == Ok
    ensures Step(Init(Ltr), ISOLATE_POP, bidi).status == StackUnderflow
  {
    assert Words(Init(Ltr), [ISOLATE_POP], bidi, 0) == [];
    assert After(Init(Ltr), [ISOLATE_POP], bidi, 0) == Init(Ltr);
    assert Words(Init(Ltr), [ISOLATE_POP], bidi, 1) == [];
  }

  /** Otherwise one-shot framing agrees with the stream: when no codepoint is refused, it succeeds
      exactly if the words fit, and there is one word for every ordinary codepoint, in order. */
  lemma FrameIsStream(cps: seq<nat>, bidi: nat -> set<Flag>, sts: seq<State>, ws: seq<seq<Word>>, capacity: nat)
    requires IsRun(Init(Ltr), cps, bidi, sts, ws) && capacity > 0 && WithinStack(cps, |cps|)
    ensures Codepoints(ws[|cps|]) == Ordinary(cps, |cps|)
    ensures StatusOf(sts, ws, capacity) == Ok <==> |Ordinary(cps, |cps|)| <= capacity
  {
    DepthCounts(Ltr, cps, bidi, sts, ws, |cps|);
    OneWordEach(cps, bidi, sts, ws, |cps|);
    if |cps| > 0 {
      ActiveBefore(cps, bidi, sts, ws, |cps| - 1, |cps|);
    }
    assert |Codepoints(ws[|cps|])| == |ws[|cps|]|;
  }
}
