/**
  Embeddings and their terminators in the explicit phase: a PDF takes back what the embedding control
  that it matches did, whatever isolates stand between the two.
 */
module Embeddings {
  import opened BidiTypes
  import opened ExplicitLevels

  /** The controls of `rs[a..b]` match up, `d` embeddings and `n` isolates being open at `a`: every isolate
      initiator with a PDI, and outside of isolates every embedding control with a PDF.  What stands
      inside an isolate need not match up. */
  predicate Nested(rs: seq<Run>, a: nat, b: nat, d: nat, n: nat)
    requires a <= b <= |rs|
    decreases b - a
  {
    if a == b then d == 0 && n == 0
    else if IsIsolateInitiator(rs[a].cls) then Nested(rs, a + 1, b, d, n + 1)
    else if rs[a].cls == PDI then n > 0 && Nested(rs, a + 1, b, d, n - 1)
    else if n == 0 && IsEmbedding(rs[a].cls) then Nested(rs, a + 1, b, d + 1, n)
    else if n == 0 && rs[a].cls == PDF then d > 0 && Nested(rs, a + 1, b, d - 1, n)
    else Nested(rs, a + 1, b, d, n)
  }

  /** The PDI that closes the outermost open isolate. */
  lemma {:induction false} ClosingPdi(rs: seq<Run>, a: nat, b: nat, d: nat, n: nat) returns (j: nat)
    requires a <= b <= |rs| && Nested(rs, a, b, d, n + 1)
    ensures a <= j < b && rs[j].cls == PDI && Balanced(rs, a, j, n) && Nested(rs, j + 1, b, d, 0)
    decreases b - a
  {
    if IsIsolateInitiator(rs[a].cls) {
      j := ClosingPdi(rs, a + 1, b, d, n + 1);
    } else if rs[a].cls == PDI && n == 0 {
      j := a;
    } else if rs[a].cls == PDI {
      j := ClosingPdi(rs, a + 1, b, d, n - 1);
    } else {
      j := ClosingPdi(rs, a + 1, b, d, n);
    }
  }

  /** `d` embeddings are open since the state `base`, on the stack or counted as overflow. */
  ghost predicate Since(st: State, base: State, d: nat) {
    && st.overIso == base.overIso && st.validIso == base.validIso
    && if base.overIso > 0 then st.stack == base.stack && st.overEmb == base.overEmb
       else
         && base.stack <= st.stack && base.overEmb <= st.overEmb
         && (forall i | |base.stack| <= i < |st.stack| :: !st.stack[i].isolate)
         && (base.overEmb > 0 ==> st.stack == base.stack)
         && |st.stack| - |base.stack| + (st.overEmb - base.overEmb) == d
  }

  lemma OpenSince(st: State, base: State, d: nat, c: Class)
    requires Safe(st) && Since(st, base, d) && IsEmbedding(c)
    ensures Since(EmbeddingState(st, c), base, d + 1)
  {
  }

  lemma CloseSince(st: State, base: State, d: nat)
    requires Safe(st) && Since(st, base, d + 1) && base.stack != []
    ensures Since(PdfState(st), base, d)
  {
    if st.overIso == 0 && st.overEmb == 0 {
      assert |st.stack| > |base.stack| && st.stack[..|base.stack|] == base.stack;
      assert st.stack[..|st.stack| - 1][..|base.stack|] == base.stack;
    }
  }

  lemma {:induction false} RunSince(rs: seq<Run>, sts: seq<State>, a: nat, b: nat, d: nat, base: State)
    requires IsTrace(rs, sts) && a <= b <= |rs| && Nested(rs, a, b, d, 0)
    requires Since(sts[a], base, d) && base.stack != []
    ensures Since(sts[b], base, 0)
    decreases b - a
  {
    if a < b && IsIsolateInitiator(rs[a].cls) {
      var j := ClosingPdi(rs, a + 1, b, d, 0);
      IsolationOnTrace(rs, sts, a, j);
      RunSince(rs, sts, j + 1, b, d, base);
    } else if a < b {
      NextSince(rs, sts, a, d, base);
      RunSince(rs, sts, a + 1, b, OpenAfter(rs[a].cls, d), base);
    }
  }

  function OpenAfter(c: Class, d: nat): nat
    requires c == PDF ==> d > 0
  {
    if IsEmbedding(c) then d + 1 else if c == PDF then d - 1 else d
  }

  lemma NextSince(rs: seq<Run>, sts: seq<State>, a: nat, d: nat, base: State)
    requires IsTrace(rs, sts) && a < |rs| && Since(sts[a], base, d) && base.stack != []
    requires !IsIsolateInitiator(rs[a].cls) && rs[a].cls != PDI && (rs[a].cls == PDF ==> d > 0)
    ensures Since(sts[a + 1], base, OpenAfter(rs[a].cls, d))
  {
    assert Follows(rs, sts, a);
    StepSince(sts[a], base, d, rs[a].cls, FirstStrongRtl(rs[a + 1..]));
  }

  lemma StepSince(st: State, base: State, d: nat, c: Class, rtlAhead: bool)
    requires Safe(st) && Since(st, base, d) && base.stack != []
    requires !IsIsolateInitiator(c) && c != PDI && (c == PDF ==> d > 0)
    ensures Since(StepState(st, c, rtlAhead), base, OpenAfter(c, d))
  {
    if IsEmbedding(c) {
      OpenSince(st, base, d, c);
    } else if c == PDF {
      CloseSince(st, base, d - 1);
    }
  }

  lemma {:induction false} OneMoreOpen(rs: seq<Run>, a: nat, j: nat, d: nat, n: nat)
    requires a <= j < |rs| && Nested(rs, a, j, d, n) && rs[j].cls == PDF
    ensures Nested(rs, a, j + 1, d + 1, n)
    decreases j - a
  {
    if a < j {
      var c := rs[a].cls;
      if IsIsolateInitiator(c) {
        OneMoreOpen(rs, a + 1, j, d, n + 1);
      } else if c == PDI {
        OneMoreOpen(rs, a + 1, j, d, n - 1);
      } else if n == 0 && IsEmbedding(c) {
        OneMoreOpen(rs, a + 1, j, d + 1, n);
      } else if n == 0 && c == PDF {
        OneMoreOpen(rs, a + 1, j, d - 1, n);
      } else {
        OneMoreOpen(rs, a + 1, j, d, n);
      }
    }
  }

  /** Text in which all controls match up leaves the whole state as it was. */
  lemma NestedRestores(rs: seq<Run>, sts: seq<State>, i: nat, j: nat)
    requires IsTrace(rs, sts) && i <= j <= |rs| && Nested(rs, i, j, 0, 0)
    ensures sts[j] == sts[i]
  {
    if i < j {
      assert Follows(rs, sts, i);
      RunSince(rs, sts, i, j, 0, sts[i]);
    }
  }

  /** An embedding control and its matching PDF, whether the control opened a level or overflowed: the
      state after the PDF is the state before the control. */
  lemma EmbeddingRestores(rs: seq<Run>, sts: seq<State>, i: nat, j: nat, next: nat)
    requires IsTrace(rs, sts) && i < j < |rs| && next == j + 1
    requires IsEmbedding(rs[i].cls) && rs[j].cls == PDF && Nested(rs, i + 1, j, 0, 0)
    ensures sts[next] == sts[i]
  {
    PairNested(rs, i, j, 0, 0);
    NestedRestores(rs, sts, i, next);
  }

  lemma PairNested(rs: seq<Run>, i: nat, j: nat, d: nat, n: nat)
    requires i < j < |rs| && IsEmbedding(rs[i].cls) && rs[j].cls == PDF && n == 0 && Nested(rs, i + 1, j, d, n)
    ensures Nested(rs, i, j + 1, d, n)
  {
    OneMoreOpen(rs, i + 1, j, d, n);
  }

  /** A boundary neutral is removed, and has the level that text in its place would have. */
  lemma NeutralHere(rs: seq<Run>, para: nat, sts: seq<State>, x: Run, k: nat)
    requires para <= MAX_LEVEL && sts == Trace(rs, para) && k < |rs| && rs[k].cls == BN
    requires x == Explicit(rs, para)[k]
    ensures sts[k].stack != [] && x.level == Top(sts[k]).level && x.cls == BN && x.removed
  {
    ExplicitOnTrace(rs, para, k);
    NeutralRewritten(Top(sts[k]), Top(sts[k + 1]), rs[k], para);
  }

  lemma NeutralRewritten(cur: Status, next: Status, x: Run, para: nat)
    requires x.cls == BN
    ensures Rewritten(cur, next, x, para) == Run(x.cp, BN, cur.level, x.mirrored, true)
  {
  }

  lemma LevelHere(rs: seq<Run>, para: nat, sts: seq<State>, x: Run, k: nat)
    requires para <= MAX_LEVEL && sts == Trace(rs, para) && k < |rs| && Ordinary(rs[k].cls)
    requires x == Explicit(rs, para)[k]
    ensures sts[k].stack != [] && x.level == Top(sts[k]).level && x.cls == Forced(rs[k].cls, Top(sts[k]).override)
  {
    ExplicitOnTrace(rs, para, k);
    TextRewritten(Top(sts[k]), Top(sts[k + 1]), rs[k], para);
  }

  /** So text after the PDF, up to the next control, is treated like text right before the control. */
  lemma SameAfterPdf(rs: seq<Run>, para: nat, h: nat, i: nat, j: nat, k: nat, x: Run, y: Run)
    requires para <= MAX_LEVEL && h < i < j < k < |rs| && x == Explicit(rs, para)[h] && y == Explicit(rs, para)[k]
    requires IsEmbedding(rs[i].cls) && rs[j].cls == PDF && Nested(rs, i + 1, j, 0, 0)
    requires forall m | h <= m <= k && !(i <= m <= j) :: Ordinary(rs[m].cls)
    ensures y.level == x.level && (rs[k].cls == rs[h].cls ==> y.cls == x.cls)
  {
    var sts := Trace(rs, para);
    TraceIsTrace(rs, para);
    SameState(rs, sts, h, i, j, k);
    LevelHere(rs, para, sts, x, h);
    LevelHere(rs, para, sts, y, k);
  }

  lemma SameState(rs: seq<Run>, sts: seq<State>, h: nat, i: nat, j: nat, k: nat)
    requires IsTrace(rs, sts) && h < i < j < k < |rs|
    requires IsEmbedding(rs[i].cls) && rs[j].cls == PDF && Nested(rs, i + 1, j, 0, 0)
    requires forall m | h <= m <= k && !(i <= m <= j) :: Ordinary(rs[m].cls)
    ensures sts[k] == sts[h] && Ordinary(rs[h].cls) && Ordinary(rs[k].cls)
  {
    EmbeddingRestores(rs, sts, i, j, j + 1);
    OrdinaryKeepsState(rs, sts, h, i);
    OrdinaryKeepsState(rs, sts, j + 1, k);
  }

  /** A PDF changes the state exactly when there is an embedding that it can close: not inside an overflow
      isolate, and an overflow embedding or an embedding entry on top of the stack, above the bottom. */
  lemma PdfWithNothingToClose(rs: seq<Run>, sts: seq<State>, i: nat, st: State)
    requires IsTrace(rs, sts) && i < |rs| && rs[i].cls == PDF && st == sts[i]
    ensures st.stack != []
    ensures sts[i + 1] == st <==> st.overIso > 0 || (st.overEmb == 0 && (|st.stack| == 1 || Top(st).isolate))
  {
    assert Follows(rs, sts, i);
  }
}
