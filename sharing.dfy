/**
  Compiling onto a start state that already carries a pattern.

  `RegexFSM.curr_state` is a class attribute, so every `RegexFSM(...)` of a
  program appends onto the same start state.  Compiling a second pattern
  onto an arena `g0` leaves every node of `g0` but the start state as it
  was, and only appends new entries to the start state's list.  This module
  states that relation (`Agrees`), proves that compilation establishes it,
  and proves what the matcher then answers: every string accepted before is
  still accepted, and when the first entry of the start state's list is a
  star, nothing else changes either.
*/
module Sharing {
  import opened Wrappers
  import opened Automaton
  import opened Matcher
  import opened Compiler

  /**
    `g1` is `g0` after further compilation: the old nodes keep their kinds,
    all old nodes but the start state keep their lists, and the start state's
    old list is a prefix of its new one, extended by successors that are not
    termination states.
  */
  predicate Agrees(g0: Graph, g1: Graph) {
    0 < |g0| <= |g1| &&
    (forall q :: 0 <= q < |g0| ==> g1[q].kind == g0[q].kind) &&
    (forall q :: 1 <= q < |g0| ==> g1[q].next == g0[q].next) &&
    |g0[0].next| <= |g1[0].next| && g1[0].next[..|g0[0].next|] == g0[0].next &&
    forall k :: |g0[0].next| <= k < |g1[0].next| ==>
      g1[0].next[k] < |g1| && !g1[g1[0].next[k]].kind.Termination?
  }

  /** The first successor of the start state is a star: it settles every character. */
  predicate StarFirst(g: Graph) {
    |g| > 0 && |g[0].next| > 0 && g[0].next[0] < |g| && g[g[0].next[0]].kind.Star?
  }

  // ----- Compilation establishes Agrees -----

  /** The compiler's cursors while it compiles onto `g0`, after at least one token. */
  predicate Grown(g0: Graph, cur: Cursor) {
    var g := cur.g;
    Spliced(cur) && 0 < |g0| <= |g| && |g0| <= cur.tail && (cur.prev == 0 || |g0| <= cur.prev) &&
    (forall q :: 0 <= q < |g0| ==> g[q].kind == g0[q].kind) &&
    (forall q :: 1 <= q < |g0| ==> g[q].next == g0[q].next) &&
    (forall q :: |g0| <= q < |g| ==> !g[q].kind.Termination?) &&
    |g0[0].next| < |g[0].next| && g[0].next[..|g0[0].next|] == g0[0].next &&
    forall k :: |g0[0].next| <= k < |g[0].next| ==> |g0| <= g[0].next[k] < |g|
  }

  lemma GrownFirstStep(g0: Graph, c: char)
    requires WellFormed(g0) && IsAscii(c) && c != '*' && c != '+'
    ensures Step(Cursor(g0, 0, 0), c).Ok? && Grown(g0, Step(Cursor(g0, 0, 0), c).value)
  {
    var cur := Cursor(g0, 0, 0);
    UnitAppends(cur, c);
    var h := Step(cur, c).value.g;
    assert h[0].next == g0[0].next + [|g0|];
    assert h[0].next[..|g0[0].next|] == g0[0].next;
  }

  lemma GrownRepeatStep(g0: Graph, cur: Cursor, c: char)
    requires Grown(g0, cur) && (c == '*' || c == '+')
    ensures Step(cur, c).Ok? && Grown(g0, Step(cur, c).value)
  {
    SpliceReplacesLast(cur, c);
    var h, n, before := Step(cur, c).value.g, |cur.g|, cur.g[cur.prev].next;
    var m := |g0[0].next|;
    if cur.prev == 0 {
      assert h[0].next == before[..|before| - 1] + [n];
      assert h[0].next[..m] == before[..m];
      forall k | m <= k < |h[0].next| ensures |g0| <= h[0].next[k] < |h| {
        if k < |before| - 1 {
          assert h[0].next[k] == before[k];
        }
      }
    } else {
      assert h[0] == cur.g[0];
    }
    forall q | 1 <= q < |g0| ensures h[q].next == g0[q].next {
      assert h[q] == cur.g[q];
    }
  }

  lemma GrownUnitStep(g0: Graph, cur: Cursor, c: char)
    requires Grown(g0, cur) && IsAscii(c) && c != '*' && c != '+'
    ensures Step(cur, c).Ok? && Grown(g0, Step(cur, c).value)
  {
    UnitAppends(cur, c);
    var h := Step(cur, c).value.g;
    assert h[0] == cur.g[0];
    forall q | 1 <= q < |g0| ensures h[q].next == g0[q].next {
      assert h[q] == cur.g[q];
    }
  }

  lemma {:induction false} GrownCompile(g0: Graph, cur: Cursor, pattern: string)
    requires Grown(g0, cur) && forall k :: 0 <= k < |pattern| ==> IsAscii(pattern[k])
    ensures CompileFrom(cur, pattern).Compiled?
    ensures Agrees(g0, CompileFrom(cur, pattern).graph)
    decreases |pattern|
  {
    if pattern == [] {
      var h := Finish(cur);
      assert h[0] == cur.g[0];
      forall q | 1 <= q < |g0| ensures h[q].next == g0[q].next {
        assert h[q] == cur.g[q];
      }
    } else {
      if pattern[0] == '*' || pattern[0] == '+' {
        GrownRepeatStep(g0, cur, pattern[0]);
      } else {
        GrownUnitStep(g0, cur, pattern[0]);
      }
      GrownCompile(g0, Step(cur, pattern[0]).value, pattern[1..]);
    }
  }

  /**
    Compiling an ASCII pattern that does not start with a repeat onto an
    arena already compiled succeeds and leaves the two arenas in agreement.
  */
  lemma SharedCompileAgrees(g0: Graph, pattern: string)
    requires WellFormed(g0) && pattern != [] && pattern[0] != '*' && pattern[0] != '+'
    requires forall k :: 0 <= k < |pattern| ==> IsAscii(pattern[k])
    ensures CompileOnto(g0, pattern).Compiled?
    ensures WellFormed(CompileOnto(g0, pattern).graph) && Agrees(g0, CompileOnto(g0, pattern).graph)
  {
    GrownFirstStep(g0, pattern[0]);
    GrownCompile(g0, Step(Cursor(g0, 0, 0), pattern[0]).value, pattern[1..]);
    CompileOntoKeepsWellFormed(g0, pattern);
  }

  // ----- What the matcher sees of an agreeing arena -----

  lemma {:induction false} CheckSelfFrame(g0: Graph, g1: Graph, i: nat, c: char)
    requires WellFormed(g0) && WellFormed(g1) && Agrees(g0, g1) && i < |g0|
    ensures CheckSelf(g1, i, c) == CheckSelf(g0, i, c)
    decreases i
  {
    assert NodeOk(g0, i);
    if g0[i].kind.IsWrapper() {
      CheckSelfFrame(g0, g1, g0[i].kind.wrapped, c);
    }
  }

  /** Scanning old nodes other than the start state answers the same in both arenas. */
  lemma {:induction false} ScanFrame(g0: Graph, g1: Graph, owner: nat, ts: seq<nat>, c: char, skip: bool)
    requires WellFormed(g0) && WellFormed(g1) && Agrees(g0, g1) && owner < |g0|
    requires SuccessorsOk(g0, owner, ts) && forall k :: 0 <= k < |ts| ==> 1 <= ts[k]
    ensures SuccessorsOk(g1, owner, ts)
    ensures ScanSuccessors(g1, owner, ts, c, skip) == ScanSuccessors(g0, owner, ts, c, skip)
    decreases |g0| - owner, |ts|
  {
    if ts != [] {
      CheckSelfFrame(g0, g1, ts[0], c);
      if !CheckSelf(g0, ts[0], c) && skip && g0[ts[0]].kind.Star? {
        StarNextFrame(g0, g1, ts[0], c);
      } else {
        ScanFrame(g0, g1, owner, ts[1..], c, skip);
      }
    }
  }

  lemma {:induction false} StarNextFrame(g0: Graph, g1: Graph, s: nat, c: char)
    requires WellFormed(g0) && WellFormed(g1) && Agrees(g0, g1) && 1 <= s < |g0| && g0[s].kind.Star?
    ensures StarNext(g1, s, c) == StarNext(g0, s, c)
    decreases |g0| - s, |g0[s].next| + 1
  {
    assert NodeOk(g0, s);
    var rest := g0[s].next[1..];
    assert SuccessorsOk(g0, s, rest) && forall k :: 0 <= k < |rest| ==> 1 <= rest[k] by {
      forall k | 0 <= k < |rest| ensures rest[k] < |g0| && s < rest[k] {
        assert EdgeOk(g0, s, k + 1);
      }
    }
    ScanFrame(g0, g1, s, rest, c, true);
    CheckSelfFrame(g0, g1, s, c);
  }

  lemma PlusNextFrame(g0: Graph, g1: Graph, p: nat, c: char)
    requires WellFormed(g0) && WellFormed(g1) && Agrees(g0, g1) && 1 <= p < |g0| && g0[p].kind.Plus?
    ensures PlusNext(g1, p, c) == PlusNext(g0, p, c)
  {
    assert NodeOk(g0, p);
    var ts := Reversed(g0[p].next);
    assert SuccessorsOk(g0, p, ts) && forall k :: 0 <= k < |ts| ==> 1 <= ts[k] by {
      forall k | 0 <= k < |ts| ensures ts[k] < |g0| && p <= ts[k] && (g0[ts[k]].kind.Star? ==> p < ts[k]) {
        assert EdgeOk(g0, p, |g0[p].next| - 1 - k);
      }
    }
    CheckSelfFrame(g0, g1, p, c);
    ScanFrame(g0, g1, p, ts, c, !CheckSelf(g0, p, c));
  }

  lemma CheckNextFrame(g0: Graph, g1: Graph, q: nat, c: char)
    requires WellFormed(g0) && WellFormed(g1) && Agrees(g0, g1) && 1 <= q < |g0|
    ensures CheckNext(g1, q, c) == CheckNext(g0, q, c)
  {
    assert NodeOk(g0, q);
    match g0[q].kind
    case Star(_) => StarNextFrame(g0, g1, q, c);
    case Plus(_) => PlusNextFrame(g0, g1, q, c);
    case _ =>
      assert SuccessorsOk(g0, q, g0[q].next) && forall k :: 0 <= k < |g0[q].next| ==> 1 <= g0[q].next[k] by {
        forall k | 0 <= k < |g0[q].next| ensures g0[q].next[k] < |g0| && q < g0[q].next[k] {
          assert EdgeOk(g0, q, k);
        }
      }
      ScanFrame(g0, g1, q, g0[q].next, c, true);
  }

  lemma {:induction false} RunFrame(g0: Graph, g1: Graph, q: nat, s: string)
    requires WellFormed(g0) && WellFormed(g1) && Agrees(g0, g1) && 1 <= q < |g0|
    ensures Run(g1, q, s) == Run(g0, q, s)
    decreases |s|
  {
    if s != [] {
      CheckNextFrame(g0, g1, q, s[0]);
      if CheckNext(g0, q, s[0]).Some? {
        RunFrame(g0, g1, CheckNext(g0, q, s[0]).value, s[1..]);
      }
    }
  }

  lemma HasTerminationFrame(g0: Graph, g1: Graph, q: nat)
    requires WellFormed(g0) && WellFormed(g1) && Agrees(g0, g1) && q < |g0|
    ensures HasTermination(g1, q) == HasTermination(g0, q)
  {
    if q == 0 {
      var m := |g0[0].next|;
      if HasTermination(g1, 0) {
        var k :| 0 <= k < |g1[0].next| && g1[0].next[k] < |g1| && g1[g1[0].next[k]].kind.Termination?;
        assert k < m && g1[0].next[k] == g0[0].next[k];
      }
      if HasTermination(g0, 0) {
        var k :| 0 <= k < m && g0[0].next[k] < |g0| && g0[g0[0].next[k]].kind.Termination?;
        assert g1[0].next[..m][k] == g1[0].next[k];
      }
    } else {
      if HasTermination(g0, q) {
        var k :| 0 <= k < |g0[q].next| && g0[q].next[k] < |g0| && g0[g0[q].next[k]].kind.Termination?;
        assert g1[q].next[k] < |g1|;
      }
    }
  }

  /** `ts + more` is scanned as `ts`, unless the scan of `ts` runs out. */
  lemma {:induction false} ScanPrefix(g: Graph, owner: nat, ts: seq<nat>, more: seq<nat>, c: char, skip: bool)
    requires WellFormed(g) && owner < |g| && SuccessorsOk(g, owner, ts + more)
    ensures SuccessorsOk(g, owner, ts) && SuccessorsOk(g, owner, more)
    ensures ScanSuccessors(g, owner, ts + more, c, skip) ==
            if ScanSuccessors(g, owner, ts, c, skip).Exhausted? then ScanSuccessors(g, owner, more, c, skip)
            else ScanSuccessors(g, owner, ts, c, skip)
    decreases |ts|
  {
    assert forall k :: 0 <= k < |more| ==> more[k] == (ts + more)[|ts| + k];
    if ts == [] {
      assert ts + more == more;
    } else {
      assert (ts + more)[0] == ts[0] && (ts + more)[1..] == ts[1..] + more;
      ScanPrefix(g, owner, ts[1..], more, c, skip);
    }
  }

  /** On the start state, the old successors are scanned first, in both arenas alike. */
  lemma StartFrame(g0: Graph, g1: Graph, c: char)
    requires WellFormed(g0) && WellFormed(g1) && Agrees(g0, g1)
    ensures CheckNext(g0, 0, c).Some? ==> CheckNext(g1, 0, c) == CheckNext(g0, 0, c)
    ensures StarFirst(g0) ==> CheckNext(g1, 0, c) == CheckNext(g0, 0, c)
  {
    var m := |g0[0].next|;
    var old0, new0 := g0[0].next, g1[0].next;
    assert new0 == old0 + new0[m..];
    assert NodeOk(g0, 0) && NodeOk(g1, 0);
    assert SuccessorsOk(g0, 0, old0) && forall k :: 0 <= k < m ==> 1 <= old0[k] by {
      forall k | 0 <= k < m ensures old0[k] < |g0| && 0 < old0[k] {
        assert EdgeOk(g0, 0, k);
      }
    }
    assert SuccessorsOk(g1, 0, new0) by {
      forall k | 0 <= k < |new0| ensures new0[k] < |g1| && 0 < new0[k] {
        assert EdgeOk(g1, 0, k);
      }
    }
    ScanPrefix(g1, 0, old0, new0[m..], c, true);
    ScanFrame(g0, g1, 0, old0, c, true);
    if StarFirst(g0) {
      CheckSelfFrame(g0, g1, old0[0], c);
      assert !ScanSuccessors(g0, 0, old0, c, true).Exhausted?;
    }
  }

  // ----- Answers -----

  /** Compiling more onto the start state never takes an answer "accepted" back. */
  lemma AgreeingKeepsAcceptances(g0: Graph, g1: Graph, s: string)
    requires WellFormed(g0) && WellFormed(g1) && Agrees(g0, g1)
    ensures Accepts(g0, s) ==> Accepts(g1, s)
  {
    if s == [] {
      HasTerminationFrame(g0, g1, 0);
    } else if Accepts(g0, s) {
      StartFrame(g0, g1, s[0]);
      var t := CheckNext(g0, 0, s[0]).value;
      assert t != 0 by { assert !g0[0].kind.IsWrapper(); }
      RunFrame(g0, g1, t, s[1..]);
      HasTerminationFrame(g0, g1, Run(g0, t, s[1..]).value);
    }
  }

  /** When the old start state leads with a star, the agreeing arena answers exactly as the old one. */
  lemma AgreeingStarFirstSameAnswers(g0: Graph, g1: Graph, s: string)
    requires WellFormed(g0) && WellFormed(g1) && Agrees(g0, g1) && StarFirst(g0)
    ensures Accepts(g1, s) == Accepts(g0, s)
  {
    if s == [] {
      HasTerminationFrame(g0, g1, 0);
    } else {
      StartFrame(g0, g1, s[0]);
      if CheckNext(g0, 0, s[0]).Some? {
        var t := CheckNext(g0, 0, s[0]).value;
        assert t != 0 by { assert !g0[0].kind.IsWrapper(); }
        RunFrame(g0, g1, t, s[1..]);
        if Run(g0, t, s[1..]).Some? {
          HasTerminationFrame(g0, g1, Run(g0, t, s[1..]).value);
        }
      }
    }
  }

  /**
    A second `RegexFSM` on the shared start state: the strings accepted before
    stay accepted, and if the first pattern's start leads with a star the
    answers do not change at all.
  */
  lemma SharedCompileKeepsAnswers(g0: Graph, pattern: string, s: string)
    requires WellFormed(g0) && pattern != [] && pattern[0] != '*' && pattern[0] != '+'
    requires forall k :: 0 <= k < |pattern| ==> IsAscii(pattern[k])
    ensures CompileOnto(g0, pattern).Compiled? && WellFormed(CompileOnto(g0, pattern).graph)
    ensures Accepts(g0, s) ==> Accepts(CompileOnto(g0, pattern).graph, s)
    ensures StarFirst(g0) ==> Accepts(CompileOnto(g0, pattern).graph, s) == Accepts(g0, s)
  {
    SharedCompileAgrees(g0, pattern);
    var g1 := CompileOnto(g0, pattern).graph;
    AgreeingKeepsAcceptances(g0, g1, s);
    if StarFirst(g0) {
      AgreeingStarFirstSameAnswers(g0, g1, s);
    }
  }
}
