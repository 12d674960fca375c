/**
  What compiling and matching promise together: a pattern of literals
  accepts exactly itself and the empty pattern accepts only the empty string.
*/
module Properties {
  import opened Wrappers
  import opened Automaton
  import opened Matcher
  import opened Compiler

  /** A token that compiles to a literal state (`|`, `(` and the like included). */
  predicate IsLiteral(c: char) {
    IsAscii(c) && c != '.' && c != '*' && c != '+'
  }

  predicate IsLiteralPattern(p: string) {
    forall k :: 0 <= k < |p| ==> IsLiteral(p[k])
  }

  /** The arena after compiling the literals `u` onto a fresh start: a chain 0 -> 1 -> ... -> |u|. */
  function Chain(u: string): Graph {
    seq(|u| + 1, k requires 0 <= k <= |u| =>
      Node(if k == 0 then Start else Ascii(u[k - 1]), if k < |u| then [k + 1] else []))
  }

  /** The compiled arena of the literal pattern `w`: the chain, closed by a termination state. */
  function LiteralGraph(w: string): Graph {
    Chain(w)[|w| := Node(Chain(w)[|w|].kind, [|w| + 1])] + [Node(Termination, [])]
  }

  /** Closing a chain with a termination state gives the literal arena. */
  lemma LiteralFinish(u: string, prev: nat)
    requires prev <= |u|
    ensures Finish(Cursor(Chain(u), prev, |u|)) == LiteralGraph(u)
  {
    var h, l := Finish(Cursor(Chain(u), prev, |u|)), LiteralGraph(u);
    assert |h| == |l|;
    forall i | 0 <= i < |h| ensures h[i] == l[i] { }
  }

  /** One literal extends the chain by one node. */
  lemma LiteralExtends(u: string, prev: nat, c: char)
    requires prev <= |u| && IsLiteral(c)
    ensures Step(Cursor(Chain(u), prev, |u|), c) == Ok(Cursor(Chain(u + [c]), |u|, |u| + 1))
  {
    var cur, u1 := Cursor(Chain(u), prev, |u|), u + [c];
    UnitAppends(cur, c);
    var next := Step(cur, c).value;
    assert next.prev == |u| && next.tail == |u| + 1 && |next.g| == |u| + 2;
    var chain := Chain(u1);
    assert |chain| == |u| + 2;
    forall i | 0 <= i < |u| + 2 ensures next.g[i] == chain[i] {
      if i == |u| + 1 {
        assert next.g[i] == Node(Ascii(c), []) && u1[i - 1] == c;
      } else {
        if 0 < i {
          assert u1[i - 1] == u[i - 1];
        }
        assert next.g[i].kind == Chain(u)[i].kind;
        if i == |u| {
          assert next.g[i].next == [] + [|u| + 1];
        } else {
          assert next.g[i] == Chain(u)[i];
        }
      }
    }
    assert next.g == chain;
  }

  lemma {:induction false} LiteralCompileFrom(u: string, v: string, prev: nat)
    requires IsLiteralPattern(v) && prev <= |u|
    ensures CompileFrom(Cursor(Chain(u), prev, |u|), v) == Compiled(LiteralGraph(u + v))
    decreases |v|
  {
    if v == [] {
      assert u + v == u;
      LiteralFinish(u, prev);
    } else {
      var c, u1 := v[0], u + [v[0]];
      assert IsLiteral(c);
      LiteralExtends(u, prev, c);
      assert IsLiteralPattern(v[1..]) by {
        forall k | 0 <= k < |v[1..]| ensures IsLiteral(v[1..][k]) {
          assert v[1..][k] == v[k + 1];
        }
      }
      LiteralCompileFrom(u1, v[1..], |u|);
      assert u1 + v[1..] == u + v;
    }
  }

  /** A pattern of literals compiles, on a fresh start, to its chain closed by termination. */
  lemma LiteralCompiles(p: string)
    requires IsLiteralPattern(p)
    ensures CompileFresh(p) == Compiled(LiteralGraph(p)) && WellFormed(LiteralGraph(p))
  {
    assert Chain([]) == Fresh();
    LiteralCompileFrom([], p, 0);
    assert [] + p == p;
    CompileKeepsWellFormed(Cursor(Fresh(), 0, 0), p);
  }

  /** On a literal chain a step moves one node on when the next literal is the character given, and rejects otherwise. */
  lemma LiteralStep(w: string, k: nat, c: char)
    requires WellFormed(LiteralGraph(w)) && k <= |w|
    ensures CheckNext(LiteralGraph(w), k, c) == if k < |w| && w[k] == c then Some(k + 1) else None
  {
    var g := LiteralGraph(w);
    assert g[k].next == [k + 1];
    PlainSelectionRule(g, k, c, 0);
    if !CheckSelf(g, k + 1, c) {
      PlainSelectionRule(g, k, c, 1);
    }
  }

  lemma {:induction false} LiteralRun(w: string, k: nat, s: string)
    requires WellFormed(LiteralGraph(w)) && k <= |w|
    ensures Run(LiteralGraph(w), k, s) ==
            if |s| <= |w| - k && s == w[k..k + |s|] then Some(k + |s|) else None
    decreases |s|
  {
    if s != [] {
      LiteralStep(w, k, s[0]);
      if k < |w| && w[k] == s[0] {
        LiteralRun(w, k + 1, s[1..]);
        if |s| <= |w| - k {
          assert (s == w[k..k + |s|]) == (s[1..] == w[k + 1..k + |s|]);
        }
      }
    }
  }

  /** In a literal chain only the last literal (or the start, for the empty pattern) is followed by termination. */
  lemma LiteralTermination(w: string, q: nat)
    requires q <= |w|
    ensures HasTermination(LiteralGraph(w), q) <==> q == |w|
    ensures ReachesTermination(LiteralGraph(w), q) <==> q == |w|
  {
    var g := LiteralGraph(w);
    assert g[q].next == [q + 1];
    if q == |w| {
      assert g[g[q].next[0]].kind.Termination?;
    }
  }

  /**
    A pattern made only of literals accepts exactly itself, both as
    `check_string` answers and under the intended acceptance rule.
  */
  lemma LiteralPatternAcceptsExactlyItself(p: string, s: string)
    requires IsLiteralPattern(p)
    ensures CompileFresh(p).Compiled? && WellFormed(CompileFresh(p).graph)
    ensures Accepts(CompileFresh(p).graph, s) <==> s == p
    ensures AcceptsIntended(CompileFresh(p).graph, s) <==> s == p
  {
    LiteralCompiles(p);
    LiteralRun(p, 0, s);
    if |s| <= |p| {
      LiteralTermination(p, |s|);
      assert |s| == |p| && s == p[0..|s|] ==> s == p;
    }
  }

  /** The empty pattern: the start state leads straight to termination and only the empty string is accepted. */
  lemma EmptyPatternAcceptsOnlyEmpty(s: string)
    ensures CompileFresh("") == Compiled([Node(Start, [1]), Node(Termination, [])])
    ensures WellFormed(CompileFresh("").graph)
    ensures Accepts(CompileFresh("").graph, s) <==> s == ""
  {
    LiteralPatternAcceptsExactlyItself("", s);
    LiteralCompiles("");
    var l := LiteralGraph("");
    assert |l| == 2 && l[0] == Node(Start, [1]) && l[1] == Node(Termination, []);
    assert l == [Node(Start, [1]), Node(Termination, [])];
  }

  /** `|` is not refused: it compiles to a literal state and matches itself. */
  lemma BarIsLiteral()
    ensures CompileFresh("a|b").Compiled? && WellFormed(CompileFresh("a|b").graph)
    ensures Accepts(CompileFresh("a|b").graph, "a|b") && !Accepts(CompileFresh("a|b").graph, "a")
  {
    assert IsLiteralPattern("a|b");
    LiteralPatternAcceptsExactlyItself("a|b", "a|b");
    LiteralPatternAcceptsExactlyItself("a|b", "a");
  }

  /** Nor is `(`: a parenthesis is matched literally, not as a group. */
  lemma ParenIsLiteral()
    ensures CompileFresh("(a)").Compiled? && WellFormed(CompileFresh("(a)").graph)
    ensures Accepts(CompileFresh("(a)").graph, "(a)") && !Accepts(CompileFresh("(a)").graph, "a")
  {
    assert IsLiteralPattern("(a)");
    LiteralPatternAcceptsExactlyItself("(a)", "(a)");
    LiteralPatternAcceptsExactlyItself("(a)", "a");
  }
}
