/**
  Two places where `regex.py` does not do what its pattern language means,
  each shown on the code as written, next to the behaviour intended: `*`
  is zero or more repetitions, and every `RegexFSM` is its own automaton.
*/
module Findings {
  import opened Wrappers
  import opened Automaton
  import opened Matcher
  import opened Compiler
  import opened Properties
  import opened Sharing

  // ----- A trailing star does not accept zero repetitions -----

  /** The arena `RegexFSM("a*")` builds on a fresh start. */
  function StarGraph(): Graph {
    [Node(Start, [2]), Node(Ascii('a'), [2]), Node(Star(1), [2, 3]), Node(Termination, [])]
  }

  lemma StarStepA()
    ensures Step(Cursor(Fresh(), 0, 0), 'a') == Ok(Cursor([Node(Start, [1]), Node(Ascii('a'), [])], 0, 1))
  {
    var h := Step(Cursor(Fresh(), 0, 0), 'a').value.g;
    assert |h| == 2 && h[0].next == [1] && h[1].next == [];
    assert h == [Node(Start, [1]), Node(Ascii('a'), [])];
  }

  lemma StarStepStar()
    ensures Step(Cursor([Node(Start, [1]), Node(Ascii('a'), [])], 0, 1), '*') ==
            Ok(Cursor([Node(Start, [2]), Node(Ascii('a'), [2]), Node(Star(1), [2])], 1, 2))
  {
    var h := Step(Cursor([Node(Start, [1]), Node(Ascii('a'), [])], 0, 1), '*').value.g;
    assert |h| == 3;
    assert h[0].next == [2] by { assert |h[0].next| == 1 && h[0].next[0] == 2; }
    assert h[1].next == [2] by { assert |h[1].next| == 1 && h[1].next[0] == 2; }
    assert h[2].next == [2] by { assert |h[2].next| == 1 && h[2].next[0] == 2; }
    assert h == [Node(Start, [2]), Node(Ascii('a'), [2]), Node(Star(1), [2])];
  }

  lemma StarFinish()
    ensures Finish(Cursor([Node(Start, [2]), Node(Ascii('a'), [2]), Node(Star(1), [2])], 1, 2)) == StarGraph()
  {
    var h := Finish(Cursor([Node(Start, [2]), Node(Ascii('a'), [2]), Node(Star(1), [2])], 1, 2));
    assert |h| == 4;
    assert h[2].next == [2, 3] by { assert |h[2].next| == 2 && h[2].next[0] == 2 && h[2].next[1] == 3; }
    assert h == StarGraph();
  }

  lemma StarCompiles()
    ensures CompileFresh("a*") == Compiled(StarGraph()) && WellFormed(StarGraph())
  {
    StarStepA();
    StarStepStar();
    StarFinish();
    assert "a*"[0] == 'a' && "a*"[1..] == "*" && "*"[1..] == [];
    CompileFreshKeepsWellFormed("a*");
  }

  lemma StarRuns(g: Graph)
    requires g == StarGraph() && WellFormed(g)
    ensures Run(g, 0, "") == Some(0) && !HasTermination(g, 0)
    ensures Run(g, 0, "aaa") == Some(2) && HasTermination(g, 2)
    ensures ReachesTermination(g, 0)
  {
    assert g[2].next[1..] == [3];
    assert CheckNext(g, 0, 'a') == Some(2) by { assert CheckSelf(g, 2, 'a'); }
    assert CheckNext(g, 2, 'a') == Some(2) by {
      assert CheckSelf(g, 2, 'a') && !CheckSelf(g, 3, 'a');
      assert [3][1..] == [];
      assert ScanSuccessors(g, 2, [3], 'a', true) == Exhausted;
    }
    assert "aaa"[1..] == "aa" && "aa"[1..] == "a" && "a"[1..] == [];
    assert g[g[2].next[1]].kind.Termination?;
    assert ReachesTermination(g, 2);
  }

  /**
    As written: `a*` does not accept the empty string, because
    `check_string` only looks one step past the start state, and that step
    is the star, not termination; one or more `a` are accepted.
  */
  lemma TrailingStarRejectsEmpty()
    ensures CompileFresh("a*").Compiled? && WellFormed(CompileFresh("a*").graph)
    ensures !Accepts(CompileFresh("a*").graph, "")
    ensures Accepts(CompileFresh("a*").graph, "aaa")
  {
    StarCompiles();
    StarRuns(StarGraph());
  }

  /** Intended: zero repetitions are allowed, so under the intended rule `a*` accepts the empty string. */
  lemma TrailingStarIntendedAcceptsEmpty()
    ensures CompileFresh("a*").Compiled? && WellFormed(CompileFresh("a*").graph)
    ensures AcceptsIntended(CompileFresh("a*").graph, "")
    ensures AcceptsIntended(CompileFresh("a*").graph, "aaa")
  {
    StarCompiles();
    StarRuns(StarGraph());
  }

  // ----- Patterns compiled one after the other share their start state -----

  /**
    As written: compiling a literal pattern `q` onto the start state a
    literal pattern `p` was compiled onto gives an automaton that still
    accepts `p`, although `q` on a start of its own rejects it.
  */
  lemma SharedStartLeaksPatterns(p: string, q: string)
    requires IsLiteralPattern(p) && IsLiteralPattern(q) && q != [] && p != q
    ensures CompileFresh(p).Compiled? && WellFormed(CompileFresh(p).graph)
    ensures CompileFresh(q).Compiled? && WellFormed(CompileFresh(q).graph)
    ensures CompileOnto(CompileFresh(p).graph, q).Compiled?
    ensures WellFormed(CompileOnto(CompileFresh(p).graph, q).graph)
    ensures Accepts(CompileOnto(CompileFresh(p).graph, q).graph, p)
    ensures !Accepts(CompileFresh(q).graph, p)
  {
    LiteralPatternAcceptsExactlyItself(p, p);
    LiteralPatternAcceptsExactlyItself(q, p);
    assert IsLiteral(q[0]);
    SharedCompileKeepsAnswers(CompileFresh(p).graph, q, p);
  }

  /** The program `RegexFSM("ab")` then `RegexFSM("cd")`: the second automaton accepts "ab". */
  lemma SharedStartAcceptsAb()
    ensures CompileFresh("ab").Compiled? && WellFormed(CompileFresh("ab").graph)
    ensures CompileFresh("cd").Compiled? && WellFormed(CompileFresh("cd").graph)
    ensures CompileOnto(CompileFresh("ab").graph, "cd").Compiled?
    ensures WellFormed(CompileOnto(CompileFresh("ab").graph, "cd").graph)
    ensures Accepts(CompileOnto(CompileFresh("ab").graph, "cd").graph, "ab")
    ensures !Accepts(CompileFresh("cd").graph, "ab")
  {
    SharedStartLeaksPatterns("ab", "cd");
  }

  // ----- A leading repeat on the shared start takes an earlier pattern's entry -----

  /** The arena `RegexFSM("ab")` builds on a fresh start. */
  function AbGraph(): Graph {
    [Node(Start, [1]), Node(Ascii('a'), [2]), Node(Ascii('b'), [3]), Node(Termination, [])]
  }

  /** `RegexFSM("*")` after it: the start's entry for `a` is popped and wrapped in a star. */
  function AbStarGraph(): Graph {
    [ Node(Start, [4, 4]), Node(Ascii('a'), [2]), Node(Ascii('b'), [3]), Node(Termination, []),
      Node(Star(1), [4, 5]), Node(Termination, []) ]
  }

  lemma AbCompiles()
    ensures CompileFresh("ab") == Compiled(AbGraph()) && WellFormed(AbGraph())
  {
    assert IsLiteralPattern("ab");
    LiteralCompiles("ab");
    var l := LiteralGraph("ab");
    assert |l| == 4 && l[0] == AbGraph()[0] && l[1] == AbGraph()[1] && l[2] == AbGraph()[2] && l[3] == AbGraph()[3];
    assert l == AbGraph();
  }

  lemma AbStarStep()
    ensures Step(Cursor(AbGraph(), 0, 0), '*') ==
            Ok(Cursor([Node(Start, [4, 4]), Node(Ascii('a'), [2]), Node(Ascii('b'), [3]),
                       Node(Termination, []), Node(Star(1), [4])], 0, 4))
  {
    var h := Step(Cursor(AbGraph(), 0, 0), '*').value.g;
    assert |h| == 5;
    assert h[0].next == [4, 4] by { assert |h[0].next| == 2 && h[0].next[0] == 4 && h[0].next[1] == 4; }
    assert h[4] == Node(Star(1), [4]);
    assert h == [Node(Start, [4, 4]), Node(Ascii('a'), [2]), Node(Ascii('b'), [3]),
                 Node(Termination, []), Node(Star(1), [4])];
  }

  lemma AbStarFinish()
    ensures Finish(Cursor([Node(Start, [4, 4]), Node(Ascii('a'), [2]), Node(Ascii('b'), [3]),
                           Node(Termination, []), Node(Star(1), [4])], 0, 4)) == AbStarGraph()
  {
    var h := Finish(Cursor([Node(Start, [4, 4]), Node(Ascii('a'), [2]), Node(Ascii('b'), [3]),
                            Node(Termination, []), Node(Star(1), [4])], 0, 4));
    assert |h| == 6;
    assert h[4].next == [4, 5] by { assert |h[4].next| == 2 && h[4].next[0] == 4 && h[4].next[1] == 5; }
    assert h == AbStarGraph();
  }

  lemma AbStarCompiles()
    ensures CompileOnto(AbGraph(), "*") == Compiled(AbStarGraph()) && WellFormed(AbStarGraph())
  {
    AbCompiles();
    AbStarStep();
    AbStarFinish();
    assert "*"[1..] == [];
    CompileOntoKeepsWellFormed(AbGraph(), "*");
  }

  lemma AbStarRejectsAb(g: Graph)
    requires g == AbStarGraph() && WellFormed(g)
    ensures Run(g, 0, "ab") == None
  {
    assert CheckNext(g, 0, 'a') == Some(4) by { assert CheckSelf(g, 4, 'a'); }
    assert CheckNext(g, 4, 'b') == None by {
      assert !CheckSelf(g, 4, 'b') && !CheckSelf(g, 5, 'b');
      assert g[4].next[1..] == [5] && [5][1..] == [];
      assert ScanSuccessors(g, 4, [5], 'b', true) == Exhausted;
    }
    assert "ab"[1..] == "b" && "b"[0] == 'b';
  }

  /**
    As written: `RegexFSM("*")` after `RegexFSM("ab")` does not fail, since
    the shared start's list is no longer empty; it pops the start's entry for
    `a` and wraps it, and the automaton no longer accepts "ab", which the
    first one did.
  */
  lemma SharedLeadingStarDropsAcceptance()
    ensures CompileFresh("ab").Compiled? && WellFormed(CompileFresh("ab").graph)
    ensures Accepts(CompileFresh("ab").graph, "ab")
    ensures CompileOnto(CompileFresh("ab").graph, "*").Compiled?
    ensures WellFormed(CompileOnto(CompileFresh("ab").graph, "*").graph)
    ensures !Accepts(CompileOnto(CompileFresh("ab").graph, "*").graph, "ab")
  {
    AbCompiles();
    LiteralPatternAcceptsExactlyItself("ab", "ab");
    AbStarCompiles();
    AbStarRejectsAb(AbStarGraph());
  }
}
