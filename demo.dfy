/**
  The demonstration at the end of `regex.py`: the arena built for
  `a*4+g*hi` and the three answers printed for it.
*/
module Demo {
  import opened Wrappers
  import opened Automaton
  import opened Matcher
  import opened Compiler
  import opened Sharing

  const Pattern := "a*4+g*hi"

  /** The arena `RegexFSM("a*4+g*hi")` builds on a fresh start. */
  function DemoGraph(): Graph {
    [ Node(Start, [2]),
      Node(Ascii('a'), [2]),
      Node(Star(1), [2, 4]),
      Node(Ascii('4'), [4]),
      Node(Plus(3), [4, 6]),
      Node(Ascii('g'), [6]),
      Node(Star(5), [6, 7]),
      Node(Ascii('h'), [8]),
      Node(Ascii('i'), [9]),
      Node(Termination, []) ]
  }

  /** Two arenas with the same nodes are the same arena. */
  lemma SameArena(a: Graph, b: Graph)
    requires |a| == |b| && forall i :: 0 <= i < |a| ==> a[i] == b[i]
    ensures a == b
  {
  }

  // The compiler's cursors after each token of the demonstration pattern.

  function After0(): Cursor {
    Cursor([Node(Start, [])], 0, 0)
  }

  function After1(): Cursor {
    Cursor([Node(Start, [1]), Node(Ascii('a'), [])], 0, 1)
  }

  function After2(): Cursor {
    Cursor([Node(Start, [2]), Node(Ascii('a'), [2]), Node(Star(1), [2])], 1, 2)
  }

  function After3(): Cursor {
    Cursor([Node(Start, [2]), Node(Ascii('a'), [2]), Node(Star(1), [2, 3]), Node(Ascii('4'), [])], 2, 3)
  }

  function After4(): Cursor {
    Cursor([Node(Start, [2]), Node(Ascii('a'), [2]), Node(Star(1), [2, 4]), Node(Ascii('4'), [4]), Node(Plus(3), [4])], 3, 4)
  }

  function After5(): Cursor {
    Cursor([Node(Start, [2]), Node(Ascii('a'), [2]), Node(Star(1), [2, 4]), Node(Ascii('4'), [4]), Node(Plus(3), [4, 5]), Node(Ascii('g'), [])], 4, 5)
  }

  function After6(): Cursor {
    Cursor([Node(Start, [2]), Node(Ascii('a'), [2]), Node(Star(1), [2, 4]), Node(Ascii('4'), [4]), Node(Plus(3), [4, 6]), Node(Ascii('g'), [6]), Node(Star(5), [6])], 5, 6)
  }

  function After7(): Cursor {
    Cursor([Node(Start, [2]), Node(Ascii('a'), [2]), Node(Star(1), [2, 4]), Node(Ascii('4'), [4]), Node(Plus(3), [4, 6]), Node(Ascii('g'), [6]), Node(Star(5), [6, 7]), Node(Ascii('h'), [])], 6, 7)
  }

  function After8(): Cursor {
    Cursor([Node(Start, [2]), Node(Ascii('a'), [2]), Node(Star(1), [2, 4]), Node(Ascii('4'), [4]), Node(Plus(3), [4, 6]), Node(Ascii('g'), [6]), Node(Star(5), [6, 7]), Node(Ascii('h'), [8]), Node(Ascii('i'), [])], 7, 8)
  }

  lemma DemoStep0()
    ensures Step(After0(), 'a') == Ok(After1())
  {
    var h, e := Step(After0(), 'a').value.g, After1().g;
    assert |h| == 2;
    assert h[0].next == e[0].next by { assert |h[0].next| == 1 && h[0].next[0] == 1; }
    assert h[1].next == e[1].next by { assert |h[1].next| == 0; }
    assert h[0] == e[0] && h[1] == e[1];
    SameArena(h, e);
  }

  lemma DemoStep1()
    ensures Step(After1(), '*') == Ok(After2())
  {
    var h, e := Step(After1(), '*').value.g, After2().g;
    assert |h| == 3;
    assert h[0].next == e[0].next by { assert |h[0].next| == 1 && h[0].next[0] == 2; }
    assert h[1].next == e[1].next by { assert |h[1].next| == 1 && h[1].next[0] == 2; }
    assert h[2].next == e[2].next by { assert |h[2].next| == 1 && h[2].next[0] == 2; }
    assert h[0] == e[0] && h[1] == e[1] && h[2] == e[2];
    SameArena(h, e);
  }

  lemma DemoStep2()
    ensures Step(After2(), '4') == Ok(After3())
  {
    var h, e := Step(After2(), '4').value.g, After3().g;
    assert |h| == 4;
    assert h[0].next == e[0].next by { assert |h[0].next| == 1 && h[0].next[0] == 2; }
    assert h[1].next == e[1].next by { assert |h[1].next| == 1 && h[1].next[0] == 2; }
    assert h[2].next == e[2].next by { assert |h[2].next| == 2 && h[2].next[0] == 2 && h[2].next[1] == 3; }
    assert h[3].next == e[3].next by { assert |h[3].next| == 0; }
    assert h[0] == e[0] && h[1] == e[1] && h[2] == e[2] && h[3] == e[3];
    SameArena(h, e);
  }

  lemma DemoStep3()
    ensures Step(After3(), '+') == Ok(After4())
  {
    var h, e := Step(After3(), '+').value.g, After4().g;
    assert |h| == 5;
    assert h[0].next == e[0].next by { assert |h[0].next| == 1 && h[0].next[0] == 2; }
    assert h[1].next == e[1].next by { assert |h[1].next| == 1 && h[1].next[0] == 2; }
    assert h[2].next == e[2].next by { assert |h[2].next| == 2 && h[2].next[0] == 2 && h[2].next[1] == 4; }
    assert h[3].next == e[3].next by { assert |h[3].next| == 1 && h[3].next[0] == 4; }
    assert h[4].next == e[4].next by { assert |h[4].next| == 1 && h[4].next[0] == 4; }
    assert h[0] == e[0] && h[1] == e[1] && h[2] == e[2] && h[3] == e[3] && h[4] == e[4];
    SameArena(h, e);
  }

  lemma DemoStep4()
    ensures Step(After4(), 'g') == Ok(After5())
  {
    var h, e := Step(After4(), 'g').value.g, After5().g;
    assert |h| == 6;
    assert h[0].next == e[0].next by { assert |h[0].next| == 1 && h[0].next[0] == 2; }
    assert h[1].next == e[1].next by { assert |h[1].next| == 1 && h[1].next[0] == 2; }
    assert h[2].next == e[2].next by { assert |h[2].next| == 2 && h[2].next[0] == 2 && h[2].next[1] == 4; }
    assert h[3].next == e[3].next by { assert |h[3].next| == 1 && h[3].next[0] == 4; }
    assert h[4].next == e[4].next by { assert |h[4].next| == 2 && h[4].next[0] == 4 && h[4].next[1] == 5; }
    assert h[5].next == e[5].next by { assert |h[5].next| == 0; }
    assert h[0] == e[0] && h[1] == e[1] && h[2] == e[2] && h[3] == e[3] && h[4] == e[4] && h[5] == e[5];
    SameArena(h, e);
  }

  lemma DemoStep5()
    ensures Step(After5(), '*') == Ok(After6())
  {
    var h, e := Step(After5(), '*').value.g, After6().g;
    assert |h| == 7;
    assert h[0].next == e[0].next by { assert |h[0].next| == 1 && h[0].next[0] == 2; }
    assert h[1].next == e[1].next by { assert |h[1].next| == 1 && h[1].next[0] == 2; }
    assert h[2].next == e[2].next by { assert |h[2].next| == 2 && h[2].next[0] == 2 && h[2].next[1] == 4; }
    assert h[3].next == e[3].next by { assert |h[3].next| == 1 && h[3].next[0] == 4; }
    assert h[4].next == e[4].next by { assert |h[4].next| == 2 && h[4].next[0] == 4 && h[4].next[1] == 6; }
    assert h[5].next == e[5].next by { assert |h[5].next| == 1 && h[5].next[0] == 6; }
    assert h[6].next == e[6].next by { assert |h[6].next| == 1 && h[6].next[0] == 6; }
    assert h[0] == e[0] && h[1] == e[1] && h[2] == e[2] && h[3] == e[3] && h[4] == e[4] && h[5] == e[5] && h[6] == e[6];
    SameArena(h, e);
  }

  lemma DemoStep6()
    ensures Step(After6(), 'h') == Ok(After7())
  {
    var h, e := Step(After6(), 'h').value.g, After7().g;
    assert |h| == 8;
    assert h[0].next == e[0].next by { assert |h[0].next| == 1 && h[0].next[0] == 2; }
    assert h[1].next == e[1].next by { assert |h[1].next| == 1 && h[1].next[0] == 2; }
    assert h[2].next == e[2].next by { assert |h[2].next| == 2 && h[2].next[0] == 2 && h[2].next[1] == 4; }
    assert h[3].next == e[3].next by { assert |h[3].next| == 1 && h[3].next[0] == 4; }
    assert h[4].next == e[4].next by { assert |h[4].next| == 2 && h[4].next[0] == 4 && h[4].next[1] == 6; }
    assert h[5].next == e[5].next by { assert |h[5].next| == 1 && h[5].next[0] == 6; }
    assert h[6].next == e[6].next by { assert |h[6].next| == 2 && h[6].next[0] == 6 && h[6].next[1] == 7; }
    assert h[7].next == e[7].next by { assert |h[7].next| == 0; }
    assert h[0] == e[0] && h[1] == e[1] && h[2] == e[2] && h[3] == e[3] && h[4] == e[4] && h[5] == e[5] && h[6] == e[6] && h[7] == e[7];
    SameArena(h, e);
  }

  lemma DemoStep7()
    ensures Step(After7(), 'i') == Ok(After8())
  {
    var h, e := Step(After7(), 'i').value.g, After8().g;
    assert |h| == 9;
    assert h[0].next == e[0].next by { assert |h[0].next| == 1 && h[0].next[0] == 2; }
    assert h[1].next == e[1].next by { assert |h[1].next| == 1 && h[1].next[0] == 2; }
    assert h[2].next == e[2].next by { assert |h[2].next| == 2 && h[2].next[0] == 2 && h[2].next[1] == 4; }
    assert h[3].next == e[3].next by { assert |h[3].next| == 1 && h[3].next[0] == 4; }
    assert h[4].next == e[4].next by { assert |h[4].next| == 2 && h[4].next[0] == 4 && h[4].next[1] == 6; }
    assert h[5].next == e[5].next by { assert |h[5].next| == 1 && h[5].next[0] == 6; }
    assert h[6].next == e[6].next by { assert |h[6].next| == 2 && h[6].next[0] == 6 && h[6].next[1] == 7; }
    assert h[7].next == e[7].next by { assert |h[7].next| == 1 && h[7].next[0] == 8; }
    assert h[8].next == e[8].next by { assert |h[8].next| == 0; }
    assert h[0] == e[0] && h[1] == e[1] && h[2] == e[2] && h[3] == e[3] && h[4] == e[4] && h[5] == e[5] && h[6] == e[6] && h[7] == e[7] && h[8] == e[8];
    SameArena(h, e);
  }

  lemma DemoFinish()
    ensures Finish(After8()) == DemoGraph()
  {
    var h, e := Finish(After8()), DemoGraph();
    assert |h| == 10;
    assert h[0].next == e[0].next by { assert |h[0].next| == 1 && h[0].next[0] == 2; }
    assert h[1].next == e[1].next by { assert |h[1].next| == 1 && h[1].next[0] == 2; }
    assert h[2].next == e[2].next by { assert |h[2].next| == 2 && h[2].next[0] == 2 && h[2].next[1] == 4; }
    assert h[3].next == e[3].next by { assert |h[3].next| == 1 && h[3].next[0] == 4; }
    assert h[4].next == e[4].next by { assert |h[4].next| == 2 && h[4].next[0] == 4 && h[4].next[1] == 6; }
    assert h[5].next == e[5].next by { assert |h[5].next| == 1 && h[5].next[0] == 6; }
    assert h[6].next == e[6].next by { assert |h[6].next| == 2 && h[6].next[0] == 6 && h[6].next[1] == 7; }
    assert h[7].next == e[7].next by { assert |h[7].next| == 1 && h[7].next[0] == 8; }
    assert h[8].next == e[8].next by { assert |h[8].next| == 1 && h[8].next[0] == 9; }
    assert h[9].next == e[9].next by { assert |h[9].next| == 0; }
    assert h[0] == e[0] && h[1] == e[1] && h[2] == e[2] && h[3] == e[3] && h[4] == e[4] && h[5] == e[5] && h[6] == e[6] && h[7] == e[7] && h[8] == e[8] && h[9] == e[9];
    SameArena(h, e);
  }

  /** Compiling the rest of the pattern from each cursor ends in the demonstration arena. */
  lemma DemoFrom8()
    ensures CompileFrom(After8(), []) == Compiled(DemoGraph())
  {
    DemoFinish();
  }

  lemma DemoFrom7()
    ensures CompileFrom(After7(), "i") == Compiled(DemoGraph())
  {
    DemoFrom8();
    DemoStep7();
    assert "i"[0] == 'i' && "i"[1..] == [];
  }

  lemma DemoFrom6()
    ensures CompileFrom(After6(), "hi") == Compiled(DemoGraph())
  {
    DemoFrom7();
    DemoStep6();
    assert "hi"[0] == 'h' && "hi"[1..] == "i";
  }

  lemma DemoFrom5()
    ensures CompileFrom(After5(), "*hi") == Compiled(DemoGraph())
  {
    DemoFrom6();
    DemoStep5();
    assert "*hi"[0] == '*' && "*hi"[1..] == "hi";
  }

  lemma DemoFrom4()
    ensures CompileFrom(After4(), "g*hi") == Compiled(DemoGraph())
  {
    DemoFrom5();
    DemoStep4();
    assert "g*hi"[0] == 'g' && "g*hi"[1..] == "*hi";
  }

  lemma DemoFrom3()
    ensures CompileFrom(After3(), "+g*hi") == Compiled(DemoGraph())
  {
    DemoFrom4();
    DemoStep3();
    assert "+g*hi"[0] == '+' && "+g*hi"[1..] == "g*hi";
  }

  lemma DemoFrom2()
    ensures CompileFrom(After2(), "4+g*hi") == Compiled(DemoGraph())
  {
    DemoFrom3();
    DemoStep2();
    assert "4+g*hi"[0] == '4' && "4+g*hi"[1..] == "+g*hi";
  }

  lemma DemoFrom1()
    ensures CompileFrom(After1(), "*4+g*hi") == Compiled(DemoGraph())
  {
    DemoFrom2();
    DemoStep1();
    assert "*4+g*hi"[0] == '*' && "*4+g*hi"[1..] == "4+g*hi";
  }

  lemma DemoFrom0()
    ensures CompileFrom(After0(), "a*4+g*hi") == Compiled(DemoGraph())
  {
    DemoFrom1();
    DemoStep0();
    assert "a*4+g*hi"[0] == 'a' && "a*4+g*hi"[1..] == "*4+g*hi";
  }

  lemma DemoBuilds()
    ensures CompileFresh(Pattern) == Compiled(DemoGraph())
  {
    DemoFrom0();
    assert After0() == Cursor(Fresh(), 0, 0);
  }

  /** `RegexFSM("a*4+g*hi")` builds the arena drawn above, and it is well formed. */
  lemma DemoCompiles()
    ensures CompileFresh(Pattern) == Compiled(DemoGraph())
    ensures WellFormed(DemoGraph())
  {
    DemoBuilds();
    CompileFreshKeepsWellFormed(Pattern);
  }

  /** One transition: feeding `s` to `q` continues from `t` with the rest of `s`. */
  lemma RunStep(g: Graph, q: nat, s: string, t: nat)
    requires WellFormed(g) && q < |g| && s != [] && CheckNext(g, q, s[0]) == Some(t)
    ensures Run(g, q, s) == Run(g, t, s[1..])
  {
  }

  // The transitions the demonstration strings take, one lemma each.

  lemma MoveStartA(g: Graph)
    requires g == DemoGraph() && WellFormed(g)
    ensures CheckNext(g, 0, 'a') == Some(2)
  {
    assert CheckSelf(g, 2, 'a');
  }

  lemma MoveStarA(g: Graph)
    requires g == DemoGraph() && WellFormed(g)
    ensures CheckNext(g, 2, 'a') == Some(2)
  {
    assert g[2].next[1..] == [4];
    assert !CheckSelf(g, 4, 'a') && CheckSelf(g, 2, 'a');
  }

  lemma MoveStar4(g: Graph)
    requires g == DemoGraph() && WellFormed(g)
    ensures CheckNext(g, 2, '4') == Some(4)
  {
    assert g[2].next[1..] == [4];
    assert CheckSelf(g, 4, '4');
  }

  lemma MovePlus4(g: Graph)
    requires g == DemoGraph() && WellFormed(g)
    ensures CheckNext(g, 4, '4') == Some(4)
  {
    var ts := Reversed(g[4].next);
    assert ts == [6, 4] by { assert |ts| == 2 && ts[0] == 6 && ts[1] == 4; }
    assert CheckSelf(g, 4, '4') && !CheckSelf(g, 6, '4');
    assert ts[1..] == [4];
    assert ScanSuccessors(g, 4, [4], '4', false) == Found(4);
  }

  lemma MovePlusG(g: Graph)
    requires g == DemoGraph() && WellFormed(g)
    ensures CheckNext(g, 4, 'g') == Some(6)
  {
    var ts := Reversed(g[4].next);
    assert ts == [6, 4] by { assert |ts| == 2 && ts[0] == 6 && ts[1] == 4; }
    assert CheckSelf(g, 6, 'g');
  }

  lemma MovePlusH(g: Graph)
    requires g == DemoGraph() && WellFormed(g)
    ensures CheckNext(g, 4, 'h') == Some(7)
  {
    var ts := Reversed(g[4].next);
    assert ts == [6, 4] by { assert |ts| == 2 && ts[0] == 6 && ts[1] == 4; }
    assert !CheckSelf(g, 4, 'h') && !CheckSelf(g, 6, 'h') && CheckSelf(g, 7, 'h');
    assert g[6].next[1..] == [7];
    assert StarNext(g, 6, 'h') == Some(7);
  }

  lemma MoveStarH(g: Graph)
    requires g == DemoGraph() && WellFormed(g)
    ensures CheckNext(g, 6, 'h') == Some(7)
  {
    assert g[6].next[1..] == [7];
    assert CheckSelf(g, 7, 'h');
  }

  lemma MoveHI(g: Graph)
    requires g == DemoGraph() && WellFormed(g)
    ensures CheckNext(g, 7, 'i') == Some(8)
  {
    assert CheckSelf(g, 8, 'i');
  }

  lemma MoveStart4(g: Graph)
    requires g == DemoGraph() && WellFormed(g)
    ensures CheckNext(g, 0, '4') == Some(4)
  {
    MoveStar4(g);
    assert !CheckSelf(g, 2, '4');
  }

  lemma MoveStartM(g: Graph)
    requires g == DemoGraph() && WellFormed(g)
    ensures CheckNext(g, 0, 'm') == None
  {
    assert !CheckSelf(g, 2, 'm') && !CheckSelf(g, 4, 'm');
    assert g[2].next[1..] == [4];
    assert Reversed(g[4].next) == [6, 4];
    assert !CheckSelf(g, 6, 'm');
    assert StarNext(g, 2, 'm') == None;
  }

  lemma LongRun(g: Graph)
    requires g == DemoGraph() && WellFormed(g)
    ensures Run(g, 0, "aaaaaa444ghi") == Some(8)
  {
    MoveStartA(g); MoveStarA(g); MoveStar4(g); MovePlus4(g); MovePlusG(g); MoveStarH(g); MoveHI(g);
    RunStep(g, 0, "aaaaaa444ghi", 2);
    RunStep(g, 2, "aaaaa444ghi", 2);
    RunStep(g, 2, "aaaa444ghi", 2);
    RunStep(g, 2, "aaa444ghi", 2);
    RunStep(g, 2, "aa444ghi", 2);
    RunStep(g, 2, "a444ghi", 2);
    RunStep(g, 2, "444ghi", 4);
    RunStep(g, 4, "44ghi", 4);
    RunStep(g, 4, "4ghi", 4);
    RunStep(g, 4, "ghi", 6);
    RunStep(g, 6, "hi", 7);
    RunStep(g, 7, "i", 8);
  }

  lemma ShortRun(g: Graph)
    requires g == DemoGraph() && WellFormed(g)
    ensures Run(g, 0, "4hi") == Some(8)
  {
    MoveStart4(g); MovePlusH(g); MoveHI(g);
    RunStep(g, 0, "4hi", 4);
    RunStep(g, 4, "hi", 7);
    RunStep(g, 7, "i", 8);
  }

  lemma MeowRun(g: Graph)
    requires g == DemoGraph() && WellFormed(g)
    ensures Run(g, 0, "meow") == None
  {
    MoveStartM(g);
    assert "meow"[0] == 'm';
  }

  /** The three answers the demonstration prints. */
  lemma DemoAnswers(p: string)
    requires p == Pattern
    ensures CompileFresh(p).Compiled? && WellFormed(CompileFresh(p).graph)
    ensures var g := CompileFresh(p).graph;
            Accepts(g, "aaaaaa444ghi") && Accepts(g, "4hi") && !Accepts(g, "meow")
  {
    DemoCompiles();
    var g := DemoGraph();
    LongRun(g);
    ShortRun(g);
    MeowRun(g);
    assert HasTermination(g, 8) by { assert g[g[8].next[0]].kind.Termination?; }
  }

  /** The first compilation leaves its start state leading with a star, and the pattern is plain ASCII. */
  lemma DemoSharable(g0: Graph, p: string)
    requires g0 == DemoGraph() && p == Pattern
    ensures WellFormed(g0) && StarFirst(g0)
    ensures p != [] && p[0] != '*' && p[0] != '+' && forall k :: 0 <= k < |p| ==> IsAscii(p[k])
  {
    DemoWellFormed();
    assert g0[0].next[0] == 2;
    forall k | 0 <= k < |p| ensures IsAscii(p[k]) {
      assert p[k] in "a*4+g*hi";
    }
  }

  lemma DemoWellFormed()
    ensures WellFormed(DemoGraph())
  {
    DemoCompiles();
  }

  /**
    The second half of the demonstration: `RegexFSM("a*4+g*hi")` again, onto
    the same start state.  Its first successor is the star of the first
    compilation, so every answer stays as it was.
  */
  lemma DemoRecompileSameAnswers(g0: Graph, p: string, s: string)
    requires g0 == DemoGraph() && p == Pattern
    ensures WellFormed(g0) && CompileOnto(g0, p).Compiled? && WellFormed(CompileOnto(g0, p).graph)
    ensures Accepts(CompileOnto(g0, p).graph, s) == Accepts(g0, s)
  {
    DemoSharable(g0, p);
    SharedCompileKeepsAnswers(g0, p, s);
  }

  /** The second compilation prints the same three answers. */
  lemma DemoRecompileAnswers(g0: Graph, p: string)
    requires g0 == DemoGraph() && p == Pattern
    ensures CompileOnto(g0, p).Compiled? && WellFormed(CompileOnto(g0, p).graph)
    ensures var g := CompileOnto(g0, p).graph;
            Accepts(g, "aaaaaa444ghi") && Accepts(g, "4hi") && !Accepts(g, "meow")
  {
    DemoAnswers(p);
    DemoCompiles();
    DemoRecompileSameAnswers(g0, p, "aaaaaa444ghi");
    DemoRecompileSameAnswers(g0, p, "4hi");
    DemoRecompileSameAnswers(g0, p, "meow");
  }
}
