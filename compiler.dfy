/**
  The pattern compiler: one left-to-right pass over the pattern that extends
  an arena whose node 0 is the start state, keeping a tail cursor (the node
  created last) and a predecessor cursor (the one created before it).
*/
module Compiler {
  import opened Wrappers
  import opened Automaton

  /** `AttributeError` for a non-ASCII token; `IndexError` for `*`/`+` popping an empty list. */
  datatype CompileError = UnsupportedToken(token: char) | PopFromEmpty

  /**
    The outcome of one compilation.  A failure carries the arena as the
    failing token found it: the steps before it have already been applied.
  */
  datatype Outcome = Compiled(graph: Graph) | Failed(error: CompileError, partial: Graph)

  /** The compiler's cursors: `prev_state` and `tmp_next_state`. */
  datatype Cursor = Cursor(g: Graph, prev: nat, tail: nat)

  predicate InRange(cur: Cursor) {
    cur.prev < |cur.g| && cur.tail < |cur.g|
  }

  /** Python's `str.isascii` on one character. */
  predicate IsAscii(c: char) {
    c as int < 128
  }

  /** `next_states.append(j)` on node `i`. */
  function AppendEdge(g: Graph, i: nat, j: nat): Graph
    requires i < |g|
  {
    g[i := g[i].(next := g[i].next + [j])]
  }

  /** `next_states.pop()` on node `i`, result discarded. */
  function PopEdge(g: Graph, i: nat): Graph
    requires i < |g| && |g[i].next| > 0
  {
    g[i := g[i].(next := g[i].next[..|g[i].next| - 1])]
  }

  /** The kind of node a token creates. */
  predicate MadeBy(c: char, k: Kind) {
    if c == '.' then k.Dot?
    else if c == '*' then k.Star?
    else if c == '+' then k.Plus?
    else k == Ascii(c)
  }

  /** The splice invariant: the last entry of the predecessor's list is the tail. */
  predicate Spliced(cur: Cursor) {
    InRange(cur) && cur.prev != cur.tail &&
    |cur.g[cur.prev].next| > 0 && cur.g[cur.prev].next[|cur.g[cur.prev].next| - 1] == cur.tail
  }

  /**
    `__init_next_state`: create the node for one token (for `*` and `+`,
    splice it into the predecessor's list in place of its last entry), then,
    as the loop of `RegexFSM.__init__` does, append it to the tail's list and
    advance both cursors.  Exactly one node is created per token; the step
    fails only on a non-ASCII token or on a repeat whose predecessor's list is
    empty; afterwards the splice invariant holds whatever the cursors were.
  */
  function Step(cur: Cursor, c: char): (r: Result<Cursor, CompileError>)
    requires InRange(cur)
    ensures r.Err? <==> !IsAscii(c) || ((c == '*' || c == '+') && |cur.g[cur.prev].next| == 0)
    ensures r.Err? ==> r.error == (if IsAscii(c) then PopFromEmpty else UnsupportedToken(c))
    ensures r.Ok? ==> var n := |cur.g|;
              |r.value.g| == n + 1 && r.value.prev == cur.tail && r.value.tail == n &&
              MadeBy(c, r.value.g[n].kind) && Spliced(r.value) &&
              forall q :: 0 <= q < n ==> r.value.g[q].kind == cur.g[q].kind
  {
    var g, prev, tail, n := cur.g, cur.prev, cur.tail, |cur.g|;
    var made: Result<Graph, CompileError> :=
      if c == '.' then Ok(g + [Node(Dot, [])])
      else if c == '*' then
        if |g[prev].next| == 0 then Err(PopFromEmpty)
        else
          var popped := g[prev].next[|g[prev].next| - 1];
          Ok(AppendEdge(PopEdge(g, prev) + [Node(Star(popped), [n])], prev, n))
      else if c == '+' then
        if |g[prev].next| == 0 then Err(PopFromEmpty)
        else Ok(AppendEdge(PopEdge(g, prev) + [Node(Plus(tail), [n])], prev, n))
      else if IsAscii(c) then Ok(g + [Node(Ascii(c), [])])
      else Err(UnsupportedToken(c));
    match made
    case Err(e) => Err(e)
    case Ok(h) => Ok(Cursor(AppendEdge(h, tail, n), tail, n))
  }

  /**
    After the last token: append a termination state, with no successors, to
    the tail's list; no other node changes.
  */
  function Finish(cur: Cursor): (h: Graph)
    requires InRange(cur)
    ensures |h| == |cur.g| + 1 && h[|cur.g|] == Node(Termination, [])
    ensures h[cur.tail] == cur.g[cur.tail].(next := cur.g[cur.tail].next + [|cur.g|])
    ensures forall q :: 0 <= q < |cur.g| && q != cur.tail ==> h[q] == cur.g[q]
  {
    AppendEdge(cur.g + [Node(Termination, [])], cur.tail, |cur.g|)
  }

  /** The rest of the compilation pass from cursor `cur`. */
  function CompileFrom(cur: Cursor, pattern: string): Outcome
    requires InRange(cur)
    decreases |pattern|
  {
    if pattern == [] then Compiled(Finish(cur))
    else match Step(cur, pattern[0])
      case Err(e) => Failed(e, cur.g)
      case Ok(next) => CompileFrom(next, pattern[1..])
  }

  /** Compiling onto the arena `g0`, both cursors on its start state. */
  function CompileOnto(g0: Graph, pattern: string): Outcome
    requires |g0| > 0
  {
    CompileFrom(Cursor(g0, 0, 0), pattern)
  }

  /** Compiling onto a start state of its own. */
  function CompileFresh(pattern: string): Outcome {
    CompileOnto(Fresh(), pattern)
  }

  /**
    `RegexFSM.__init__` with `__init_next_state` inlined: the loop reassigns
    the two cursors and edits the successor lists of the arena in place.
  */
  method Compile(g0: Graph, pattern: string) returns (r: Outcome)
    requires |g0| > 0
    ensures r == CompileOnto(g0, pattern)
    ensures r.Compiled? ==> |r.graph| == |g0| + |pattern| + 1
  {
    var g := g0;
    var prev: nat, tail: nat := 0, 0;
    for i := 0 to |pattern|
      invariant prev < |g| && tail < |g| && |g| == |g0| + i
      invariant CompileOnto(g0, pattern) == CompileFrom(Cursor(g, prev, tail), pattern[i..])
    {
      assert pattern[i..][0] == pattern[i] && pattern[i..][1..] == pattern[i + 1..];
      var token := pattern[i];
      var next: nat;
      if token == '.' {
        next := |g|;
        g := g + [Node(Dot, [])];
      } else if token == '*' {
        if |g[prev].next| == 0 {
          return Failed(PopFromEmpty, g);
        }
        var popped := g[prev].next[|g[prev].next| - 1];
        g := PopEdge(g, prev);
        next := |g|;
        g := g + [Node(Star(popped), [next])];
        g := AppendEdge(g, prev, next);
      } else if token == '+' {
        if |g[prev].next| == 0 {
          return Failed(PopFromEmpty, g);
        }
        g := PopEdge(g, prev);
        next := |g|;
        g := g + [Node(Plus(tail), [next])];
        g := AppendEdge(g, prev, next);
      } else if IsAscii(token) {
        next := |g|;
        g := g + [Node(Ascii(token), [])];
      } else {
        return Failed(UnsupportedToken(token), g);
      }
      g := AppendEdge(g, tail, next);
      prev, tail := tail, next;
    }
    assert pattern[|pattern|..] == [];
    var termination := |g|;
    g := g + [Node(Termination, [])];
    g := AppendEdge(g, tail, termination);
    r := Compiled(g);
  }

  // ----- One step -----

  /**
    Under the splice invariant `*` and `+` replace exactly the last entry of
    the predecessor's list (which is the tail) by a new wrapper of the tail:
    the list keeps its length and its earlier entries, and the wrapper's own
    list starts with itself.  The tail then gains the wrapper as its last
    successor, and no other node changes.
  */
  lemma SpliceReplacesLast(cur: Cursor, c: char)
    requires Spliced(cur) && (c == '*' || c == '+')
    ensures Step(cur, c).Ok?
    ensures var h, n, before := Step(cur, c).value.g, |cur.g|, cur.g[cur.prev].next;
            h[cur.prev].next == before[..|before| - 1] + [n] &&
            h[n] == Node(if c == '*' then Star(cur.tail) else Plus(cur.tail), [n]) &&
            h[cur.tail].next == cur.g[cur.tail].next + [n] &&
            forall q :: 0 <= q < n && q != cur.prev && q != cur.tail ==> h[q] == cur.g[q]
  {
  }

  /**
    A `.` or any other ASCII token besides `*` and `+` creates one fresh node
    with no successors and appends it to the tail's list; nothing else changes.
  */
  lemma UnitAppends(cur: Cursor, c: char)
    requires InRange(cur) && IsAscii(c) && c != '*' && c != '+'
    ensures Step(cur, c).Ok?
    ensures var h, n := Step(cur, c).value.g, |cur.g|;
            h[n] == Node(if c == '.' then Dot else Ascii(c), []) &&
            h[cur.tail].next == cur.g[cur.tail].next + [n] &&
            forall q :: 0 <= q < n && q != cur.tail ==> h[q] == cur.g[q]
  {
  }

  // ----- Well-formedness is kept -----

  /** A cursor the compiler can continue from without breaking a wrapper's self-loop. */
  predicate Compilable(cur: Cursor) {
    WellFormed(cur.g) && InRange(cur) && (Spliced(cur) || !cur.g[cur.prev].kind.IsWrapper())
  }

  lemma AddNodeKeepsWellFormed(g: Graph, k: Kind, next: seq<nat>)
    requires WellFormed(g)
    requires if k.IsWrapper() then k.wrapped < |g| && next == [|g|] else next == []
    ensures WellFormed(g + [Node(k, next)])
  {
    var h := g + [Node(k, next)];
    forall i | 0 <= i < |h| ensures NodeOk(h, i) {
      if i < |g| {
        assert NodeOk(g, i);
        forall j | 0 <= j < |h[i].next| ensures EdgeOk(h, i, j) {
          assert EdgeOk(g, i, j);
        }
      } else {
        forall j | 0 <= j < |h[i].next| ensures EdgeOk(h, i, j) { }
      }
    }
  }

  lemma PopKeepsWellFormed(g: Graph, i: nat)
    requires WellFormed(g) && i < |g| && |g[i].next| > 0
    requires g[i].kind.IsWrapper() ==> |g[i].next| > 1
    ensures WellFormed(PopEdge(g, i))
  {
    var h := PopEdge(g, i);
    forall q | 0 <= q < |h| ensures NodeOk(h, q) {
      assert NodeOk(g, q);
      forall j | 0 <= j < |h[q].next| ensures EdgeOk(h, q, j) {
        assert h[q].next[j] == g[q].next[j];
        assert EdgeOk(g, q, j);
      }
    }
  }

  lemma AppendKeepsWellFormed(g: Graph, i: nat, j: nat)
    requires WellFormed(g) && i < j < |g|
    ensures WellFormed(AppendEdge(g, i, j))
  {
    var h := AppendEdge(g, i, j);
    forall q | 0 <= q < |h| ensures NodeOk(h, q) {
      assert NodeOk(g, q);
      forall k | 0 <= k < |h[q].next| ensures EdgeOk(h, q, k) {
        if k < |g[q].next| {
          assert h[q].next[k] == g[q].next[k];
          assert EdgeOk(g, q, k);
        }
      }
    }
  }

  lemma StepKeepsWellFormed(cur: Cursor, c: char)
    requires Compilable(cur) && Step(cur, c).Ok?
    ensures Compilable(Step(cur, c).value)
  {
    var g, n := cur.g, |cur.g|;
    if c == '*' || c == '+' {
      var popped := g[cur.prev].next[|g[cur.prev].next| - 1];
      assert g[cur.prev].kind.IsWrapper() ==> |g[cur.prev].next| > 1 by {
        if g[cur.prev].kind.IsWrapper() {
          assert NodeOk(g, cur.prev);
        }
      }
      PopKeepsWellFormed(g, cur.prev);
      var g1 := PopEdge(g, cur.prev);
      var k := if c == '*' then Star(popped) else Plus(cur.tail);
      AddNodeKeepsWellFormed(g1, k, [n]);
      AppendKeepsWellFormed(g1 + [Node(k, [n])], cur.prev, n);
      AppendKeepsWellFormed(AppendEdge(g1 + [Node(k, [n])], cur.prev, n), cur.tail, n);
    } else {
      var k := if c == '.' then Dot else Ascii(c);
      AddNodeKeepsWellFormed(g, k, []);
      AppendKeepsWellFormed(g + [Node(k, [])], cur.tail, n);
    }
  }

  /** Compiling onto a well-formed arena yields a well-formed arena, or leaves one behind on failure. */
  lemma {:induction false} CompileKeepsWellFormed(cur: Cursor, pattern: string)
    requires Compilable(cur)
    ensures match CompileFrom(cur, pattern)
            case Compiled(h) => WellFormed(h)
            case Failed(_, h) => WellFormed(h)
    decreases |pattern|
  {
    if pattern == [] {
      AddNodeKeepsWellFormed(cur.g, Termination, []);
      AppendKeepsWellFormed(cur.g + [Node(Termination, [])], cur.tail, |cur.g|);
    } else if Step(cur, pattern[0]).Ok? {
      StepKeepsWellFormed(cur, pattern[0]);
      CompileKeepsWellFormed(Step(cur, pattern[0]).value, pattern[1..]);
    }
  }

  /** Compiling onto any well-formed arena (an arena already compiled onto included) yields a well-formed arena. */
  lemma CompileOntoKeepsWellFormed(g0: Graph, pattern: string)
    requires WellFormed(g0)
    ensures match CompileOnto(g0, pattern)
            case Compiled(h) => WellFormed(h)
            case Failed(_, h) => WellFormed(h)
  {
    CompileKeepsWellFormed(Cursor(g0, 0, 0), pattern);
  }

  /** The same for a start state of its own. */
  lemma CompileFreshKeepsWellFormed(pattern: string)
    ensures CompileFresh(pattern).Compiled? ==> WellFormed(CompileFresh(pattern).graph)
  {
    CompileOntoKeepsWellFormed(Fresh(), pattern);
  }

  // ----- The shape of a compiled arena -----

  /**
    A compilation that succeeds creates one node per token after the nodes
    it was given, and one final termination state with no successors, which
    is the last successor of the final tail: the node of the last token, or
    the tail it started from when the pattern is empty.
  */
  lemma {:induction false} CompileShape(cur: Cursor, pattern: string)
    requires InRange(cur) && CompileFrom(cur, pattern).Compiled?
    ensures var h := CompileFrom(cur, pattern).graph;
            |h| == |cur.g| + |pattern| + 1 && h[|h| - 1] == Node(Termination, [])
    ensures var h := CompileFrom(cur, pattern).graph;
            var t := if pattern == [] then cur.tail else |h| - 2;
            |h[t].next| > 0 && h[t].next[|h[t].next| - 1] == |h| - 1
    decreases |pattern|
  {
    if pattern != [] {
      var r := Step(cur, pattern[0]);
      assert r.Ok?;
      var next, rest := r.value, pattern[1..];
      assert |next.g| == |cur.g| + 1 && InRange(next) && next.tail == |cur.g|;
      assert CompileFrom(cur, pattern) == CompileFrom(next, rest);
      CompileShape(next, rest);
    } else {
      ClosedTail(cur);
    }
  }

  /** The empty rest of a pattern: `Finish` links the termination state from the tail. */
  lemma ClosedTail(cur: Cursor)
    requires InRange(cur)
    ensures var h := CompileFrom(cur, []).graph;
            |h| == |cur.g| + 1 && h[|h| - 1] == Node(Termination, []) &&
            |h[cur.tail].next| > 0 && h[cur.tail].next[|h[cur.tail].next| - 1] == |h| - 1
  {
  }

  /**
    `h` holds the nodes of `g` with their kinds unchanged, followed by one
    node per token of `pattern` of the kind that token names.
  */
  predicate BuiltFrom(g: Graph, pattern: string, h: Graph) {
    |g| + |pattern| < |h| &&
    (forall q :: 0 <= q < |g| ==> h[q].kind == g[q].kind) &&
    (forall k :: 0 <= k < |pattern| ==> MadeBy(pattern[k], h[|g| + k].kind))
  }

  /**
    The nodes a successful compilation was given keep their kinds, and the
    node created for each token has the kind that token names.
  */
  lemma {:induction false} CompileKinds(cur: Cursor, pattern: string)
    requires InRange(cur) && CompileFrom(cur, pattern).Compiled?
    ensures BuiltFrom(cur.g, pattern, CompileFrom(cur, pattern).graph)
    decreases |pattern|
  {
    if pattern != [] {
      var r := Step(cur, pattern[0]);
      assert r.Ok?;
      var next, rest := r.value, pattern[1..];
      assert |next.g| == |cur.g| + 1 && MadeBy(pattern[0], next.g[|cur.g|].kind);
      assert forall q :: 0 <= q < |cur.g| ==> next.g[q].kind == cur.g[q].kind;
      assert CompileFrom(cur, pattern) == CompileFrom(next, rest);
      CompileKinds(next, rest);
      KindsCarry(cur.g, next.g, CompileFrom(next, rest).graph, pattern);
    }
  }

  /** The bookkeeping of one step of `CompileKinds`, on the arenas alone. */
  lemma KindsCarry(g: Graph, g1: Graph, h: Graph, pattern: string)
    requires pattern != [] && |g1| == |g| + 1 && MadeBy(pattern[0], g1[|g|].kind)
    requires forall q :: 0 <= q < |g| ==> g1[q].kind == g[q].kind
    requires BuiltFrom(g1, pattern[1..], h)
    ensures BuiltFrom(g, pattern, h)
  {
    forall k | 0 <= k < |pattern| ensures MadeBy(pattern[k], h[|g| + k].kind) {
      if k > 0 {
        assert pattern[k] == pattern[1..][k - 1];
      }
    }
  }

  /** Every node has a node it may lead to, except the tail. */
  predicate Linked(cur: Cursor) {
    forall q :: 0 <= q < |cur.g| && q != cur.tail ==> |cur.g[q].next| > 0
  }

  /** Every node of a compiled arena but the final termination state has a successor. */
  lemma {:induction false} CompileLinksEveryNode(cur: Cursor, pattern: string)
    requires InRange(cur) && Linked(cur)
    ensures var r := CompileFrom(cur, pattern);
            r.Compiled? ==> forall q :: 0 <= q < |r.graph| - 1 ==> |r.graph[q].next| > 0
    decreases |pattern|
  {
    if pattern != [] && Step(cur, pattern[0]).Ok? {
      var next := Step(cur, pattern[0]).value;
      assert Linked(next) by {
        forall q | 0 <= q < |next.g| && q != next.tail ensures |next.g[q].next| > 0 {
          if q != cur.tail && q != cur.prev {
            assert next.g[q] == cur.g[q];
          }
        }
      }
      CompileLinksEveryNode(next, pattern[1..]);
    }
  }

  // ----- When compilation fails -----

  /** Once the splice invariant holds, `*` and `+` always find an entry to pop: only a non-ASCII token fails. */
  lemma {:induction false} SplicedCompileFails(cur: Cursor, pattern: string)
    requires Spliced(cur)
    ensures var r := CompileFrom(cur, pattern);
            (r.Failed? <==> exists k :: 0 <= k < |pattern| && !IsAscii(pattern[k])) &&
            (r.Failed? ==> r.error.UnsupportedToken? && r.error.token in pattern && !IsAscii(r.error.token))
    decreases |pattern|
  {
    if pattern != [] && Step(cur, pattern[0]).Ok? {
      SplicedCompileFails(Step(cur, pattern[0]).value, pattern[1..]);
      if exists k :: 0 <= k < |pattern[1..]| && !IsAscii(pattern[1..][k]) {
        var k :| 0 <= k < |pattern[1..]| && !IsAscii(pattern[1..][k]);
        assert pattern[k + 1] == pattern[1..][k];
      }
      if exists k :: 0 <= k < |pattern| && !IsAscii(pattern[k]) {
        var k :| 0 <= k < |pattern| && !IsAscii(pattern[k]);
        assert k > 0 && pattern[1..][k - 1] == pattern[k];
      }
    } else if pattern != [] {
      assert !IsAscii(pattern[0]);
    }
  }

  /**
    Compiling onto an arena fails exactly when the pattern holds a non-ASCII
    character, or begins with `*` or `+` while the start state's list is
    empty; the empty pop is possible only on that first token.  On a start
    state that already carries a pattern a leading repeat therefore succeeds.
  */
  lemma CompileOntoFails(g0: Graph, pattern: string)
    requires |g0| > 0
    ensures var r := CompileOnto(g0, pattern);
            var leadingPop := |pattern| > 0 && (pattern[0] == '*' || pattern[0] == '+') && |g0[0].next| == 0;
            (r.Failed? <==> (exists k :: 0 <= k < |pattern| && !IsAscii(pattern[k])) || leadingPop) &&
            (r.Failed? && r.error == PopFromEmpty <==> leadingPop) &&
            (r.Failed? && r.error.UnsupportedToken? ==> r.error.token in pattern && !IsAscii(r.error.token))
  {
    var cur := Cursor(g0, 0, 0);
    if pattern != [] {
      var r := Step(cur, pattern[0]);
      if r.Ok? {
        assert IsAscii(pattern[0]) && !((pattern[0] == '*' || pattern[0] == '+') && |g0[0].next| == 0);
        assert CompileOnto(g0, pattern) == CompileFrom(r.value, pattern[1..]);
        SplicedCompileFails(r.value, pattern[1..]);
        if exists k :: 0 <= k < |pattern[1..]| && !IsAscii(pattern[1..][k]) {
          var k :| 0 <= k < |pattern[1..]| && !IsAscii(pattern[1..][k]);
          assert pattern[k + 1] == pattern[1..][k];
        }
        if exists k :: 0 <= k < |pattern| && !IsAscii(pattern[k]) {
          var k :| 0 <= k < |pattern| && !IsAscii(pattern[k]);
          assert k > 0 && pattern[1..][k - 1] == pattern[k];
        }
      } else {
        assert CompileOnto(g0, pattern) == Failed(r.error, cur.g);
      }
    }
  }

  /**
    On a start state of its own, compilation fails exactly when the pattern
    holds a non-ASCII character or begins with `*` or `+`; the empty pop is
    possible only on that first token, before anything was built.
  */
  lemma FreshCompileFails(pattern: string)
    ensures var r := CompileFresh(pattern);
            (r.Failed? <==> (exists k :: 0 <= k < |pattern| && !IsAscii(pattern[k])) ||
                             (|pattern| > 0 && (pattern[0] == '*' || pattern[0] == '+'))) &&
            (r.Failed? && r.error == PopFromEmpty <==>
               |pattern| > 0 && (pattern[0] == '*' || pattern[0] == '+')) &&
            (r.Failed? && r.error.UnsupportedToken? ==> r.error.token in pattern && !IsAscii(r.error.token))
  {
    CompileOntoFails(Fresh(), pattern);
  }
}
