/**
  The state graph of the regular-expression engine.

  The Python engine links `State` objects to each other through their
  `next_states` lists; a repeat wrapper lists itself, so the graph is
  cyclic.  Here the graph is an arena: node `i` is `g[i]`, and a transition
  is the index of its target.  Node 0 is the start state.
*/
module Automaton {

  /** The six `State` subclasses.  A wrapper refers to the node it wraps by index. */
  datatype Kind =
    | Start
    | Termination
    | Dot
    | Ascii(symbol: char)
    | Star(wrapped: nat)
    | Plus(wrapped: nat)
  {
    predicate IsWrapper() { Star? || Plus? }
  }

  /** A state together with its ordered `next_states` list. */
  datatype Node = Node(kind: Kind, next: seq<nat>)

  type Graph = seq<Node>

  /** A start state that has never been compiled onto. */
  function Fresh(): Graph { [Node(Start, [])] }

  /**
    Transition `k` of node `i` leads to a node of the arena that was created
    later, except for the self-loop every wrapper carries at the head of its list.
  */
  predicate EdgeOk(g: Graph, i: nat, k: nat)
    requires i < |g| && k < |g[i].next|
  {
    var j := g[i].next[k];
    j < |g| && (i < j || (k == 0 && j == i && g[i].kind.IsWrapper()))
  }

  predicate NodeOk(g: Graph, i: nat)
    requires i < |g|
  {
    (g[i].kind.IsWrapper() ==> g[i].kind.wrapped < i && |g[i].next| > 0 && g[i].next[0] == i) &&
    forall k :: 0 <= k < |g[i].next| ==> EdgeOk(g, i, k)
  }

  /** The shape every compiled arena has (and keeps under further compilation). */
  predicate WellFormed(g: Graph) {
    |g| > 0 && g[0].kind.Start? &&
    (forall i :: 0 <= i < |g| ==> NodeOk(g, i)) &&
    // implied by NodeOk, stated apart so that every lookup of a successor sees it
    forall i, k :: 0 <= i < |g| && 0 <= k < |g[i].next| ==> g[i].next[k] < |g|
  }

  /** `check_self`: does node `i` accept character `c`?  A wrapper asks the node it wraps. */
  function CheckSelf(g: Graph, i: nat, c: char): bool
    requires WellFormed(g) && i < |g|
    decreases i
  {
    assert NodeOk(g, i);
    match g[i].kind
    case Start => true
    case Termination => false
    case Dot => true
    case Ascii(symbol) => symbol == c
    case Star(w) => CheckSelf(g, w, c)
    case Plus(w) => CheckSelf(g, w, c)
  }

  /** The first node that is not a wrapper on the chain of `wrapped` links from `i`. */
  function BaseUnit(g: Graph, i: nat): (b: nat)
    requires WellFormed(g) && i < |g|
    ensures b <= i && !g[b].kind.IsWrapper()
    decreases i
  {
    assert NodeOk(g, i);
    if g[i].kind.IsWrapper() then BaseUnit(g, g[i].kind.wrapped) else i
  }

  /**
    The per-variant character test: start and dot states accept every
    character, the termination state none, a literal exactly its symbol, and
    a wrapper whatever the unit at the end of its wrapped chain accepts.
  */
  lemma {:induction false} CheckSelfIsBaseTest(g: Graph, i: nat, c: char)
    requires WellFormed(g) && i < |g|
    ensures var b := g[BaseUnit(g, i)].kind;
            CheckSelf(g, i, c) == (b.Start? || b.Dot? || (b.Ascii? && b.symbol == c))
    decreases i
  {
    assert NodeOk(g, i);
    if g[i].kind.IsWrapper() {
      CheckSelfIsBaseTest(g, g[i].kind.wrapped, c);
    }
  }

  /** `lst[::-1]`. */
  function Reversed(s: seq<nat>): (r: seq<nat>)
    ensures |r| == |s|
    ensures forall k :: 0 <= k < |s| ==> r[k] == s[|s| - 1 - k]
  {
    if s == [] then [] else Reversed(s[1..]) + [s[0]]
  }
}
