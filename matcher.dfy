/**
  The matching engine: a greedy walker that holds one current state and, for
  each input character, picks the next state by a fixed rule, never
  backtracking.  It only reads the graph.
*/
module Matcher {
  import opened Wrappers
  import opened Automaton

  /** How a scan over a successor list ends: a state to move to, a rejection raised inside a skip, or the list runs out. */
  datatype Scan = Found(state: nat) | Rejected | Exhausted

  /** The successors a scan owned by node `owner` may visit: in the arena, and only later stars to skip into. */
  predicate SuccessorsOk(g: Graph, owner: nat, ts: seq<nat>) {
    forall k :: 0 <= k < |ts| ==> ts[k] < |g| && owner <= ts[k] && (g[ts[k]].kind.Star? ==> owner < ts[k])
  }

  /** A candidate that ends the scan: it accepts `c`, or it is a star the scan may skip into. */
  predicate Stops(g: Graph, t: nat, c: char, skip: bool)
    requires WellFormed(g) && t < |g|
  {
    CheckSelf(g, t, c) || (skip && g[t].kind.Star?)
  }

  function FromStar(r: Option<nat>): Scan {
    match r
    case Some(t) => Found(t)
    case None => Rejected
  }

  /**
    The loop shared by the three `check_next` methods: the first candidate
    that accepts `c` is the answer; the first star that does not accept it
    (when `skip` allows) hands the whole decision to that star's `check_next`.
  */
  function ScanSuccessors(g: Graph, owner: nat, ts: seq<nat>, c: char, skip: bool): (r: Scan)
    requires WellFormed(g) && owner < |g| && SuccessorsOk(g, owner, ts)
    ensures r.Found? ==> owner <= r.state < |g| && CheckSelf(g, r.state, c)
    ensures r.Found? && r.state == owner ==> owner in ts
    decreases |g| - owner, |ts|
  {
    if ts == [] then Exhausted
    else if CheckSelf(g, ts[0], c) then Found(ts[0])
    else if skip && g[ts[0]].kind.Star? then FromStar(StarNext(g, ts[0], c))
    else ScanSuccessors(g, owner, ts[1..], c, skip)
  }

  /** `StarState.check_next`: scan the list past the self-loop, then stay on the star if it accepts `c`. */
  function StarNext(g: Graph, s: nat, c: char): (r: Option<nat>)
    requires WellFormed(g) && s < |g| && g[s].kind.Star?
    ensures r.Some? ==> s <= r.value < |g| && CheckSelf(g, r.value, c)
    decreases |g| - s, |g[s].next| + 1
  {
    assert NodeOk(g, s);
    var rest := if |g[s].next| == 0 then [] else g[s].next[1..];
    assert SuccessorsOk(g, s, rest) by {
      forall k | 0 <= k < |rest| ensures rest[k] < |g| && s < rest[k] {
        assert EdgeOk(g, s, k + 1);
      }
    }
    match ScanSuccessors(g, s, rest, c, true)
    case Found(t) => Some(t)
    case Rejected => None
    case Exhausted => if CheckSelf(g, s, c) then Some(s) else None
  }

  /**
    `PlusState.check_next`: scan the whole list, self-loop included, from the
    newest entry back; skip into a star only when the plus state itself does
    not accept `c`.
  */
  function PlusNext(g: Graph, p: nat, c: char): (r: Option<nat>)
    requires WellFormed(g) && p < |g| && g[p].kind.Plus?
    ensures r.Some? ==> p <= r.value < |g| && CheckSelf(g, r.value, c)
  {
    assert NodeOk(g, p);
    var ts := Reversed(g[p].next);
    assert SuccessorsOk(g, p, ts) by {
      forall k | 0 <= k < |ts|
        ensures ts[k] < |g| && p <= ts[k] && (g[ts[k]].kind.Star? ==> p < ts[k])
      {
        assert EdgeOk(g, p, |g[p].next| - 1 - k);
      }
    }
    match ScanSuccessors(g, p, ts, c, !CheckSelf(g, p, c))
    case Found(t) => Some(t)
    case Rejected => None
    case Exhausted => if CheckSelf(g, p, c) then Some(p) else None
  }

  /**
    `check_next` dispatched on the kind of the current node; `None` is the
    "rejected string" exception.  Every move lands on a state that accepts
    `c`, never on an older node, and stays put only on a wrapper.
  */
  function CheckNext(g: Graph, q: nat, c: char): (r: Option<nat>)
    requires WellFormed(g) && q < |g|
    ensures r.Some? ==> q <= r.value < |g| && CheckSelf(g, r.value, c)
    ensures r.Some? && r.value == q ==> g[q].kind.IsWrapper()
  {
    assert NodeOk(g, q);
    match g[q].kind
    case Star(_) => StarNext(g, q, c)
    case Plus(_) => PlusNext(g, q, c)
    case _ =>
      assert SuccessorsOk(g, q, g[q].next) && q !in g[q].next by {
        forall k | 0 <= k < |g[q].next| ensures g[q].next[k] < |g| && q < g[q].next[k] {
          assert EdgeOk(g, q, k);
        }
      }
      match ScanSuccessors(g, q, g[q].next, c, true)
      case Found(t) => Some(t)
      case _ => None
  }

  /** The state reached from `q` by feeding it `s`; `None` once a step is rejected. */
  function Run(g: Graph, q: nat, s: string): (r: Option<nat>)
    requires WellFormed(g) && q < |g|
    ensures r.Some? ==> q <= r.value < |g|
    decreases |s|
  {
    if s == [] then Some(q)
    else match CheckNext(g, q, s[0])
      case None => None
      case Some(t) => Run(g, t, s[1..])
  }

  /** The `any(...)` test: some successor of `q` is the termination state. */
  predicate HasTermination(g: Graph, q: nat)
    requires q < |g|
  {
    exists k :: 0 <= k < |g[q].next| && g[q].next[k] < |g| && g[g[q].next[k]].kind.Termination?
  }

  /** What `check_string` answers. */
  predicate Accepts(g: Graph, s: string)
    requires WellFormed(g)
  {
    match Run(g, 0, s)
    case None => false
    case Some(q) => HasTermination(g, q)
  }

  /**
    Termination reachable from `q` in one step, or through a chain of later
    stars skipped without consuming anything.  This is the acceptance rule
    the zero-or-more operator calls for; `check_string` looks only one step ahead.
  */
  predicate ReachesTermination(g: Graph, q: nat)
    requires WellFormed(g) && q < |g|
    decreases |g| - q
  {
    exists k :: 0 <= k < |g[q].next| && q < g[q].next[k] &&
      (g[g[q].next[k]].kind.Termination? ||
       (g[g[q].next[k]].kind.Star? && ReachesTermination(g, g[q].next[k])))
  }

  predicate AcceptsIntended(g: Graph, s: string)
    requires WellFormed(g)
  {
    match Run(g, 0, s)
    case None => false
    case Some(q) => ReachesTermination(g, q)
  }

  /** The intended rule accepts everything `check_string` accepts. */
  lemma AcceptsIsIntended(g: Graph, s: string)
    requires WellFormed(g) && Accepts(g, s)
    ensures AcceptsIntended(g, s)
  {
    var q := Run(g, 0, s).value;
    var k :| 0 <= k < |g[q].next| && g[q].next[k] < |g| && g[g[q].next[k]].kind.Termination?;
    assert NodeOk(g, q) && EdgeOk(g, q, k);
  }

  /** `RegexFSM.check_string`: walk from the start state, then look one step ahead for termination. */
  method CheckString(g: Graph, characters: string) returns (accepted: bool)
    requires WellFormed(g)
    ensures accepted == Accepts(g, characters)
  {
    var current := 0;
    for i := 0 to |characters|
      invariant current < |g|
      invariant Run(g, 0, characters) == Run(g, current, characters[i..])
    {
      assert characters[i..][1..] == characters[i + 1..];
      var step := CheckNext(g, current, characters[i]);
      match step {
        case None =>
          return false;
        case Some(t) =>
          current := t;
      }
    }
    assert characters[|characters|..] == [];
    accepted := HasTermination(g, current);
  }

  // ----- The selection rule, stated independently of the scan -----

  /**
    A scan returns at the first candidate that stops it: the candidate itself
    if it accepts `c`, otherwise that star's own answer; with no such
    candidate the list runs out.
  */
  lemma {:induction false} ScanSelectsFirstStop(g: Graph, owner: nat, ts: seq<nat>, c: char, skip: bool, k: nat)
    requires WellFormed(g) && owner < |g| && SuccessorsOk(g, owner, ts)
    requires k <= |ts| && forall j :: 0 <= j < k ==> !Stops(g, ts[j], c, skip)
    ensures k == |ts| ==> ScanSuccessors(g, owner, ts, c, skip) == Exhausted
    ensures k < |ts| && CheckSelf(g, ts[k], c) ==> ScanSuccessors(g, owner, ts, c, skip) == Found(ts[k])
    ensures k < |ts| && !CheckSelf(g, ts[k], c) && skip && g[ts[k]].kind.Star? ==>
              ScanSuccessors(g, owner, ts, c, skip) == FromStar(StarNext(g, ts[k], c))
    decreases k
  {
    if k > 0 {
      assert !Stops(g, ts[0], c, skip);
      assert SuccessorsOk(g, owner, ts[1..]) by {
        forall j | 0 <= j < |ts[1..]| ensures ts[1..][j] == ts[j + 1] { }
      }
      ScanSelectsFirstStop(g, owner, ts[1..], c, skip, k - 1);
    }
  }

  /**
    `State.check_next`: from a start, dot, literal or termination state the
    walker moves to the first successor that accepts `c`; reaching first a
    star that does not accept it, it returns that star's answer and never
    looks further; with neither it rejects.
  */
  lemma PlainSelectionRule(g: Graph, q: nat, c: char, k: nat)
    requires WellFormed(g) && q < |g| && !g[q].kind.IsWrapper()
    requires k <= |g[q].next| && forall j :: 0 <= j < k ==> !Stops(g, g[q].next[j], c, true)
    ensures k == |g[q].next| ==> CheckNext(g, q, c) == None
    ensures k < |g[q].next| && CheckSelf(g, g[q].next[k], c) ==> CheckNext(g, q, c) == Some(g[q].next[k])
    ensures k < |g[q].next| && !CheckSelf(g, g[q].next[k], c) && g[g[q].next[k]].kind.Star? ==>
              CheckNext(g, q, c) == StarNext(g, g[q].next[k], c)
  {
    assert NodeOk(g, q);
    assert SuccessorsOk(g, q, g[q].next) by {
      forall j | 0 <= j < |g[q].next| ensures g[q].next[j] < |g| && q < g[q].next[j] {
        assert EdgeOk(g, q, j);
      }
    }
    ScanSelectsFirstStop(g, q, g[q].next, c, true, k);
  }

  /**
    `StarState.check_next`: the same rule over the list after its self-loop;
    when that part runs out the star stays on itself if it accepts `c`, and
    rejects otherwise.
  */
  lemma StarSelectionRule(g: Graph, s: nat, c: char, k: nat)
    requires WellFormed(g) && s < |g| && g[s].kind.Star?
    requires 1 <= k <= |g[s].next| && forall j :: 1 <= j < k ==> !Stops(g, g[s].next[j], c, true)
    ensures k == |g[s].next| ==> CheckNext(g, s, c) == (if CheckSelf(g, s, c) then Some(s) else None)
    ensures k < |g[s].next| && CheckSelf(g, g[s].next[k], c) ==> CheckNext(g, s, c) == Some(g[s].next[k])
    ensures k < |g[s].next| && !CheckSelf(g, g[s].next[k], c) && g[g[s].next[k]].kind.Star? ==>
              CheckNext(g, s, c) == StarNext(g, g[s].next[k], c)
  {
    assert NodeOk(g, s);
    var rest := g[s].next[1..];
    assert SuccessorsOk(g, s, rest) by {
      forall j | 0 <= j < |rest| ensures rest[j] < |g| && s < rest[j] {
        assert EdgeOk(g, s, j + 1);
      }
    }
    assert forall j :: 0 <= j < k - 1 ==> !Stops(g, rest[j], c, true) by {
      forall j | 0 <= j < k - 1 ensures !Stops(g, rest[j], c, true) {
        assert rest[j] == g[s].next[j + 1];
      }
    }
    ScanSelectsFirstStop(g, s, rest, c, true, k - 1);
  }

  /**
    `PlusState.check_next` when the plus state accepts `c`: no star is
    skipped into, and the walker moves to the newest successor that accepts
    `c` (the plus state itself, through its self-loop, if no later one does).
  */
  lemma PlusPrefersNewestMatch(g: Graph, p: nat, c: char)
    requires WellFormed(g) && p < |g| && g[p].kind.Plus? && CheckSelf(g, p, c)
    ensures exists m :: 0 <= m < |g[p].next| && CheckNext(g, p, c) == Some(g[p].next[m]) &&
              forall j :: m < j < |g[p].next| ==> !CheckSelf(g, g[p].next[j], c)
  {
    assert NodeOk(g, p);
    var n := g[p].next;
    var ts := Reversed(n);
    assert SuccessorsOk(g, p, ts) by {
      forall k | 0 <= k < |ts|
        ensures ts[k] < |g| && p <= ts[k] && (g[ts[k]].kind.Star? ==> p < ts[k])
      {
        assert EdgeOk(g, p, |n| - 1 - k);
      }
    }
    // The self-loop at the head of the list is the last candidate of the reversed scan.
    assert ts[|ts| - 1] == n[0] == p;
    ScanWithoutSkipFinds(g, p, ts, c, |ts| - 1);
    var k :| 0 <= k < |ts| && ScanSuccessors(g, p, ts, c, false) == Found(ts[k]) &&
             forall j :: 0 <= j < k ==> !CheckSelf(g, ts[j], c);
    assert PlusNext(g, p, c) == Some(ts[k]);
    var m := |n| - 1 - k;
    assert ts[k] == n[m];
    forall j | m < j < |n| ensures !CheckSelf(g, n[j], c) {
      assert n[j] == ts[|n| - 1 - j];
    }
  }

  /**
    `PlusState.check_next` when the plus state does not accept `c`: its
    list is scanned from the newest entry back, with the same rule as a
    plain state (skipping into a star that does not accept `c`), and with no
    candidate the plus state rejects.
  */
  lemma PlusSelectionRule(g: Graph, p: nat, c: char, k: nat)
    requires WellFormed(g) && p < |g| && g[p].kind.Plus? && !CheckSelf(g, p, c)
    requires k <= |g[p].next| && forall j :: 0 <= j < k ==> !Stops(g, Reversed(g[p].next)[j], c, true)
    ensures var ts := Reversed(g[p].next);
            (k == |ts| ==> CheckNext(g, p, c) == None) &&
            (k < |ts| && CheckSelf(g, ts[k], c) ==> CheckNext(g, p, c) == Some(ts[k])) &&
            (k < |ts| && !CheckSelf(g, ts[k], c) && g[ts[k]].kind.Star? ==>
               CheckNext(g, p, c) == StarNext(g, ts[k], c))
  {
    assert NodeOk(g, p);
    var n := g[p].next;
    var ts := Reversed(n);
    assert SuccessorsOk(g, p, ts) by {
      forall j | 0 <= j < |ts|
        ensures ts[j] < |g| && p <= ts[j] && (g[ts[j]].kind.Star? ==> p < ts[j])
      {
        assert EdgeOk(g, p, |n| - 1 - j);
      }
    }
    ScanSelectsFirstStop(g, p, ts, c, true, k);
  }

  /** A scan that skips nowhere ends at the first candidate accepting `c`, when there is one. */
  lemma {:induction false} ScanWithoutSkipFinds(g: Graph, owner: nat, ts: seq<nat>, c: char, i: nat)
    requires WellFormed(g) && owner < |g| && SuccessorsOk(g, owner, ts)
    requires i < |ts| && CheckSelf(g, ts[i], c)
    ensures exists k :: 0 <= k <= i && ScanSuccessors(g, owner, ts, c, false) == Found(ts[k]) &&
              forall j :: 0 <= j < k ==> !CheckSelf(g, ts[j], c)
    decreases i
  {
    if !CheckSelf(g, ts[0], c) {
      assert SuccessorsOk(g, owner, ts[1..]) by {
        forall j | 0 <= j < |ts[1..]| ensures ts[1..][j] == ts[j + 1] { }
      }
      ScanWithoutSkipFinds(g, owner, ts[1..], c, i - 1);
      var k :| 0 <= k <= i - 1 && ScanSuccessors(g, owner, ts[1..], c, false) == Found(ts[1..][k]) &&
               forall j :: 0 <= j < k ==> !CheckSelf(g, ts[1..][j], c);
      assert ts[1..][k] == ts[k + 1];
      forall j | 0 <= j < k + 1 ensures !CheckSelf(g, ts[j], c) {
        if j > 0 { assert ts[j] == ts[1..][j - 1]; }
      }
    }
  }

  // ----- The walk -----

  /** Feeding `s + t` is feeding `s`, then `t` from wherever `s` left the walker. */
  lemma {:induction false} RunAppend(g: Graph, q: nat, s: string, t: string)
    requires WellFormed(g) && q < |g|
    ensures Run(g, q, s + t) == match Run(g, q, s) case None => None case Some(r) => Run(g, r, t)
    decreases |s|
  {
    if s != [] {
      assert (s + t)[0] == s[0] && (s + t)[1..] == s[1..] + t;
      match CheckNext(g, q, s[0])
      case None =>
      case Some(r) => RunAppend(g, r, s[1..], t);
    } else {
      assert s + t == t;
    }
  }

  /** Once a step is rejected, `check_string` answers False whatever follows. */
  lemma RejectionIsFinal(g: Graph, s: string, t: string)
    requires WellFormed(g) && Run(g, 0, s) == None
    ensures !Accepts(g, s + t)
  {
    RunAppend(g, 0, s, t);
  }
}
