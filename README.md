# A model of `regex.py`: a greedy regular-expression automaton

`regex.py` compiles a small pattern language into a graph of `State`
objects and matches strings against that graph. The pattern language has:

- literal ASCII characters;
- `.`, which matches any character;
- postfix `*` and `+`.

A string is matched by a walker that never backtracks and keeps a single
current state.

This project models both halves in Dafny.

- **The graph** (`automaton.dfy`). The graph is an arena: a sequence of
  nodes, where node 0 is the start state. Each node has a kind and an
  ordered list of successor indices.
  - The kinds are Start, Termination, Dot, Ascii(symbol), Star(wrapped)
    and Plus(wrapped).
  - `WellFormed` is the shape every compiled arena has. Each edge leads
    to a later node, except the self-loop that heads every wrapper's list.
  - `CheckSelf` is the per-kind character test.
- **The compiler** (`compiler.dfy`). `RegexFSM.__init__` is a method
  `Compile` with its loop. It is proved equal to the function
  `CompileFrom`, which folds `Step` over the pattern.
  - `Step` is `__init_next_state` together with the append and the cursor
    update of the loop.
  - Failures are values. `AttributeError` becomes
    `Failed(UnsupportedToken(c), …)`, and the `IndexError` of a `pop()` on
    an empty list becomes `Failed(PopFromEmpty, …)`.
  - A failure carries the arena as far as it had been built.
  - `CompileOnto(g0, p)` compiles onto an arena that already holds
    patterns, which is what the class attribute `curr_state` causes.
    `CompileFresh(p)` compiles onto a start state of its own.
- **The matcher** (`matcher.dfy`).
  - `ScanSuccessors` is the loop shared by the three `check_next` methods.
    `StarNext` and `PlusNext` are the overriding methods, and `CheckNext`
    dispatches on the kind.
  - `Run` feeds a string in, and `Accepts` is `check_string`'s answer.
  - There is also a method `CheckString` with the source's loop.
  - `AcceptsIntended` is the acceptance rule that zero-or-more
    repetition calls for (see Findings).
- **Properties** (`properties.dfy`):
  - a pattern made only of literals compiles to a chain and accepts
    exactly itself;
  - the empty pattern accepts only the empty string;
  - `|` and `(` are literals.
- **Sharing** (`sharing.dfy`): what happens when a second pattern is
  compiled onto a start state that already carries one.
- **The demonstration** (`demo.dfy`): the `__main__` block, that is, the
  arena built for `a*4+g*hi` and the six answers printed for it.
- **Findings** (`findings.dfy`): two places where the code does not do
  what its pattern language means. There, `*` is zero or more repetitions
  of the unit before it, and each `RegexFSM` is an automaton of its own.

The model describes what the code does, including where that goes beyond
the pattern language:

- `+` wraps the tail, the node created last, rather than building a
  mandatory unit followed by a star.
- `|`, `(`, `)`, `[` are not operators of the pattern language. The code
  does not refuse them: they, and every other ASCII character that is not
  `.`, `*` or `+`, compile to literal states.
- A pattern that starts with `*` or `+` is not refused as an unsupported
  token. On a start state whose list is empty, it fails by popping an
  empty list. On a shared start that already carries a pattern, it
  succeeds, and it takes that pattern's last start entry (see the second
  finding).
- A trailing `a*` rejects the empty string (see Findings).

## Model

| member | source | states |
|---|---|---|
| Automaton.CheckSelfIsBaseTest | regex.py:38-138 | Start and dot states accept every character, termination accepts none, and a literal accepts exactly its symbol (lines 38-39, 49-51, 67-69, 88-90). A star or plus accepts whatever the non-wrapper unit at the end of its `checking_state` chain accepts (lines 106-108, 136-138). |
| Automaton.BaseUnit | regex.py:101-108 | The chain of `checking_state` links from a node ends at an earlier or equal node that is not a wrapper. |
| Automaton.Reversed | regex.py:141 | `next_states[::-1]`: the same length, with entry k equal to entry `n-1-k` of the original. |
| Matcher.ScanSuccessors | regex.py:19-23 | A state the scan selects accepts the character, lies in the arena and is not older than the owner. The owner itself is selected only through its own self-loop. |
| Matcher.StarNext | regex.py:110-121 | The next state of a star accepts the character and is the star itself or a later node. |
| Matcher.PlusNext | regex.py:139-149 | The next state of a plus accepts the character and is the plus itself or a later node. |
| Matcher.CheckNext | regex.py:18-28 | Every move lands on a state that accepts the character and does not move back in the arena. Staying on the same node happens only on a star or plus. |
| Matcher.Run | regex.py:207-213 | Feeding a string never moves the walker before its starting node, and it stays in the arena. |
| Matcher.CheckString | regex.py:205-215 | The loop answers exactly `Accepts`: it rejects as soon as a step raises, and otherwise tests whether a successor of the final state is termination. |
| Matcher.AcceptsIsIntended | regex.py:215 | Every string `check_string` accepts is also accepted under the intended rule, which looks for termination through skippable stars as well. |
| Matcher.ScanSelectsFirstStop | regex.py:19-23 | When no earlier candidate stops it, the scan ends at candidate k. It returns k if k accepts the character. If k is a skippable star that does not accept it, it returns that star's own answer. With no candidate left it runs out. |
| Matcher.PlainSelectionRule | regex.py:18-28 | The same rule stated for `check_next` on a start, dot, literal or termination state, including the rejection when the list runs out. |
| Matcher.StarSelectionRule | regex.py:110-121 | For a star, the rule over `next_states[1:]`. When that list runs out, the star stays on itself if it accepts the character and rejects otherwise. |
| Matcher.PlusPrefersNewestMatch | regex.py:139-148 | When the plus accepts the character, the walker moves to the newest successor that accepts it. Every later entry rejects it, and no star is skipped into. |
| Matcher.PlusSelectionRule | regex.py:139-149 | When the plus does not accept the character, the first-stop rule applies over the reversed list (skipping into stars), and the plus rejects when the list runs out. |
| Matcher.ScanWithoutSkipFinds | regex.py:141-144 | A scan that skips nowhere ends at the first candidate accepting the character, whenever some candidate does. |
| Matcher.RunAppend | regex.py:207-210 | Feeding `s + t` is feeding `s`, then `t` from wherever `s` left the walker. |
| Matcher.RejectionIsFinal | regex.py:212-213 | Once a prefix is rejected, every extension of it is rejected. |
| Compiler.Step | regex.py:173-203 | One token creates exactly one node, of the kind the token names. The cursors advance to the old tail and the new node. Old node kinds are kept, and afterwards the predecessor's last entry is the tail. The step fails exactly on a non-ASCII token (`UnsupportedToken`) or on a `*`/`+` whose predecessor has an empty list (`PopFromEmpty`). |
| Compiler.Finish | regex.py:171-172 | Closing adds one termination node with no successors and appends it to the tail's list. No other node changes. |
| Compiler.Compile | regex.py:156-172 | The constructor's loop over the arena gives the same outcome as `CompileOnto`, and a successful run adds one node per token plus termination. |
| Compiler.SpliceReplacesLast | regex.py:182-194 | `*` and `+` replace the predecessor's last entry (the tail) by a new wrapper of the tail whose list is just itself. The tail then gains the wrapper, and no other node changes. |
| Compiler.UnitAppends | regex.py:179-198 | `.` or any other ASCII character adds one node with no successors and appends it to the tail's list. Nothing else changes. |
| Compiler.StepKeepsWellFormed | regex.py:161-166 | One loop iteration keeps the arena well formed (wrappers keep their self-loops) and keeps the cursors safe to continue from. |
| Compiler.CompileKeepsWellFormed | regex.py:156-172 | A compilation from a safe cursor leaves a well-formed arena, whether it succeeds or fails. |
| Compiler.CompileOntoKeepsWellFormed | regex.py:154-172 | The same for compiling onto any well-formed arena, one already compiled onto included. |
| Compiler.CompileFreshKeepsWellFormed | regex.py:156-172 | A pattern compiled onto a fresh start state is well formed. |
| Compiler.CompileShape | regex.py:161-172 | A successful compilation adds exactly one node per token, and then a final termination node with no successors. That node is the last successor of the final tail: the node of the last token, or the starting tail when the pattern is empty. |
| Compiler.CompileKinds | regex.py:178-198 | A successful compilation keeps the kinds of the nodes it was given, and the node created for token k has the kind that token names. |
| Compiler.CompileLinksEveryNode | regex.py:161-172 | In a compiled arena every node but the final termination state has a successor. |
| Compiler.SplicedCompileFails | regex.py:182-201 | After the first token, compilation fails if and only if a non-ASCII character follows, and the error names that character. |
| Compiler.CompileOntoFails | regex.py:178-201 | Compiling onto any arena fails if and only if the pattern holds a non-ASCII character, or begins with `*` or `+` while the start state's list is empty. The pop error happens exactly in the second case, and the unsupported-token error names a non-ASCII character of the pattern. |
| Compiler.FreshCompileFails | regex.py:178-201 | On a fresh start, compilation fails if and only if the pattern holds a non-ASCII character or begins with `*` or `+`. The pop error happens exactly in the second case, and the unsupported-token error names a non-ASCII character of the pattern. |
| Properties.LiteralCompileFrom | regex.py:161-172 | Compiling literals onto a literal chain extends the chain and closes it with termination. |
| Properties.LiteralCompiles | regex.py:196-198 | A pattern of literals compiles, on a fresh start, to the chain `0 -> 1 -> … -> n -> termination`, which is well formed. |
| Properties.LiteralStep | regex.py:18-28 | On a chain, a step moves one node on exactly when the next literal is the character, and rejects otherwise. |
| Properties.LiteralRun | regex.py:207-213 | Feeding a string to a chain from node k moves the walker one node on per character exactly when the string is the next literals of the chain, and is rejected otherwise. |
| Properties.LiteralTermination | regex.py:215 | In a chain only the last node is followed by termination, under both acceptance rules. |
| Properties.LiteralPatternAcceptsExactlyItself | regex.py:156-215 | A literal pattern compiled on a fresh start accepts a string if and only if the string is the pattern, under both acceptance rules. |
| Properties.EmptyPatternAcceptsOnlyEmpty | regex.py:171-215 | The empty pattern compiles to start -> termination and accepts exactly the empty string. |
| Properties.BarIsLiteral | regex.py:196-198 | `a`, a vertical bar, `b` compiles to three literal states: it accepts itself and rejects `a`. |
| Properties.ParenIsLiteral | regex.py:196-198 | `(a)` compiles, and it accepts `(a)` but not `a`. |
| Sharing.GrownCompile | regex.py:161-172 | While compiling onto an arena, the old nodes other than start keep their lists, new nodes are never termination, and the start list only grows. This ends in `Agrees`. |
| Sharing.SharedCompileAgrees | regex.py:154-172 | Compiling an ASCII pattern that does not start with a repeat onto a compiled arena succeeds and gives a well-formed arena that agrees with the old one. |
| Sharing.CheckSelfFrame | regex.py:106-108 | Old nodes test characters the same way in the grown arena. |
| Sharing.ScanFrame | regex.py:19-23 | Scanning old successors other than start gives the same answer in both arenas. |
| Sharing.StarNextFrame | regex.py:110-121 | An old star moves the same way in both arenas. |
| Sharing.PlusNextFrame | regex.py:139-149 | An old plus moves the same way in both arenas. |
| Sharing.CheckNextFrame | regex.py:18-28 | Every old node other than start moves the same way in both arenas. |
| Sharing.RunFrame | regex.py:207-213 | From an old node other than start, every string leads to the same place in both arenas. |
| Sharing.HasTerminationFrame | regex.py:215 | The one-step termination test on old nodes is unchanged, because appended start entries are never termination. |
| Sharing.ScanPrefix | regex.py:19-23 | Scanning `ts + more` gives the scan of `ts`, unless that scan runs out, in which case it gives the scan of `more`. |
| Sharing.StartFrame | regex.py:18-28 | A step from the start state that succeeded before still goes to the same place. If the old start list leads with a star, every step from start is unchanged. |
| Sharing.AgreeingKeepsAcceptances | regex.py:205-215 | Every string accepted before compiling onto the start state is still accepted afterwards. |
| Sharing.AgreeingStarFirstSameAnswers | regex.py:205-215 | When the old start list leads with a star, the grown arena answers exactly like the old one. |
| Sharing.SharedCompileKeepsAnswers | regex.py:154-215 | A second `RegexFSM` on the shared start keeps every acceptance, and changes no answer when the first pattern's start leads with a star. |
| Demo.DemoCompiles | regex.py:232-234 | `RegexFSM("a*4+g*hi")` builds the ten-node arena drawn in `demo.dfy`, and that arena is well formed. |
| Demo.DemoAnswers | regex.py:236-238 | That automaton accepts `aaaaaa444ghi` and `4hi` and rejects `meow`. |
| Demo.DemoRecompileSameAnswers | regex.py:240-241 | Compiling the pattern a second time onto the same start state changes no answer of the automaton. |
| Demo.DemoRecompileAnswers | regex.py:243-245 | The second compilation gives the same three answers. |
| Findings.TrailingStarRejectsEmpty | regex.py:215 | As written, `a*` compiles, rejects the empty string and accepts `aaa`. |
| Findings.TrailingStarIntendedAcceptsEmpty | regex.py:182-187 | Under the intended acceptance rule, `a*` accepts both the empty string and `aaa`. |
| Findings.SharedStartLeaksPatterns | regex.py:154 | As written, compiling a non-empty literal pattern `q` after a different literal pattern `p` gives an automaton that accepts `p`. Compiled on its own start, `q` rejects `p`. |
| Findings.SharedStartAcceptsAb | regex.py:154-172 | The instance: `RegexFSM("ab")` then `RegexFSM("cd")` gives an automaton that accepts `ab`. |
| Findings.SharedLeadingStarDropsAcceptance | regex.py:182-187 | As written, `RegexFSM("*")` after `RegexFSM("ab")` compiles, because it pops the shared start's entry for `a` and wraps it in a star. The result no longer accepts `ab`, which the first automaton accepted. |

## Left out

- `print_automaton` and the `__str__` methods are left out. They only produce text for output.
- The `print` calls of the `__main__` block are left out. The answers they print are proved as lemmas instead (`Demo`).
- Object identity is not modelled. `State` objects become arena indices, the successor lists become sequences of indices, and the compiler edits values instead of objects in place. Aliasing between states is limited to what the indices express.
- The class attribute `RegexFSM.curr_state` is not modelled as program-wide state. Whether a pattern is compiled onto a fresh start (`CompileFresh`) or onto an earlier arena (`CompileOnto`) is the caller's choice.
- Exceptions are not modelled as control flow. `NotImplementedError("rejected string")` becomes `None`, and `AttributeError` and `IndexError` become `Failed`.
- Python's recursion limit is not modelled. In the model a star's recursive `check_next` always terminates, because it moves to later nodes.
- `check_string` never mutating the automaton is not stated as a property. Under value semantics it holds by construction.
- Sharing.SharedCompileKeepsAnswers: this states exact equality of answers only when the first pattern's start leads with a star. In general it states only that accepted strings stay accepted. It does not cover three kinds of second pattern:
  - one that begins with `*` or `+`;
  - the empty pattern;
  - one that fails part way.
- Sharing.SharedCompileAgrees: this covers only non-empty ASCII patterns whose first token is not a repeat. It leaves out two cases in which `Agrees` fails although the second compilation succeeds:
  - A leading `*` or `+` replaces the earlier pattern's last start entry. For `*` the replacement is a star wrapping that entry's node, and for `+` it is a plus wrapping the start state itself. The loss of an acceptance this causes is shown by `Findings.SharedLeadingStarDropsAcceptance`.
  - The empty pattern appends a termination state to the start's list, so the empty string becomes accepted.
- Python strings that are not sequences of Unicode scalar values are not modelled. A Dafny `char` cannot hold a lone surrogate, which a Python `str` can. Such a character would be a non-ASCII token (`AttributeError`, regex.py:200-201) in a pattern, and in an input it would be matched only by dot and start states.

## Findings

| source | as written | input that shows it | evidently intended | confidence | as-written member | corrected member |
|---|---|---|---|---|---|---|
| regex.py:215 | Acceptance looks only one step past the final state, so a trailing zero-or-more unit that was never entered cannot reach termination. | Pattern `a*`, string `""`: the start state's only successor is the star, so the answer is False. `aaa` is accepted. | Zero repetitions are allowed, so `a*` accepts `""`. | not executed | Findings.TrailingStarRejectsEmpty | Findings.TrailingStarIntendedAcceptsEmpty |
| regex.py:154 | `curr_state` is a class attribute, so every `RegexFSM` appends its pattern onto one shared start state. | `RegexFSM("ab")` then `RegexFSM("cd")`: the second automaton accepts `ab`. | Each compilation uses a start state of its own, so `cd` accepts exactly `cd`. | not executed | Findings.SharedStartLeaksPatterns | Properties.LiteralPatternAcceptsExactlyItself |
