# pda2cfg core in Dafny

pda2cfg converts a pushdown automaton (PDA) into a context-free grammar
(CFG). It reads an automaton, validates it, and rewrites it so that it has
a single accept state `q_accept`. It then emits a start production
`S -> A_<start>q_accept` and runs three rule passes:

- one epsilon production per state other than `q_accept`;
- one production per triple of states none of which is `q_accept`;
- one production per ordered pair of transitions where the first pushes
  what the second reads, unless that symbol is the blank `"~"`.

This project models that pipeline and proves what each step appends and
in which order.

Modules, one per source file:

- `Wrappers` (`wrappers.dfy`): the `Result` type standing for Rust's.
- `Pda` (`pda.dfy`): the `Trans` transition record and the `PDA` class.
  `PDA` has the six fields of the source, updated in place by its
  setters. `Snapshot()` gives its value as an `Automaton` datatype, which
  is what `clone()` yields.
- `Cfg` (`cfg.dfy`): the `Grammar` production record and the `CFG` class.
  `CFG` holds the ordered production list that the passes append to in
  place.
- `Transformer` (`transformer.dfy`): the validator, `single_accept`, and
  the three passes `eps_rule`, `ijk_rule` and `pair_rule`.
  - Each of `single_accept` and the three passes is a method with the
    source's loops.
  - Each method is proved against a specification function that follows
    those loops level by level.
  - Lemmas relate each specification function to an independent
    description: a filtered list, a recursive enumeration of all pairs or
    triples, a membership characterisation, or a count.
- `Parser` (`parser.dfy`): `Config::new`, Rust's `str::trim`, and the
  part of `run` after the automaton has been read, as the method `Run`.
  `Run` is proved to produce exactly `Synthesize`. Lemmas rewrite that
  result in terms of the automaton as it was read.

The code differs from the textbook PDA-to-CFG construction in several
ways, and the model does what the code does:

- Validation checks the accept list before the state list, so
  `NoAccept` wins when both are empty.
- A validation error is only reported; the conversion still runs.
- Productions that share a name are kept side by side, never merged into
  alternatives.
- No bottom-of-stack marker is inserted, and transitions are not split
  into push and pop steps.
- `single_accept` appends `q_accept` to the states even when it is
  already there. It adds an accept transition for every (state, accept
  state) pair with equal names, counting duplicates, and that includes
  the new `q_accept` itself.

Names: the transition field `new` of the source is `newSymb` here,
because `new` is a Dafny keyword. The value of the source's `EPSILON`
constant is defined outside the modelled files, so `Pda.Epsilon` is a
constant of unknown value. Every property proved holds whatever it is.

## Model

| member | source | states |
|---|---|---|
| Pda.PDA.Build | src/lib/pda.rs:19-28 | every list field is empty and the start state is "Error" |
| Pda.PDA.SetStates | src/lib/pda.rs:31-33 | the state list becomes the argument; every other field is unchanged |
| Pda.PDA.SetIAlpha | src/lib/pda.rs:36-38 | the input alphabet becomes the argument; every other field is unchanged |
| Pda.PDA.SetSAlpha | src/lib/pda.rs:40-42 | the stack alphabet becomes the argument; every other field is unchanged |
| Pda.PDA.SetStart | src/lib/pda.rs:44-46 | the start state becomes the argument; every other field is unchanged |
| Pda.PDA.SetAccept | src/lib/pda.rs:48-50 | the accept list becomes the argument; every other field is unchanged |
| Pda.PDA.SetTrans | src/lib/pda.rs:52-56 | the argument is appended after the existing transitions, in order, rather than replacing them; every other field is unchanged |
| Pda.PDA.Snapshot | src/lib/parser.rs:36 | the value `clone()` yields: a copy of all six fields |
| Pda.BuildThenSetStart | src/test.rs:8-12 | a freshly built PDA given start state s has start state s, and its other lists are still empty |
| Pda.SetTransTwice | src/lib/pda.rs:52-56 | two calls of set_trans concatenate their arguments in call order; every other field is unchanged |
| Cfg.NewGrammar | src/lib/cfg.rs:25 | the production holds exactly the given name and the given right-hand side |
| Cfg.CFG.Build | src/lib/cfg.rs:11-15 | a new grammar has no productions |
| Transformer.Message | src/lib/transformer.rs:6-12 | `NoStates` displays "No accept states" and `NoAccept` displays "No accept states found" |
| Transformer.MessagesDistinct | src/lib/transformer.rs:6-12 | the two texts differ, and the `NoStates` text is a prefix of the `NoAccept` text |
| Transformer.EnsureAcceptNoStates | src/lib/transformer.rs:15-23 | `Err(NoAccept)` exactly when the accept list is empty, whatever the states; `Err(NoStates)` exactly when the accept list is non-empty and the state list empty; otherwise `Ok` holding the unchanged automaton |
| Transformer.SingleAccept | src/lib/transformer.rs:33-59 | `SingleAccepted` holds between the old and new state: q_accept appended to the states; Epsilon appended to the input alphabet only when missing; stack alphabet and start state untouched; the old transitions kept as a prefix, followed by the accept transitions; q_accept the only accept state. Epsilon is in the input alphabet afterwards |
| Transformer.AcceptTransitionsMembership | src/lib/transformer.rs:46-52 | a transition is added exactly when it is the accept transition ("A_acc-"+s, Epsilon, "", q_accept, "") of a state s that is also listed as an accept state |
| Transformer.AcceptMatchesCount | src/lib/transformer.rs:47-51 | for one state s, the inner loop adds as many transitions as the accept list has copies of s, each the accept transition of s |
| Transformer.AcceptTransitionsCount | src/lib/transformer.rs:46-52 | the number added is the number of equal (state, accept state) pairs, duplicates counted |
| Transformer.AcceptTransitionsAppend | src/lib/transformer.rs:46-52 | state-major order: the transitions for a concatenation of state lists are those of the first part followed by those of the second |
| Transformer.NonAcceptAppendAccept | src/lib/transformer.rs:36 | appending q_accept to the states leaves the list of states other than q_accept unchanged |
| Transformer.EpsRule | src/lib/transformer.rs:62-69 | appends `EpsRules(states)` after the existing productions, which stay unchanged |
| Transformer.EpsRulesAt | src/lib/transformer.rs:63-68 | one production per state other than q_accept, duplicates kept; the k-th is ("A_"+s+"_"+s, Epsilon) for the k-th such state s |
| Transformer.EpsRulesMembership | src/lib/transformer.rs:63-68 | a production is appended exactly when it is the epsilon production of a listed state other than q_accept |
| Transformer.EpsRuleNameInjective | src/lib/transformer.rs:67 | two states with equally named epsilon productions are the same state |
| Transformer.EpsRulesAppendAccept | src/lib/transformer.rs:64-66 | appending q_accept to the states adds no epsilon production |
| Transformer.IjkRule | src/lib/transformer.rs:71-83 | appends `IjkRules(states)` after the existing productions, which stay unchanged |
| Transformer.IjkRulesIsCube | src/lib/transformer.rs:72-82 | the appended productions are, with i outer, j middle and k inner, ranging over the states other than q_accept (duplicates kept), the production ("A_"+i+j, "A_"+i+k+"A_"+j+k) |
| Transformer.IjkCubeLength | src/lib/transformer.rs:72-82 | enumerating the triples of lists f, g, h gives \|f\|·\|g\|·\|h\| productions |
| Transformer.IjkCubeMembership | src/lib/transformer.rs:72-82 | a production is in the enumeration exactly when it is the production of some triple from the three lists |
| Transformer.IjkRulesCount | src/lib/transformer.rs:72-82 | exactly m·m·m productions are appended, m being the number of states other than q_accept, duplicates counted |
| Transformer.IjkRulesMembership | src/lib/transformer.rs:72-82 | a production is appended exactly when it is the production of a triple of listed states, none of them q_accept |
| Transformer.IjkRulesAppendAccept | src/lib/transformer.rs:75-77 | appending q_accept to the states adds no ijk production |
| Transformer.PairRule | src/lib/transformer.rs:85-98 | appends `PairRules(transitions)` after the existing productions, which stay unchanged |
| Transformer.PairRulesIsTable | src/lib/transformer.rs:86-97 | the appended productions are, with a outer and b inner over the transitions, the production ("A_"+a.state+"_"+b.state, a.new+"A_"+a.state+b.state+b.new) for exactly the pairs where a.new equals b.input and is not "~" |
| Transformer.PairRulesMembership | src/lib/transformer.rs:86-97 | a production is appended exactly when it is the production of an ordered pair of listed transitions that pair up; no other pair contributes |
| Transformer.PairRowCount | src/lib/transformer.rs:87-96 | for one transition a, the inner loop adds one production per partner of a |
| Transformer.PairRulesBound | src/lib/transformer.rs:86-97 | at most one production per ordered pair of transitions |
| Parser.NewConfig | src/lib/parser.rs:126-134 | `Err("not enough arguments (expected 1 filename)")` exactly when fewer than two arguments are given; otherwise the file name is the second argument |
| Parser.NewConfigIgnoresExtra | src/lib/parser.rs:131-133 | arguments after the file name do not affect the configuration |
| Parser.TrimStart | src/lib/parser.rs:44 | the result is a suffix of the input; everything dropped is whitespace; the result does not start with whitespace |
| Parser.TrimEnd | src/lib/parser.rs:44 | the result is a prefix of the input; everything dropped is whitespace; the result does not end with whitespace |
| Parser.TrimSound | src/lib/parser.rs:44 | `trim` yields a slice of its input with only whitespace outside it and no whitespace at either end |
| Parser.TrimUnique | src/lib/parser.rs:44 | any string with that property is `trim`'s result |
| Parser.TrimIdempotent | src/lib/parser.rs:44 | trimming twice is trimming once |
| Parser.Run | src/lib/parser.rs:33-49 | the validation result is that of the automaton as read, and it does not stop the conversion; `single_accept` then holds between the automaton as read and as rewritten; the grammar is fresh and holds exactly the start production, the eps, the ijk and the pair productions of the rewritten automaton, in that order |
| Parser.SynthesizeAfterSingleAccept | src/lib/parser.rs:41-49 | after `single_accept`, the grammar is the start production ("S", "A_"+trim(start)+"q_accept") of the original start state, then the eps and ijk productions of the original states, then the pair productions of the original transitions followed by the accept transitions; the grammar has 1 + m + m·m·m + (pair count) productions |
| Parser.IjkRuleForDistinct | src/lib/transformer.rs:78-79 | ijk productions with the same i and j but different k have the same name and are different productions |
| Parser.SharedNamesCoexist | src/lib/cfg.rs:7 | the production list is a plain list: with two distinct states other than q_accept, the grammar holds two different productions sharing a name |

## Left out

- Reading the automaton: pest parsing, `setup_pda` and file reading (src/lib/parser.rs:17-31, 59-119). They rely on a foreign parser library and on file I/O. `Run` starts from an already filled-in `PDA`; the setters it would call are modelled.
- Output: JSON serialisation and `println!` of the grammar and of the validation error (src/lib/parser.rs:36-38, 51-53). They rely on a foreign library and on standard output. `Run` returns the validation result instead of printing it, and `Transformer.Message` gives the text each error displays. As written in the source, `NoStates` displays "No accept states".
- `empty_stack` (src/lib/transformer.rs:25-27): a stub that returns its argument unchanged, and `run` never calls it.
- src/main.rs (process plumbing), src/parser.rs (an older debug driver that prints parse results), src/old.rs (unrelated floating-point leftover), src/ast.rs and src/parser/ast.rs (unused declarations): none of them is part of the conversion.
- The value of `EPSILON`: it is not defined in the modelled files, so `Pda.Epsilon` is left unknown.
- Aliasing: the passes take the automaton by shared reference and the grammar by mutable reference. The model's methods read `PDA` and modify only `CFG`, which are distinct classes, so they cannot alias.
