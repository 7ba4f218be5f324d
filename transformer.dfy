/** The PDA-to-CFG transformation: a validator, the single-accept-state
    rewrite, and three passes that append productions to a grammar.

    Each pass is a method that appends to a list in place. What it appends
    is given by a specification function that follows the source's loops:
    each loop level is a function of how many elements of its list have
    been visited. The lemmas relate these functions to an independent
    description: which entries they hold, how many, and at which position. */
module Transformer {
  import opened Wrappers
  import opened Pda
  import opened Cfg

  /** The single accept state introduced by `single_accept`. */
  const AcceptState := "q_accept"

  /** The symbol `pair_rule` treats as blank. It is compared as a literal,
      independently of `Epsilon`. */
  const Blank := "~"

  datatype PDAError = NoStates | NoAccept

  /** The text each error displays. */
  function Message(e: PDAError): (m: string)
    ensures e == NoStates ==> m == "No accept states"
    ensures e == NoAccept ==> m == "No accept states found"
  {
    match e
    case NoStates => "No accept states"
    case NoAccept => "No accept states found"
  }

  /** The two errors display different texts, although the `NoStates` text
      speaks of accept states. */
  lemma MessagesDistinct()
    ensures Message(NoStates) != Message(NoAccept)
    ensures Message(NoAccept)[..|Message(NoStates)|] == Message(NoStates)
  {
  }

  // ---------------------------------------------------------------------
  // Validation

  /** `ensure_accept_nostates`: the accept list is checked first, then the
      state list; a valid automaton is returned unchanged. */
  function EnsureAcceptNoStates(p: Automaton): (r: Result<Automaton, PDAError>)
    ensures r == Err(NoAccept) <==> p.acceptStates == []
    ensures r == Err(NoStates) <==> p.acceptStates != [] && p.states == []
    ensures r.Ok? <==> p.acceptStates != [] && p.states != []
    ensures r.Ok? ==> r.value == p
  {
    if p.acceptStates == [] then Err(NoAccept)
    else if p.states == [] then Err(NoStates)
    else Ok(p)
  }

  // ---------------------------------------------------------------------
  // Filtering, the independent description of the passes that skip entries

  /** The elements of `s` that satisfy `keep`, in their original order. */
  function Filter<T(!new)>(keep: T -> bool, s: seq<T>): (r: seq<T>)
    ensures |r| <= |s|
    ensures forall x :: x in r <==> x in s && keep(x)
  {
    if s == [] then []
    else (if keep(s[0]) then [s[0]] else []) + Filter(keep, s[1..])
  }

  lemma {:induction false} FilterAppend<T(!new)>(keep: T -> bool, a: seq<T>, b: seq<T>)
    ensures Filter(keep, a + b) == Filter(keep, a) + Filter(keep, b)
  {
    if a == [] {
      assert a + b == b;
    } else {
      assert (a + b)[1..] == a[1..] + b;
      FilterAppend(keep, a[1..], b);
    }
  }

  /** Filtering one more element of `s` adds it at the end when it is kept. */
  lemma FilterStep<T(!new)>(keep: T -> bool, s: seq<T>, k: nat)
    requires k < |s|
    ensures Filter(keep, s[..k + 1]) == Filter(keep, s[..k]) + (if keep(s[k]) then [s[k]] else [])
  {
    assert s[..k + 1] == s[..k] + [s[k]];
    FilterAppend(keep, s[..k], [s[k]]);
    assert [s[k]][1..] == [];
  }

  /** The states other than `AcceptState`, in order, duplicates kept. */
  function NonAccept(states: seq<string>): seq<string>
  {
    Filter(s => s != AcceptState, states)
  }

  /** Visiting one more state extends `NonAccept` by it unless it is
      `AcceptState`. */
  lemma NonAcceptStep(states: seq<string>, k: nat)
    requires k < |states|
    ensures NonAccept(states[..k + 1]) ==
            NonAccept(states[..k]) + (if states[k] != AcceptState then [states[k]] else [])
  {
    FilterStep(s => s != AcceptState, states, k);
  }

  /** Filtering a list with `AcceptState` appended gives the same as
      filtering the list. */
  lemma NonAcceptAppendAccept(states: seq<string>)
    ensures NonAccept(states + [AcceptState]) == NonAccept(states)
  {
    FilterAppend(s => s != AcceptState, states, [AcceptState]);
    assert [AcceptState][1..] == [];
  }

  // ---------------------------------------------------------------------
  // single_accept

  /** The transition added from an old accept state `s` into `AcceptState`. */
  function AcceptTrans(s: string): Trans
  {
    Trans("A_acc-" + s, Epsilon, "", AcceptState, "")
  }

  /** What the inner loop of `single_accept` has collected for state `s`
      after visiting the first `j` accept states. */
  function AcceptMatches(s: string, finals: seq<string>, j: nat): seq<Trans>
    requires j <= |finals|
  {
    if j == 0 then []
    else AcceptMatches(s, finals, j - 1) + (if s == finals[j - 1] then [AcceptTrans(s)] else [])
  }

  /** What both loops of `single_accept` have collected after visiting the
      first `i` states. */
  function AcceptPrefix(states: seq<string>, finals: seq<string>, i: nat): seq<Trans>
    requires i <= |states|
  {
    if i == 0 then []
    else AcceptPrefix(states, finals, i - 1) + AcceptMatches(states[i - 1], finals, |finals|)
  }

  /** The transitions `single_accept` collects, state-major. */
  function AcceptTransitions(states: seq<string>, finals: seq<string>): seq<Trans>
  {
    AcceptPrefix(states, finals, |states|)
  }

  /** For one state, exactly as many transitions as `finals` has copies of
      it, each the accept transition of that state. */
  lemma {:induction false} AcceptMatchesCount(s: string, finals: seq<string>, j: nat)
    requires j <= |finals|
    ensures |AcceptMatches(s, finals, j)| == multiset(finals[..j])[s]
    ensures forall t :: t in AcceptMatches(s, finals, j) ==> t == AcceptTrans(s)
  {
    if j > 0 {
      assert finals[..j] == finals[..j - 1] + [finals[j - 1]];
      assert multiset(finals[..j]) == multiset(finals[..j - 1]) + multiset{finals[j - 1]};
      AcceptMatchesCount(s, finals, j - 1);
    }
  }

  lemma {:induction false} AcceptPrefixMembership(states: seq<string>, finals: seq<string>, i: nat, t: Trans)
    requires i <= |states|
    ensures t in AcceptPrefix(states, finals, i) <==>
            exists k :: 0 <= k < i && states[k] in finals && t == AcceptTrans(states[k])
  {
    if i > 0 {
      var s := states[i - 1];
      AcceptPrefixMembership(states, finals, i - 1, t);
      AcceptMatchesCount(s, finals, |finals|);
      assert finals[..|finals|] == finals;
      if s in finals {
        assert |AcceptMatches(s, finals, |finals|)| > 0;
        assert AcceptMatches(s, finals, |finals|)[0] in AcceptMatches(s, finals, |finals|);
      }
    }
  }

  /** An accept transition is added exactly from the states that are also
      listed as accept states. */
  lemma AcceptTransitionsMembership(states: seq<string>, finals: seq<string>, t: Trans)
    ensures t in AcceptTransitions(states, finals) <==>
            exists k :: 0 <= k < |states| && states[k] in finals && t == AcceptTrans(states[k])
  {
    AcceptPrefixMembership(states, finals, |states|, t);
  }

  /** The number of equal pairs (s, f) with s among `states` and f among
      `finals`, counting duplicates. */
  function AcceptCount(states: seq<string>, finals: seq<string>): nat
  {
    if states == [] then 0
    else AcceptCount(states[..|states| - 1], finals) + multiset(finals)[states[|states| - 1]]
  }

  lemma {:induction false} AcceptPrefixCount(states: seq<string>, finals: seq<string>, i: nat)
    requires i <= |states|
    ensures |AcceptPrefix(states, finals, i)| == AcceptCount(states[..i], finals)
  {
    if i > 0 {
      AcceptPrefixCount(states, finals, i - 1);
      AcceptMatchesCount(states[i - 1], finals, |finals|);
      assert finals[..|finals|] == finals;
      assert states[..i][..i - 1] == states[..i - 1];
    }
  }

  /** `single_accept` adds one transition per equal pair (s, f) of a state s
      and an accept state f. */
  lemma AcceptTransitionsCount(states: seq<string>, finals: seq<string>)
    ensures |AcceptTransitions(states, finals)| == AcceptCount(states, finals)
  {
    AcceptPrefixCount(states, finals, |states|);
    assert states[..|states|] == states;
  }

  lemma {:induction false} AcceptPrefixFront(a: seq<string>, b: seq<string>, finals: seq<string>, i: nat)
    requires i <= |a|
    ensures AcceptPrefix(a + b, finals, i) == AcceptPrefix(a, finals, i)
  {
    if i > 0 {
      AcceptPrefixFront(a, b, finals, i - 1);
      assert (a + b)[i - 1] == a[i - 1];
    }
  }

  lemma {:induction false} AcceptPrefixAppend(a: seq<string>, b: seq<string>, finals: seq<string>, i: nat)
    requires i <= |b|
    ensures AcceptPrefix(a + b, finals, |a| + i) == AcceptTransitions(a, finals) + AcceptPrefix(b, finals, i)
  {
    if i == 0 {
      AcceptPrefixFront(a, b, finals, |a|);
    } else {
      AcceptPrefixAppend(a, b, finals, i - 1);
      assert (a + b)[|a| + i - 1] == b[i - 1];
    }
  }

  /** State-major order: the transitions for a list of states are those for
      its first part followed by those for the rest. */
  lemma AcceptTransitionsAppend(a: seq<string>, b: seq<string>, finals: seq<string>)
    ensures AcceptTransitions(a + b, finals) == AcceptTransitions(a, finals) + AcceptTransitions(b, finals)
  {
    AcceptPrefixAppend(a, b, finals, |b|);
  }

  /** The relation between an automaton before and after `single_accept`:
      `AcceptState` appended to the states (even if already there),
      `Epsilon` appended to the input alphabet only when missing, the stack
      alphabet and start state untouched, the accept transitions appended
      after the old transitions, and `AcceptState` the only accept state. */
  ghost predicate SingleAccepted(before: Automaton, after: Automaton)
  {
    && after.states == before.states + [AcceptState]
    && after.inputAlphabet ==
         (if Epsilon in before.inputAlphabet then before.inputAlphabet
          else before.inputAlphabet + [Epsilon])
    && after.stackAlphabet == before.stackAlphabet
    && after.startState == before.startState
    && after.transitions == before.transitions + AcceptTransitions(after.states, before.acceptStates)
    && after.acceptStates == [AcceptState]
  }

  /** `single_accept`. */
  method SingleAccept(pda: PDA)
    modifies pda
    ensures SingleAccepted(old(pda.Snapshot()), pda.Snapshot())
    ensures Epsilon in pda.inputAlphabet
  {
    pda.states := pda.states + [AcceptState];
    if Epsilon !in pda.inputAlphabet {
      pda.inputAlphabet := pda.inputAlphabet + [Epsilon];
    }

    var states := pda.states;
    var finals := pda.acceptStates;
    var toPush: seq<Trans> := [];
    for i := 0 to |states|
      invariant toPush == AcceptPrefix(states, finals, i)
    {
      var state := states[i];
      for j := 0 to |finals|
        invariant toPush == AcceptPrefix(states, finals, i) + AcceptMatches(state, finals, j)
      {
        if state == finals[j] {
          toPush := toPush + [AcceptTrans(state)];
        }
      }
    }
    pda.transitions := pda.transitions + toPush;

    pda.acceptStates := [];
    pda.acceptStates := pda.acceptStates + [AcceptState];
  }

  // ---------------------------------------------------------------------
  // eps_rule

  /** The production `eps_rule` emits for state `s`. */
  function EpsRuleFor(s: string): Grammar
  {
    NewGrammar("A_" + s + "_" + s, Epsilon)
  }

  /** What `eps_rule` has appended after visiting the first `i` states. */
  function EpsPrefix(states: seq<string>, i: nat): seq<Grammar>
    requires i <= |states|
  {
    if i == 0 then []
    else EpsPrefix(states, i - 1) + (if states[i - 1] == AcceptState then [] else [EpsRuleFor(states[i - 1])])
  }

  /** What `eps_rule` appends. */
  function EpsRules(states: seq<string>): seq<Grammar>
  {
    EpsPrefix(states, |states|)
  }

  /** `eps_rule`: one production per state other than `AcceptState`, in
      state order. */
  method EpsRule(pda: PDA, cfg: CFG)
    modifies cfg
    ensures cfg.rules == old(cfg.rules) + EpsRules(pda.states)
  {
    var states := pda.states;
    for i := 0 to |states|
      invariant cfg.rules == old(cfg.rules) + EpsPrefix(states, i)
    {
      var state := states[i];
      if state == AcceptState {
        continue;
      }
      cfg.rules := cfg.rules + [EpsRuleFor(state)];
    }
  }

  lemma {:induction false} EpsPrefixAt(states: seq<string>, i: nat)
    requires i <= |states|
    ensures |EpsPrefix(states, i)| == |NonAccept(states[..i])|
    ensures forall k :: 0 <= k < |NonAccept(states[..i])| ==>
              EpsPrefix(states, i)[k] == EpsRuleFor(NonAccept(states[..i])[k])
  {
    if i > 0 {
      FilterStep(s => s != AcceptState, states, i - 1);
      EpsPrefixAt(states, i - 1);
    }
  }

  /** The k-th production of `eps_rule` belongs to the k-th state other than
      `AcceptState`, and there is one per such state. */
  lemma EpsRulesAt(states: seq<string>)
    ensures |EpsRules(states)| == |NonAccept(states)|
    ensures forall k :: 0 <= k < |NonAccept(states)| ==>
              EpsRules(states)[k] == EpsRuleFor(NonAccept(states)[k])
  {
    EpsPrefixAt(states, |states|);
    assert states[..|states|] == states;
  }

  /** A production comes from `eps_rule` exactly when it is the production
      of a listed state other than `AcceptState`. */
  lemma EpsRulesMembership(states: seq<string>, g: Grammar)
    ensures g in EpsRules(states) <==> exists s :: s in states && s != AcceptState && g == EpsRuleFor(s)
  {
    EpsRulesAt(states);
    var f := NonAccept(states);
    if g in EpsRules(states) {
      var k :| 0 <= k < |EpsRules(states)| && EpsRules(states)[k] == g;
      assert f[k] in f;
    }
    if exists s :: s in states && s != AcceptState && g == EpsRuleFor(s) {
      var s :| s in states && s != AcceptState && g == EpsRuleFor(s);
      assert s in f;
      var k :| 0 <= k < |f| && f[k] == s;
      assert EpsRules(states)[k] == g;
    }
  }

  /** Different states give differently named epsilon productions. */
  lemma EpsRuleNameInjective(s: string, t: string)
    requires EpsRuleFor(s).ruleName == EpsRuleFor(t).ruleName
    ensures s == t
  {
    var n := EpsRuleFor(s).ruleName;
    assert |s| == |t|;
    assert s == n[2..2 + |s|];
    assert t == n[2..2 + |t|];
  }

  lemma {:induction false} EpsPrefixAppendAccept(states: seq<string>, i: nat)
    requires i <= |states|
    ensures EpsPrefix(states + [AcceptState], i) == EpsPrefix(states, i)
  {
    if i > 0 {
      EpsPrefixAppendAccept(states, i - 1);
      assert (states + [AcceptState])[i - 1] == states[i - 1];
    }
  }

  /** Appending `AcceptState` to the states adds no `eps_rule` production. */
  lemma EpsRulesAppendAccept(states: seq<string>)
    ensures EpsRules(states + [AcceptState]) == EpsRules(states)
  {
    EpsPrefixAppendAccept(states, |states|);
    assert (states + [AcceptState])[|states|] == AcceptState;
  }

  // ---------------------------------------------------------------------
  // ijk_rule

  /** The production `ijk_rule` emits for the triple (i, j, k). */
  function IjkRuleFor(i: string, j: string, k: string): Grammar
  {
    NewGrammar("A_" + i + j, "A_" + i + k + "A_" + j + k)
  }

  /** The innermost loop of `ijk_rule` after visiting the first `k` states. */
  function IjkInner(si: string, sj: string, zs: seq<string>, k: nat): seq<Grammar>
    requires k <= |zs|
  {
    if k == 0 then []
    else
      IjkInner(si, sj, zs, k - 1)
      + (if si == AcceptState || sj == AcceptState || zs[k - 1] == AcceptState then []
         else [IjkRuleFor(si, sj, zs[k - 1])])
  }

  /** The middle loop of `ijk_rule` after visiting the first `j` states. */
  function IjkMiddle(si: string, ys: seq<string>, zs: seq<string>, j: nat): seq<Grammar>
    requires j <= |ys|
  {
    if j == 0 then []
    else IjkMiddle(si, ys, zs, j - 1) + IjkInner(si, ys[j - 1], zs, |zs|)
  }

  /** The outer loop of `ijk_rule` after visiting the first `i` states. */
  function IjkOuter(xs: seq<string>, ys: seq<string>, zs: seq<string>, i: nat): seq<Grammar>
    requires i <= |xs|
  {
    if i == 0 then []
    else IjkOuter(xs, ys, zs, i - 1) + IjkMiddle(xs[i - 1], ys, zs, |ys|)
  }

  /** What `ijk_rule` appends: all triples of states, i outer, k inner. */
  function IjkRules(states: seq<string>): seq<Grammar>
  {
    IjkOuter(states, states, states, |states|)
  }

  /** `ijk_rule`: one production per triple of states none of which is
      `AcceptState`. */
  method IjkRule(pda: PDA, cfg: CFG)
    modifies cfg
    ensures cfg.rules == old(cfg.rules) + IjkRules(pda.states)
  {
    var states := pda.states;
    for i := 0 to |states|
      invariant cfg.rules == old(cfg.rules) + IjkOuter(states, states, states, i)
    {
      var stateI := states[i];
      ghost var outer := cfg.rules;
      for j := 0 to |states|
        invariant cfg.rules == outer + IjkMiddle(stateI, states, states, j)
      {
        var stateJ := states[j];
        ghost var middle := cfg.rules;
        for k := 0 to |states|
          invariant cfg.rules == middle + IjkInner(stateI, stateJ, states, k)
        {
          var stateK := states[k];
          if stateI == AcceptState || stateJ == AcceptState || stateK == AcceptState {
            continue;
          }
          cfg.rules := cfg.rules + [IjkRuleFor(stateI, stateJ, stateK)];
        }
      }
    }
  }

  /** Reference enumeration of the ijk productions: i fixed to `si`, j
      fixed to `sj`, k ranging over `h` in order. */
  function IjkColumn(si: string, sj: string, h: seq<string>): (r: seq<Grammar>)
    ensures |r| == |h|
  {
    if h == [] then [] else [IjkRuleFor(si, sj, h[0])] + IjkColumn(si, sj, h[1..])
  }

  /** i fixed to `si`, j ranging over `g`, k over `h`. */
  function IjkPlane(si: string, g: seq<string>, h: seq<string>): seq<Grammar>
  {
    if g == [] then [] else IjkColumn(si, g[0], h) + IjkPlane(si, g[1..], h)
  }

  /** Every triple (i, j, k) of `f` x `g` x `h`, in lexicographic order. */
  function IjkCube(f: seq<string>, g: seq<string>, h: seq<string>): seq<Grammar>
  {
    if f == [] then [] else IjkPlane(f[0], g, h) + IjkCube(f[1..], g, h)
  }

  lemma {:induction false} IjkColumnSnoc(si: string, sj: string, h: seq<string>, z: string)
    ensures IjkColumn(si, sj, h + [z]) == IjkColumn(si, sj, h) + [IjkRuleFor(si, sj, z)]
  {
    if h == [] {
      assert [z][1..] == [];
    } else {
      assert (h + [z])[1..] == h[1..] + [z];
      IjkColumnSnoc(si, sj, h[1..], z);
    }
  }

  lemma {:induction false} IjkPlaneSnoc(si: string, g: seq<string>, y: string, h: seq<string>)
    ensures IjkPlane(si, g + [y], h) == IjkPlane(si, g, h) + IjkColumn(si, y, h)
  {
    if g == [] {
      assert [y][1..] == [];
    } else {
      assert (g + [y])[1..] == g[1..] + [y];
      IjkPlaneSnoc(si, g[1..], y, h);
    }
  }

  lemma {:induction false} IjkCubeSnoc(f: seq<string>, x: string, g: seq<string>, h: seq<string>)
    ensures IjkCube(f + [x], g, h) == IjkCube(f, g, h) + IjkPlane(x, g, h)
  {
    if f == [] {
      assert [x][1..] == [];
    } else {
      assert (f + [x])[1..] == f[1..] + [x];
      IjkCubeSnoc(f[1..], x, g, h);
    }
  }

  lemma {:induction false} IjkInnerIsColumn(si: string, sj: string, zs: seq<string>, k: nat)
    requires k <= |zs|
    ensures si == AcceptState || sj == AcceptState ==> IjkInner(si, sj, zs, k) == []
    ensures si != AcceptState && sj != AcceptState ==>
              IjkInner(si, sj, zs, k) == IjkColumn(si, sj, NonAccept(zs[..k]))
  {
    if k > 0 {
      NonAcceptStep(zs, k - 1);
      IjkInnerIsColumn(si, sj, zs, k - 1);
      if si != AcceptState && sj != AcceptState && zs[k - 1] != AcceptState {
        IjkColumnSnoc(si, sj, NonAccept(zs[..k - 1]), zs[k - 1]);
      } else if si != AcceptState && sj != AcceptState {
        assert NonAccept(zs[..k]) == NonAccept(zs[..k - 1]);
        assert IjkInner(si, sj, zs, k) == IjkInner(si, sj, zs, k - 1);
      }
    }
  }

  lemma {:induction false} IjkMiddleIsPlane(si: string, ys: seq<string>, zs: seq<string>, j: nat)
    requires j <= |ys|
    ensures si == AcceptState ==> IjkMiddle(si, ys, zs, j) == []
    ensures si != AcceptState ==> IjkMiddle(si, ys, zs, j) == IjkPlane(si, NonAccept(ys[..j]), NonAccept(zs))
  {
    if j > 0 {
      NonAcceptStep(ys, j - 1);
      IjkMiddleIsPlane(si, ys, zs, j - 1);
      IjkInnerIsColumn(si, ys[j - 1], zs, |zs|);
      assert zs[..|zs|] == zs;
      if si != AcceptState && ys[j - 1] != AcceptState {
        IjkPlaneSnoc(si, NonAccept(ys[..j - 1]), ys[j - 1], NonAccept(zs));
      } else if si != AcceptState {
        assert NonAccept(ys[..j]) == NonAccept(ys[..j - 1]);
        assert IjkMiddle(si, ys, zs, j) == IjkMiddle(si, ys, zs, j - 1);
      }
    }
  }

  /** One more outer iteration adds the plane of its state, unless that
      state is `AcceptState`. */
  lemma IjkOuterStep(xs: seq<string>, ys: seq<string>, zs: seq<string>, i: nat)
    requires 0 < i <= |xs|
    ensures IjkOuter(xs, ys, zs, i) == IjkOuter(xs, ys, zs, i - 1) +
              (if xs[i - 1] == AcceptState then [] else IjkPlane(xs[i - 1], NonAccept(ys), NonAccept(zs)))
  {
    assert ys[..|ys|] == ys;
    IjkMiddleIsPlane(xs[i - 1], ys, zs, |ys|);
  }

  /** The cube over one more outer state, matching `IjkOuterStep`. */
  lemma IjkCubeStep(xs: seq<string>, i: nat, g: seq<string>, h: seq<string>)
    requires 0 < i <= |xs|
    ensures IjkCube(NonAccept(xs[..i]), g, h) == IjkCube(NonAccept(xs[..i - 1]), g, h) +
              (if xs[i - 1] == AcceptState then [] else IjkPlane(xs[i - 1], g, h))
  {
    NonAcceptStep(xs, i - 1);
    if xs[i - 1] != AcceptState {
      IjkCubeSnoc(NonAccept(xs[..i - 1]), xs[i - 1], g, h);
    } else {
      assert NonAccept(xs[..i - 1]) + [] == NonAccept(xs[..i - 1]);
    }
  }

  lemma {:induction false} IjkOuterIsCube(xs: seq<string>, ys: seq<string>, zs: seq<string>, i: nat)
    requires i <= |xs|
    ensures IjkOuter(xs, ys, zs, i) == IjkCube(NonAccept(xs[..i]), NonAccept(ys), NonAccept(zs))
  {
    if i > 0 {
      IjkOuterIsCube(xs, ys, zs, i - 1);
      IjkOuterStep(xs, ys, zs, i);
      IjkCubeStep(xs, i, NonAccept(ys), NonAccept(zs));
    }
  }

  /** `ijk_rule` appends, for i, j, k ranging (in that nesting) over the
      states other than `AcceptState`, duplicates included, the production
      named A_{i}{j} with right-hand side A_{i}{k}A_{j}{k}. */
  lemma IjkRulesIsCube(states: seq<string>)
    ensures IjkRules(states) == IjkCube(NonAccept(states), NonAccept(states), NonAccept(states))
  {
    IjkOuterIsCube(states, states, states, |states|);
    assert states[..|states|] == states;
  }

  lemma {:induction false} IjkPlaneLength(si: string, g: seq<string>, h: seq<string>)
    ensures |IjkPlane(si, g, h)| == |g| * |h|
  {
    if g != [] {
      IjkPlaneLength(si, g[1..], h);
      assert |g| * |h| == (|g| - 1) * |h| + |h|;
    }
  }

  lemma {:induction false} IjkCubeLength(f: seq<string>, g: seq<string>, h: seq<string>)
    ensures |IjkCube(f, g, h)| == |f| * (|g| * |h|)
  {
    if f != [] {
      IjkCubeLength(f[1..], g, h);
      IjkPlaneLength(f[0], g, h);
      assert |f| * (|g| * |h|) == (|f| - 1) * (|g| * |h|) + |g| * |h|;
    }
  }

  lemma {:induction false} IjkColumnMembership(si: string, sj: string, h: seq<string>, r: Grammar)
    ensures r in IjkColumn(si, sj, h) <==> exists k :: k in h && r == IjkRuleFor(si, sj, k)
  {
    if h != [] {
      IjkColumnMembership(si, sj, h[1..], r);
      assert forall k :: k in h <==> k == h[0] || k in h[1..];
    }
  }

  lemma {:induction false} IjkPlaneMembership(si: string, g: seq<string>, h: seq<string>, r: Grammar)
    ensures r in IjkPlane(si, g, h) <==> exists j, k :: j in g && k in h && r == IjkRuleFor(si, j, k)
  {
    if g != [] {
      IjkPlaneMembership(si, g[1..], h, r);
      IjkColumnMembership(si, g[0], h, r);
      assert forall j :: j in g <==> j == g[0] || j in g[1..];
    }
  }

  lemma {:induction false} IjkCubeMembership(f: seq<string>, g: seq<string>, h: seq<string>, r: Grammar)
    ensures r in IjkCube(f, g, h) <==> exists i, j, k :: i in f && j in g && k in h && r == IjkRuleFor(i, j, k)
  {
    if f != [] {
      IjkCubeMembership(f[1..], g, h, r);
      IjkPlaneMembership(f[0], g, h, r);
      assert forall i :: i in f <==> i == f[0] || i in f[1..];
    }
  }

  /** `ijk_rule` appends m*m*m productions, m being the number of states
      other than `AcceptState`, duplicates counted. */
  lemma IjkRulesCount(states: seq<string>)
    ensures |IjkRules(states)| == |NonAccept(states)| * (|NonAccept(states)| * |NonAccept(states)|)
  {
    IjkRulesIsCube(states);
    var f := NonAccept(states);
    IjkCubeLength(f, f, f);
  }

  /** A production comes from `ijk_rule` exactly when it belongs to a
      triple of states none of which is `AcceptState`. */
  lemma IjkRulesMembership(states: seq<string>, r: Grammar)
    ensures r in IjkRules(states) <==>
            exists i, j, k :: i in states && j in states && k in states &&
              i != AcceptState && j != AcceptState && k != AcceptState && r == IjkRuleFor(i, j, k)
  {
    IjkRulesIsCube(states);
    var f := NonAccept(states);
    IjkCubeMembership(f, f, f, r);
  }

  // Every loop level of `ijk_rule` skips `AcceptState` wherever it occurs,
  // so one `AcceptState` appended to the states adds no production.

  /** Appending `AcceptState` to the states adds no `ijk_rule` production. */
  lemma IjkRulesAppendAccept(states: seq<string>)
    ensures IjkRules(states + [AcceptState]) == IjkRules(states)
  {
    IjkRulesIsCube(states);
    IjkRulesIsCube(states + [AcceptState]);
    NonAcceptAppendAccept(states);
  }

  // ---------------------------------------------------------------------
  // pair_rule

  /** Whether `pair_rule` emits a production for the ordered pair (a, b):
      a pushes what b reads, and that is not the blank symbol. */
  predicate Pairs(a: Trans, b: Trans)
  {
    a.newSymb == b.input && a.newSymb != Blank
  }

  /** The production `pair_rule` emits for the pair (a, b). */
  function PairRuleFor(a: Trans, b: Trans): Grammar
  {
    NewGrammar("A_" + a.state + "_" + b.state, a.newSymb + "A_" + a.state + b.state + b.newSymb)
  }

  /** The inner loop of `pair_rule` after visiting the first `j`
      transitions. */
  function PairInner(a: Trans, bs: seq<Trans>, j: nat): seq<Grammar>
    requires j <= |bs|
  {
    if j == 0 then []
    else
      var b := bs[j - 1];
      PairInner(a, bs, j - 1)
      + (if a.newSymb == b.input then (if a.newSymb == Blank then [] else [PairRuleFor(a, b)]) else [])
  }

  /** The outer loop of `pair_rule` after visiting the first `i`
      transitions. */
  function PairOuter(fs: seq<Trans>, bs: seq<Trans>, i: nat): seq<Grammar>
    requires i <= |fs|
  {
    if i == 0 then []
    else PairOuter(fs, bs, i - 1) + PairInner(fs[i - 1], bs, |bs|)
  }

  /** What `pair_rule` appends: all ordered pairs of transitions, a outer. */
  function PairRules(ts: seq<Trans>): seq<Grammar>
  {
    PairOuter(ts, ts, |ts|)
  }

  /** `pair_rule`: one production per ordered pair of transitions that
      `Pairs`. */
  method PairRule(pda: PDA, cfg: CFG)
    modifies cfg
    ensures cfg.rules == old(cfg.rules) + PairRules(pda.transitions)
  {
    var ts := pda.transitions;
    for i := 0 to |ts|
      invariant cfg.rules == old(cfg.rules) + PairOuter(ts, ts, i)
    {
      var transA := ts[i];
      for j := 0 to |ts|
        invariant cfg.rules == old(cfg.rules) + PairOuter(ts, ts, i) + PairInner(transA, ts, j)
      {
        var transB := ts[j];
        if transA.newSymb == transB.input {
          if transA.newSymb == Blank {
            continue;
          }
          var desc := transA.newSymb + "A_" + transA.state + transB.state + transB.newSymb;
          var g := NewGrammar("A_" + transA.state + "_" + transB.state, desc);
          cfg.rules := cfg.rules + [g];
        }
      }
    }
  }

  /** Reference enumeration: the production of `a` with each partner in
      `bs`, in order. */
  function PairRow(a: Trans, bs: seq<Trans>): seq<Grammar>
  {
    if bs == [] then []
    else (if Pairs(a, bs[0]) then [PairRuleFor(a, bs[0])] else []) + PairRow(a, bs[1..])
  }

  /** Every ordered pair (a, b) of `fs` x `bs` that `Pairs`, a outer. */
  function PairTable(fs: seq<Trans>, bs: seq<Trans>): seq<Grammar>
  {
    if fs == [] then [] else PairRow(fs[0], bs) + PairTable(fs[1..], bs)
  }

  lemma {:induction false} PairRowSnoc(a: Trans, bs: seq<Trans>, b: Trans)
    ensures PairRow(a, bs + [b]) == PairRow(a, bs) + (if Pairs(a, b) then [PairRuleFor(a, b)] else [])
  {
    if bs == [] {
      assert [b][1..] == [];
    } else {
      assert (bs + [b])[1..] == bs[1..] + [b];
      PairRowSnoc(a, bs[1..], b);
    }
  }

  lemma {:induction false} PairTableSnoc(fs: seq<Trans>, a: Trans, bs: seq<Trans>)
    ensures PairTable(fs + [a], bs) == PairTable(fs, bs) + PairRow(a, bs)
  {
    if fs == [] {
      assert [a][1..] == [];
    } else {
      assert (fs + [a])[1..] == fs[1..] + [a];
      PairTableSnoc(fs[1..], a, bs);
    }
  }

  lemma {:induction false} PairInnerIsRow(a: Trans, bs: seq<Trans>, j: nat)
    requires j <= |bs|
    ensures PairInner(a, bs, j) == PairRow(a, bs[..j])
  {
    if j > 0 {
      PairInnerIsRow(a, bs, j - 1);
      assert bs[..j] == bs[..j - 1] + [bs[j - 1]];
      PairRowSnoc(a, bs[..j - 1], bs[j - 1]);
    }
  }

  lemma {:induction false} PairOuterIsTable(fs: seq<Trans>, bs: seq<Trans>, i: nat)
    requires i <= |fs|
    ensures PairOuter(fs, bs, i) == PairTable(fs[..i], bs)
  {
    if i > 0 {
      PairOuterIsTable(fs, bs, i - 1);
      PairInnerIsRow(fs[i - 1], bs, |bs|);
      assert bs[..|bs|] == bs;
      assert fs[..i] == fs[..i - 1] + [fs[i - 1]];
      PairTableSnoc(fs[..i - 1], fs[i - 1], bs);
    }
  }

  /** `pair_rule` appends, for a ranging over the transitions and, inside,
      b ranging over the transitions, the production of (a, b) exactly when
      they pair. */
  lemma PairRulesIsTable(ts: seq<Trans>)
    ensures PairRules(ts) == PairTable(ts, ts)
  {
    PairOuterIsTable(ts, ts, |ts|);
    assert ts[..|ts|] == ts;
  }

  lemma {:induction false} PairRowMembership(a: Trans, bs: seq<Trans>, g: Grammar)
    ensures g in PairRow(a, bs) <==> exists b :: b in bs && Pairs(a, b) && g == PairRuleFor(a, b)
  {
    if bs != [] {
      PairRowMembership(a, bs[1..], g);
      assert forall b :: b in bs <==> b == bs[0] || b in bs[1..];
    }
  }

  lemma {:induction false} PairTableMembership(fs: seq<Trans>, bs: seq<Trans>, g: Grammar)
    ensures g in PairTable(fs, bs) <==>
            exists a, b :: a in fs && b in bs && Pairs(a, b) && g == PairRuleFor(a, b)
  {
    if fs != [] {
      PairTableMembership(fs[1..], bs, g);
      PairRowMembership(fs[0], bs, g);
      assert forall a :: a in fs <==> a == fs[0] || a in fs[1..];
    }
  }

  /** A production comes from `pair_rule` exactly when it is the production
      of an ordered pair of transitions that `Pairs`; no other pair
      contributes. */
  lemma PairRulesMembership(ts: seq<Trans>, g: Grammar)
    ensures g in PairRules(ts) <==>
            exists a, b :: a in ts && b in ts && Pairs(a, b) && g == PairRuleFor(a, b)
  {
    PairRulesIsTable(ts);
    PairTableMembership(ts, ts, g);
  }

  /** The partners of `a` in `bs` give a row of the same length. */
  lemma {:induction false} PairRowCount(a: Trans, bs: seq<Trans>)
    ensures |PairRow(a, bs)| == |Filter(b => Pairs(a, b), bs)|
  {
    if bs != [] {
      PairRowCount(a, bs[1..]);
    }
  }

  lemma {:induction false} PairTableBound(fs: seq<Trans>, bs: seq<Trans>)
    ensures |PairTable(fs, bs)| <= |fs| * |bs|
  {
    if fs != [] {
      PairTableBound(fs[1..], bs);
      PairRowCount(fs[0], bs);
      assert |fs| * |bs| == (|fs| - 1) * |bs| + |bs|;
    }
  }

  /** At most one production per ordered pair of transitions. */
  lemma PairRulesBound(ts: seq<Trans>)
    ensures |PairRules(ts)| <= |ts| * |ts|
  {
    PairRulesIsTable(ts);
    PairTableBound(ts, ts);
  }
}
