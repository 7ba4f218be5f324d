/** The pushdown automaton record of the converter and its setters. */
module Pda {

  /** The reserved "no symbol" marker. Its spelling is defined outside the
      modelled files, so the model leaves its value unknown. */
  const Epsilon: string

  /** A transition: origin state, input symbol, symbol popped, next state,
      symbol pushed (`new` in the source). */
  datatype Trans = Trans(state: string, input: string, symb: string, next: string, newSymb: string)

  /** A copy of all fields of a PDA, as `clone()` yields it. */
  datatype Automaton = Automaton(
    states: seq<string>,
    inputAlphabet: seq<string>,
    stackAlphabet: seq<string>,
    startState: string,
    acceptStates: seq<string>,
    transitions: seq<Trans>)

  /** The automaton as the parser fills it in and the transformer rewrites it.
      Every field is an ordered list; nothing keeps them duplicate-free. */
  class PDA {
    var states: seq<string>
    var inputAlphabet: seq<string>
    var stackAlphabet: seq<string>
    var startState: string
    var acceptStates: seq<string>
    var transitions: seq<Trans>

    /** The current value of every field. */
    function Snapshot(): (a: Automaton)
      reads this
      ensures a.states == states && a.inputAlphabet == inputAlphabet
      ensures a.stackAlphabet == stackAlphabet && a.startState == startState
      ensures a.acceptStates == acceptStates && a.transitions == transitions
    {
      Automaton(states, inputAlphabet, stackAlphabet, startState, acceptStates, transitions)
    }

    /** An empty automaton whose start state is the placeholder "Error". */
    constructor Build()
      ensures states == [] && inputAlphabet == [] && stackAlphabet == []
      ensures acceptStates == [] && transitions == []
      ensures startState == "Error"
    {
      states := [];
      inputAlphabet := [];
      stackAlphabet := [];
      startState := "Error";
      acceptStates := [];
      transitions := [];
    }

    method SetStates(v: seq<string>)
      modifies this
      ensures states == v
      ensures inputAlphabet == old(inputAlphabet) && stackAlphabet == old(stackAlphabet)
      ensures startState == old(startState) && acceptStates == old(acceptStates)
      ensures transitions == old(transitions)
    {
      states := v;
    }

    method SetIAlpha(v: seq<string>)
      modifies this
      ensures inputAlphabet == v
      ensures states == old(states) && stackAlphabet == old(stackAlphabet)
      ensures startState == old(startState) && acceptStates == old(acceptStates)
      ensures transitions == old(transitions)
    {
      inputAlphabet := v;
    }

    method SetSAlpha(v: seq<string>)
      modifies this
      ensures stackAlphabet == v
      ensures states == old(states) && inputAlphabet == old(inputAlphabet)
      ensures startState == old(startState) && acceptStates == old(acceptStates)
      ensures transitions == old(transitions)
    {
      stackAlphabet := v;
    }

    method SetStart(s: string)
      modifies this
      ensures startState == s
      ensures states == old(states) && inputAlphabet == old(inputAlphabet)
      ensures stackAlphabet == old(stackAlphabet) && acceptStates == old(acceptStates)
      ensures transitions == old(transitions)
    {
      startState := s;
    }

    method SetAccept(v: seq<string>)
      modifies this
      ensures acceptStates == v
      ensures states == old(states) && inputAlphabet == old(inputAlphabet)
      ensures stackAlphabet == old(stackAlphabet) && startState == old(startState)
      ensures transitions == old(transitions)
    {
      acceptStates := v;
    }

    /** Appends the given transitions, one at a time, after the existing ones. */
    method SetTrans(v: seq<Trans>)
      modifies this
      ensures transitions == old(transitions) + v
      ensures states == old(states) && inputAlphabet == old(inputAlphabet)
      ensures stackAlphabet == old(stackAlphabet) && startState == old(startState)
      ensures acceptStates == old(acceptStates)
    {
      var i := 0;
      while i < |v|
        invariant 0 <= i <= |v|
        invariant transitions == old(transitions) + v[..i]
        invariant states == old(states) && inputAlphabet == old(inputAlphabet)
        invariant stackAlphabet == old(stackAlphabet) && startState == old(startState)
        invariant acceptStates == old(acceptStates)
      {
        assert v[..i + 1] == v[..i] + [v[i]];
        transitions := transitions + [v[i]];
        i := i + 1;
      }
      assert v[..i] == v;
    }
  }

  /** The state a fresh PDA has after `set_start(s)`: start state `s`, every
      other field still empty. */
  method BuildThenSetStart(s: string) returns (p: PDA)
    ensures fresh(p)
    ensures p.startState == s
    ensures p.states == [] && p.inputAlphabet == [] && p.stackAlphabet == []
    ensures p.acceptStates == [] && p.transitions == []
  {
    p := new PDA.Build();
    p.SetStart(s);
  }

  /** Two calls of `set_trans` concatenate their arguments in call order. */
  method SetTransTwice(p: PDA, v: seq<Trans>, w: seq<Trans>)
    modifies p
    ensures p.transitions == old(p.transitions) + v + w
    ensures p.states == old(p.states) && p.inputAlphabet == old(p.inputAlphabet)
    ensures p.stackAlphabet == old(p.stackAlphabet) && p.startState == old(p.startState)
    ensures p.acceptStates == old(p.acceptStates)
  {
    p.SetTrans(v);
    p.SetTrans(w);
  }
}
