/** The context-free grammar record produced by the converter. */
module Cfg {

  /** One production: its nonterminal name and its right-hand side text. */
  datatype Grammar = Grammar(ruleName: string, ruleDesc: string)

  /** `Grammar::new`: a production holding exactly the given name and text. */
  function NewGrammar(name: string, desc: string): (g: Grammar)
    ensures g.ruleName == name && g.ruleDesc == desc
  {
    Grammar(name, desc)
  }

  /** The grammar: an ordered list of productions. Productions are only ever
      appended, so several may share a name and their order is the order in
      which they were added. */
  class CFG {
    var rules: seq<Grammar>

    /** An empty grammar. */
    constructor Build()
      ensures rules == []
    {
      rules := [];
    }
  }
}
