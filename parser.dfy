/** The command-line configuration and the conversion pipeline that runs
    once the automaton has been read: validate, rewrite to a single accept
    state, then emit the start production and the three rule passes. */
module Parser {
  import opened Wrappers
  import opened Pda
  import opened Cfg
  import opened Transformer

  /** The configuration: the name of the automaton file. */
  datatype Config = Config(filename: string)

  /** The message `Config::new` fails with. */
  const UsageError := "not enough arguments (expected 1 filename)"

  /** `Config::new`: the argument list starts with the program name, and the
      file name is the argument after it. */
  function NewConfig(args: seq<string>): (r: Result<Config, string>)
    ensures r.Err? <==> |args| < 2
    ensures r.Err? ==> r.error == UsageError
    ensures r.Ok? ==> r.value.filename == args[1]
  {
    if |args| < 2 then Err(UsageError) else Ok(Config(args[1]))
  }

  /** Arguments after the file name are ignored. */
  lemma NewConfigIgnoresExtra(args: seq<string>, extra: seq<string>)
    requires |args| >= 2
    ensures NewConfig(args + extra) == NewConfig(args)
  {
    assert (args + extra)[1] == args[1];
  }

  // ---------------------------------------------------------------------
  // Trimming, as Rust's `str::trim` does it

  /** The characters with the Unicode White_Space property, which `trim`
      removes. */
  predicate IsWhitespace(c: char)
  {
    || ('\t' <= c <= '\r')
    || c == ' '
    || c == '\U{0085}'
    || c == '\U{00A0}'
    || c == '\U{1680}'
    || ('\U{2000}' <= c <= '\U{200A}')
    || c == '\U{2028}'
    || c == '\U{2029}'
    || c == '\U{202F}'
    || c == '\U{205F}'
    || c == '\U{3000}'
  }

  /** `s` without its leading whitespace. */
  function TrimStart(s: string): (r: string)
    ensures |r| <= |s| && r == s[|s| - |r|..]
    ensures forall i :: 0 <= i < |s| - |r| ==> IsWhitespace(s[i])
    ensures r == [] || !IsWhitespace(r[0])
  {
    if s != [] && IsWhitespace(s[0]) then TrimStart(s[1..]) else s
  }

  /** `s` without its trailing whitespace. */
  function TrimEnd(s: string): (r: string)
    ensures |r| <= |s| && r == s[..|r|]
    ensures forall i :: |r| <= i < |s| ==> IsWhitespace(s[i])
    ensures r == [] || !IsWhitespace(r[|r| - 1])
  {
    if s != [] && IsWhitespace(s[|s| - 1]) then TrimEnd(s[..|s| - 1]) else s
  }

  /** `str::trim`. */
  function Trim(s: string): string
  {
    TrimEnd(TrimStart(s))
  }

  /** `t` is the slice [lo, hi) of `s`, only whitespace lies outside that
      slice, and the slice neither starts nor ends with whitespace. */
  ghost predicate TrimmedAt(s: string, t: string, lo: int, hi: int)
  {
    && 0 <= lo <= hi <= |s|
    && t == s[lo..hi]
    && (forall i :: 0 <= i < lo ==> IsWhitespace(s[i]))
    && (forall i :: hi <= i < |s| ==> IsWhitespace(s[i]))
    && (t == [] || (!IsWhitespace(t[0]) && !IsWhitespace(t[|t| - 1])))
  }

  /** `t` is `s` with all leading and all trailing whitespace removed. */
  ghost predicate IsTrimOf(s: string, t: string)
  {
    exists lo, hi :: TrimmedAt(s, t, lo, hi)
  }

  /** A prefix of a suffix of `s` is a slice of `s`. */
  lemma PrefixOfSuffix<T>(s: seq<T>, u: seq<T>, t: seq<T>)
    requires |u| <= |s| && u == s[|s| - |u|..]
    requires |t| <= |u| && t == u[..|t|]
    ensures t == s[|s| - |u|..|s| - |u| + |t|]
  {
  }

  /** Where `Trim(s)` sits in `s`: it starts where `TrimStart` starts. */
  lemma TrimSlice(s: string)
    ensures |s| - |TrimStart(s)| + |Trim(s)| <= |s|
    ensures Trim(s) == s[|s| - |TrimStart(s)|..|s| - |TrimStart(s)| + |Trim(s)|]
  {
    PrefixOfSuffix(s, TrimStart(s), Trim(s));
  }

  /** Only whitespace follows `Trim(s)` in `s`. */
  lemma TrimTail(s: string)
    ensures forall i :: |s| - |TrimStart(s)| + |Trim(s)| <= i < |s| ==> IsWhitespace(s[i])
  {
    var u := TrimStart(s);
    var lo := |s| - |u|;
    forall i | lo + |Trim(s)| <= i < |s|
      ensures IsWhitespace(s[i])
    {
      assert s[i] == u[i - lo];
    }
  }

  /** `Trim(s)` neither starts nor ends with whitespace. */
  lemma TrimEnds(s: string)
    ensures Trim(s) == [] || (!IsWhitespace(Trim(s)[0]) && !IsWhitespace(Trim(s)[|Trim(s)| - 1]))
  {
    if Trim(s) != [] {
      assert Trim(s)[0] == TrimStart(s)[0];
    }
  }

  /** `Trim` removes exactly the leading and trailing whitespace. */
  lemma TrimSound(s: string)
    ensures IsTrimOf(s, Trim(s))
  {
    TrimSlice(s);
    TrimTail(s);
    TrimEnds(s);
    assert TrimmedAt(s, Trim(s), |s| - |TrimStart(s)|, |s| - |TrimStart(s)| + |Trim(s)|);
  }

  /** Two ways of removing the leading and trailing whitespace of `s`
      remove the same characters. */
  lemma TrimmedAtUnique(s: string, t: string, lo: int, hi: int, r: string, lo': int, hi': int)
    requires TrimmedAt(s, t, lo, hi) && TrimmedAt(s, r, lo', hi')
    ensures t == r
  {
    if t != [] && r != [] {
      assert t[0] == s[lo] && r[0] == s[lo'];
      assert t[|t| - 1] == s[hi - 1] && r[|r| - 1] == s[hi' - 1];
      assert lo == lo';
      assert hi == hi';
    }
  }

  /** There is only one way to remove the leading and trailing whitespace,
      so any such result is `Trim`'s. */
  lemma TrimUnique(s: string, t: string)
    requires IsTrimOf(s, t)
    ensures t == Trim(s)
  {
    TrimSound(s);
    var lo, hi :| TrimmedAt(s, t, lo, hi);
    var lo', hi' :| TrimmedAt(s, Trim(s), lo', hi');
    TrimmedAtUnique(s, t, lo, hi, Trim(s), lo', hi');
  }

  /** Trimming twice is trimming once. */
  lemma TrimIdempotent(s: string)
    ensures Trim(Trim(s)) == Trim(s)
  {
    var t := Trim(s);
    TrimSound(s);
    assert IsTrimOf(t, t) by {
      TrimSound(s);
      var lo, hi :| TrimmedAt(s, t, lo, hi);
      assert t == t[0..|t|];
      assert TrimmedAt(t, t, 0, |t|);
    }
    TrimUnique(t, t);
  }

  // ---------------------------------------------------------------------
  // The pipeline

  /** The production the pipeline emits first: S derives the variable from
      the (trimmed) start state to the new accept state. */
  function StartRule(start: string): Grammar
  {
    NewGrammar("S", "A_" + Trim(start) + AcceptState)
  }

  /** The productions the pipeline emits for the automaton `p` as it is
      after `single_accept`: the start production, then the eps, ijk and
      pair passes, in that order. */
  function Synthesize(p: Automaton): seq<Grammar>
  {
    [StartRule(p.startState)] + EpsRules(p.states) + IjkRules(p.states) + PairRules(p.transitions)
  }

  /** The part of `run` after the automaton has been read. The validation
      result is reported but does not stop the conversion. */
  method Run(pda: PDA) returns (cfg: CFG, check: Result<Automaton, PDAError>)
    modifies pda
    ensures fresh(cfg)
    ensures check == EnsureAcceptNoStates(old(pda.Snapshot()))
    ensures SingleAccepted(old(pda.Snapshot()), pda.Snapshot())
    ensures cfg.rules == Synthesize(pda.Snapshot())
  {
    cfg := new CFG.Build();
    check := EnsureAcceptNoStates(pda.Snapshot());
    SingleAccept(pda);
    ghost var p := pda.Snapshot();
    cfg.rules := cfg.rules + [StartRule(pda.startState)];
    EpsRule(pda, cfg);
    ghost var r1 := cfg.rules;
    assert r1 == [StartRule(p.startState)] + EpsRules(p.states);
    IjkRule(pda, cfg);
    ghost var r2 := cfg.rules;
    assert r2 == r1 + IjkRules(p.states);
    PairRule(pda, cfg);
    assert cfg.rules == r2 + PairRules(p.transitions);
  }

  /** The grammar in terms of the automaton as it was read: the start
      production names the original start state, the eps and ijk passes see
      only the original states (the added accept state contributes
      nothing), and the pair pass sees the original transitions followed by
      the added accept transitions. The grammar has 1 + m + m*m*m + (pair
      count) productions, m being the number of states other than the
      accept state. */
  lemma SynthesizeAfterSingleAccept(before: Automaton, after: Automaton)
    requires SingleAccepted(before, after)
    ensures Synthesize(after) ==
              [StartRule(before.startState)] + EpsRules(before.states) + IjkRules(before.states)
              + PairRules(before.transitions + AcceptTransitions(after.states, before.acceptStates))
    ensures |Synthesize(after)| ==
              1 + |NonAccept(before.states)|
              + |NonAccept(before.states)| * (|NonAccept(before.states)| * |NonAccept(before.states)|)
              + |PairRules(after.transitions)|
  {
    EpsRulesAppendAccept(before.states);
    IjkRulesAppendAccept(before.states);
    EpsRulesAt(before.states);
    IjkRulesCount(before.states);
  }

  /** ijk productions for the same i and j but different k differ. */
  lemma IjkRuleForDistinct(i: string, j: string, k1: string, k2: string)
    requires k1 != k2
    ensures IjkRuleFor(i, j, k1).ruleName == IjkRuleFor(i, j, k2).ruleName
    ensures IjkRuleFor(i, j, k1) != IjkRuleFor(i, j, k2)
  {
    var d1 := IjkRuleFor(i, j, k1).ruleDesc;
    var d2 := IjkRuleFor(i, j, k2).ruleDesc;
    assert d1 == "A_" + i + k1 + "A_" + j + k1;
    assert d2 == "A_" + i + k2 + "A_" + j + k2;
    if |k1| == |k2| {
      assert d1[2 + |i|..2 + |i| + |k1|] == k1;
      assert d2[2 + |i|..2 + |i| + |k2|] == k2;
    } else {
      assert |d1| != |d2|;
    }
  }

  /** The rule list is a plain list: with two distinct states other than
      the accept state, the ijk pass emits two different productions with
      the same name, and both are kept. */
  lemma SharedNamesCoexist(p: Automaton, i: string, k1: string, k2: string)
    requires i in p.states && k1 in p.states && k2 in p.states
    requires i != AcceptState && k1 != AcceptState && k2 != AcceptState
    requires k1 != k2
    ensures IjkRuleFor(i, i, k1) in Synthesize(p) && IjkRuleFor(i, i, k2) in Synthesize(p)
    ensures IjkRuleFor(i, i, k1).ruleName == IjkRuleFor(i, i, k2).ruleName
    ensures IjkRuleFor(i, i, k1) != IjkRuleFor(i, i, k2)
  {
    IjkRulesMembership(p.states, IjkRuleFor(i, i, k1));
    IjkRulesMembership(p.states, IjkRuleFor(i, i, k2));
    IjkRuleForDistinct(i, i, k1, k2);
  }
}
