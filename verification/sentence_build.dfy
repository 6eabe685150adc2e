/** Constructing the sentence compiler: the same checks and grammar as the
    template compiler, over rules given as plain production strings, with
    the adjacency check made on the template as it is. */
module SentenceBuild {
  import opened Wrappers
  import opened PyStr
  import opened PyDict
  import opened Rules
  import opened Template
  import opened Definitions
  import opened GrammarBody
  import opened Sentence
  import opened SentenceFill
  import Compiler

  /** Each production with its name. */
  function NamedProductions(ps: seq<string>): seq<Entry> {
    seq(|ps|, i requires 0 <= i < |ps| => (RuleName(ps[i]), ps[i]))
  }

  /** The rule definitions of a rules map, in the map's insertion order; a
      name given two productions is a conflict. */
  function RuleDefinitions(rules: Dict<string>): (r: Result<Dict<string>, Compiler.ConfigError>)
    ensures r.Success? <==> Consistent(NamedProductions(Values(rules)))
    ensures r.Success? ==> r.value == FirstSeen(NamedProductions(Values(rules)))
    ensures r.Failure? ==> r.error.ConflictingDefinition? && Conflict(NamedProductions(Values(rules)), r.error.name)
  {
    var es := NamedProductions(Values(rules));
    match Gather(es)
    case Success(d) => Success(d)
    case Failure(n) => Failure(Compiler.ConflictingDefinition(n))
  }

  /** The production a name of the map stands for. */
  function Lookup(rules: Dict<string>, n: string): string
    requires n in Keys(rules)
  {
    Get(rules, n).value
  }

  /** The rule name each placeholder stands for. */
  function RuleNames(rules: Dict<string>, names: seq<string>): seq<string>
    requires forall n :: n in names ==> n in Keys(rules)
  {
    seq(|names|, i requires 0 <= i < |names| => RuleName(Lookup(rules, names[i])))
  }

  /** A constructed sentence compiler: the template, the rules map, the
      template's tokens, the grammar body and the grammar. */
  datatype SentenceCompiler = SentenceCompiler(template: string, rules: Dict<string>, tokens: seq<string>, body: string, grammar: string)

  /** What construction guarantees: the tokens are the template's, and every
      placeholder names a rule of the map. */
  predicate Valid(c: SentenceCompiler) {
    && IsDict(c.rules)
    && c.tokens == Tokenize(c.template)
    && forall n :: n in Odds(c.tokens) ==> n in Keys(c.rules)
  }

  /** `GBNFCompiler(template, rules)` of the sentence compiler: the checks in
      the order the constructor makes them, then the grammar. */
  function Build(template: string, rules: Dict<string>): (r: Result<SentenceCompiler, Compiler.ConfigError>)
    requires IsDict(rules)
    ensures r.Success? ==> Valid(r.value) && r.value.template == template && r.value.rules == rules
  {
    var names := Odds(Tokenize(template));
    if Contains(template, Close + Open) then Failure(Compiler.AdjacentPlaceholders)
    else if |rules| != Count(template, Open) then Failure(Compiler.PlaceholderCountMismatch(|rules|, Count(template, Open)))
    else if FirstUnknown(names, Keys(rules)).Some? then Failure(Compiler.UnknownPlaceholder(FirstUnknown(names, Keys(rules)).value))
    else if RuleDefinitions(rules).Failure? then Failure(RuleDefinitions(rules).error)
    else Success(Assemble(template, rules, RuleDefinitions(rules).value))
  }

  /** The compiler over checked inputs: each placeholder in the body is
      replaced by the name of its rule, and the grammar lists the rule
      definitions after the `Template` rule. As long as no literal holds a
      backslash and no rule name a space, the body reads back into the rule
      names of the placeholders and the template's non-empty literals, in
      order. */
  function Assemble(template: string, rules: Dict<string>, defs: Dict<string>): (c: SentenceCompiler)
    requires forall n :: n in Odds(Tokenize(template)) ==> n in Keys(rules)
    ensures c.template == template && c.rules == rules && c.tokens == Tokenize(template)
    ensures c.grammar == Grammar(c.body, Values(defs))
    ensures (forall l :: l in Evens(Tokenize(template)) ==> '\\' !in l) && (forall n :: n in Odds(Tokenize(template)) ==> ' ' !in RuleName(Lookup(rules, n))) ==>
              && Decode(c.body).Some?
              && References(Decode(c.body).value) == RuleNames(rules, Odds(Tokenize(template)))
              && Literals(Decode(c.body).value) == NonEmpty(Evens(Tokenize(template)))
  {
    var tokens := Tokenize(template);
    var ns := RuleNames(rules, Odds(tokens));
    RuleNamesSpaceFree(rules, Odds(tokens));
    var body := Body(tokens, ns);
    SentenceCompiler(template, rules, tokens, body, Grammar(body, Values(defs)))
  }

  /** `parse(response)`, over the constructed compiler's tokens, with the
      leading placeholder read: it reads the response as the declarative
      description says, and for a template that opens with a literal it is
      the parse as written. */
  function ParseResponse(c: SentenceCompiler, response: string): (r: Outcome)
    requires Valid(c)
    ensures Chosen(NonEmpty(Evens(c.tokens)), NonEmpty(Odds(c.tokens)), response, c.tokens[0] == "", r)
    ensures c.tokens[0] != "" ==> r == ParseAsWritten(c.tokens, response)
  {
    if c.tokens[0] != "" then
      AsWrittenAgrees(c.tokens, response);
      Parse(c.tokens, response)
    else Parse(c.tokens, response)
  }

  // ----- Construction -----

  /** Construction succeeds exactly when `}}{{` does not occur, there is one
      rule per `{{`, every placeholder names a rule, and no two rules give
      one name different productions. */
  lemma BuildSucceeds(template: string, rules: Dict<string>)
    requires IsDict(rules)
    ensures Build(template, rules).Success? <==>
            && !Contains(template, Close + Open)
            && |rules| == Count(template, Open)
            && (forall n :: n in Odds(Tokenize(template)) ==> n in Keys(rules))
            && Consistent(NamedProductions(Values(rules)))
  {
    var names := Odds(Tokenize(template));
    if !Contains(template, Close + Open) && |rules| == Count(template, Open) {
      assert FirstUnknown(names, Keys(rules)).None? <==> forall n :: n in names ==> n in Keys(rules);
    }
  }

  /** Each failure names its cause: `}}{{` in the template, the counts that
      differ, the first placeholder that names no rule, or a name two rules
      of the map give different productions. */
  lemma BuildFailure(template: string, rules: Dict<string>)
    requires IsDict(rules)
    requires Build(template, rules).Failure?
    ensures var e := Build(template, rules).error;
            && (e.AdjacentPlaceholders? ==> Contains(template, Close + Open))
            && (e.PlaceholderCountMismatch? ==> e.ruleCount == |rules| && e.placeholderCount == Count(template, Open) && e.ruleCount != e.placeholderCount)
            && (e.UnknownPlaceholder? ==> exists i :: && 0 <= i < |Odds(Tokenize(template))|
                                                      && Odds(Tokenize(template))[i] == e.name && e.name !in Keys(rules)
                                                      && forall j :: 0 <= j < i ==> Odds(Tokenize(template))[j] in Keys(rules))
            && (e.ConflictingDefinition? ==> exists p, q :: && p in Values(rules) && q in Values(rules)
                                                           && RuleName(p) == e.name && RuleName(q) == e.name && p != q)
  {
    var names := Odds(Tokenize(template));
    if Contains(template, Close + Open) {
    } else if |rules| != Count(template, Open) {
    } else if FirstUnknown(names, Keys(rules)).Some? {
    } else {
      ConflictingProductions(rules, RuleDefinitions(rules).error.name);
    }
  }

  /** A conflict on a name comes from two productions of the map with that
      name that differ. */
  lemma ConflictingProductions(rules: Dict<string>, n: string)
    requires Conflict(NamedProductions(Values(rules)), n)
    ensures exists p, q :: && p in Values(rules) && q in Values(rules)
                           && RuleName(p) == n && RuleName(q) == n && p != q
  {
    var es := NamedProductions(Values(rules));
    var i, j :| 0 <= i < |es| && 0 <= j < |es| && es[i].0 == n && es[j].0 == n && es[i].1 != es[j].1;
    assert Values(rules)[i] in Values(rules) && Values(rules)[j] in Values(rules);
  }

  /** The sentence compiler refuses fewer templates for adjacency than the
      template compiler: `}}{{` in the template is still there once its
      spaces are deleted. */
  lemma AdjacencyWeaker(template: string)
    ensures Contains(template, Close + Open) ==> Contains(Unspaced(template), Close + Open)
  {
    if Contains(template, Close + Open) {
      var i :| 0 <= i <= |template| && OccursAt(template, Close + Open, i);
      assert Unspaced(template[i..i + 4]) == Close + Open;
      UnspacedContains(template, Close + Open);
    }
  }

  /** Two placeholders a space apart are refused by the template compiler
      only. */
  lemma AdjacencySpaced(rules: Dict<string>, rs: Dict<Rules.Rule>)
    requires IsDict(rules) && IsDict(rs)
    ensures Build(Close + " " + Open, rules) != Failure(Compiler.AdjacentPlaceholders)
    ensures Compiler.Build(Close + " " + Open, rs) == Failure(Compiler.AdjacentPlaceholders)
  {
    var t := Close + " " + Open;
    assert Unspaced(t) == Close + Open by {
      ReplaceCharAppend(Close + " ", Open, ' ', "");
      ReplaceCharAppend(Close, " ", ' ', "");
    }
    assert OccursAt(Unspaced(t), Close + Open, 0);
    assert !Contains(t, Close + Open) by {
      forall i | 0 <= i <= |t|
        ensures !OccursAt(t, Close + Open, i)
      {
        if i + 4 <= |t| {
          assert t[i..i + 4][2 - i] == ' ';
        }
      }
    }
  }

  /** A built compiler is the one assembled from the checked inputs and
      the gathered rule definitions. */
  lemma BuildAssembles(template: string, rules: Dict<string>)
    requires IsDict(rules) && Build(template, rules).Success?
    ensures forall n :: n in Odds(Tokenize(template)) ==> n in Keys(rules)
    ensures RuleDefinitions(rules).Success?
    ensures Build(template, rules).value == Assemble(template, rules, RuleDefinitions(rules).value)
  {
    assert FirstUnknown(Odds(Tokenize(template)), Keys(rules)).None?;
  }

  /** Every production of the map is the definition of its name. */
  lemma DefinesEachProduction(rules: Dict<string>, n: string)
    requires RuleDefinitions(rules).Success? && n in Keys(rules)
    ensures Get(RuleDefinitions(rules).value, RuleName(Lookup(rules, n))) == Some(Lookup(rules, n))
  {
    var es := NamedProductions(Values(rules));
    var p := Lookup(rules, n);
    var k :| 0 <= k < |rules| && rules[k] == (n, p);
    assert es[k] == (RuleName(p), p);
    FirstSeenNames(es);
    FirstSeenEntries(es);
    var q := Get(FirstSeen(es), RuleName(p)).value;
    assert (RuleName(p), q) in es;
  }

  /** The rule names of the placeholders hold no space when no rule's name does. */
  lemma RuleNamesSpaceFree(rules: Dict<string>, names: seq<string>)
    requires forall n :: n in names ==> n in Keys(rules)
    ensures (forall n :: n in names ==> ' ' !in RuleName(Lookup(rules, n))) ==> forall r :: r in RuleNames(rules, names) ==> ' ' !in r
  {
    var rs := RuleNames(rules, names);
    if forall n :: n in names ==> ' ' !in RuleName(Lookup(rules, n)) {
      forall r | r in rs
        ensures ' ' !in r
      {
        var i :| 0 <= i < |rs| && rs[i] == r;
        assert names[i] in names;
      }
    }
  }

  // ----- Parsing a response -----

  /** A compiler built over a template of literals and placeholders reads a
      response made by filling the template in: it finds a reading keyed by
      the placeholder names whose values are at least as long in total as
      the ones filled in. */
  lemma ParseFilledTemplate(c: SentenceCompiler, lits: seq<string>, names: seq<string>, values: seq<string>)
    requires Valid(c) && PartsOk(lits, names) && c.template == Render(lits, names)
    requires Fillable(lits, names, values)
    ensures ParseResponse(c, Filled(lits, values)).Best?
    ensures Keys(ParseResponse(c, Filled(lits, values)).values) == names
    ensures TotalLength(values) <= ValuesLength(ParseResponse(c, Filled(lits, values)).values)
  {
    TokenizeRender(lits, names);
    ParseFindsFilled(lits, names, values);
  }

  /** For a template that opens with a literal, the parse as written reads a
      filled-in response as the corrected parse does: it finds a reading
      keyed by the placeholder names whose values are at least as long in
      total as the ones filled in. */
  lemma ParseFilledTemplateAsWritten(c: SentenceCompiler, lits: seq<string>, names: seq<string>, values: seq<string>)
    requires Valid(c) && PartsOk(lits, names) && c.template == Render(lits, names)
    requires Fillable(lits, names, values) && lits[0] != ""
    ensures ParseAsWritten(c.tokens, Filled(lits, values)).Best?
    ensures Keys(ParseAsWritten(c.tokens, Filled(lits, values)).values) == names
    ensures TotalLength(values) <= ValuesLength(ParseAsWritten(c.tokens, Filled(lits, values)).values)
  {
    assert c.tokens[0] == lits[0] by {
      TokenizeRender(lits, names);
      SentenceFill.TokensOf(lits, names, values);
    }
    assert ParseResponse(c, Filled(lits, values)) == ParseAsWritten(c.tokens, Filled(lits, values));
    ParseFilledTemplate(c, lits, names, values);
  }
}
