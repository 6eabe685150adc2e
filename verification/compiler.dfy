/** The template compiler: validation of a template against its rules, the
    GBNF grammar text, and the exact-mode parse of a response. */
module Compiler {
  import opened Wrappers
  import opened PyStr
  import opened PyDict
  import opened Rules
  import opened Template
  import opened Decompose
  import opened Definitions
  import opened GrammarBody

  /** Why constructing a compiler fails. The source raises an
      `AssertionError` for the first two and the last, a `KeyError` for an
      unknown placeholder. */
  datatype ConfigError =
    | AdjacentPlaceholders
    | PlaceholderCountMismatch(ruleCount: nat, placeholderCount: nat)
    | UnknownPlaceholder(name: string)
    | ConflictingDefinition(name: string)

  // ----- Dependent rules -----

  /** A measure that decreases from a rule to its dependents: the built-in
      list rules depend on one leaf rule each. */
  function Size(r: Rule): (n: nat)
    ensures n >= 1
    decreases r
  {
    match r
    case StringList => 2
    case NumberList => 2
    case ItemList => 2
    case Custom(_, ds) => 1 + SizeAll(ds)
    case _ => 1
  }

  function SizeAll(ds: seq<Rule>): nat
    decreases ds
  {
    if |ds| == 0 then 0 else Size(ds[0]) + SizeAll(ds[1..])
  }

  lemma DependentsSmaller(r: Rule)
    ensures SizeAll(Dependents(r)) < Size(r)
  {
    var ds := Dependents(r);
    if |ds| == 1 && !r.Custom? {
      assert ds[1..] == [];
    }
  }

  lemma SizeAllHead(ds: seq<Rule>)
    requires |ds| > 0
    ensures Size(ds[0]) <= SizeAll(ds) && SizeAll(ds[1..]) < SizeAll(ds)
  {
  }

  /** `flatten_recursive`: the rule, then the flattening of each dependent in
      order, duplicates kept. */
  function Flatten(r: Rule): (fs: seq<Rule>)
    ensures |fs| >= 1 && fs[0] == r
    decreases Size(r), 0
  {
    DependentsSmaller(r);
    [r] + FlattenAll(Dependents(r))
  }

  /** The flattenings of the rules, concatenated. */
  function FlattenAll(ds: seq<Rule>): seq<Rule>
    decreases SizeAll(ds), 1
  {
    if |ds| == 0 then []
    else
      SizeAllHead(ds);
      Flatten(ds[0]) + FlattenAll(ds[1..])
  }

  /** Flattening distributes over concatenation of rule lists. */
  lemma {:induction false} FlattenAllAppend(a: seq<Rule>, b: seq<Rule>)
    ensures FlattenAll(a + b) == FlattenAll(a) + FlattenAll(b)
    decreases |a|
  {
    if |a| == 0 {
      assert a + b == b;
    } else {
      assert (a + b)[1..] == a[1..] + b;
      FlattenAllAppend(a[1..], b);
    }
  }

  /** A rule is in the flattening of a list exactly when it is in the
      flattening of one of its members. */
  lemma {:induction false} InFlattenAll(ds: seq<Rule>, x: Rule)
    ensures x in FlattenAll(ds) <==> exists k :: 0 <= k < |ds| && x in Flatten(ds[k])
    decreases |ds|
  {
    if |ds| > 0 {
      InFlattenAll(ds[1..], x);
      if x in FlattenAll(ds[1..]) {
        var k :| 0 <= k < |ds[1..]| && x in Flatten(ds[1..][k]);
        assert x in Flatten(ds[k + 1]);
      }
      if exists k :: 0 <= k < |ds| && x in Flatten(ds[k]) {
        var k :| 0 <= k < |ds| && x in Flatten(ds[k]);
        if k > 0 {
          assert x in Flatten(ds[1..][k - 1]);
        }
      }
    }
  }

  /** The flattening is closed under taking dependents: every rule a
      flattened rule depends on is flattened too. */
  lemma {:induction false} FlattenClosed(r: Rule, x: Rule, d: Rule)
    requires x in Flatten(r) && d in Dependents(x)
    ensures d in Flatten(r)
    decreases Size(r)
  {
    var ds := Dependents(r);
    DependentsSmaller(r);
    if x == r {
      var k :| 0 <= k < |ds| && ds[k] == d;
      assert d in Flatten(ds[k]);
      InFlattenAll(ds, d);
    } else {
      assert x in FlattenAll(ds);
      InFlattenAll(ds, x);
      var k :| 0 <= k < |ds| && x in Flatten(ds[k]);
      SizeAllAt(ds, k);
      FlattenClosed(ds[k], x, d);
      InFlattenAll(ds, d);
    }
  }

  lemma {:induction false} SizeAllAt(ds: seq<Rule>, k: nat)
    requires k < |ds|
    ensures Size(ds[k]) <= SizeAll(ds)
    decreases k
  {
    if k > 0 {
      SizeAllAt(ds[1..], k - 1);
    }
  }

  /** A built-in rule flattens to itself followed by its dependents. */
  lemma FlattenBuiltin(r: Rule)
    requires IsBuiltin(r)
    ensures Flatten(r) == [r] + Dependents(r)
  {
    var ds := Dependents(r);
    if |ds| == 1 {
      assert Dependents(ds[0]) == [];
      assert FlattenAll(ds[1..]) == [];
    }
  }

  // ----- Rule definitions -----

  /** The name and production of each rule. */
  function Entries(flat: seq<Rule>): (es: seq<Entry>)
    ensures |es| == |flat|
    ensures forall i :: 0 <= i < |flat| ==> es[i] == (Name(flat[i]), Production(flat[i]))
  {
    seq(|flat|, i requires 0 <= i < |flat| => (Name(flat[i]), Production(flat[i])))
  }

  /** The rule definitions of a rules map, gathered over the flattening of
      every rule in the map's insertion order; a name defined twice with two
      productions is a conflict. */
  function RuleDefinitions(rules: Dict<Rule>): (r: Result<Dict<string>, ConfigError>)
    ensures r.Success? <==> Consistent(Entries(FlattenAll(Values(rules))))
    ensures r.Success? ==> r.value == FirstSeen(Entries(FlattenAll(Values(rules))))
    ensures r.Failure? ==> r.error.ConflictingDefinition? && Conflict(Entries(FlattenAll(Values(rules))), r.error.name)
  {
    var es := Entries(FlattenAll(Values(rules)));
    match Gather(es)
    case Success(d) => Success(d)
    case Failure(n) => Failure(ConflictingDefinition(n))
  }

  /** Every rule reachable from the rules map has its own production as the
      definition of its name. */
  lemma DefinitionOfEachRule(rules: Dict<Rule>, x: Rule)
    requires RuleDefinitions(rules).Success?
    requires x in FlattenAll(Values(rules))
    ensures Get(RuleDefinitions(rules).value, Name(x)) == Some(Production(x))
  {
    var flat := FlattenAll(Values(rules));
    var es := Entries(flat);
    var i :| 0 <= i < |flat| && flat[i] == x;
    assert es[i] == (Name(x), Production(x));
    FirstSeenNames(es);
    FirstSeenEntries(es);
    var p := Get(FirstSeen(es), Name(x)).value;
    assert (Name(x), p) in es;
  }

  /** Every definition is the production of a reachable rule, under its name. */
  lemma DefinitionsFromRules(rules: Dict<Rule>)
    requires RuleDefinitions(rules).Success?
    ensures forall d :: d in RuleDefinitions(rules).value ==>
              exists x :: x in FlattenAll(Values(rules)) && d == (Name(x), Production(x))
  {
    var flat := FlattenAll(Values(rules));
    var es := Entries(flat);
    FirstSeenEntries(es);
    forall d | d in FirstSeen(es)
      ensures exists x :: x in flat && d == (Name(x), Production(x))
    {
      var i :| 0 <= i < |es| && es[i] == d;
      assert flat[i] in flat;
    }
  }

  /** The rules reachable from the map are closed under dependency, so every
      rule a defined rule refers to is defined too. */
  lemma DependentsReachable(rules: Dict<Rule>, x: Rule, d: Rule)
    requires x in FlattenAll(Values(rules)) && d in Dependents(x)
    ensures d in FlattenAll(Values(rules))
  {
    var vs := Values(rules);
    InFlattenAll(vs, x);
    var k :| 0 <= k < |vs| && x in Flatten(vs[k]);
    FlattenClosed(vs[k], x, d);
    InFlattenAll(vs, d);
  }

  /** Every rule of the map is reachable. */
  lemma RuleReachable(rules: Dict<Rule>, k: nat)
    requires k < |rules|
    ensures rules[k].1 in FlattenAll(Values(rules))
  {
    var vs := Values(rules);
    assert Flatten(vs[k])[0] == rules[k].1;
    InFlattenAll(vs, rules[k].1);
  }

  /** A conflict is two reachable rules of the same name with different
      productions. */
  lemma ConflictingRules(rules: Dict<Rule>, n: string)
    requires Conflict(Entries(FlattenAll(Values(rules))), n)
    ensures exists x, y :: && x in FlattenAll(Values(rules)) && y in FlattenAll(Values(rules))
                           && Name(x) == n && Name(y) == n && Production(x) != Production(y)
  {
    var flat := FlattenAll(Values(rules));
    var es := Entries(flat);
    var i, j :| 0 <= i < |es| && 0 <= j < |es| && es[i].0 == n && es[j].0 == n && es[i].1 != es[j].1;
    assert flat[i] in flat && flat[j] in flat;
  }

  /** A rule's flattening has as many rules as its size measure counts. */
  lemma {:induction false} FlattenLength(r: Rule)
    ensures |Flatten(r)| == Size(r)
    decreases Size(r), 0
  {
    DependentsSmaller(r);
    FlattenAllLength(Dependents(r));
    if !r.Custom? && |Dependents(r)| == 1 {
      assert Dependents(r)[1..] == [];
    }
  }

  lemma {:induction false} FlattenAllLength(ds: seq<Rule>)
    ensures |FlattenAll(ds)| == SizeAll(ds)
    decreases SizeAll(ds), 1
  {
    if |ds| > 0 {
      SizeAllHead(ds);
      FlattenLength(ds[0]);
      FlattenAllLength(ds[1..]);
    }
  }

  // ----- Construction -----

  /** `rules[n]` for a name the map holds. */
  function Lookup(rules: Dict<Rule>, n: string): Rule
    requires n in Keys(rules)
  {
    Get(rules, n).value
  }

  /** The names of the rules the placeholders stand for, in template order. */
  function RuleNames(rules: Dict<Rule>, names: seq<string>): seq<string>
    requires forall n :: n in names ==> n in Keys(rules)
  {
    seq(|names|, i requires 0 <= i < |names| => Name(Lookup(rules, names[i])))
  }

  /** A constructed compiler: the template, the rules map, the template's
      tokens, the grammar body and the grammar. */
  datatype Compiler = Compiler(template: string, rules: Dict<Rule>, tokens: seq<string>, body: string, grammar: string)

  /** What construction guarantees: the tokens are the template's, and every
      placeholder names a rule of the map. */
  predicate Valid(c: Compiler) {
    && IsDict(c.rules)
    && c.tokens == Tokenize(c.template)
    && forall n :: n in Odds(c.tokens) ==> n in Keys(c.rules)
  }

  /** `GBNFCompiler(template, rules)`: the checks in the order the constructor
      makes them, then the grammar. */
  function Build(template: string, rules: Dict<Rule>): (r: Result<Compiler, ConfigError>)
    requires IsDict(rules)
    ensures r.Success? ==> Valid(r.value) && r.value.template == template && r.value.rules == rules
  {
    var names := Odds(Tokenize(template));
    if Contains(Unspaced(template), Close + Open) then Failure(AdjacentPlaceholders)
    else if |rules| != Count(template, Open) then Failure(PlaceholderCountMismatch(|rules|, Count(template, Open)))
    else if FirstUnknown(names, Keys(rules)).Some? then Failure(UnknownPlaceholder(FirstUnknown(names, Keys(rules)).value))
    else if RuleDefinitions(rules).Failure? then Failure(RuleDefinitions(rules).error)
    else Success(Assemble(template, rules, RuleDefinitions(rules).value))
  }

  /** The compiler over checked inputs: each placeholder in the body is
      replaced by the name of its rule, and the grammar lists the rule
      definitions after the `Template` rule. As long as no literal holds a
      backslash and no rule name a space, the body reads back into the rule
      names of the placeholders and the template's non-empty literals, in
      order. */
  function Assemble(template: string, rules: Dict<Rule>, defs: Dict<string>): (c: Compiler)
    requires forall n :: n in Odds(Tokenize(template)) ==> n in Keys(rules)
    ensures c.template == template && c.rules == rules && c.tokens == Tokenize(template)
    ensures c.grammar == Grammar(c.body, Values(defs))
    ensures (forall l :: l in Evens(Tokenize(template)) ==> '\\' !in l) && (forall n :: n in Odds(Tokenize(template)) ==> ' ' !in Name(Lookup(rules, n))) ==>
              && Decode(c.body).Some?
              && References(Decode(c.body).value) == RuleNames(rules, Odds(Tokenize(template)))
              && Literals(Decode(c.body).value) == NonEmpty(Evens(Tokenize(template)))
  {
    var tokens := Tokenize(template);
    var ns := RuleNames(rules, Odds(tokens));
    RuleNamesSpaceFree(rules, Odds(tokens));
    var body := Body(tokens, ns);
    Compiler(template, rules, tokens, body, Grammar(body, Values(defs)))
  }

  /** Construction refuses a template in which two placeholders meet with
      nothing but spaces between them, exactly when some stretch of the
      template reads `}}{{` once its spaces are deleted. */
  lemma BuildAdjacent(template: string, rules: Dict<Rule>)
    requires IsDict(rules)
    ensures Build(template, rules) == Failure(AdjacentPlaceholders) <==>
            exists i, j :: 0 <= i <= j <= |template| && Unspaced(template[i..j]) == Close + Open
  {
    UnspacedContains(template, Close + Open);
  }

  /** Construction succeeds exactly when no two placeholders meet, there is
      one rule per `{{`, every placeholder names a rule, and no two reachable
      rules define one name differently. */
  lemma BuildSucceeds(template: string, rules: Dict<Rule>)
    requires IsDict(rules)
    ensures Build(template, rules).Success? <==>
            && !Contains(Unspaced(template), Close + Open)
            && |rules| == Count(template, Open)
            && (forall n :: n in Odds(Tokenize(template)) ==> n in Keys(rules))
            && Consistent(Entries(FlattenAll(Values(rules))))
  {
    var names := Odds(Tokenize(template));
    if Contains(Unspaced(template), Close + Open) || |rules| != Count(template, Open) {
      assert Build(template, rules).Failure?;
    } else if FirstUnknown(names, Keys(rules)).Some? {
      assert Build(template, rules).Failure?;
      assert !forall n :: n in names ==> n in Keys(rules);
    } else {
      assert forall n :: n in names ==> n in Keys(rules);
      assert Build(template, rules).Success? <==> RuleDefinitions(rules).Success?;
    }
  }

  /** Each failure names its cause: the counts that differ, the first
      placeholder that names no rule, or a name two reachable rules define
      differently. */
  lemma BuildFailure(template: string, rules: Dict<Rule>)
    requires IsDict(rules)
    requires Build(template, rules).Failure?
    ensures var e := Build(template, rules).error;
            && (e.PlaceholderCountMismatch? ==> e.ruleCount == |rules| && e.placeholderCount == Count(template, Open) && e.ruleCount != e.placeholderCount)
            && (e.UnknownPlaceholder? ==> exists i :: && 0 <= i < |Odds(Tokenize(template))|
                                                      && Odds(Tokenize(template))[i] == e.name && e.name !in Keys(rules)
                                                      && forall j :: 0 <= j < i ==> Odds(Tokenize(template))[j] in Keys(rules))
            && (e.ConflictingDefinition? ==> exists x, y :: && x in FlattenAll(Values(rules)) && y in FlattenAll(Values(rules))
                                                           && Name(x) == e.name && Name(y) == e.name && Production(x) != Production(y))
  {
    var names := Odds(Tokenize(template));
    if Contains(Unspaced(template), Close + Open) {
    } else if |rules| != Count(template, Open) {
    } else if FirstUnknown(names, Keys(rules)).Some? {
    } else {
      ConflictingRules(rules, RuleDefinitions(rules).error.name);
    }
  }

  /** Over a well-formed template a built compiler has exactly one rule per
      placeholder, and when no name repeats, the rules map's keys are exactly
      the placeholder names. */
  lemma BuildBindsEveryRule(template: string, rules: Dict<Rule>)
    requires IsDict(rules) && Build(template, rules).Success?
    requires WellFormed(template)
    ensures |rules| == |Odds(Tokenize(template))|
    ensures Distinct(Odds(Tokenize(template))) ==> forall k :: k in Keys(rules) <==> k in Odds(Tokenize(template))
  {
    var names := Odds(Tokenize(template));
    assert |rules| == |names| && forall n :: n in names ==> n in Keys(rules) by {
      BuildSucceeds(template, rules);
      PlaceholderCount(template);
    }
    if Distinct(names) {
      SameMembers(names, Keys(rules));
    }
  }

  /** Two repeat-free sequences of one length, one within the other, have
      the same members. */
  lemma SameMembers(xs: seq<string>, ys: seq<string>)
    requires Distinct(xs) && Distinct(ys) && |xs| == |ys|
    requires forall x :: x in xs ==> x in ys
    ensures forall y :: y in ys <==> y in xs
  {
    DistinctCard(xs);
    DistinctCard(ys);
    var sx := set x | x in xs;
    var sy := set y | y in ys;
    SubsetSameSize(sx, sy);
    assert forall y :: y in ys ==> y in sy;
  }

  /** A sequence without repeats has as many distinct members as elements. */
  lemma {:induction false} DistinctCard(xs: seq<string>)
    requires Distinct(xs)
    ensures |set x | x in xs| == |xs|
  {
    if |xs| > 0 {
      DistinctCard(xs[1..]);
      assert (set x | x in xs) == {xs[0]} + (set x | x in xs[1..]);
      assert xs[0] !in (set x | x in xs[1..]);
    }
  }

  lemma SubsetSameSize(a: set<string>, b: set<string>)
    requires a <= b && |a| == |b|
    ensures a == b
  {
    if a != b {
      var x :| x in b && x !in a;
      assert a <= b - {x};
      SubsetSize(a, b - {x});
    }
  }

  lemma {:induction false} SubsetSize(a: set<string>, b: set<string>)
    requires a <= b
    ensures |a| <= |b|
    decreases |b|
  {
    if a != {} {
      var x :| x in a;
      SubsetSize(a - {x}, b - {x});
    }
  }

  /** A built compiler is assembled from the rule definitions of its map. */
  lemma BuildAssembles(template: string, rules: Dict<Rule>)
    requires IsDict(rules) && Build(template, rules).Success?
    ensures forall n :: n in Odds(Tokenize(template)) ==> n in Keys(rules)
    ensures RuleDefinitions(rules).Success?
    ensures Build(template, rules).value == Assemble(template, rules, RuleDefinitions(rules).value)
  {
    assert FirstUnknown(Odds(Tokenize(template)), Keys(rules)).None?;
  }

  /** The rule a name of the map stands for is defined by the map's rule
      definitions, by its own production under its own name: the name the
      grammar body refers to. */
  lemma DefinesEachMappedRule(rules: Dict<Rule>, n: string)
    requires RuleDefinitions(rules).Success? && n in Keys(rules)
    ensures Get(RuleDefinitions(rules).value, Name(Lookup(rules, n))) == Some(Production(Lookup(rules, n)))
  {
    var x := Lookup(rules, n);
    var k :| 0 <= k < |rules| && rules[k] == (n, x);
    RuleReachable(rules, k);
    DefinitionOfEachRule(rules, x);
  }

  /** The rule names of the placeholders hold no space when no rule's name does. */
  lemma RuleNamesSpaceFree(rules: Dict<Rule>, names: seq<string>)
    requires forall n :: n in names ==> n in Keys(rules)
    ensures (forall n :: n in names ==> ' ' !in Name(Lookup(rules, n))) ==> forall r :: r in RuleNames(rules, names) ==> ' ' !in r
  {
    var rs := RuleNames(rules, names);
    if forall n :: n in names ==> ' ' !in Name(Lookup(rules, n)) {
      forall r | r in rs
        ensures ' ' !in r
      {
        var i :| 0 <= i < |rs| && rs[i] == r;
        assert names[i] in names;
      }
    }
  }

  // ----- Parsing a response -----

  /** A character Python's `re` accepts in a group name: an ASCII letter,
      digit or underscore, or any character beyond ASCII. */
  predicate NameChar(c: char) {
    ('a' <= c <= 'z') || ('A' <= c <= 'Z') || ('0' <= c <= '9') || c == '_' || c > '\U{7F}'
  }

  /** A group name: name characters only, not starting with a digit. */
  predicate IsIdentifier(n: string) {
    && |n| > 0
    && !('0' <= n[0] <= '9')
    && forall i :: 0 <= i < |n| ==> NameChar(n[i])
  }

  /** The template compiles to a regular expression: each `{{` is closed
      before the next, every placeholder is a valid group name, and no name
      is used twice. */
  predicate PatternOk(t: string) {
    && WellFormed(t)
    && (forall n :: n in Odds(Tokenize(t)) ==> IsIdentifier(n))
    && Distinct(Odds(Tokenize(t)))
  }

  /** `caps` fill the placeholders between the literals `lits` to give `response`. */
  predicate Decomposes(lits: seq<string>, response: string, caps: seq<string>) {
    && |lits| == |caps| + 1
    && response == lits[0] + Weave(caps, lits[1..])
  }

  /** The outcome of `parse`: the pattern does not compile, the response does
      not match (`None`), or each placeholder name with its compiled value. */
  datatype Parsed = PatternError | NoMatch | Match(values: Dict<Value>)

  /** Each name with its rule's coercion of its capture. */
  function Coerce(rules: Dict<Rule>, names: seq<string>, caps: seq<string>): (d: Dict<Value>)
    requires |caps| == |names| && forall n :: n in names ==> n in Keys(rules)
    ensures Keys(d) == names
    ensures forall i :: 0 <= i < |names| ==> d[i].1 == Compile(Lookup(rules, names[i]), caps[i])
  {
    seq(|names|, i requires 0 <= i < |names| => (names[i], Compile(Lookup(rules, names[i]), caps[i])))
  }

  /** `parse(response)`: the template becomes a pattern in which every
      placeholder is a lazy group matching any text, the response must match
      it in full, and each group's text goes through its rule's `compile`. */
  function Parse(c: Compiler, response: string): (r: Parsed)
    requires Valid(c)
    ensures r.PatternError? <==> !PatternOk(c.template)
    ensures r.Match? ==> IsDict(r.values) && Keys(r.values) == Odds(c.tokens)
  {
    if !PatternOk(c.template) then PatternError
    else
      var lits := Evens(c.tokens);
      var names := Odds(c.tokens);
      RenderTokenize(c.template);
      match FullMatch(lits, response)
      case None => NoMatch
      case Some(caps) => Match(Coerce(c.rules, names, caps))
  }

  /** A match is the coercion of captures that rebuild the response from the
      template's literals. */
  lemma ParseMatch(c: Compiler, response: string)
    requires Valid(c) && Parse(c, response).Match?
    ensures exists caps :: && |caps| == |Odds(c.tokens)| && Decomposes(Evens(c.tokens), response, caps)
                           && Parse(c, response).values == Coerce(c.rules, Odds(c.tokens), caps)
  {
    RenderTokenize(c.template);
    var caps := FullMatch(Evens(c.tokens), response).value;
    assert Decomposes(Evens(c.tokens), response, caps);
  }

  /** Whenever the response can be split along the template at all, it
      matches, and the captures used are the ones a lazy matcher settles on:
      capture lengths lexicographically least among all splits. */
  lemma ParseLeast(c: Compiler, response: string, caps: seq<string>)
    requires Valid(c) && PatternOk(c.template)
    requires Decomposes(Evens(c.tokens), response, caps)
    ensures Parse(c, response).Match?
    ensures exists best :: && |best| == |Odds(c.tokens)| && Decomposes(Evens(c.tokens), response, best)
                           && ShorterFirst(best, caps)
                           && Parse(c, response).values == Coerce(c.rules, Odds(c.tokens), best)
  {
    RenderTokenize(c.template);
    FullMatchComplete(Evens(c.tokens), response, caps);
    var best := FullMatch(Evens(c.tokens), response).value;
    assert Decomposes(Evens(c.tokens), response, best);
  }

  /** Over a pattern that compiles, the response fails to match exactly when
      no split along the template exists. */
  lemma ParseNoMatch(c: Compiler, response: string)
    requires Valid(c) && PatternOk(c.template)
    ensures Parse(c, response).NoMatch? <==> forall caps :: !Decomposes(Evens(c.tokens), response, caps)
  {
    if Parse(c, response).Match? {
      ParseMatch(c, response);
    }
    forall caps | Decomposes(Evens(c.tokens), response, caps)
      ensures Parse(c, response).Match?
    {
      ParseLeast(c, response, caps);
    }
  }

  /** Filling the template's placeholders with texts and parsing the result
      gives back each name with its rule's coercion of its text, as long as
      no text but the last contains the literal that follows it (earlier
      than at its own end). */
  lemma ParseRecovers(c: Compiler, caps: seq<string>)
    requires Valid(c) && PatternOk(c.template)
    requires |caps| == |Odds(c.tokens)|
    requires forall i :: 0 <= i < |caps| - 1 && i + 1 < |Evens(c.tokens)| ==>
               Find(caps[i] + Evens(c.tokens)[i + 1], Evens(c.tokens)[i + 1], 0) == |caps[i]|
    ensures |Evens(c.tokens)| == |caps| + 1
    ensures Parse(c, Evens(c.tokens)[0] + Weave(caps, Evens(c.tokens)[1..])) == Match(Coerce(c.rules, Odds(c.tokens), caps))
  {
    var lits := Evens(c.tokens);
    RenderTokenize(c.template);
    var response := lits[0] + Weave(caps, lits[1..]);
    assert FullMatch(lits, response) == Some(caps) by {
      assert response[..|lits[0]|] == lits[0];
      assert response[|lits[0]|..] == Weave(caps, lits[1..]);
      ShortestRecovers(caps, lits[1..]);
    }
  }
}
