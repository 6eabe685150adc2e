/** The right-hand side of the grammar's `Template` production: each
    non-empty literal of the template as a quoted GBNF string with its double
    quotes escaped, each placeholder as its rule's name padded by spaces. A
    decoder reads such a text back into its elements. */
module GrammarBody {
  import opened Wrappers
  import opened PyStr
  import opened Template

  datatype Element = Literal(text: string) | Reference(ruleName: string)

  /** The tokens with the placeholder names replaced by `ruleNames`, one per
      placeholder in order; the literals stay. */
  function Resolve(tokens: seq<string>, ruleNames: seq<string>): (r: seq<string>)
    requires |ruleNames| == |Odds(tokens)|
    ensures |r| == |tokens|
    ensures Evens(r) == Evens(tokens) && Odds(r) == ruleNames
    decreases |tokens|
  {
    if |tokens| < 2 then
      assert Odds(tokens) == [];
      tokens
    else
      EvensOddsCons(tokens[0], tokens[1], tokens[2..]);
      assert tokens == [tokens[0], tokens[1]] + tokens[2..];
      var rest := Resolve(tokens[2..], ruleNames[1..]);
      EvensOddsCons(tokens[0], ruleNames[0], rest);
      assert ruleNames == [ruleNames[0]] + ruleNames[1..];
      [tokens[0], ruleNames[0]] + rest
  }

  /** The elements of a token list whose odd positions already hold rule
      names: an empty literal contributes nothing. */
  function Elements(tokens: seq<string>): seq<Element>
    decreases |tokens|
  {
    if |tokens| == 0 then []
    else
      var lit := if tokens[0] == "" then [] else [Literal(tokens[0])];
      if |tokens| == 1 then lit
      else lit + [Reference(tokens[1])] + Elements(tokens[2..])
  }

  /** The rule names of the references, in order. */
  function References(es: seq<Element>): seq<string> {
    if |es| == 0 then []
    else (if es[0].Reference? then [es[0].ruleName] else []) + References(es[1..])
  }

  /** The texts of the literals, in order. */
  function Literals(es: seq<Element>): seq<string> {
    if |es| == 0 then []
    else (if es[0].Literal? then [es[0].text] else []) + Literals(es[1..])
  }

  lemma {:induction false} ReferencesAppend(a: seq<Element>, b: seq<Element>)
    ensures References(a + b) == References(a) + References(b)
    decreases |a|
  {
    if |a| == 0 {
      assert a + b == b;
    } else {
      assert (a + b)[1..] == a[1..] + b;
      ReferencesAppend(a[1..], b);
    }
  }

  lemma {:induction false} LiteralsAppend(a: seq<Element>, b: seq<Element>)
    ensures Literals(a + b) == Literals(a) + Literals(b)
    decreases |a|
  {
    if |a| == 0 {
      assert a + b == b;
    } else {
      assert (a + b)[1..] == a[1..] + b;
      LiteralsAppend(a[1..], b);
    }
  }

  /** The parts of an optional literal, a reference, then more elements. */
  lemma PartsOfStep(lit: seq<Element>, n: string, rest: seq<Element>)
    requires |lit| <= 1 && forall e :: e in lit ==> e.Literal?
    ensures References(lit + [Reference(n)] + rest) == [n] + References(rest)
    ensures Literals(lit + [Reference(n)] + rest) == Literals(lit) + Literals(rest)
  {
    ReferencesAppend(lit + [Reference(n)], rest);
    ReferencesAppend(lit, [Reference(n)]);
    LiteralsAppend(lit + [Reference(n)], rest);
    LiteralsAppend(lit, [Reference(n)]);
    if |lit| == 1 {
      assert lit[0] in lit;
    }
  }

  /** Every element's text is among the literals or the references. */
  lemma {:induction false} ElementInParts(es: seq<Element>, k: nat)
    requires k < |es|
    ensures es[k].Literal? ==> es[k].text in Literals(es)
    ensures es[k].Reference? ==> es[k].ruleName in References(es)
    decreases k
  {
    if k > 0 {
      ElementInParts(es[1..], k - 1);
    }
  }

  /** The elements reference the odd tokens in order and quote the non-empty
      even tokens in order. */
  lemma {:induction false} ElementsParts(tokens: seq<string>)
    ensures References(Elements(tokens)) == Odds(tokens)
    ensures Literals(Elements(tokens)) == NonEmpty(Evens(tokens))
    decreases |tokens|
  {
    if |tokens| == 1 {
      assert Evens(tokens) == [tokens[0]] + [];
    } else if |tokens| >= 2 {
      ElementsParts(tokens[2..]);
      ElementsStep(tokens);
    }
  }

  lemma ElementsStep(tokens: seq<string>)
    requires |tokens| >= 2
    requires References(Elements(tokens[2..])) == Odds(tokens[2..])
    requires Literals(Elements(tokens[2..])) == NonEmpty(Evens(tokens[2..]))
    ensures References(Elements(tokens)) == Odds(tokens)
    ensures Literals(Elements(tokens)) == NonEmpty(Evens(tokens))
  {
    assert Odds(tokens) == [tokens[1]] + Odds(tokens[2..]) && Evens(tokens) == [tokens[0]] + Evens(tokens[2..]) by {
      EvensOddsCons(tokens[0], tokens[1], tokens[2..]);
      assert tokens == [tokens[0], tokens[1]] + tokens[2..];
    }
    ElementsSplit(tokens);
    NonEmptyCons(tokens[0], Evens(tokens[2..]));
  }

  /** The parts of the elements of two or more tokens: those of the first
      literal, the first name, then those of the remaining tokens. */
  lemma ElementsSplit(tokens: seq<string>)
    requires |tokens| >= 2
    ensures References(Elements(tokens)) == [tokens[1]] + References(Elements(tokens[2..]))
    ensures Literals(Elements(tokens)) == (if tokens[0] == "" then [] else [tokens[0]]) + Literals(Elements(tokens[2..]))
  {
    var rest := Elements(tokens[2..]);
    if tokens[0] == "" {
      assert Elements(tokens) == [] + [Reference(tokens[1])] + rest;
      PartsOfStep([], tokens[1], rest);
    } else {
      assert Elements(tokens) == [Literal(tokens[0])] + [Reference(tokens[1])] + rest;
      PartsOfStep([Literal(tokens[0])], tokens[1], rest);
    }
  }

  /** `"` escaped as `\"`; nothing else is escaped. */
  function Escape(t: string): string {
    ReplaceChar(t, '"', "\\\"")
  }

  function Show(e: Element): string {
    match e
    case Literal(t) => "\"" + Escape(t) + "\""
    case Reference(n) => " " + n + " "
  }

  /** The elements' texts, concatenated. */
  function BodyText(es: seq<Element>): string {
    if |es| == 0 then "" else Show(es[0]) + BodyText(es[1..])
  }

  /** The inside of a quoted string up to its closing quote, with `\"` read
      as `"`: the text and the number of characters consumed. */
  function ReadQuoted(s: string): (r: Option<(string, nat)>)
    ensures r.Some? ==> 1 <= r.value.1 <= |s|
    decreases |s|
  {
    if |s| == 0 then None
    else if s[0] == '"' then Some(("", 1))
    else if s[0] == '\\' && |s| >= 2 && s[1] == '"' then
      match ReadQuoted(s[2..])
      case None => None
      case Some((t, n)) => Some(("\"" + t, n + 2))
    else
      match ReadQuoted(s[1..])
      case None => None
      case Some((t, n)) => Some(([s[0]] + t, n + 1))
  }

  /** Reads a body text back into elements: a space opens a rule name that
      runs to the next space, a double quote opens a literal. */
  function Decode(s: string): Option<seq<Element>>
    decreases |s|
  {
    if |s| == 0 then Some([])
    else if s[0] == ' ' then
      var j := Find(s, " ", 1);
      if j == -1 then None
      else
        match Decode(s[j + 1..])
        case None => None
        case Some(rest) => Some([Reference(s[1..j])] + rest)
    else if s[0] == '"' then
      match ReadQuoted(s[1..])
      case None => None
      case Some((t, n)) =>
        match Decode(s[1 + n..])
        case None => None
        case Some(rest) => Some([Literal(t)] + rest)
    else None
  }

  /** Elements the decoder can tell apart: no backslash in a literal, no
      space in a rule name. */
  predicate Decodable(e: Element) {
    match e
    case Literal(t) => '\\' !in t
    case Reference(n) => ' ' !in n
  }

  lemma EscapeCons(t: string)
    requires |t| > 0
    ensures Escape(t) == (if t[0] == '"' then "\\\"" else [t[0]]) + Escape(t[1..])
  {
  }

  /** Reading past a character that is neither a quote nor a backslash. */
  lemma ReadPlain(c: char, s: string)
    requires c != '"' && c != '\\' && ReadQuoted(s).Some?
    ensures ReadQuoted([c] + s) == Some(([c] + ReadQuoted(s).value.0, ReadQuoted(s).value.1 + 1))
  {
    assert ([c] + s)[1..] == s;
  }

  /** Reading past an escaped quote. */
  lemma ReadEscapedQuote(s: string)
    requires ReadQuoted(s).Some?
    ensures ReadQuoted("\\\"" + s) == Some(("\"" + ReadQuoted(s).value.0, ReadQuoted(s).value.1 + 2))
  {
    assert ("\\\"" + s)[2..] == s;
  }

  /** One step of reading an escaped literal that starts with a quote. */
  lemma ReadQuoteFront(t: string, rest: string)
    requires |t| > 0 && t[0] == '"'
    requires ReadQuoted(Escape(t[1..]) + "\"" + rest) == Some((t[1..], |Escape(t[1..])| + 1))
    ensures ReadQuoted(Escape(t) + "\"" + rest) == Some((t, |Escape(t)| + 1))
  {
    var tail := Escape(t[1..]) + "\"" + rest;
    EscapeCons(t);
    assert Escape(t) + "\"" + rest == "\\\"" + tail;
    ReadEscapedQuote(tail);
    assert t == "\"" + t[1..];
  }

  /** One step of reading an escaped literal that starts with a character
      other than a quote or a backslash. */
  lemma ReadPlainFront(t: string, rest: string)
    requires |t| > 0 && t[0] != '"' && t[0] != '\\'
    requires ReadQuoted(Escape(t[1..]) + "\"" + rest) == Some((t[1..], |Escape(t[1..])| + 1))
    ensures ReadQuoted(Escape(t) + "\"" + rest) == Some((t, |Escape(t)| + 1))
  {
    var tail := Escape(t[1..]) + "\"" + rest;
    EscapeCons(t);
    assert Escape(t) + "\"" + rest == [t[0]] + tail;
    ReadPlain(t[0], tail);
    assert t == [t[0]] + t[1..];
  }

  /** An escaped literal reads back to itself. */
  lemma {:induction false} ReadEscaped(t: string, rest: string)
    requires '\\' !in t
    ensures ReadQuoted(Escape(t) + "\"" + rest) == Some((t, |Escape(t)| + 1))
    decreases |t|
  {
    if |t| == 0 {
      assert Escape(t) + "\"" + rest == "\"" + rest;
    } else {
      assert '\\' !in t[1..] by {
        assert forall c :: c in t[1..] ==> c in t;
      }
      assert t[0] in t;
      ReadEscaped(t[1..], rest);
      if t[0] == '"' {
        ReadQuoteFront(t, rest);
      } else {
        ReadPlainFront(t, rest);
      }
    }
  }

  /** A quoted literal followed by more text decodes to that literal first. */
  lemma DecodeLiteral(t: string, rest: string)
    requires '\\' !in t
    ensures Decode(Show(Literal(t)) + rest) == (match Decode(rest) case None => None case Some(es) => Some([Literal(t)] + es))
  {
    var s := Show(Literal(t)) + rest;
    ReadEscaped(t, rest);
    assert s == "\"" + (Escape(t) + "\"" + rest);
    assert s[1..] == Escape(t) + "\"" + rest;
    assert s[1 + |Escape(t)| + 1..] == rest;
  }

  /** A padded rule name followed by more text decodes to that reference first. */
  lemma DecodeReference(n: string, rest: string)
    requires ' ' !in n
    ensures Decode(Show(Reference(n)) + rest) == (match Decode(rest) case None => None case Some(es) => Some([Reference(n)] + es))
  {
    var s := Show(Reference(n)) + rest;
    assert s == " " + n + " " + rest;
    forall i | 1 <= i < 1 + |n|
      ensures !OccursAt(s, " ", i)
    {
      assert s[i] == n[i - 1];
      assert s[i..i + 1][0] == s[i];
    }
    assert OccursAt(s, " ", 1 + |n|);
    assert Find(s, " ", 1) == 1 + |n|;
    assert s[1..1 + |n|] == n;
    assert s[1 + |n| + 1..] == rest;
  }

  /** An element's text in front of a decodable text decodes to that element
      in front of the text's elements. */
  lemma DecodeCons(e: Element, rest: string, tail: seq<Element>)
    requires Decodable(e) && Decode(rest) == Some(tail)
    ensures Decode(Show(e) + rest) == Some([e] + tail)
  {
    match e
    case Literal(t) => DecodeLiteral(t, rest);
    case Reference(n) => DecodeReference(n, rest);
  }

  /** One step of decoding a body text: its first element, then the rest. */
  lemma DecodeFront(es: seq<Element>)
    requires |es| > 0 && Decodable(es[0])
    requires Decode(BodyText(es[1..])) == Some(es[1..])
    ensures Decode(BodyText(es)) == Some(es)
  {
    var tail := es[1..];
    assert BodyText(es) == Show(es[0]) + BodyText(tail);
    DecodeCons(es[0], BodyText(tail), tail);
    assert [es[0]] + tail == es;
  }

  /** Decoding inverts rendering. */
  lemma {:induction false} DecodeBodyText(es: seq<Element>)
    requires forall k :: 0 <= k < |es| ==> Decodable(es[k])
    ensures Decode(BodyText(es)) == Some(es)
    decreases |es|
  {
    if |es| > 0 {
      DecodeBodyText(es[1..]);
      DecodeFront(es);
    }
  }

  // ----- The grammar text -----

  /** The right-hand side of the `Template` production: the template's
      literals quoted, each placeholder replaced by its rule's name. As long
      as no literal holds a backslash and no rule name a space, it reads
      back into the rule names of the placeholders, in order, and the
      non-empty literals of the template, in order. */
  function Body(tokens: seq<string>, ruleNames: seq<string>): (b: string)
    requires |ruleNames| == |Odds(tokens)|
    ensures (forall l :: l in Evens(tokens) ==> '\\' !in l) && (forall n :: n in ruleNames ==> ' ' !in n) ==>
              && Decode(b).Some?
              && References(Decode(b).value) == ruleNames
              && Literals(Decode(b).value) == NonEmpty(Evens(tokens))
  {
    ResolvedRecovers(tokens, ruleNames);
    BodyText(Elements(Resolve(tokens, ruleNames)))
  }

  /** The elements of the resolved tokens are written so that they read
      back, and they are the rule names and the non-empty literals. */
  lemma ResolvedRecovers(tokens: seq<string>, ruleNames: seq<string>)
    requires |ruleNames| == |Odds(tokens)|
    ensures (forall l :: l in Evens(tokens) ==> '\\' !in l) && (forall n :: n in ruleNames ==> ' ' !in n) ==>
              var es := Elements(Resolve(tokens, ruleNames));
              && Decode(BodyText(es)) == Some(es)
              && References(es) == ruleNames
              && Literals(es) == NonEmpty(Evens(tokens))
  {
    if (forall l :: l in Evens(tokens) ==> '\\' !in l) && (forall n :: n in ruleNames ==> ' ' !in n) {
      var es := Elements(Resolve(tokens, ruleNames));
      ElementsParts(Resolve(tokens, ruleNames));
      forall k | 0 <= k < |es|
        ensures Decodable(es[k])
      {
        ElementInParts(es, k);
      }
      DecodeBodyText(es);
    }
  }

  /** The header lines of the grammar, before the rule definitions. */
  const RootLine: string := "root ::= Template"
  const TemplateHead: string := "Template ::= "

  /** The grammar: the root rule, the `Template` rule, then one line per rule
      definition. Its lines are the root rule, then the lines of the
      `Template` rule, then the lines of the definitions. As long as neither
      the body nor a definition holds a line break, they are exactly the root
      rule, the `Template` rule and the definitions in order (one empty line
      when there is none). */
  function Grammar(body: string, definitions: seq<string>): (g: string)
    ensures Split(g, "\n") == [RootLine] + Split(TemplateHead + body, "\n") + Split(Join("\n", definitions), "\n")
    ensures '\n' !in body && (forall d :: d in definitions ==> '\n' !in d) ==>
              Split(g, "\n") == [RootLine, TemplateHead + body] + (if |definitions| == 0 then [""] else definitions)
  {
    GrammarLines(body, definitions);
    GrammarSplit(body, definitions);
    RootLine + "\n" + TemplateHead + body + "\n" + Join("\n", definitions)
  }

  /** The grammar text splits at the two line breaks it adds. */
  lemma GrammarSplit(body: string, definitions: seq<string>)
    ensures var g := RootLine + "\n" + TemplateHead + body + "\n" + Join("\n", definitions);
            Split(g, "\n") == [RootLine] + Split(TemplateHead + body, "\n") + Split(Join("\n", definitions), "\n")
  {
    var j := Join("\n", definitions);
    Regroup(RootLine, TemplateHead, body, j);
    SplitAround(RootLine, '\n', (TemplateHead + body) + "\n" + j);
    SplitAround(TemplateHead + body, '\n', j);
    HeaderLines();
    NoCharNoSep(RootLine, '\n');
    SplitNoSep(RootLine, "\n");
    ConcatAssoc([RootLine], Split(TemplateHead + body, "\n"), Split(j, "\n"));
  }

  /** The lines of the grammar, for a body and definitions. */
  function GrammarLineSeq(body: string, definitions: seq<string>): seq<string> {
    [RootLine, TemplateHead + body] + (if |definitions| == 0 then [""] else definitions)
  }

  /** Splitting the grammar text on line breaks gives its lines back. */
  lemma GrammarLines(body: string, definitions: seq<string>)
    ensures '\n' !in body && (forall d :: d in definitions ==> '\n' !in d) ==>
              Split(RootLine + "\n" + TemplateHead + body + "\n" + Join("\n", definitions), "\n") == GrammarLineSeq(body, definitions)
  {
    if '\n' !in body && (forall d :: d in definitions ==> '\n' !in d) {
      var lines := GrammarLineSeq(body, definitions);
      GrammarIsJoin(body, definitions);
      LinesFree(body, definitions);
      SplitJoinChar(lines, '\n');
    }
  }

  /** The grammar text is the join of its lines. */
  lemma GrammarIsJoin(body: string, definitions: seq<string>)
    ensures RootLine + "\n" + TemplateHead + body + "\n" + Join("\n", definitions) == Join("\n", GrammarLineSeq(body, definitions))
  {
    var rest := if |definitions| == 0 then [""] else definitions;
    assert Join("\n", rest) == Join("\n", definitions);
    JoinHeader(RootLine, TemplateHead + body, rest);
    Regroup(RootLine, TemplateHead, body, Join("\n", rest));
  }

  /** No line of the grammar holds a line break. */
  lemma LinesFree(body: string, definitions: seq<string>)
    requires '\n' !in body && (forall d :: d in definitions ==> '\n' !in d)
    ensures forall i :: 0 <= i < |GrammarLineSeq(body, definitions)| ==> '\n' !in GrammarLineSeq(body, definitions)[i]
  {
    HeaderLines();
  }

  /** Joining two lines in front of at least one more. */
  lemma JoinHeader(a: string, b: string, rest: seq<string>)
    requires |rest| >= 1
    ensures Join("\n", [a, b] + rest) == a + "\n" + (b + "\n" + Join("\n", rest))
  {
    assert [a, b] + rest == [a] + ([b] + rest);
    JoinCons("\n", b, rest);
    JoinCons("\n", a, [b] + rest);
  }

  /** Regrouping the grammar text around its second line. */
  lemma Regroup(a: string, t: string, b: string, j: string)
    ensures a + "\n" + t + b + "\n" + j == a + "\n" + ((t + b) + "\n" + j)
  {
  }

  /** The header lines hold no line break. */
  lemma HeaderLines()
    ensures '\n' !in RootLine && '\n' !in TemplateHead
  {
  }
}
