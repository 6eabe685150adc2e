/** Grammar rules: a GBNF production text, the rules it depends on, and the
    coercion (`compile`) applied to the text a placeholder captured. */
module Rules {
  import opened PyStr

  /** The built-in rule kinds, the parameterised multiple-choice rule, and
      `Custom` for a caller's own subclass of the base rule (its own
      production and dependents, the default identity `compile`). */
  datatype Rule =
    | SingleLine
    | SingleSentence
    | NumberRule
    | StringRule
    | StringList
    | NumberList
    | ItemRule
    | ItemList
    | MultipleChoice(choiceName: string, choices: seq<string>)
    | Custom(definition: string, dependents: seq<Rule>)

  /** What a rule's `compile` returns. `Json(text)` stands for the result of
      Python's `json.loads(text)`, which is not modelled. */
  datatype Value = Text(text: string) | Items(items: seq<string>) | Json(source: string)

  /** The operator separating a production's name from its body. */
  const Defines: string := "::="

  /** The rule kinds whose production is a constant of the library. */
  predicate IsBuiltin(r: Rule) {
    !(r.MultipleChoice? || r.Custom?)
  }

  /** The name a built-in production starts with. */
  function BuiltinName(r: Rule): string
    requires IsBuiltin(r)
  {
    match r
    case SingleLine => "singleline"
    case SingleSentence => "singlesentence"
    case NumberRule => "number"
    case StringRule => "string"
    case StringList => "stringlist"
    case NumberList => "numberlist"
    case ItemRule => "item"
    case ItemList => "itemlist"
  }

  /** What follows `::=` in a built-in production. */
  function BuiltinBody(r: Rule): string
    requires IsBuiltin(r)
  {
    match r
    case SingleLine => " [^\\n]+ \"\\n\""
    case SingleSentence => " [^.] + \".\""
    case NumberRule => " (\"-\"? ([0-9] | [1-9] [0-9]*)) (\".\" [0-9]+)? ([eE] [-+]? [0-9]+)?"
    case StringRule => " \"\\\"\" ([^\"]*) \"\\\"\""
    case StringList => " \"[]\" | \"[\" string (\",\" string)* \"]\""
    case NumberList => " \"[]\" | \"[\" number (\",\" number)* \"]\""
    case ItemRule => " \"- \" [^\\r\\n\\x0b\\x0c\\x85\\u2028\\u2029]+ \"\\n\""
    case ItemList => " item+"
  }

  /** The production text of each rule: a built-in's constant `name ::= body`,
      a multiple-choice rule's alternation of its quoted choices, a custom
      rule's own text. */
  function Production(r: Rule): (p: string)
    ensures !r.Custom? ==> Contains(p, Defines)
  {
    match r
    case MultipleChoice(n, cs) =>
      DefinesAfterHead(n, " " + Alternation(cs));
      n + " " + Defines + " " + Alternation(cs)
    case Custom(p, _) => p
    case _ =>
      DefinesAfterHead(BuiltinName(r), BuiltinBody(r));
      BuiltinName(r) + " " + Defines + BuiltinBody(r)
  }

  /** `"c"` for one choice. */
  function Quote(c: string): string {
    "\"" + c + "\""
  }

  /** `("c1" | ... | "ck")`, the choices quoted and joined in order: a
      parenthesised text holding every choice in quotes. */
  function Alternation(cs: seq<string>): (a: string)
    ensures |a| >= 2 && a[0] == '(' && a[|a| - 1] == ')'
    ensures forall i :: 0 <= i < |cs| ==> Contains(a, Quote(cs[i]))
  {
    var qs := seq(|cs|, i requires 0 <= i < |cs| => Quote(cs[i]));
    var a := "(" + Join(" | ", qs) + ")";
    assert forall i :: 0 <= i < |cs| ==> Contains(a, Quote(cs[i])) by {
      forall i | 0 <= i < |cs|
        ensures Contains(a, Quote(cs[i]))
      {
        JoinHasPart(" | ", qs, i);
        var k :| 0 <= k <= |Join(" | ", qs)| && OccursAt(Join(" | ", qs), qs[i], k);
        ShiftOccurs("(", Join(" | ", qs), ")", qs[i], k);
      }
    }
    a
  }

  /** A head followed by a space and `::=` defines with `::=`. */
  lemma DefinesAfterHead(w: string, body: string)
    ensures Contains(w + " " + Defines + body, Defines)
    ensures |body| > 0 && body[0] == ' ' ==> w + " " + Defines + body == w + " " + Defines + " " + body[1..]
  {
    assert OccursAt(w + " " + Defines + body, Defines, |w| + 1) by {
      assert (w + " " + Defines + body)[|w| + 1..|w| + 4] == Defines;
    }
    if |body| > 0 && body[0] == ' ' {
      assert body == " " + body[1..];
    }
  }

  /** The rules whose productions this rule's production refers to. */
  function Dependents(r: Rule): seq<Rule> {
    match r
    case StringList => [StringRule]
    case NumberList => [NumberRule]
    case ItemList => [ItemRule]
    case Custom(_, ds) => ds
    case _ => []
  }

  /** The name of a production text: what precedes the first `::=` (all of
      it when there is none), without surrounding whitespace. */
  function RuleName(production: string): (n: string)
    ensures |n| > 0 ==> n[0] !in Whitespace && n[|n| - 1] !in Whitespace
    ensures !Contains(n, Defines)
  {
    StripKeepsAbsent(Split(production, Defines)[0], Defines);
    Strip(Split(production, Defines)[0])
  }

  /** The rule's name is the name of its production: a built-in rule is
      named by the word its production opens with, and a multiple-choice
      rule by its trimmed name argument whenever that holds no `::=`. */
  function Name(r: Rule): (n: string)
    ensures IsBuiltin(r) ==> n == BuiltinName(r)
    ensures r.MultipleChoice? && !Contains(r.choiceName, Defines) ==> n == Strip(r.choiceName)
  {
    if IsBuiltin(r) then
      BuiltinProductionName(r);
      RuleName(Production(r))
    else if r.MultipleChoice? && !Contains(r.choiceName, Defines) then
      MultipleChoiceProductionName(r.choiceName, r.choices);
      RuleName(Production(r))
    else RuleName(Production(r))
  }

  /** The characters a bullet item's leading marker is made of. */
  const BulletChars: set<char> := {'-', ' '}

  /** The line separator of a bulleted list. */
  const ItemSeparator: string := "\n-"

  /** An item rule's coercion: the text without its leading run of `-` and
      space characters. */
  function StripBullet(s: string): (r: string)
    ensures |r| <= |s| && r == s[|s| - |r|..]
    ensures |r| > 0 ==> r[0] != '-' && r[0] != ' '
    ensures forall i :: 0 <= i < |s| - |r| ==> s[i] == '-' || s[i] == ' '
  {
    LStrip(s, BulletChars)
  }

  /** `pieces` are the separator-free pieces that, joined with `sep`, make `s`. */
  predicate SplitsInto(s: string, sep: string, pieces: seq<string>) {
    && Join(sep, pieces) == s
    && forall k :: 0 <= k < |pieces| ==> !Contains(pieces[k], sep)
  }

  /** An item list's coercion: one item per line-then-dash separated piece,
      each without its leading bullet characters. */
  function BulletItems(s: string): (items: seq<string>)
    ensures |items| == Count(s, ItemSeparator) + 1
    ensures exists pieces :: SplitsInto(s, ItemSeparator, pieces) && |pieces| == |items| &&
                             forall k :: 0 <= k < |items| ==> items[k] == StripBullet(pieces[k])
  {
    var pieces := Split(s, ItemSeparator);
    var items := seq(|pieces|, k requires 0 <= k < |pieces| => StripBullet(pieces[k]));
    assert SplitsInto(s, ItemSeparator, pieces);
    items
  }

  /** `rule.compile(text)`: list rules decode JSON, item rules strip bullets,
      and every other rule returns its text unchanged; a number is not
      converted. */
  function Compile(r: Rule, text: string): (v: Value)
    ensures v.Json? <==> r.StringList? || r.NumberList?
    ensures v.Json? ==> v.source == text
    ensures r.ItemRule? ==> && v.Text? && |v.text| <= |text| && v.text == text[|text| - |v.text|..]
                            && (|v.text| > 0 ==> v.text[0] !in BulletChars)
                            && forall i :: 0 <= i < |text| - |v.text| ==> text[i] in BulletChars
    ensures r.ItemList? ==> v.Items? && |v.items| == Count(text, ItemSeparator) + 1
    ensures !(r.StringList? || r.NumberList? || r.ItemRule? || r.ItemList?) ==> v == Text(text)
  {
    match r
    case StringList => Json(text)
    case NumberList => Json(text)
    case ItemRule => Text(StripBullet(text))
    case ItemList => Items(BulletItems(text))
    case _ => Text(text)
  }

  /** A production's name is the trimmed text before its first `::=`, or the
      whole trimmed text when it has none. */
  lemma RuleNameIsTrimmedHead(production: string, i: nat)
    requires OccursAt(production, Defines, i)
    requires forall j :: 0 <= j < i ==> !OccursAt(production, Defines, j)
    ensures RuleName(production) == Strip(production[..i])
  {
    FindFirst(production, Defines, i);
  }

  lemma RuleNameWithoutDefines(production: string)
    requires !Contains(production, Defines)
    ensures RuleName(production) == Strip(production)
  {
    SplitNoSep(production, Defines);
  }

  /** A multiple-choice production is named after its name argument, trimmed. */
  lemma MultipleChoiceProductionName(n: string, cs: seq<string>)
    requires !Contains(n, Defines)
    ensures RuleName(Production(MultipleChoice(n, cs))) == Strip(n)
  {
    var p := Production(MultipleChoice(n, cs));
    var i := |n| + 1;
    assert p == (n + " ") + Defines + (" " + Alternation(cs));
    assert OccursAt(p, Defines, i);
    forall j | 0 <= j < i
      ensures !OccursAt(p, Defines, j)
    {
      if j + 3 <= |n| {
        assert p[j..j + 3] == n[j..j + 3];
        assert !OccursAt(n, Defines, j);
      } else {
        assert p[j..j + 3] != Defines by {
          assert p[j..j + 3][|n| - j] == p[|n|] == ' ';
        }
      }
    }
    RuleNameIsTrimmedHead(p, i);
    assert p[..i] == n + " ";
    StripTrailingSpace(n);
  }

  /** A production whose head has no colon is named after its head. */
  lemma NameOfColonFreeHead(head: string, body: string)
    requires ':' !in head
    ensures RuleName(head + Defines + body) == Strip(head)
  {
    var p := head + Defines + body;
    assert OccursAt(p, Defines, |head|);
    forall j | 0 <= j < |head|
      ensures !OccursAt(p, Defines, j)
    {
      assert p[j] == head[j];
    }
    RuleNameIsTrimmedHead(p, |head|);
    assert p[..|head|] == head;
  }

  /** A name whose ends are not whitespace is its own trimmed form. */
  lemma NamedAfter(w: string, body: string)
    requires |w| > 0 && w[0] !in Whitespace && w[|w| - 1] !in Whitespace
    requires ':' !in w
    ensures RuleName(w + " " + Defines + body) == w
  {
    assert w + " " + Defines + body == (w + " ") + Defines + body;
    NameOfColonFreeHead(w + " ", body);
    StripTrailingSpace(w);
  }

  /** The head of every built-in production is a colon-free word without
      surrounding whitespace. */
  lemma BuiltinNameIsWord(r: Rule)
    requires IsBuiltin(r)
    ensures |BuiltinName(r)| > 0 && ':' !in BuiltinName(r)
    ensures BuiltinName(r)[0] !in Whitespace && BuiltinName(r)[|BuiltinName(r)| - 1] !in Whitespace
  {
  }

  /** Every built-in production is named by the word it starts with. */
  lemma BuiltinProductionName(r: Rule)
    requires IsBuiltin(r)
    ensures RuleName(Production(r)) == BuiltinName(r)
  {
    BuiltinNameIsWord(r);
    NamedAfter(BuiltinName(r), BuiltinBody(r));
  }
}
