# gbnf-compiler, modelled in Dafny

`gbnf_compiler` turns a template with `{{name}}` placeholders and one rule
per placeholder into a GBNF grammar string. It then reads a model's
response back into a map from placeholder names to values. This project
models three parts of it as pure Dafny functions and proves properties of
them:

- **Rules** (`gbnf_compiler/rules.py`), module `Rules`.
  - A rule is a production string, its dependent rules and a `compile`
    coercion.
  - The built-in rules, `MultipleChoice` and user-defined rules are one
    datatype. A user-defined rule carries its production and dependents
    and uses the base class's `compile`; an overriding `compile` is not
    modelled.
  - A rule's name is the production's text before the first `::=`, with
    whitespace trimmed.
  - Item rules strip a leading run of `-` and spaces. Item lists split on
    `"\n-"`.
- **The template compiler** (`gbnf_compiler/compiler.py`), modules
  `Template`, `GrammarBody`, `Definitions`, `Decompose` and `Compiler`.
  - Construction checks that no `}}{{` appears once spaces are deleted,
    and that there is one rule per `{{`.
  - It tokenizes the template on `{{` and then on `}}`.
  - It renders the grammar body: quoted literals, and rule names padded
    with spaces.
  - It gathers rule definitions by pre-order flattening of the dependent
    rules, keeping each name's first definition and refusing a name that
    is given two definitions.
  - It assembles the final grammar string.
  - Its `parse` is a full match of the response against the template's
    literals, with lazy captures between them. It is stated declaratively:
    the leftmost-shortest split of the response.
- **The sentence compiler** (`gbnf_compiler/sentence.py`), modules
  `Sentence`, `SentenceFill` and `SentenceBuild`.
  - It is the older variant over plain production strings.
  - Its construction checks the template for `}}{{` as written.
  - Its `parse` lists every end offset of every non-empty literal. It
    keeps the strictly ascending combinations of one offset per literal,
    and slices each combination into one value per placeholder. It then
    returns the reading whose values are longest in total, the earliest on
    ties.

Python's string and dictionary operations have their own models:
- `PyStr` covers `find`, `split`, `join`, `count`, `strip`/`lstrip`/`rstrip`,
  single-character `replace` and slicing with clamped bounds.
- `PyDict` is an insertion-ordered dictionary held as a sequence of pairs.
- `Wrappers` holds `Option` and `Result`.

An `assert` that fails in the source is a `Failure` carrying a
`ConfigError` in the model. `None` from `parse` is `NoMatch` or
`NoCandidate`. An `IndexError` inside the sentence parse is `Crash`.

Where the system's specification and its code disagree, the model
follows the code:
- `NumberRule.compile` is the identity (rules.py:23-24 defines no
  override). Only the list rules hand their text to `json.loads`.
- The item rules strip every leading `-` and space character
  (`lstrip("- ")`), not one `"- "` marker.
- The adjacency check of compiler.py deletes only space characters, not
  all whitespace.
- sentence.py checks the template as written, with no space removal.
- A placeholder name that is not a key of the rules map fails
  construction with a `KeyError` (compiler.py:38, sentence.py:55). The
  model reports this as `UnknownPlaceholder`.
- For a template that opens with a placeholder, the sentence parse never
  reads the text before the first literal; see Findings.

## Model

| member | source | states |
|---|---|---|
| `PyStr.Find` | gbnf_compiler/sentence.py:8 | `str.find` from a start index: -1 exactly when no occurrence starts at or after it, else the first such occurrence |
| `PyStr.FindAbsent` | gbnf_compiler/compiler.py:23 | `find` gives -1 exactly when the substring does not occur |
| `PyStr.FindFirst` | gbnf_compiler/sentence.py:8 | an occurrence with none before it is what `find` returns |
| `PyStr.Split` | gbnf_compiler/compiler.py:31 | `str.split(sep)` gives at least one part; the parts joined by the separator give back the string, and no part contains the separator |
| `PyStr.SplitNoSep` | gbnf_compiler/compiler.py:31 | a string without the separator splits into itself alone |
| `PyStr.SplitCons` | gbnf_compiler/compiler.py:31 | the text before the first separator is the first part, and the rest splits on its own |
| `PyStr.SplitAt` | gbnf_compiler/compiler.py:31 | splitting at any occurrence of a one-character separator gives the parts before it followed by the parts after it |
| `PyStr.SplitAround` | gbnf_compiler/compiler.py:31 | splitting `a + c + b` on the character `c` gives the parts of `a` followed by the parts of `b` |
| `PyStr.Count` | gbnf_compiler/compiler.py:26 | `str.count` of `{{` is one less than the number of split parts, and is positive exactly when `{{` occurs |
| `PyStr.LStrip` | gbnf_compiler/rules.py:46 | `lstrip(chars)` is a suffix of its input, starts with no stripped character, and what it removed consists of stripped characters only |
| `PyStr.RStrip` | gbnf_compiler/rules.py:14 | `rstrip` is a prefix of its input, ends with no stripped character, and removed only stripped characters |
| `PyStr.Strip` | gbnf_compiler/rules.py:14 | `strip()` is no longer than its input, and neither starts nor ends with whitespace |
| `PyStr.StripIsTrim` | gbnf_compiler/rules.py:14 | `strip()` is a contiguous piece of its input with only whitespace before and after it |
| `PyStr.StripTrailingSpace` | gbnf_compiler/rules.py:58 | a space after the name does not change what `strip()` gives |
| `PyStr.LStripAppend` | gbnf_compiler/rules.py:46 | `lstrip` of a concatenation strips into the second part only when the first strips away entirely |
| `PyStr.ReplaceChar` | gbnf_compiler/compiler.py:41 | `replace` of one character leaves no occurrence of it unless the replacement has one, introduces only characters of the input or the replacement, and changes nothing when the character is absent |
| `PyStr.ReplaceCharAppend` | gbnf_compiler/compiler.py:23 | replacing a character distributes over concatenation |
| `PyStr.Slice` | gbnf_compiler/sentence.py:120 | a slice with bounds in order is the sub-sequence, and a slice whose end is at or before its start is empty |
| `PyStr.SliceBound` | gbnf_compiler/sentence.py:120 | a slice bound is clamped into the string, and a bound already inside it is kept |
| `PyStr.OccursInSlice` | gbnf_compiler/sentence.py:8 | an occurrence inside a slice is an occurrence in the whole string, shifted by the slice's start |
| `PyStr.NoPairInConcat` | gbnf_compiler/compiler.py:31 | a two-character delimiter in a concatenation of two delimiter-free parts must straddle the join |
| `PyDict.Get` | gbnf_compiler/compiler.py:38 | indexing a dictionary finds nothing exactly when the key is absent, and otherwise finds a stored pair |
| `PyDict.GetAt` | gbnf_compiler/compiler.py:54 | in a dictionary with distinct keys, each stored key reads back its own value |
| `PyDict.Put` | gbnf_compiler/compiler.py:51 | storing keeps the keys distinct, keeps the key order for a present key, and appends a new key at the end |
| `PyDict.PutGet` | gbnf_compiler/compiler.py:51 | after storing, the key reads back the stored value and every other key reads as before |
| `PyDict.FromPairs` | gbnf_compiler/sentence.py:129 | the dictionary comprehension over names and slots has distinct keys |
| `PyDict.FromPairsGet` | gbnf_compiler/sentence.py:129 | a name reads back the slot of its last position among the names |
| `PyDict.FromPairsKeys` | gbnf_compiler/sentence.py:129 | the keys of the comprehension are exactly the names |
| `PyDict.FromDistinctPairs` | gbnf_compiler/sentence.py:129 | with distinct names, the comprehension pairs the `i`-th name with the `i`-th slot, in order |
| `Rules.StripBullet` | gbnf_compiler/rules.py:45-46 | `ItemRule.compile` gives a suffix of its input that does not start with `-` or a space, after a prefix made only of `-` and spaces |
| `Rules.BulletItems` | gbnf_compiler/rules.py:51-52 | `ItemList.compile` gives one item per `"\n-"`-separated piece, in order, each with its bullet stripped, so there are as many items as occurrences of `"\n-"` plus one |
| `Rules.Compile` | gbnf_compiler/rules.py:15-52 | `compile` hands the text to `json.loads` exactly for the string-list and number-list rules; an item rule gives its text with the leading `-`/space run removed, nothing else; an item list gives one item per `"\n-"` occurrence plus one; every other rule gives the text back unchanged |
| `Rules.RuleName` | gbnf_compiler/rules.py:61-70 | a production's name neither starts nor ends with whitespace and never contains `::=` |
| `Rules.RuleNameIsTrimmedHead` | gbnf_compiler/rules.py:61-70 | a production's name is the trimmed text before its first `::=` |
| `Rules.Name` | gbnf_compiler/rules.py:13-14 | a built-in rule is named by the word its production opens with; a multiple-choice rule whose name argument holds no `::=` is named by that argument, trimmed |
| `Rules.Production` | gbnf_compiler/rules.py:17-58 | every built-in and multiple-choice production contains `::=` |
| `Rules.Alternation` | gbnf_compiler/rules.py:56-57 | the choice list is wrapped in parentheses and holds every choice in double quotes |
| `Rules.RuleNameWithoutDefines` | gbnf_compiler/rules.py:13-14 | a production without `::=` is named by the whole trimmed production |
| `Rules.MultipleChoiceProductionName` | gbnf_compiler/rules.py:54-58 | a multiple-choice production is named by its trimmed name argument whenever that holds no `::=` |
| `Rules.NameOfColonFreeHead` | gbnf_compiler/rules.py:13-14 | the name of `head ::= body` is the trimmed head when the head holds no colon, whatever the body holds |
| `Rules.NamedAfter` | gbnf_compiler/rules.py:58 | a production written as `word ::= body` is named by the word |
| `Rules.BuiltinNameIsWord` | gbnf_compiler/rules.py:17-50 | each built-in rule's production opens with a non-empty word with no colon and no surrounding whitespace |
| `Rules.BuiltinProductionName` | gbnf_compiler/rules.py:17-50 | each built-in production is named by the word it opens with |
| `Template.Evens` | gbnf_compiler/sentence.py:92 | the literal tokens are the tokens at even positions, in order |
| `Template.Odds` | gbnf_compiler/sentence.py:93 | the placeholder tokens are the tokens at odd positions, in order |
| `Template.EvensOddsLength` | gbnf_compiler/compiler.py:36-38 | even and odd positions share out the tokens, with at most one more even than odd |
| `Template.EvensOddsInterleave` | gbnf_compiler/sentence.py:92-93 | interleaving literals with names and taking the even and odd positions gives back the literals and the names |
| `Template.Interleave` | gbnf_compiler/compiler.py:31-34 | literals land at the even positions and names at the odd ones |
| `Template.SplitJoin` | gbnf_compiler/compiler.py:31 | pieces that hold no delimiter and do not end in its first character split back out of their join |
| `Template.Tokenize` | gbnf_compiler/compiler.py:31-32 | there is at least one token, and no token holds `{{` or `}}` |
| `Template.TokenizeRender` | gbnf_compiler/compiler.py:31-34 | the tokens of a template written as literals and names (no delimiter inside either) are those literals and names, interleaved |
| `Template.RenderTokenize` | gbnf_compiler/compiler.py:31-34 | for a well-formed template, the even tokens are one more than the odd ones, and rejoining them with the delimiters gives back the template |
| `Template.RenderCount` | gbnf_compiler/compiler.py:26-27 | a template written from names has one `{{` per name and is well formed |
| `Template.PlaceholderCount` | gbnf_compiler/compiler.py:26-27 | in a well-formed template, the count of `{{` is the number of placeholder tokens |
| `Template.FirstUnknown` | gbnf_compiler/compiler.py:36-38 | no name is reported exactly when every placeholder is a key; a reported name is the first placeholder that is not a key |
| `Template.UnspacedContains` | gbnf_compiler/compiler.py:23 | a pattern occurs in the template with spaces deleted exactly when some stretch of the template, with its spaces deleted, equals the pattern |
| `Template.NonEmpty` | gbnf_compiler/sentence.py:92-93 | the `and v` filter keeps exactly the non-empty entries and never lengthens the list |
| `Template.NonEmptyRange` | gbnf_compiler/sentence.py:92 | when the non-empty entries form one block, the filter gives that block |
| `GrammarBody.Resolve` | gbnf_compiler/compiler.py:36-38 | resolving placeholders keeps every literal token in place and puts the rule names at the placeholder positions |
| `GrammarBody.ElementsParts` | gbnf_compiler/compiler.py:36-42 | the body's elements refer to the placeholder tokens in order, and quote exactly the non-empty literals in order |
| `GrammarBody.ReadEscaped` | gbnf_compiler/compiler.py:41 | a literal with `"` escaped as `\"` reads back to the literal, up to the closing quote |
| `GrammarBody.DecodeLiteral` | gbnf_compiler/compiler.py:39-42 | a quoted literal in the body reads back as that literal in front of what follows |
| `GrammarBody.DecodeReference` | gbnf_compiler/compiler.py:37-38 | a space-padded rule name reads back as a reference in front of what follows |
| `GrammarBody.DecodeBodyText` | gbnf_compiler/compiler.py:43 | the concatenated body text reads back into its elements |
| `GrammarBody.Body` | gbnf_compiler/compiler.py:36-43 | when no literal has a backslash and no rule name a space, the body reads back into the rule names in order and the non-empty literals in order |
| `GrammarBody.ResolvedRecovers` | gbnf_compiler/compiler.py:36-43 | under the same condition, the resolved elements read back exactly from the body text |
| `GrammarBody.Grammar` | gbnf_compiler/compiler.py:56-57 | the grammar's lines are `root ::= Template`, then the lines of `Template ::= ` with the body, then the lines of the definitions joined by newlines; when neither the body nor a definition holds a newline, that is one line for the `Template` rule and the definitions one per line (a single empty line when there are none) |
| `Decompose.Shortest` | gbnf_compiler/compiler.py:77 | a split that is found rebuilds the text from the captures and literals |
| `Decompose.ShortestFromSome` | gbnf_compiler/compiler.py:77 | the search from a capture length succeeds exactly when some length at or after it fits |
| `Decompose.ShortestFromLeast` | gbnf_compiler/compiler.py:77 | the search returns the least fitting first capture, with the shortest split of the rest |
| `Decompose.ShortestComplete` | gbnf_compiler/compiler.py:79 | whenever some split exists, the search finds one |
| `Decompose.ShortestIsLeast` | gbnf_compiler/compiler.py:77-79 | the split found has capture lengths lexicographically least among all splits, which is what a lazy left-to-right matcher settles on |
| `Decompose.ShortestRecovers` | gbnf_compiler/compiler.py:77-79 | captures that each stop at the first occurrence of the literal after them are found back exactly |
| `Decompose.FullMatch` | gbnf_compiler/compiler.py:79 | a full match starts with the first literal and rebuilds the whole response |
| `Decompose.FullMatchComplete` | gbnf_compiler/compiler.py:79-82 | a response that decomposes along the literals always matches, with captures no longer (lexicographically) than any decomposition |
| `Compiler.Flatten` | gbnf_compiler/compiler.py:5-6 | the flattening of a rule starts with the rule itself |
| `Compiler.FlattenLength` | gbnf_compiler/compiler.py:5-9 | the flattening has one entry per node of the dependency tree, duplicates kept |
| `Compiler.FlattenBuiltin` | gbnf_compiler/compiler.py:5-9 | a built-in rule flattens to itself followed by its dependents |
| `Compiler.FlattenClosed` | gbnf_compiler/compiler.py:7-8 | every dependent of a rule in a flattening is in that flattening |
| `Compiler.FlattenAllAppend` | gbnf_compiler/compiler.py:47-48 | flattening the rules one after another is flattening each in order and concatenating |
| `Compiler.FlattenAllLength` | gbnf_compiler/compiler.py:47-48 | the rules together flatten to the sum of their tree sizes |
| `Compiler.InFlattenAll` | gbnf_compiler/compiler.py:47-49 | a rule is reached exactly when it is in the flattening of one of the map's rules |
| `Compiler.RuleReachable` | gbnf_compiler/compiler.py:47-48 | every rule of the map is reached |
| `Compiler.DependentsReachable` | gbnf_compiler/compiler.py:47-49 | every dependent of a reached rule is reached, so every production the grammar refers to gets a definition |
| `Compiler.Entries` | gbnf_compiler/compiler.py:49-51 | each reached rule contributes its name and its production, in order |
| `Compiler.RuleDefinitions` | gbnf_compiler/compiler.py:46-54 | gathering succeeds exactly when no name has two productions; then it holds each name's first production in first-seen order; a failure names a conflicting name |
| `Compiler.DefinitionOfEachRule` | gbnf_compiler/compiler.py:49-54 | every reached rule's production is the definition stored under its name |
| `Compiler.DefinitionsFromRules` | gbnf_compiler/compiler.py:50-51 | every stored definition is the name and production of a reached rule |
| `Compiler.ConflictingRules` | gbnf_compiler/compiler.py:53-54 | a conflict on a name comes from two reached rules with that name and different productions |
| `Compiler.Build` | gbnf_compiler/compiler.py:15-57 | a constructed compiler keeps the template and rules and holds the template's tokens, and every placeholder names a rule |
| `Compiler.BuildAdjacent` | gbnf_compiler/compiler.py:23 | construction fails on adjacency exactly when some stretch of the template, with spaces deleted, is `}}{{` |
| `Compiler.BuildSucceeds` | gbnf_compiler/compiler.py:22-54 | construction succeeds exactly when `}}{{` is absent after deleting spaces, there is one rule per `{{`, every placeholder names a rule and no name has two productions |
| `Compiler.BuildFailure` | gbnf_compiler/compiler.py:26-54 | a count failure carries the two counts, which differ; an unknown placeholder is the first placeholder with no rule; a conflict comes from two reached rules |
| `Compiler.BuildBindsEveryRule` | gbnf_compiler/compiler.py:25-27 | in a well-formed template there is one rule per placeholder, and with distinct placeholders the rule keys are exactly the placeholders |
| `Compiler.BuildAssembles` | gbnf_compiler/compiler.py:29-57 | a constructed compiler is the grammar assembled from the checked template and the gathered definitions |
| `Compiler.DefinesEachMappedRule` | gbnf_compiler/compiler.py:46-54 | the grammar defines the name of every rule of the map by that rule's production |
| `Compiler.Assemble` | gbnf_compiler/compiler.py:29-57 | the compiler keeps the template and rules and holds its tokens; the grammar is the body followed by the definitions; when no literal has a backslash and no placeholder's rule name a space, the body reads back into the placeholders' rule names and the non-empty literals in order |
| `Compiler.Coerce` | gbnf_compiler/compiler.py:83-86 | the result has one key per placeholder, in order, each holding its rule's `compile` of its capture |
| `Compiler.Parse` | gbnf_compiler/compiler.py:76-87 | the pattern is refused exactly when the template is ill-formed or its names are not distinct identifiers; a match has one key per placeholder |
| `Compiler.ParseMatch` | gbnf_compiler/compiler.py:79-86 | a match comes from captures that, interleaved with the literals, rebuild the response exactly, each passed through its rule's `compile` |
| `Compiler.ParseLeast` | gbnf_compiler/compiler.py:77-79 | whenever the response decomposes along the template, it matches, and the captures used are lexicographically shortest |
| `Compiler.ParseNoMatch` | gbnf_compiler/compiler.py:79-82 | `parse` gives `None` exactly when no decomposition of the response along the template exists |
| `Compiler.ParseRecovers` | gbnf_compiler/compiler.py:76-87 | filling the template with texts (each before the first occurrence of the literal after it) and parsing gives back each rule's `compile` of its text |
| `Sentence.EndsFrom` | gbnf_compiler/sentence.py:5-11 | from a start index, the yielded offsets are exactly the ends of occurrences starting there or later, strictly increasing |
| `Sentence.OccurrenceEnds` | gbnf_compiler/sentence.py:5-11 | the yielded offsets are exactly the ends of all occurrences, overlapping ones included, strictly increasing |
| `Sentence.IsAscendingSequence` | gbnf_compiler/sentence.py:13-17 | true exactly when the sequence strictly increases (so true for the empty one) |
| `Sentence.TotalLengthJoin` | gbnf_compiler/sentence.py:19-21 | the total length of the values is the length of their concatenation |
| `Sentence.ValuesLength` | gbnf_compiler/sentence.py:19-21 | the sum of the lengths of a dictionary's values is the length of those values run together |
| `Sentence.LongestIndex` | gbnf_compiler/sentence.py:25-28 | the chosen index has a maximal total, and every earlier index a strictly smaller one |
| `Sentence.Longest` | gbnf_compiler/sentence.py:25-28 | `None` exactly for no dictionaries; otherwise one of them with a maximal total value length, every earlier one being strictly shorter |
| `Sentence.LongestAt` | gbnf_compiler/sentence.py:25-28 | for a non-empty list, the position of the dictionary chosen, with every earlier dictionary strictly shorter |
| `Sentence.Prefixed` | gbnf_compiler/sentence.py:99 | the front extensions are exactly the combinations holding one of the offered offsets first and a combination of the rest after it |
| `Sentence.Product` | gbnf_compiler/sentence.py:99 | the Cartesian product holds exactly the sequences with one element from each list |
| `Sentence.KeepIncreasing` | gbnf_compiler/sentence.py:100 | the filter keeps exactly the strictly ascending combinations |
| `Sentence.PrefixedSorted` | gbnf_compiler/sentence.py:99 | with ascending offsets in front and sorted tails, the front extensions come in strictly increasing lexicographic order |
| `Sentence.ProductSorted` | gbnf_compiler/sentence.py:99 | when every list ascends, the product yields its combinations in strictly increasing lexicographic order, the first list varying slowest |
| `Sentence.KeepIncreasingSubsequence` | gbnf_compiler/sentence.py:100 | the filter keeps the combinations in the order the product yields them |
| `Sentence.KeepIncreasingSorted` | gbnf_compiler/sentence.py:100 | filtering a lexicographically sorted list leaves it sorted |
| `Sentence.Candidates` | gbnf_compiler/sentence.py:96-100 | every combination has one offset per non-empty literal |
| `Sentence.CandidatesMember` | gbnf_compiler/sentence.py:96-100 | a combination is a candidate exactly when it ends each literal at one of its occurrences and strictly ascends |
| `Sentence.CandidatesSorted` | gbnf_compiler/sentence.py:96-100 | the candidates come in strictly increasing lexicographic order |
| `Sentence.EarlierCandidate` | gbnf_compiler/sentence.py:96-100 | a placement lexicographically before a candidate is a candidate listed before it |
| `Sentence.SlotsAsWritten` | gbnf_compiler/sentence.py:106-123 | as written there is one slot per literal, and since the first end offset is positive these are the corrected slots without a leading one |
| `Sentence.Slots` | gbnf_compiler/sentence.py:106-123 | the corrected slots: with a leading placeholder, a first slot from the start of the response to the first literal; then, after each literal end, the text up to the start of the next literal or the end of the response |
| `Sentence.SlotsAtEnd` | gbnf_compiler/sentence.py:113-121 | a single literal at the end of the response leaves an empty slot after it; as written, that is the only slot read |
| `Sentence.Pick` | gbnf_compiler/sentence.py:126-133 | no reading gives `None`; a reading shorter than the names fails with an `IndexError`; otherwise the result pairs the names with one reading whose total value length is maximal |
| `Sentence.PickFirstLongest` | gbnf_compiler/sentence.py:126-133 | the reading chosen is the first longest one, as the stable sort of lines 25-28 keeps it: every reading before it is strictly shorter in total |
| `Sentence.PickChosen` | gbnf_compiler/sentence.py:91-133 | picking among the readings of the candidates meets the parse's declarative description, stated over all placements of the literals |
| `Sentence.PickBest` | gbnf_compiler/sentence.py:96-133 | with a candidate and enough slots, the result pairs the names with the slots of some placement; no placement reads longer values, and every placement lexicographically before it reads strictly shorter ones |
| `Sentence.ParseAsWritten` | gbnf_compiler/sentence.py:91-133 | the parse as written: no literal gives an `IndexError`; no placement of the literals gives `None`; fewer slots than names gives an `IndexError`; otherwise the names paired with the slots (no leading slot) of a placement, no placement reading longer values, and on a tie the placement `product` yields first: every placement lexicographically before it reads strictly shorter values |
| `Sentence.ChosenUnique` | gbnf_compiler/sentence.py:91-133 | the description of the parse's outcome, ties included, fixes a single outcome |
| `Sentence.Parse` | gbnf_compiler/sentence.py:91-133 | the corrected parse: the same description, ties included, except that a template opening with a placeholder reads the text before the first literal into it |
| `Sentence.AsWrittenReadings` | gbnf_compiler/sentence.py:106-123 | when the first literal is non-empty, the as-written readings are the corrected readings without a leading slot |
| `Sentence.AsWrittenAgrees` | gbnf_compiler/sentence.py:91-133 | for a template opening with a literal, the as-written and the corrected parse agree |
| `Sentence.PickUniform` | gbnf_compiler/sentence.py:126-133 | when every reading is the same, that reading is the result |
| `Sentence.AsWrittenUniform` | gbnf_compiler/sentence.py:91-133 | as written, when every candidate slices into the same slots, the result pairs the names with those slots |
| `Sentence.ParseUniform` | gbnf_compiler/sentence.py:91-133 | with the leading slot read, when every candidate slices into the same slots, the result pairs the names with those slots |
| `Sentence.SingleTemplateParts` | gbnf_compiler/sentence.py:92-93 | a template `{{a}}t` has the single literal `t` and the single name `a` |
| `Sentence.OnlyCandidate` | gbnf_compiler/sentence.py:96-100 | when a literal occurs only at the end of the response, the one candidate ends there |
| `Sentence.LeadingPlaceholderLost` | gbnf_compiler/sentence.py:109-122 | parsing `v + t` against `{{a}}t` gives `a` the empty text as written, and `v` once the leading slot is read |
| `SentenceFill.HeadEnds` | gbnf_compiler/sentence.py:96 | in a filled template each literal occurs ending where the filled text up to it ends |
| `SentenceFill.ValueAt` | gbnf_compiler/sentence.py:120 | the slice from the end of one literal to the start of the next is the value filled in between |
| `SentenceFill.TextsOf` | gbnf_compiler/sentence.py:92 | the non-empty literals of a fillable template are one block of its literals |
| `SentenceFill.TokensOf` | gbnf_compiler/sentence.py:92-93 | the tokens of a fillable template give back its non-empty literals and all its names |
| `SentenceFill.EndsIncreasing` | gbnf_compiler/sentence.py:100 | the literal ends of a filled template strictly ascend |
| `SentenceFill.EndsOccur` | gbnf_compiler/sentence.py:96 | each literal of a filled template occurs ending at its offset |
| `SentenceFill.EndsCandidate` | gbnf_compiler/sentence.py:96-100 | the literal ends of a filled template are one of the candidates |
| `SentenceFill.LeadingSlot` | gbnf_compiler/sentence.py:109-111 | for a template opening with a placeholder, the leading slot of the filled template's candidate is the first value |
| `SentenceFill.GapSlot` | gbnf_compiler/sentence.py:113-121 | every slot after a literal in the filled template's candidate is the value filled there |
| `SentenceFill.GapEnd` | gbnf_compiler/sentence.py:115-120 | a slot's end is where the value filled there ends |
| `SentenceFill.SlotOfEnds` | gbnf_compiler/sentence.py:106-123 | the filled template's candidate slices into exactly the values filled in |
| `SentenceFill.ReadingOfEnds` | gbnf_compiler/sentence.py:126-130 | that reading pairs the names with values of the same total length as those filled in |
| `SentenceFill.PickAtLeast` | gbnf_compiler/sentence.py:126-133 | with distinct names and every reading long enough, the result is keyed by the names and at least as long as any reading |
| `SentenceFill.ParseOfFilled` | gbnf_compiler/sentence.py:91-133 | parsing a filled template picks among the readings of its candidates |
| `SentenceFill.ReadingsLong` | gbnf_compiler/sentence.py:106-123 | every reading of a filled template has a slot for every name |
| `SentenceFill.ParseFindsFilled` | gbnf_compiler/sentence.py:91-133 | parsing a filled template finds a reading keyed by the placeholder names whose values are at least as long in total as those filled in |
| `SentenceBuild.RuleDefinitions` | gbnf_compiler/sentence.py:62-71 | gathering succeeds exactly when no name has two productions, then holds each name's first production in first-seen order; a failure names a conflicting name |
| `SentenceBuild.Build` | gbnf_compiler/sentence.py:33-72 | a constructed compiler keeps the template and rules, holds the template's tokens, and every placeholder names a rule |
| `SentenceBuild.BuildSucceeds` | gbnf_compiler/sentence.py:40-70 | construction succeeds exactly when `}}{{` is absent as written, there is one rule per `{{`, every placeholder names a rule and no name has two productions |
| `SentenceBuild.BuildFailure` | gbnf_compiler/sentence.py:40-70 | an adjacency failure means `}}{{` occurs; a count failure carries the two differing counts; an unknown placeholder is the first one with no rule; a conflict comes from two productions |
| `SentenceBuild.ConflictingProductions` | gbnf_compiler/sentence.py:64-70 | a conflict on a name comes from two different productions of the map with that name |
| `SentenceBuild.AdjacencyWeaker` | gbnf_compiler/sentence.py:40 | a template this compiler refuses for adjacency is refused by the template compiler too |
| `SentenceBuild.AdjacencySpaced` | gbnf_compiler/sentence.py:40 | `}} {{` is refused for adjacency by the template compiler only |
| `SentenceBuild.BuildAssembles` | gbnf_compiler/sentence.py:47-72 | a constructed compiler is the grammar assembled from the checked template and the gathered definitions |
| `SentenceBuild.DefinesEachProduction` | gbnf_compiler/sentence.py:63-67 | the grammar defines the name of every production of the map by that production |
| `SentenceBuild.Assemble` | gbnf_compiler/sentence.py:47-72 | the compiler keeps the template and rules and holds its tokens; the grammar is the body followed by the definitions; when no literal has a backslash and no placeholder's rule name a space, the body reads back into the rule names in order and the non-empty literals in order |
| `SentenceBuild.ParseResponse` | gbnf_compiler/sentence.py:82-133 | the corrected parse of the response against the compiler's template, ties going to the placement `product` yields first; for a template opening with a literal, it is the parse as written |
| `SentenceBuild.ParseFilledTemplate` | gbnf_compiler/sentence.py:82-133 | with the corrected parse, a built compiler parses its template filled with values into a reading keyed by the names, at least as long in total as the values |
| `SentenceBuild.ParseFilledTemplateAsWritten` | gbnf_compiler/sentence.py:82-133 | for a template opening with a literal, the parse as written finds the same: a reading keyed by the names, at least as long in total as the values |
| `Definitions.FirstSeen` | gbnf_compiler/compiler.py:46-51 | keeping each name's first definition gives a dictionary with distinct names |
| `Definitions.FirstSeenOrder` | gbnf_compiler/compiler.py:46-51 | the names are stored in the order they are first met, and each holds the definition of the entry where it is first met |
| `Definitions.FirstSeenNames` | gbnf_compiler/compiler.py:50-51 | every name met gets a definition |
| `Definitions.FirstSeenEntries` | gbnf_compiler/compiler.py:51 | every stored definition is one of those met |
| `Definitions.Collect` | gbnf_compiler/compiler.py:47-54 | the loop over the entries gives a dictionary that keeps every name stored before it, and a failure names a name met in the entries |
| `Definitions.CollectNewName` | gbnf_compiler/compiler.py:50-51 | a name met for the first time is stored, and the loop carries on |
| `Definitions.CollectSameName` | gbnf_compiler/compiler.py:53-54 | a name met again with its stored definition changes nothing; with another definition the loop fails on that name |
| `Definitions.CollectFirstSeen` | gbnf_compiler/compiler.py:47-54 | the loop succeeds exactly when no name has two definitions, and then gives the first-seen definitions |
| `Definitions.CollectConflict` | gbnf_compiler/compiler.py:53-54 | the name the loop fails on has two different definitions |
| `Definitions.Gather` | gbnf_compiler/compiler.py:46-54 | gathering succeeds exactly when no name has two definitions, then gives the first-seen definitions; a failure names a conflict |
| `Definitions.FirstIndex` | gbnf_compiler/compiler.py:49-50 | the first position at which a name is met, or the length when it never is |

## Left out

- `json.loads` (rules.py:33-34, 40-41) is a foreign parser. `compile` of
  the string-list and number-list rules gives `Json(text)`: the text that
  would be handed to it.
- `re.escape`, named groups and DOTALL (compiler.py:76-79) are not
  modelled as a regex engine. The full match is the leftmost-shortest
  split of the response along the literals.
- Python's `re` raises when a group name is not an identifier or is used
  twice. `Compiler.Parse` reports these as `PatternError`. Identifiers are
  approximated as ASCII letters, digits, `_` and any non-ASCII character,
  with no leading digit.
- A template with a stray `{{` or `}}` is refused with `PatternError` by
  `Compiler.Parse`. Its regex behaviour is not modelled.
- `Compiler.Assemble` and `SentenceBuild.Assemble` read the body back
  only when no literal holds a backslash and no rule name a space. The
  body text itself is built for every input.
- `Rules.Compile`: a user-defined rule is modelled with the base class's
  `compile`, which returns the text unchanged. A user subclass that
  overrides `compile` runs code outside the library, and that code is not
  modelled.
- `SentenceBuild.ParseFilledTemplate` states that the reading found is
  at least as long in total as the values, not that it equals them. It
  is stated for the corrected parse. For the parse as written it holds
  only for templates opening with a literal, through
  `SentenceBuild.ParseFilledTemplateAsWritten`.
- The meaning of GBNF productions (character classes, escapes) is not
  modelled. Productions are opaque strings.
- The asserts of the constructors vanish under `python -O`. The model
  always checks them.
- `itertools.product` and `filter` are lazy in the source. The model
  builds the finite list of combinations in the same order (proved
  lexicographic), with no claims about cost. There is no resource ceiling on the product, because
  the source has none.
- `sort_by_longest_values` sorts stably and takes the head. The model
  picks the first dictionary of maximal total length, which is the same
  element.
- The sentence parse returns a dictionary of raw slices: no rule's
  `compile` is applied, as in the source.
- `grammar()` just returns the stored string. The model keeps that string
  as a field of the compiler.
- The `examples/` scripts (HTTP requests to a model server and printing)
  are not part of this model.
- `SentenceFill.ParseFindsFilled` states that the reading found is at
  least as long in total as the values filled in, not that it equals them.
  Another split of the same response may be longer, and the parse then
  rightly prefers it.
- `SentenceFill.ParseFindsFilled` is proved for fillable templates: names
  non-empty and distinct, and a non-empty literal between any two
  placeholders. A placeholder at either end is allowed.
- `PyStr.Split`: the contract does not fix where a separator that
  overlaps itself (`}}}`) is cut. The body cuts at the leftmost
  occurrence, as Python does, and `PyStr.SplitCons` states that step.
- `Compiler.ParseRecovers` is proved for captures that each stop before
  the first occurrence of the literal after them. Other fillings are
  covered by `Compiler.ParseLeast`.

## Findings

| source | as written | input that shows it | evidently intended | confidence | as-written member | corrected member |
|---|---|---|---|---|---|---|
| gbnf_compiler/sentence.py:109-122 | `template_index` starts at 1 when the first literal's end offset is positive. That offset always is positive, so the text before the first literal is never read. For a template that opens with a placeholder, every name is paired with the slot after its own literal, one place too late. | template `{{a}}t` (one rule `a`), response `v + t` with `t` occurring only at its end | `{a: v}`: a leading placeholder takes the text before the first literal. `Sentence.ParseAsWritten` gives `{a: ""}`; `Sentence.Parse`, which the rest of the model uses, reads the leading slot and gives `{a: v}` | not executed | `Sentence.LeadingPlaceholderLost` | `SentenceFill.ParseFindsFilled` |
