/** The sentence compiler: the same grammar from a template and plain
    production strings, and a parse that tries every way of placing the
    template's literals in the response and keeps the reading whose
    placeholder values are longest in total. */
module Sentence {
  import opened Wrappers
  import opened PyStr
  import opened PyDict
  import opened Template
  import opened Decompose

  // ----- Occurrences of a literal -----

  /** The values strictly increase from left to right. */
  predicate Increasing(xs: seq<int>) {
    forall i, j :: 0 <= i < j < |xs| ==> xs[i] < xs[j]
  }

  /** `get_all_occurrence_ends(sub, s)` resumed at `start`: the end offset of
      every occurrence of `sub` that starts at or after `start`, overlapping
      occurrences included, in order. */
  function EndsFrom(sub: string, s: string, start: nat): (r: seq<int>)
    ensures forall e :: e in r <==> start + |sub| <= e && OccursAt(s, sub, e - |sub|)
    ensures Increasing(r)
    decreases |s| + 1 - start
  {
    var i := Find(s, sub, start);
    if i == -1 then []
    else
      var rest := EndsFrom(sub, s, i + 1);
      var r := [i + |sub|] + rest;
      assert forall e :: e in r <==> start + |sub| <= e && OccursAt(s, sub, e - |sub|) by {
        forall e | start + |sub| <= e && OccursAt(s, sub, e - |sub|)
          ensures e in r
        {
          assert e - |sub| >= i;
          if e != i + |sub| {
            assert e in rest;
          }
        }
      }
      assert Increasing(r) by {
        forall j | 0 <= j < |rest|
          ensures i + |sub| < rest[j]
        {
          assert rest[j] in rest;
        }
      }
      r
  }

  /** `get_all_occurrence_ends(sub, s)`: the end offsets of all occurrences. */
  function OccurrenceEnds(sub: string, s: string): (r: seq<int>)
    ensures forall e :: e in r <==> |sub| <= e && OccursAt(s, sub, e - |sub|)
    ensures Increasing(r)
  {
    EndsFrom(sub, s, 0)
  }

  /** `is_ascending_sequence`: compares each value with the one before it,
      which decides whether every pair is in increasing order. */
  method IsAscendingSequence(xs: seq<int>) returns (b: bool)
    ensures b <==> Increasing(xs)
  {
    if |xs| == 0 {
      return true;
    }
    var k := 1;
    while k < |xs|
      invariant 1 <= k <= |xs|
      invariant forall p, q :: 0 <= p < q < k ==> xs[p] < xs[q]
    {
      if xs[k] <= xs[k - 1] {
        return false;
      }
      k := k + 1;
    }
    return true;
  }

  // ----- Total length of the values -----

  /** The sum of the lengths of the strings. */
  function TotalLength(vs: seq<string>): nat {
    if |vs| == 0 then 0 else |vs[0]| + TotalLength(vs[1..])
  }

  /** The sum of the lengths is the length of the strings run together. */
  lemma {:induction false} TotalLengthJoin(vs: seq<string>)
    ensures TotalLength(vs) == |Join("", vs)|
  {
    if |vs| > 1 {
      TotalLengthJoin(vs[1..]);
    }
  }

  /** `get_values_lengths`: the sum of the lengths of a dictionary's values,
      which is the length of the values run together. */
  function ValuesLength(d: Dict<string>): (n: nat)
    ensures n == |Join("", Values(d))|
  {
    TotalLengthJoin(Values(d));
    TotalLength(Values(d))
  }

  /** The position of the first of the largest totals. */
  function LongestIndex(totals: seq<nat>): (k: nat)
    requires |totals| > 0
    ensures k < |totals|
    ensures forall j :: 0 <= j < |totals| ==> totals[j] <= totals[k]
    ensures forall j :: 0 <= j < k ==> totals[j] < totals[k]
  {
    if |totals| == 1 then 0
    else
      var k := 1 + LongestIndex(totals[1..]);
      assert forall j :: 1 <= j < |totals| ==> totals[j] == totals[1..][j - 1];
      if totals[0] >= totals[k] then 0 else k
  }

  /** `sort_by_longest_values`: the first element of a stable sort by
      decreasing total length, which is the first of the dictionaries whose
      values are longest in total; nothing when there is no dictionary. */
  function Longest(ds: seq<Dict<string>>): (r: Option<Dict<string>>)
    ensures r.None? <==> |ds| == 0
    ensures r.Some? ==> exists k :: && 0 <= k < |ds| && r.value == ds[k]
                                    && (forall j :: 0 <= j < |ds| ==> ValuesLength(ds[j]) <= ValuesLength(ds[k]))
                                    && (forall j :: 0 <= j < k ==> ValuesLength(ds[j]) < ValuesLength(ds[k]))
  {
    if |ds| == 0 then None
    else
      var totals := seq(|ds|, i requires 0 <= i < |ds| => ValuesLength(ds[i]));
      var k := LongestIndex(totals);
      assert forall j :: 0 <= j < |ds| ==> totals[j] == ValuesLength(ds[j]);
      Some(ds[k])
  }

  /** The position of the dictionary `Longest` returns. */
  lemma LongestAt(ds: seq<Dict<string>>) returns (k: nat)
    requires |ds| > 0
    ensures k < |ds| && Longest(ds) == Some(ds[k])
    ensures forall j :: 0 <= j < k ==> ValuesLength(ds[j]) < ValuesLength(ds[k])
  {
    k :| && 0 <= k < |ds| && Longest(ds).value == ds[k]
         && forall j :: 0 <= j < k ==> ValuesLength(ds[j]) < ValuesLength(ds[k]);
  }

  // ----- Lexicographic order of combinations -----

  /** `a` comes before `b` in lexicographic order: at the first position
      where they differ, `a` holds the smaller value. */
  predicate LexLess(a: seq<int>, b: seq<int>)
    decreases |a|
  {
    |a| > 0 && |b| > 0 && (a[0] < b[0] || (a[0] == b[0] && LexLess(a[1..], b[1..])))
  }

  /** The combinations are listed in strictly increasing lexicographic order. */
  predicate LexSorted(ts: seq<seq<int>>) {
    forall i, j :: 0 <= i < j < |ts| ==> LexLess(ts[i], ts[j])
  }

  /** `r` is `ts` with some entries left out and the others kept in order. */
  predicate Subsequence<T(==)>(r: seq<T>, ts: seq<T>)
    decreases |ts|
  {
    |r| == 0 || (|ts| > 0 && ((r[0] == ts[0] && Subsequence(r[1..], ts[1..])) || Subsequence(r, ts[1..])))
  }

  lemma {:induction false} LexTransitive(a: seq<int>, b: seq<int>, c: seq<int>)
    requires LexLess(a, b) && LexLess(b, c)
    ensures LexLess(a, c)
    decreases |a|
  {
    if a[0] == b[0] && b[0] == c[0] {
      LexTransitive(a[1..], b[1..], c[1..]);
    }
  }

  lemma {:induction false} LexAsymmetric(a: seq<int>, b: seq<int>)
    requires LexLess(a, b)
    ensures !LexLess(b, a)
    decreases |a|
  {
    if a[0] == b[0] {
      LexAsymmetric(a[1..], b[1..]);
    }
  }

  /** Two different combinations of the same length are ordered one way or
      the other. */
  lemma {:induction false} LexTotal(a: seq<int>, b: seq<int>)
    requires |a| == |b| && a != b
    ensures LexLess(a, b) || LexLess(b, a)
    decreases |a|
  {
    if a[0] == b[0] {
      assert a[1..] != b[1..] by {
        assert a == [a[0]] + a[1..] && b == [b[0]] + b[1..];
      }
      LexTotal(a[1..], b[1..]);
    }
  }

  /** The same value in front keeps the order of the tails. */
  lemma LexCons(x: int, a: seq<int>, b: seq<int>)
    requires LexLess(a, b)
    ensures LexLess([x] + a, [x] + b)
  {
    assert ([x] + a)[1..] == a && ([x] + b)[1..] == b;
  }

  /** Two sorted lists, every entry of the first before every entry of the
      second, make a sorted list. */
  lemma SortedConcat(u: seq<seq<int>>, v: seq<seq<int>>)
    requires LexSorted(u) && LexSorted(v)
    requires forall a, b :: a in u && b in v ==> LexLess(a, b)
    ensures LexSorted(u + v)
  {
    forall i, j | 0 <= i < j < |u + v|
      ensures LexLess((u + v)[i], (u + v)[j])
    {
      if j < |u| {
        assert (u + v)[i] == u[i] && (u + v)[j] == u[j];
      } else if i >= |u| {
        assert (u + v)[i] == v[i - |u|] && (u + v)[j] == v[j - |u|];
      } else {
        assert (u + v)[i] in u && (u + v)[j] in v;
      }
    }
  }

  // ----- Combinations of occurrences -----

  /** `x` put in front of every tuple of `ts`, in order. */
  function Front(x: int, ts: seq<seq<int>>): (f: seq<seq<int>>)
    ensures forall t :: t in f <==> |t| > 0 && t[0] == x && t[1..] in ts
  {
    var f := seq(|ts|, i requires 0 <= i < |ts| => [x] + ts[i]);
    assert forall t :: t in f <==> |t| > 0 && t[0] == x && t[1..] in ts by {
      forall t | |t| > 0 && t[0] == x && t[1..] in ts
        ensures t in f
      {
        var i :| 0 <= i < |ts| && ts[i] == t[1..];
        assert f[i] == t;
      }
    }
    f
  }

  /** Every `x` of `xs` put in front of every tuple of `ts`, in that order:
      the tuples whose head is in `xs` and whose tail is in `ts`. */
  function Prefixed(xs: seq<int>, ts: seq<seq<int>>): (r: seq<seq<int>>)
    ensures forall t :: t in r <==> |t| > 0 && t[0] in xs && t[1..] in ts
    decreases |xs|
  {
    if |xs| == 0 then [] else Front(xs[0], ts) + Prefixed(xs[1..], ts)
  }

  /** `itertools.product(*lists)`: one value from each list, the last list
      varying fastest; one empty tuple for no lists. It holds exactly the
      tuples taking one value from each list. */
  function Product(lists: seq<seq<int>>): (r: seq<seq<int>>)
    ensures forall t :: t in r <==> |t| == |lists| && forall k :: 0 <= k < |lists| ==> t[k] in lists[k]
    decreases |lists|
  {
    if |lists| == 0 then [[]]
    else
      var rest := Product(lists[1..]);
      var r := Prefixed(lists[0], rest);
      assert forall t :: t in r <==> |t| == |lists| && forall k :: 0 <= k < |lists| ==> t[k] in lists[k] by {
        forall t
          ensures t in r <==> |t| == |lists| && forall k :: 0 <= k < |lists| ==> t[k] in lists[k]
        {
          if |t| == |lists| {
            assert forall k :: 0 <= k < |lists[1..]| ==> t[1..][k] == t[k + 1] && lists[1..][k] == lists[k + 1];
          }
        }
      }
      r
  }

  /** `filter(is_ascending_sequence, ts)`, order kept: exactly the
      increasing tuples of `ts`. */
  function KeepIncreasing(ts: seq<seq<int>>): (r: seq<seq<int>>)
    ensures forall t :: t in r <==> t in ts && Increasing(t)
  {
    if |ts| == 0 then []
    else
      assert ts == [ts[0]] + ts[1..];
      (if Increasing(ts[0]) then [ts[0]] else []) + KeepIncreasing(ts[1..])
  }

  /** A value put in front of a sorted list of tuples keeps it sorted. */
  lemma FrontSorted(x: int, ts: seq<seq<int>>)
    requires LexSorted(ts)
    ensures LexSorted(Front(x, ts))
  {
    var f := Front(x, ts);
    forall i, j | 0 <= i < j < |f|
      ensures LexLess(f[i], f[j])
    {
      LexCons(x, ts[i], ts[j]);
    }
  }

  /** With increasing heads and sorted tails, the prefixed tuples come in
      lexicographic order: the tuples of one head precede those of every
      later, larger head. */
  lemma {:induction false} PrefixedSorted(xs: seq<int>, ts: seq<seq<int>>)
    requires Increasing(xs) && LexSorted(ts)
    ensures LexSorted(Prefixed(xs, ts))
    decreases |xs|
  {
    if |xs| > 0 {
      var front, rest := Front(xs[0], ts), Prefixed(xs[1..], ts);
      FrontSorted(xs[0], ts);
      PrefixedSorted(xs[1..], ts);
      forall a, b | a in front && b in rest
        ensures LexLess(a, b)
      {
        var k :| 0 <= k < |xs[1..]| && xs[1..][k] == b[0];
        assert xs[0] < xs[k + 1];
      }
      SortedConcat(front, rest);
    }
  }

  /** When every list increases, the product lists its tuples in strictly
      increasing lexicographic order, the first list varying slowest. */
  lemma {:induction false} ProductSorted(lists: seq<seq<int>>)
    requires forall k :: 0 <= k < |lists| ==> Increasing(lists[k])
    ensures LexSorted(Product(lists))
    decreases |lists|
  {
    if |lists| > 0 {
      assert forall k :: 0 <= k < |lists[1..]| ==> lists[1..][k] == lists[k + 1];
      ProductSorted(lists[1..]);
      PrefixedSorted(lists[0], Product(lists[1..]));
    }
  }

  /** The filter keeps the tuples in their order: its result is a
      subsequence of its input. */
  lemma {:induction false} KeepIncreasingSubsequence(ts: seq<seq<int>>)
    ensures Subsequence(KeepIncreasing(ts), ts)
    decreases |ts|
  {
    if |ts| > 0 {
      KeepIncreasingSubsequence(ts[1..]);
      var r := KeepIncreasing(ts);
      if Increasing(ts[0]) {
        assert r[0] == ts[0] && r[1..] == KeepIncreasing(ts[1..]);
      } else {
        assert r == KeepIncreasing(ts[1..]);
      }
    }
  }

  /** The filter of a sorted list of tuples is sorted. */
  lemma {:induction false} KeepIncreasingSorted(ts: seq<seq<int>>)
    requires LexSorted(ts)
    ensures LexSorted(KeepIncreasing(ts))
    decreases |ts|
  {
    if |ts| > 0 {
      var rest := KeepIncreasing(ts[1..]);
      forall i, j | 0 <= i < j < |ts[1..]|
        ensures LexLess(ts[1..][i], ts[1..][j])
      {
        assert ts[1..][i] == ts[i + 1] && ts[1..][j] == ts[j + 1];
      }
      KeepIncreasingSorted(ts[1..]);
      if Increasing(ts[0]) {
        forall a, b | a in [ts[0]] && b in rest
          ensures LexLess(a, b)
        {
          var q :| 0 <= q < |ts[1..]| && ts[1..][q] == b;
          assert ts[q + 1] == b;
        }
        SortedConcat([ts[0]], rest);
      }
    }
  }

  /** The combinations of literal end offsets the parse reads: one
      occurrence end per literal, in increasing order. */
  function Candidates(texts: seq<string>, response: string): (r: seq<seq<int>>)
    ensures forall t :: t in r ==> |t| == |texts|
  {
    KeepIncreasing(Product(EndLists(texts, response)))
  }

  /** The occurrence ends of each literal, one list per literal. */
  function EndLists(texts: seq<string>, response: string): (lists: seq<seq<int>>)
    ensures |lists| == |texts|
    ensures forall k :: 0 <= k < |texts| ==> lists[k] == OccurrenceEnds(texts[k], response)
  {
    seq(|texts|, k requires 0 <= k < |texts| => OccurrenceEnds(texts[k], response))
  }

  /** The combinations come in strictly increasing lexicographic order, the
      order in which `product` yields them and `filter` keeps them. */
  lemma CandidatesSorted(texts: seq<string>, response: string)
    ensures LexSorted(Candidates(texts, response))
  {
    var lists := EndLists(texts, response);
    ProductSorted(lists);
    KeepIncreasingSorted(Product(lists));
  }

  /** The combination ends an occurrence of each literal, in increasing
      order. */
  predicate Placement(texts: seq<string>, response: string, t: seq<int>) {
    && |t| == |texts| && Increasing(t)
    && forall k :: 0 <= k < |texts| ==> |texts[k]| <= t[k] && OccursAt(response, texts[k], t[k] - |texts[k]|)
  }

  /** A combination is read exactly when it places each literal, in
      increasing order. */
  lemma CandidatesMember(texts: seq<string>, response: string, t: seq<int>)
    ensures t in Candidates(texts, response) <==> Placement(texts, response, t)
  {
  }

  // ----- Reading the placeholder values -----

  /** The text after each literal end, up to the start of the next literal
      (or the end of the response), where the literal subtracted for the
      `j`-th end is `texts[ti + j]`. */
  function Gaps(response: string, texts: seq<string>, ends: seq<int>, ti: nat): (r: seq<string>)
    requires ti + |ends| <= |texts|
    ensures |r| == |ends|
  {
    seq(|ends|, j requires 0 <= j < |ends| =>
      Slice(response, ends[j], (if j + 1 < |ends| then ends[j + 1] else |response|) - |texts[ti + j]|))
  }

  /** The number of slots read before the first literal. */
  function LeadSlots(leading: bool): nat {
    if leading then 1 else 0
  }

  /** Where the slot after the `j`-th literal ends: at the start of the next
      literal, or at the end of the response after the last one. */
  function NextStart(response: string, texts: seq<string>, ends: seq<int>, j: nat): int
    requires |ends| == |texts| && j < |ends|
  {
    if j + 1 < |ends| then ends[j + 1] - |texts[j + 1]| else |response|
  }

  /** The slots the parse reads for one combination, as written: the
      literal index starts at 1 whenever the first end is positive, which
      it always is, so slot `j` is the text after the `j`-th literal. A
      placeholder before the first literal is never read: these are the
      corrected slots without a leading one. */
  function SlotsAsWritten(response: string, texts: seq<string>, ends: seq<int>): (r: seq<string>)
    requires |ends| == |texts| >= 1
    ensures |r| == |texts|
    ensures ends[0] > 0 ==> r == Slots(response, texts, ends, false)
  {
    var ti := if ends[0] > 0 then 1 else 0;
    Gaps(response, texts + [""], ends, ti)
  }

  /** The slots the parse evidently means to read: when the template opens
      with a placeholder, its value is the text before the first literal;
      then the text after each literal, up to the start of the next literal
      or the end of the response. */
  function Slots(response: string, texts: seq<string>, ends: seq<int>, leading: bool): (r: seq<string>)
    requires |ends| == |texts| >= 1
    ensures |r| == |texts| + LeadSlots(leading)
    ensures leading ==> r[0] == Slice(response, 0, ends[0] - |texts[0]|)
    ensures forall i :: LeadSlots(leading) <= i < |r| ==>
              r[i] == Slice(response, ends[i - LeadSlots(leading)], NextStart(response, texts, ends, i - LeadSlots(leading)))
  {
    var lead := if leading then [Slice(response, 0, ends[0] - |texts[0]|)] else [];
    GapsAt(response, texts, ends, lead);
    lead + Gaps(response, texts + [""], ends, 1)
  }

  /** The gaps read with the literal index starting at 1 run from each
      literal end to the start of the next literal, whatever comes before
      them. */
  lemma GapsAt(response: string, texts: seq<string>, ends: seq<int>, lead: seq<string>)
    requires |ends| == |texts| >= 1
    ensures forall i :: |lead| <= i < |lead| + |ends| ==>
              (lead + Gaps(response, texts + [""], ends, 1))[i]
                == Slice(response, ends[i - |lead|], NextStart(response, texts, ends, i - |lead|))
  {
    var r := lead + Gaps(response, texts + [""], ends, 1);
    forall i | |lead| <= i < |lead| + |ends|
      ensures r[i] == Slice(response, ends[i - |lead|], NextStart(response, texts, ends, i - |lead|))
    {
      var j := i - |lead|;
      assert r[i] == Gaps(response, texts + [""], ends, 1)[j];
      assert (texts + [""])[1 + j] == if j + 1 < |texts| then texts[j + 1] else "";
    }
  }

  /** What `parse` comes to: it fails with an `IndexError`, finds no
      combination (`None`), or returns the dictionary of longest values. */
  datatype Outcome = Crash | NoCandidate | Best(values: Dict<string>)

  /** The readings of all combinations, as dictionaries from the names to
      the slots, and the longest of them; the dictionary comprehension
      fails on a reading with fewer slots than names. No reading gives no
      candidate; otherwise the result is the first reading whose values are
      longest in total. */
  function Pick(names: seq<string>, readings: seq<seq<string>>): (r: Outcome)
    ensures r.NoCandidate? <==> |readings| == 0
    ensures r.Crash? <==> exists i :: 0 <= i < |readings| && |readings[i]| < |names|
    ensures r.Best? ==>
              exists i :: && 0 <= i < |readings| && |names| <= |readings[i]|
                          && r.values == FromPairs(names, readings[i])
                          && (forall j :: 0 <= j < |readings| ==> ValuesLength(FromPairs(names, readings[j])) <= ValuesLength(r.values))
  {
    if |readings| == 0 then NoCandidate
    else if exists i :: 0 <= i < |readings| && |readings[i]| < |names| then Crash
    else Best(Longest(Dicts(names, readings)).value)
  }

  /** Each reading as a dictionary from the names to its slots. */
  function Dicts(names: seq<string>, readings: seq<seq<string>>): (ds: seq<Dict<string>>)
    requires forall j :: 0 <= j < |readings| ==> |names| <= |readings[j]|
    ensures |ds| == |readings|
    ensures forall j :: 0 <= j < |readings| ==> ds[j] == FromPairs(names, readings[j])
  {
    seq(|readings|, i requires 0 <= i < |readings| => FromPairs(names, readings[i]))
  }

  /** The as-written reading of each combination. */
  function ReadingsAsWritten(response: string, texts: seq<string>, cands: seq<seq<int>>): (rs: seq<seq<string>>)
    requires |texts| >= 1 && forall c :: c in cands ==> |c| == |texts|
    ensures |rs| == |cands|
  {
    seq(|cands|, i requires 0 <= i < |cands| => SlotsAsWritten(response, texts, cands[i]))
  }

  /** The corrected reading of each combination. */
  function Readings(response: string, texts: seq<string>, cands: seq<seq<int>>, leading: bool): (rs: seq<seq<string>>)
    requires |texts| >= 1 && forall c :: c in cands ==> |c| == |texts|
    ensures |rs| == |cands|
  {
    seq(|cands|, i requires 0 <= i < |cands| => Slots(response, texts, cands[i], leading))
  }

  /** On ties the first reading wins: the chosen reading is one whose every
      predecessor is shorter in total. */
  lemma PickFirstLongest(names: seq<string>, readings: seq<seq<string>>)
    ensures Pick(names, readings).Best? ==>
              exists i :: && 0 <= i < |readings| && |names| <= |readings[i]|
                          && Pick(names, readings).values == FromPairs(names, readings[i])
                          && forall j :: 0 <= j < i ==> ValuesLength(FromPairs(names, readings[j])) < ValuesLength(Pick(names, readings).values)
  {
    if Pick(names, readings).Best? {
      assert !Pick(names, readings).Crash?;
      var ds := Dicts(names, readings);
      var k := LongestAt(ds);
      assert Pick(names, readings).values == ds[k];
    }
  }

  /** The outcome of reading `response` against the non-empty literals
      `texts` and the placeholder names, stated without combinations: no
      literal fails; no placement of the literals finds nothing; placements
      with fewer slots than names fail; otherwise the values are those read
      at some placement, no placement reads values longer in total, and
      every placement lexicographically before it reads values strictly
      shorter in total (on ties the first combination `product` yields
      wins). */
  ghost predicate Chosen(texts: seq<string>, names: seq<string>, response: string, leading: bool, r: Outcome) {
    if |texts| == 0 then r.Crash?
    else if !exists c :: Placement(texts, response, c) then r.NoCandidate?
    else if |texts| + LeadSlots(leading) < |names| then r.Crash?
    else r.Best? && exists c :: BestAt(texts, names, response, leading, r.values, c)
  }

  /** `values` are the names paired with the slots of placement `c`; no
      placement reads values longer in total, and every placement
      lexicographically before `c` reads values strictly shorter. */
  ghost predicate BestAt(texts: seq<string>, names: seq<string>, response: string, leading: bool, values: Dict<string>, c: seq<int>)
    requires |texts| >= 1 && |names| <= |texts| + LeadSlots(leading)
  {
    && Placement(texts, response, c)
    && values == FromPairs(names, Slots(response, texts, c, leading))
    && (forall c' :: Placement(texts, response, c') ==>
          ValuesLength(FromPairs(names, Slots(response, texts, c', leading))) <= ValuesLength(values))
    && forall c' :: Placement(texts, response, c') && LexLess(c', c) ==>
         ValuesLength(FromPairs(names, Slots(response, texts, c', leading))) < ValuesLength(values)
  }

  /** The outcome is determined: no two outcomes satisfy the description. */
  lemma ChosenUnique(texts: seq<string>, names: seq<string>, response: string, leading: bool, r1: Outcome, r2: Outcome)
    requires Chosen(texts, names, response, leading, r1) && Chosen(texts, names, response, leading, r2)
    ensures r1 == r2
  {
    if |texts| > 0 && (exists c :: Placement(texts, response, c)) && |names| <= |texts| + LeadSlots(leading) {
      var c1 :| BestAt(texts, names, response, leading, r1.values, c1);
      var c2 :| BestAt(texts, names, response, leading, r2.values, c2);
      if c1 != c2 {
        LexTotal(c1, c2);
        assert false;
      }
    }
  }

  /** `parse(response)` as written, over the template's tokens. With no
      non-empty literal, `product()` yields one empty combination, whose
      first element does not exist. It reads the response as the corrected
      parse would for a template without a leading placeholder. */
  function ParseAsWritten(tokens: seq<string>, response: string): (r: Outcome)
    ensures Chosen(NonEmpty(Evens(tokens)), NonEmpty(Odds(tokens)), response, false, r)
  {
    var texts := NonEmpty(Evens(tokens));
    if |texts| == 0 then Crash
    else
      assert texts[0] in texts;
      AsWrittenReadings(response, texts);
      PickChosen(texts, NonEmpty(Odds(tokens)), response, false);
      Pick(NonEmpty(Odds(tokens)), ReadingsAsWritten(response, texts, Candidates(texts, response)))
  }

  /** `parse(response)` with the first placeholder read when the template
      opens with one. */
  function Parse(tokens: seq<string>, response: string): (r: Outcome)
    requires |tokens| >= 1
    ensures Chosen(NonEmpty(Evens(tokens)), NonEmpty(Odds(tokens)), response, tokens[0] == "", r)
  {
    var texts := NonEmpty(Evens(tokens));
    if |texts| == 0 then Crash
    else
      PickChosen(texts, NonEmpty(Odds(tokens)), response, tokens[0] == "");
      Pick(NonEmpty(Odds(tokens)), Readings(response, texts, Candidates(texts, response), tokens[0] == ""))
  }

  /** Picking among the readings of all combinations meets the declarative
      description. */
  lemma PickChosen(texts: seq<string>, names: seq<string>, response: string, leading: bool)
    requires |texts| >= 1
    ensures Chosen(texts, names, response, leading, Pick(names, Readings(response, texts, Candidates(texts, response), leading)))
  {
    var cands := Candidates(texts, response);
    var rs := Readings(response, texts, cands, leading);
    CandidatesAll(texts, response);
    if |cands| > 0 {
      assert Placement(texts, response, cands[0]) by {
        assert cands[0] in cands;
      }
      if |texts| + LeadSlots(leading) < |names| {
        assert |rs[0]| < |names|;
      } else {
        PickBest(texts, names, response, leading);
      }
    }
  }

  /** When some placement has slots enough for the names, the pick is the
      reading of a placement that no placement reads longer than. */
  lemma PickBest(texts: seq<string>, names: seq<string>, response: string, leading: bool)
    requires |texts| >= 1 && |Candidates(texts, response)| > 0 && |names| <= |texts| + LeadSlots(leading)
    ensures var r := Pick(names, Readings(response, texts, Candidates(texts, response), leading));
            r.Best? && exists c :: BestAt(texts, names, response, leading, r.values, c)
  {
    var cands := Candidates(texts, response);
    var rs := Readings(response, texts, cands, leading);
    assert forall j :: 0 <= j < |rs| ==> |names| <= |rs[j]| by {
      forall j | 0 <= j < |rs|
        ensures |names| <= |rs[j]|
      {
        ReadingAt(response, texts, cands, leading, j);
      }
    }
    var i := PickFirstIndex(names, rs);
    var v := Pick(names, rs).values;
    assert BestAt(texts, names, response, leading, v, cands[i]) by {
      CandidatesMember(texts, response, cands[i]);
      ReadingAt(response, texts, cands, leading, i);
      NoLongerPlacement(texts, names, response, leading, v);
      NoEarlierPlacement(texts, names, response, leading, i, v);
    }
  }

  /** Values strictly longer than every reading before the `i`-th are
      strictly longer than the reading of every placement lexicographically
      before the `i`-th combination. */
  lemma NoEarlierPlacement(texts: seq<string>, names: seq<string>, response: string, leading: bool, i: nat, v: Dict<string>)
    requires |texts| >= 1 && |names| <= |texts| + LeadSlots(leading) && i < |Candidates(texts, response)|
    requires var rs := Readings(response, texts, Candidates(texts, response), leading);
             forall j :: 0 <= j < i ==> ValuesLength(FromPairs(names, rs[j])) < ValuesLength(v)
    ensures forall c' :: Placement(texts, response, c') && LexLess(c', Candidates(texts, response)[i]) ==>
              ValuesLength(FromPairs(names, Slots(response, texts, c', leading))) < ValuesLength(v)
  {
    var cands := Candidates(texts, response);
    forall c' | Placement(texts, response, c') && LexLess(c', cands[i])
      ensures ValuesLength(FromPairs(names, Slots(response, texts, c', leading))) < ValuesLength(v)
    {
      var j := EarlierCandidate(texts, response, i, c');
      ReadingAt(response, texts, cands, leading, j);
    }
  }

  /** A placement lexicographically before the `i`-th combination is an
      earlier combination. */
  lemma EarlierCandidate(texts: seq<string>, response: string, i: nat, c: seq<int>) returns (j: nat)
    requires i < |Candidates(texts, response)|
    requires Placement(texts, response, c) && LexLess(c, Candidates(texts, response)[i])
    ensures j < i && Candidates(texts, response)[j] == c
  {
    var cands := Candidates(texts, response);
    CandidatesMember(texts, response, c);
    j := PositionOf(cands, c);
    if j == i {
      LexAsymmetric(c, c);
      assert false;
    } else if j > i {
      CandidatesSorted(texts, response);
      assert LexLess(cands[i], c);
      LexAsymmetric(c, cands[i]);
      assert false;
    }
  }

  /** Values at least as long as every reading are at least as long as the
      reading of every placement. */
  lemma NoLongerPlacement(texts: seq<string>, names: seq<string>, response: string, leading: bool, v: Dict<string>)
    requires |texts| >= 1 && |names| <= |texts| + LeadSlots(leading)
    requires var rs := Readings(response, texts, Candidates(texts, response), leading);
             forall j :: 0 <= j < |rs| ==> ValuesLength(FromPairs(names, rs[j])) <= ValuesLength(v)
    ensures forall c' :: Placement(texts, response, c') ==>
              ValuesLength(FromPairs(names, Slots(response, texts, c', leading))) <= ValuesLength(v)
  {
    var cands := Candidates(texts, response);
    forall c' | Placement(texts, response, c')
      ensures ValuesLength(FromPairs(names, Slots(response, texts, c', leading))) <= ValuesLength(v)
    {
      CandidatesMember(texts, response, c');
      var j := PositionOf(cands, c');
      ReadingAt(response, texts, cands, leading, j);
    }
  }

  /** A position at which a member of a sequence sits. */
  lemma PositionOf<T>(s: seq<T>, x: T) returns (j: nat)
    requires x in s
    ensures j < |s| && s[j] == x
  {
    j :| j < |s| && s[j] == x;
  }

  /** The `j`-th reading is the slots of the `j`-th combination. */
  lemma ReadingAt(response: string, texts: seq<string>, cands: seq<seq<int>>, leading: bool, j: nat)
    requires |texts| >= 1 && (forall c :: c in cands ==> |c| == |texts|) && j < |cands|
    ensures Readings(response, texts, cands, leading)[j] == Slots(response, texts, cands[j], leading)
  {
  }

  /** The position of the reading the pick returns, when every reading is
      long enough for the names. */
  lemma PickIndex(names: seq<string>, rs: seq<seq<string>>) returns (i: nat)
    requires |rs| > 0 && forall j :: 0 <= j < |rs| ==> |names| <= |rs[j]|
    ensures i < |rs| && Pick(names, rs).Best?
    ensures Pick(names, rs).values == FromPairs(names, rs[i])
    ensures forall j :: 0 <= j < |rs| ==> ValuesLength(FromPairs(names, rs[j])) <= ValuesLength(Pick(names, rs).values)
  {
    i :| && 0 <= i < |rs| && |names| <= |rs[i]|
         && Pick(names, rs).values == FromPairs(names, rs[i])
         && forall j :: 0 <= j < |rs| ==> ValuesLength(FromPairs(names, rs[j])) <= ValuesLength(Pick(names, rs).values);
  }

  /** The position of the reading the pick returns, when every reading is
      long enough for the names: the first of the longest. */
  lemma PickFirstIndex(names: seq<string>, rs: seq<seq<string>>) returns (i: nat)
    requires |rs| > 0 && forall j :: 0 <= j < |rs| ==> |names| <= |rs[j]|
    ensures i < |rs| && Pick(names, rs).Best?
    ensures Pick(names, rs).values == FromPairs(names, rs[i])
    ensures forall j :: 0 <= j < |rs| ==> ValuesLength(FromPairs(names, rs[j])) <= ValuesLength(Pick(names, rs).values)
    ensures forall j :: 0 <= j < i ==> ValuesLength(FromPairs(names, rs[j])) < ValuesLength(Pick(names, rs).values)
  {
    assert Pick(names, rs).Best?;
    PickFirstLongest(names, rs);
    i :| && 0 <= i < |rs| && Pick(names, rs).values == FromPairs(names, rs[i])
         && forall j :: 0 <= j < i ==> ValuesLength(FromPairs(names, rs[j])) < ValuesLength(Pick(names, rs).values);
  }

  /** The combinations are exactly the placements. */
  lemma CandidatesAll(texts: seq<string>, response: string)
    ensures forall t :: t in Candidates(texts, response) <==> Placement(texts, response, t)
  {
    forall t
      ensures t in Candidates(texts, response) <==> Placement(texts, response, t)
    {
      CandidatesMember(texts, response, t);
    }
  }

  /** Every combination ends its first literal at a positive offset, so the
      as-written readings are the corrected ones without a leading slot. */
  lemma AsWrittenReadings(response: string, texts: seq<string>)
    requires |texts| >= 1 && texts[0] != ""
    ensures ReadingsAsWritten(response, texts, Candidates(texts, response)) == Readings(response, texts, Candidates(texts, response), false)
  {
    var cands := Candidates(texts, response);
    forall i | 0 <= i < |cands|
      ensures SlotsAsWritten(response, texts, cands[i]) == Slots(response, texts, cands[i], false)
    {
      CandidatesMember(texts, response, cands[i]);
    }
  }

  /** For a template that opens with a literal, the parse as written and the
      corrected parse agree. */
  lemma AsWrittenAgrees(tokens: seq<string>, response: string)
    requires |tokens| >= 1 && tokens[0] != ""
    ensures ParseAsWritten(tokens, response) == Parse(tokens, response)
  {
    var texts := NonEmpty(Evens(tokens));
    if |texts| > 0 {
      assert texts[0] in texts;
      AsWrittenReadings(response, texts);
    }
  }

  // ----- The first placeholder is lost -----

  /** When there is a reading and every reading is the same, long enough
      for the names, that reading is the result. */
  lemma PickUniform(names: seq<string>, readings: seq<seq<string>>, w: seq<string>)
    requires |readings| > 0 && |w| >= |names|
    requires forall i :: 0 <= i < |readings| ==> readings[i] == w
    ensures Pick(names, readings) == Best(FromPairs(names, w))
  {
  }

  /** When every combination is read the same way, the parse as written
      returns that reading. */
  lemma AsWrittenUniform(tokens: seq<string>, response: string, w: seq<string>)
    requires |NonEmpty(Evens(tokens))| > 0 && |Candidates(NonEmpty(Evens(tokens)), response)| > 0
    requires forall c :: c in Candidates(NonEmpty(Evens(tokens)), response) ==> SlotsAsWritten(response, NonEmpty(Evens(tokens)), c) == w
    requires |w| >= |NonEmpty(Odds(tokens))|
    ensures ParseAsWritten(tokens, response) == Best(FromPairs(NonEmpty(Odds(tokens)), w))
  {
    var texts := NonEmpty(Evens(tokens));
    var cands := Candidates(texts, response);
    var rs := ReadingsAsWritten(response, texts, cands);
    assert forall i :: 0 <= i < |rs| ==> rs[i] == w by {
      forall i | 0 <= i < |rs|
        ensures rs[i] == w
      {
        assert cands[i] in cands;
      }
    }
    PickUniform(NonEmpty(Odds(tokens)), rs, w);
  }

  /** When every combination is read the same way, the parse returns that
      reading. */
  lemma ParseUniform(tokens: seq<string>, response: string, w: seq<string>)
    requires |tokens| >= 1
    requires |NonEmpty(Evens(tokens))| > 0 && |Candidates(NonEmpty(Evens(tokens)), response)| > 0
    requires forall c :: c in Candidates(NonEmpty(Evens(tokens)), response) ==> Slots(response, NonEmpty(Evens(tokens)), c, tokens[0] == "") == w
    requires |w| >= |NonEmpty(Odds(tokens))|
    ensures Parse(tokens, response) == Best(FromPairs(NonEmpty(Odds(tokens)), w))
  {
    var texts := NonEmpty(Evens(tokens));
    var cands := Candidates(texts, response);
    var rs := Readings(response, texts, cands, tokens[0] == "");
    assert forall i :: 0 <= i < |rs| ==> rs[i] == w by {
      forall i | 0 <= i < |rs|
        ensures rs[i] == w
      {
        assert cands[i] in cands;
      }
    }
    PickUniform(NonEmpty(Odds(tokens)), rs, w);
  }

  /** The template `{{a}}t` filled with a value `v` in which `t` does not
      occur before the end reads back, as written, as `a = ""`: the only
      combination ends the literal at the end of the response, the literal
      index starts at 1, and the one slot read is the empty text after the
      literal. The corrected reading gives back `v`. */
  lemma LeadingPlaceholderLost(a: string, v: string, t: string)
    requires a != "" && t != ""
    requires Find(v + t, t, 0) == |v|
    ensures ParseAsWritten(["", a, t], v + t) == Best([(a, "")])
    ensures Parse(["", a, t], v + t) == Best([(a, v)])
  {
    var tokens := ["", a, t];
    var r := v + t;
    assert NonEmpty(Evens(tokens)) == [t] && NonEmpty(Odds(tokens)) == [a] by {
      SingleTemplateParts(a, t);
    }
    assert |Candidates([t], r)| > 0 && forall c :: c in Candidates([t], r) ==> c == [|r|] by {
      OnlyCandidate(t, r);
      assert [|r|] in Candidates([t], r);
    }
    assert SlotsAsWritten(r, [t], [|r|]) == [""] && Slots(r, [t], [|r|], true) == [v, ""] by {
      SlotsAtEnd(v, t);
    }
    AsWrittenUniform(tokens, r, [""]);
    ParseUniform(tokens, r, [v, ""]);
    assert FromPairs([a], [""]) == [(a, "")] && FromPairs([a], [v, ""]) == [(a, v)] by {
      assert [a][..0] == [];
    }
  }

  /** With the one literal ending the response, the as-written slot is the
      empty text after it and the leading slot is the text before it. */
  lemma SlotsAtEnd(v: string, t: string)
    requires t != ""
    ensures SlotsAsWritten(v + t, [t], [|v + t|]) == [""]
    ensures Slots(v + t, [t], [|v + t|], true) == [v, ""]
  {
    var r := v + t;
    assert Gaps(r, [t, ""], [|r|], 1) == [Slice(r, |r|, |r| - 0)];
    assert r[0..|r| - |t|] == v;
  }

  lemma SingleTemplateParts(a: string, t: string)
    requires a != "" && t != ""
    ensures NonEmpty(Evens(["", a, t])) == [t] && NonEmpty(Odds(["", a, t])) == [a]
  {
    EvensOddsCons("", a, [t]);
    NonEmptyCons("", [t]);
    NonEmptyCons(t, []);
    NonEmptyCons(a, []);
  }

  /** A literal found only at the end of the response ends there, and the
      one combination of it is that end. */
  lemma OnlyCandidate(t: string, r: string)
    requires t != "" && |t| <= |r| && Find(r, t, 0) == |r| - |t|
    ensures forall c :: c in Candidates([t], r) <==> c == [|r|]
  {
    forall c: seq<int>
      ensures c in Candidates([t], r) <==> c == [|r|]
    {
      OnlyCandidateAt(t, r, c);
    }
  }

  lemma OnlyCandidateAt(t: string, r: string, c: seq<int>)
    requires t != "" && |t| <= |r| && Find(r, t, 0) == |r| - |t|
    ensures c in Candidates([t], r) <==> c == [|r|]
  {
    CandidatesMember([t], r, c);
    SinglePlacement(t, r, c);
    if |c| == 1 {
      OnlyOccurrence(t, r, c[0] - |t|);
      assert c == [|r|] <==> c[0] == |r|;
    }
  }

  /** A single literal is placed by one end of an occurrence of it. */
  lemma SinglePlacement(t: string, r: string, c: seq<int>)
    ensures Placement([t], r, c) <==> |c| == 1 && |t| <= c[0] && OccursAt(r, t, c[0] - |t|)
  {
    if |c| == 1 {
      assert [t][0] == t;
    }
  }

  lemma OnlyOccurrence(t: string, r: string, p: int)
    requires |t| <= |r| && Find(r, t, 0) == |r| - |t|
    ensures OccursAt(r, t, p) <==> p == |r| - |t|
  {
  }
}
