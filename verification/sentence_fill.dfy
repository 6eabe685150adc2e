/** What the corrected sentence parse reads back from a template filled in
    with values: it always finds a reading, keyed by the placeholder names,
    whose values are at least as long in total as the ones filled in. */
module SentenceFill {
  import opened PyStr
  import opened PyDict
  import opened Template
  import opened Decompose
  import opened Sentence

  /** A template built from the literals and placeholder names that the
      parse can read back: names are non-empty and distinct, every literal
      between two placeholders is non-empty, and some literal is. */
  predicate Fillable(lits: seq<string>, names: seq<string>, values: seq<string>) {
    && |lits| == |names| + 1 && |values| == |names|
    && (forall i :: 0 <= i < |names| ==> names[i] != "")
    && Distinct(names)
    && (forall i :: 0 < i < |names| ==> lits[i] != "")
    && (|names| >= 2 || lits[0] != "" || lits[|names|] != "")
  }

  /** The template with each placeholder replaced by its value. */
  function Filled(lits: seq<string>, values: seq<string>): string
    requires |lits| == |values| + 1
  {
    lits[0] + Weave(values, lits[1..])
  }

  /** The filled text up to and including the `k`-th literal. */
  function Head(lits: seq<string>, values: seq<string>, k: nat): string
    requires |lits| == |values| + 1 && k < |lits|
  {
    lits[0] + Weave(values[..k], lits[1..k + 1])
  }

  /** The index of the first non-empty literal. */
  function FirstText(lits: seq<string>): nat
    requires |lits| > 0
  {
    if lits[0] == "" then 1 else 0
  }

  /** One past the index of the last non-empty literal. */
  function EndText(lits: seq<string>): nat
    requires |lits| > 0
  {
    if lits[|lits| - 1] == "" then |lits| - 1 else |lits|
  }

  /** The end offsets of the non-empty literals in the filled text. */
  function Ends(lits: seq<string>, values: seq<string>): seq<int>
    requires |lits| == |values| + 1 && FirstText(lits) <= EndText(lits)
  {
    var a := FirstText(lits);
    seq(EndText(lits) - a, j requires 0 <= j < EndText(lits) - a => |Head(lits, values, a + j)|)
  }

  // ----- The filled text, literal by literal -----

  /** The filled text is the head up to any literal followed by the rest. */
  lemma HeadSplit(lits: seq<string>, values: seq<string>, k: nat)
    requires |lits| == |values| + 1 && k < |lits|
    ensures Filled(lits, values) == Head(lits, values, k) + Weave(values[k..], lits[k + 1..])
  {
    WeaveAppend(values[..k], values[k..], lits[1..k + 1], lits[k + 1..]);
    assert values[..k] + values[k..] == values && lits[1..k + 1] + lits[k + 1..] == lits[1..];
  }

  /** The next head adds one value and one literal. */
  lemma HeadStep(lits: seq<string>, values: seq<string>, k: nat)
    requires |lits| == |values| + 1 && k + 1 < |lits|
    ensures Head(lits, values, k + 1) == Head(lits, values, k) + values[k] + lits[k + 1]
  {
    WeaveAppend(values[..k], [values[k]], lits[1..k + 1], [lits[k + 1]]);
    assert values[..k + 1] == values[..k] + [values[k]] && lits[1..k + 2] == lits[1..k + 1] + [lits[k + 1]];
    assert Weave([values[k]], [lits[k + 1]]) == values[k] + lits[k + 1] + Weave([], []);
  }

  /** Heads never shrink. */
  lemma {:induction false} HeadMono(lits: seq<string>, values: seq<string>, k: nat, k': nat)
    requires |lits| == |values| + 1 && k <= k' < |lits|
    ensures |Head(lits, values, k)| <= |Head(lits, values, k')|
    decreases k'
  {
    if k < k' {
      HeadMono(lits, values, k, k' - 1);
      HeadStep(lits, values, k' - 1);
    }
  }

  /** A head ending in a non-empty literal is longer than every earlier head. */
  lemma HeadLess(lits: seq<string>, values: seq<string>, k: nat, k': nat)
    requires |lits| == |values| + 1 && k < k' < |lits| && lits[k'] != ""
    ensures |Head(lits, values, k)| < |Head(lits, values, k')|
  {
    HeadMono(lits, values, k, k' - 1);
    HeadStep(lits, values, k' - 1);
  }

  /** Each head ends with its literal, which therefore occurs in the filled
      text where the head ends. */
  lemma HeadEnds(lits: seq<string>, values: seq<string>, k: nat)
    requires |lits| == |values| + 1 && k < |lits|
    ensures |lits[k]| <= |Head(lits, values, k)|
    ensures OccursAt(Filled(lits, values), lits[k], |Head(lits, values, k)| - |lits[k]|)
  {
    HeadSplit(lits, values, k);
    var h := Head(lits, values, k);
    var x := if k == 0 then "" else Head(lits, values, k - 1) + values[k - 1];
    assert h == x + lits[k] by {
      if k > 0 {
        HeadStep(lits, values, k - 1);
      }
    }
    assert Filled(lits, values)[|x|..|h|] == lits[k];
  }

  /** The value of each placeholder lies between the end of the literal
      before it and the start of the literal after it. */
  lemma ValueAt(lits: seq<string>, values: seq<string>, i: nat)
    requires |lits| == |values| + 1 && i < |values|
    ensures |Head(lits, values, i + 1)| - |lits[i + 1]| == |Head(lits, values, i)| + |values[i]|
    ensures Slice(Filled(lits, values), |Head(lits, values, i)|, |Head(lits, values, i + 1)| - |lits[i + 1]|) == values[i]
  {
    HeadStep(lits, values, i);
    HeadSplit(lits, values, i + 1);
    var h := Head(lits, values, i);
    assert Filled(lits, values)[|h|..|h| + |values[i]|] == values[i];
  }

  // ----- The parse's view of a filled template -----

  /** Only the literals before the first non-empty one and after the last
      one are empty. */
  lemma TextBounds(lits: seq<string>, names: seq<string>, values: seq<string>)
    requires Fillable(lits, names, values)
    ensures FirstText(lits) < EndText(lits)
    ensures forall i :: 0 <= i < FirstText(lits) ==> lits[i] == ""
    ensures forall i :: FirstText(lits) <= i < EndText(lits) ==> lits[i] != ""
    ensures forall i :: EndText(lits) <= i < |lits| ==> lits[i] == ""
  {
  }

  /** The non-empty literals are those from the first to the last non-empty
      one. */
  lemma TextsOf(lits: seq<string>, names: seq<string>, values: seq<string>)
    requires Fillable(lits, names, values)
    ensures FirstText(lits) < EndText(lits)
    ensures NonEmpty(lits) == lits[FirstText(lits)..EndText(lits)]
  {
    TextBounds(lits, names, values);
    NonEmptyRange(lits, FirstText(lits), EndText(lits));
  }

  /** The tokens of the template are the literals and the names, and the
      parse's texts and names are its non-empty literals and all the names. */
  lemma TokensOf(lits: seq<string>, names: seq<string>, values: seq<string>)
    requires Fillable(lits, names, values)
    ensures NonEmpty(Evens(Interleave(lits, names))) == lits[FirstText(lits)..EndText(lits)]
    ensures NonEmpty(Odds(Interleave(lits, names))) == names
    ensures Interleave(lits, names)[0] == lits[0]
  {
    EvensOddsInterleave(lits, names);
    TextsOf(lits, names, values);
    NonEmptyAll(names);
  }

  /** The ends of the non-empty literals increase. */
  lemma EndsIncreasing(lits: seq<string>, names: seq<string>, values: seq<string>)
    requires Fillable(lits, names, values)
    ensures FirstText(lits) < EndText(lits)
    ensures Increasing(Ends(lits, values))
  {
    TextBounds(lits, names, values);
    var a, e := FirstText(lits), Ends(lits, values);
    forall i, j | 0 <= i < j < |e|
      ensures e[i] < e[j]
    {
      HeadLess(lits, values, a + i, a + j);
    }
  }

  /** Each non-empty literal occurs where its end says. */
  lemma EndsOccur(lits: seq<string>, names: seq<string>, values: seq<string>)
    requires Fillable(lits, names, values)
    ensures FirstText(lits) < EndText(lits)
    ensures var texts, e := lits[FirstText(lits)..EndText(lits)], Ends(lits, values);
            forall k :: 0 <= k < |texts| ==> |texts[k]| <= e[k] && OccursAt(Filled(lits, values), texts[k], e[k] - |texts[k]|)
  {
    TextBounds(lits, names, values);
    var texts, e := lits[FirstText(lits)..EndText(lits)], Ends(lits, values);
    forall k | 0 <= k < |texts|
      ensures |texts[k]| <= e[k] && OccursAt(Filled(lits, values), texts[k], e[k] - |texts[k]|)
    {
      HeadEnds(lits, values, FirstText(lits) + k);
    }
  }

  /** The ends of the non-empty literals in the filled text are a
      combination the parse reads. */
  lemma EndsCandidate(lits: seq<string>, names: seq<string>, values: seq<string>)
    requires Fillable(lits, names, values)
    ensures FirstText(lits) < EndText(lits)
    ensures Ends(lits, values) in Candidates(lits[FirstText(lits)..EndText(lits)], Filled(lits, values))
  {
    assert Placement(lits[FirstText(lits)..EndText(lits)], Filled(lits, values), Ends(lits, values)) by {
      EndsIncreasing(lits, names, values);
      EndsOccur(lits, names, values);
    }
    CandidatesMember(lits[FirstText(lits)..EndText(lits)], Filled(lits, values), Ends(lits, values));
  }

  /** The slot read for the leading placeholder is its value. */
  lemma LeadingSlot(lits: seq<string>, names: seq<string>, values: seq<string>)
    requires Fillable(lits, names, values) && lits[0] == "" && |values| > 0
    ensures FirstText(lits) < EndText(lits)
    ensures Slots(Filled(lits, values), lits[FirstText(lits)..EndText(lits)], Ends(lits, values), true)[0] == values[0]
  {
    TextBounds(lits, names, values);
    ValueAt(lits, values, 0);
    assert Head(lits, values, 0) == lits[0] + Weave([], []);
  }

  /** The slot read after a non-empty literal is the value that follows it. */
  lemma GapSlot(lits: seq<string>, names: seq<string>, values: seq<string>, i: nat)
    requires Fillable(lits, names, values) && FirstText(lits) <= i < |values|
    ensures FirstText(lits) < EndText(lits)
    ensures i < |Slots(Filled(lits, values), lits[FirstText(lits)..EndText(lits)], Ends(lits, values), lits[0] == "")|
    ensures Slots(Filled(lits, values), lits[FirstText(lits)..EndText(lits)], Ends(lits, values), lits[0] == "")[i] == values[i]
  {
    TextBounds(lits, names, values);
    var texts, e, r := lits[FirstText(lits)..EndText(lits)], Ends(lits, values), Filled(lits, values);
    var j := i - FirstText(lits);
    ValueAt(lits, values, i);
    assert NextStart(r, texts, e, j) == |Head(lits, values, i + 1)| - |lits[i + 1]| by {
      GapEnd(lits, names, values, i);
    }
    assert e[j] == |Head(lits, values, i)| && j + LeadSlots(lits[0] == "") == i;
    assert Slots(r, texts, e, lits[0] == "")[i] == Slice(r, e[j], NextStart(r, texts, e, j));
  }

  /** The slot after the `i`-th literal ends where the next literal starts,
      or at the end of the text when no non-empty literal follows. */
  lemma GapEnd(lits: seq<string>, names: seq<string>, values: seq<string>, i: nat)
    requires Fillable(lits, names, values) && FirstText(lits) <= i < |values|
    ensures FirstText(lits) < EndText(lits)
    ensures var texts, e, j := lits[FirstText(lits)..EndText(lits)], Ends(lits, values), i - FirstText(lits);
            NextStart(Filled(lits, values), texts, e, j) == |Head(lits, values, i + 1)| - |lits[i + 1]|
  {
    TextBounds(lits, names, values);
    if i + 1 == EndText(lits) {
      HeadSplit(lits, values, i + 1);
    }
  }

  /** Each slot read at those ends, for a placeholder of the template, is
      the value filled in for it. */
  lemma SlotOfEnds(lits: seq<string>, names: seq<string>, values: seq<string>, i: nat)
    requires Fillable(lits, names, values) && i < |values|
    ensures FirstText(lits) < EndText(lits)
    ensures i < |Slots(Filled(lits, values), lits[FirstText(lits)..EndText(lits)], Ends(lits, values), lits[0] == "")|
    ensures Slots(Filled(lits, values), lits[FirstText(lits)..EndText(lits)], Ends(lits, values), lits[0] == "")[i] == values[i]
  {
    if i < FirstText(lits) {
      LeadingSlot(lits, names, values);
    } else {
      GapSlot(lits, names, values, i);
    }
  }

  /** Read at those ends, the names take exactly the filled values. */
  lemma ReadingOfEnds(lits: seq<string>, names: seq<string>, values: seq<string>)
    requires Fillable(lits, names, values)
    ensures FirstText(lits) < EndText(lits)
    ensures |names| <= |Slots(Filled(lits, values), lits[FirstText(lits)..EndText(lits)], Ends(lits, values), lits[0] == "")|
    ensures ValuesLength(FromPairs(names, Slots(Filled(lits, values), lits[FirstText(lits)..EndText(lits)], Ends(lits, values), lits[0] == ""))) == TotalLength(values)
  {
    TextsOf(lits, names, values);
    var w := Slots(Filled(lits, values), lits[FirstText(lits)..EndText(lits)], Ends(lits, values), lits[0] == "");
    FromDistinctPairs(names, w);
    assert Values(FromPairs(names, w)) == values by {
      forall i | 0 <= i < |values|
        ensures Values(FromPairs(names, w))[i] == values[i]
      {
        SlotOfEnds(lits, names, values, i);
      }
    }
  }

  /** With distinct names, a reading long enough for them among readings
      that all are, the parse keeps a reading keyed by exactly the names and
      at least as long in total as that one. */
  lemma PickAtLeast(names: seq<string>, readings: seq<seq<string>>, idx: nat)
    requires Distinct(names) && idx < |readings|
    requires forall i :: 0 <= i < |readings| ==> |names| <= |readings[i]|
    ensures Pick(names, readings).Best?
    ensures Keys(Pick(names, readings).values) == names
    ensures ValuesLength(FromPairs(names, readings[idx])) <= ValuesLength(Pick(names, readings).values)
  {
    var i := PickIndex(names, readings);
    FromDistinctPairs(names, readings[i]);
  }

  /** On a filled template the parse picks among the corrected readings of
      the non-empty literals' combinations, for all the names. */
  lemma ParseOfFilled(lits: seq<string>, names: seq<string>, values: seq<string>)
    requires Fillable(lits, names, values)
    ensures FirstText(lits) < EndText(lits)
    ensures var texts, r := lits[FirstText(lits)..EndText(lits)], Filled(lits, values);
            Parse(Interleave(lits, names), r) == Pick(names, Readings(r, texts, Candidates(texts, r), lits[0] == ""))
  {
    TokensOf(lits, names, values);
  }

  /** Every corrected reading has a slot for each name. */
  lemma ReadingsLong(lits: seq<string>, names: seq<string>, values: seq<string>, i: nat)
    requires Fillable(lits, names, values)
    ensures FirstText(lits) < EndText(lits)
    ensures var texts, r := lits[FirstText(lits)..EndText(lits)], Filled(lits, values);
            i < |Candidates(texts, r)| ==> |names| <= |Readings(r, texts, Candidates(texts, r), lits[0] == "")[i]|
  {
    TextBounds(lits, names, values);
  }

  /** The corrected parse of a filled template always finds a reading: it is
      keyed by the placeholder names, and its values are at least as long in
      total as the ones filled in (the parse prefers the longest reading,
      which may be another split of the same text). */
  lemma ParseFindsFilled(lits: seq<string>, names: seq<string>, values: seq<string>)
    requires Fillable(lits, names, values)
    ensures Parse(Interleave(lits, names), Filled(lits, values)).Best?
    ensures Keys(Parse(Interleave(lits, names), Filled(lits, values)).values) == names
    ensures TotalLength(values) <= ValuesLength(Parse(Interleave(lits, names), Filled(lits, values)).values)
  {
    ParseOfFilled(lits, names, values);
    PickFindsFilled(lits, names, values);
  }

  /** Picking among the corrected readings of a filled template finds a
      reading keyed by the names, at least as long as the values. */
  lemma PickFindsFilled(lits: seq<string>, names: seq<string>, values: seq<string>)
    requires Fillable(lits, names, values)
    ensures FirstText(lits) < EndText(lits)
    ensures var texts, r := lits[FirstText(lits)..EndText(lits)], Filled(lits, values);
            var p := Pick(names, Readings(r, texts, Candidates(texts, r), lits[0] == ""));
            && p.Best? && Keys(p.values) == names && TotalLength(values) <= ValuesLength(p.values)
  {
    EndsCandidate(lits, names, values);
    var texts, r := lits[FirstText(lits)..EndText(lits)], Filled(lits, values);
    var cands := Candidates(texts, r);
    var readings := Readings(r, texts, cands, lits[0] == "");
    var idx := PositionOf(cands, Ends(lits, values));
    ReadingAt(r, texts, cands, lits[0] == "", idx);
    assert forall i :: 0 <= i < |readings| ==> |names| <= |readings[i]| by {
      forall i | 0 <= i < |readings|
        ensures |names| <= |readings[i]|
      {
        ReadingsLong(lits, names, values, i);
      }
    }
    PickAtLeast(names, readings, idx);
    ReadingOfEnds(lits, names, values);
  }

}
