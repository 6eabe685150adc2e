/** Gathering grammar rule definitions by name: the first definition of a
    name is kept, in order of first appearance, and a later definition of the
    same name must be identical. */
module Definitions {
  import opened Wrappers
  import opened PyDict

  /** A rule's name and its production text. */
  type Entry = (string, string)

  /** The definitions gathered so far extended by `es`, left to right; the
      first name defined twice with different productions is the failure. */
  function Collect(es: seq<Entry>, defs: Dict<string>): (r: Result<Dict<string>, string>)
    requires IsDict(defs)
    ensures r.Success? ==> IsDict(r.value) && forall k :: k in Keys(defs) ==> k in Keys(r.value)
    ensures r.Failure? ==> exists i :: 0 <= i < |es| && es[i].0 == r.error
    decreases |es|
  {
    if |es| == 0 then Success(defs)
    else
      match Get(defs, es[0].0)
      case None =>
        var defs' := Put(defs, es[0].0, es[0].1);
        assert forall k :: k in Keys(defs) ==> k in Keys(defs') by {
          forall k | k in Keys(defs)
            ensures k in Keys(defs')
          {
            var i :| 0 <= i < |defs| && Keys(defs)[i] == k;
            assert defs'[i] == defs[i];
          }
        }
        Collect(es[1..], defs')
      case Some(p) =>
        if p == es[0].1 then Collect(es[1..], defs)
        else Failure(es[0].0)
  }

  /** The definitions of `es` from an empty dictionary: they exist exactly
      when the entries are consistent, and are then the reference
      definition; a failure names a conflicting name. */
  function Gather(es: seq<Entry>): (r: Result<Dict<string>, string>)
    ensures r.Success? <==> Consistent(es)
    ensures r.Success? ==> r.value == FirstSeen(es)
    ensures r.Failure? ==> Conflict(es, r.error)
  {
    assert [] + es == es;
    assert FirstSeen([]) == [];
    CollectFirstSeen([], es);
    if Collect(es, []).Failure? then
      CollectConflict([], es);
      Collect(es, [])
    else Collect(es, [])
  }

  /** No name has two different productions. */
  predicate Consistent(es: seq<Entry>) {
    forall i, j :: 0 <= i < |es| && 0 <= j < |es| && es[i].0 == es[j].0 ==> es[i].1 == es[j].1
  }

  /** The reference definition: one entry per name in order of first
      appearance, holding that name's first production. */
  function FirstSeen(es: seq<Entry>): (d: Dict<string>)
    ensures IsDict(d)
    decreases |es|
  {
    if |es| == 0 then []
    else
      var d := FirstSeen(es[..|es| - 1]);
      var e := es[|es| - 1];
      if e.0 in Keys(d) then d else Put(d, e.0, e.1)
  }

  /** Every name has an entry in the reference definition. */
  lemma {:induction false} FirstSeenNames(es: seq<Entry>)
    ensures forall i :: 0 <= i < |es| ==> es[i].0 in Keys(FirstSeen(es))
    decreases |es|
  {
    if |es| > 0 {
      var pre := es[..|es| - 1];
      var e := es[|es| - 1];
      var d := FirstSeen(pre);
      FirstSeenNames(pre);
      if e.0 !in Keys(d) {
        assert Keys(FirstSeen(es)) == Keys(d) + [e.0];
      }
      forall i | 0 <= i < |es|
        ensures es[i].0 in Keys(FirstSeen(es))
      {
        if i < |es| - 1 {
          assert es[i] == pre[i];
        }
      }
    }
  }

  /** Every pair of the reference definition is one of the entries. */
  lemma {:induction false} FirstSeenEntries(es: seq<Entry>)
    ensures forall e :: e in FirstSeen(es) ==> e in es
    decreases |es|
  {
    if |es| > 0 {
      var pre := es[..|es| - 1];
      FirstSeenEntries(pre);
      forall e | e in FirstSeen(es)
        ensures e in es
      {
        if e in FirstSeen(pre) {
          assert e in pre;
        }
      }
    }
  }

  /** The position of the first entry named `n`, or `|es|` when there is none. */
  function FirstIndex(es: seq<Entry>, n: string): (i: nat)
    ensures i <= |es|
    ensures i < |es| ==> es[i].0 == n
    ensures forall j :: 0 <= j < i ==> es[j].0 != n
    decreases |es|
  {
    if |es| == 0 then 0
    else
      var pre := es[..|es| - 1];
      var i := FirstIndex(pre, n);
      assert forall j :: 0 <= j < |pre| ==> es[j] == pre[j];
      if i < |pre| then i
      else if es[|es| - 1].0 == n then |es| - 1
      else |es|
  }

  /** The reference definition lists the names in order of their first
      entries, and each name holds the production of its first entry. */
  lemma {:induction false} FirstSeenOrder(es: seq<Entry>)
    ensures forall p, q :: 0 <= p < q < |FirstSeen(es)| ==>
              FirstIndex(es, FirstSeen(es)[p].0) < FirstIndex(es, FirstSeen(es)[q].0)
    ensures forall k :: 0 <= k < |FirstSeen(es)| ==>
              FirstIndex(es, FirstSeen(es)[k].0) < |es| && FirstSeen(es)[k].1 == es[FirstIndex(es, FirstSeen(es)[k].0)].1
    decreases |es|
  {
    if |es| > 0 {
      var pre := es[..|es| - 1];
      var d := FirstSeen(pre);
      FirstSeenOrder(pre);
      OldIndices(es, d);
      if es[|es| - 1].0 !in Keys(d) {
        FirstSeenNames(pre);
        assert FirstIndex(es, es[|es| - 1].0) == |pre|;
      }
    }
  }

  /** Appending an entry moves no first position of a name already listed. */
  lemma OldIndices(es: seq<Entry>, d: Dict<string>)
    requires |es| > 0 && d == FirstSeen(es[..|es| - 1])
    requires forall k :: 0 <= k < |d| ==> FirstIndex(es[..|es| - 1], d[k].0) < |es| - 1
    ensures forall k :: 0 <= k < |d| ==> FirstIndex(es, d[k].0) == FirstIndex(es[..|es| - 1], d[k].0)
    ensures forall j :: 0 <= j < |es| - 1 ==> es[j] == es[..|es| - 1][j]
  { }

  /** Adding an entry whose name is new keeps the entries consistent. */
  lemma ConsistentNewName(pre: seq<Entry>, e: Entry)
    requires Consistent(pre)
    requires forall i :: 0 <= i < |pre| ==> pre[i].0 != e.0
    ensures Consistent(pre + [e])
  {
    var s := pre + [e];
    assert forall i :: 0 <= i < |pre| ==> s[i] == pre[i];
  }

  /** Adding an entry that repeats an earlier one keeps the entries consistent. */
  lemma ConsistentRepeat(pre: seq<Entry>, e: Entry)
    requires Consistent(pre)
    requires e in pre
    ensures Consistent(pre + [e])
  {
    var s := pre + [e];
    assert forall i :: 0 <= i < |pre| ==> s[i] == pre[i];
  }

  /** One step of the gathering, on a new name: it extends the reference
      definition by that entry. */
  lemma CollectNewName(pre: seq<Entry>, es: seq<Entry>)
    requires Consistent(pre) && |es| > 0
    requires es[0].0 !in Keys(FirstSeen(pre))
    ensures Collect(es, FirstSeen(pre)) == Collect(es[1..], FirstSeen(pre + [es[0]]))
    ensures Consistent(pre + [es[0]])
  {
    var pre' := pre + [es[0]];
    assert pre'[..|pre'| - 1] == pre;
    FirstSeenNames(pre);
    ConsistentNewName(pre, es[0]);
  }

  /** One step of the gathering, on a repeated name: it agrees with the
      earlier production or fails. */
  lemma CollectSameName(pre: seq<Entry>, es: seq<Entry>)
    requires Consistent(pre) && |es| > 0
    requires es[0].0 in Keys(FirstSeen(pre))
    ensures Get(FirstSeen(pre), es[0].0).value == es[0].1 ==>
              && Collect(es, FirstSeen(pre)) == Collect(es[1..], FirstSeen(pre + [es[0]]))
              && Consistent(pre + [es[0]])
    ensures Get(FirstSeen(pre), es[0].0).value != es[0].1 ==>
              && Collect(es, FirstSeen(pre)) == Failure(es[0].0)
              && !Consistent(pre + es)
  {
    var e := es[0];
    var d := FirstSeen(pre);
    var pre' := pre + [e];
    assert pre'[..|pre'| - 1] == pre;
    var p := Get(d, e.0).value;
    FirstSeenEntries(pre);
    assert (e.0, p) in pre;
    var i :| 0 <= i < |pre| && pre[i] == (e.0, p);
    if p == e.1 {
      ConsistentRepeat(pre, e);
    } else {
      var s := pre + es;
      assert s[i] == pre[i] && s[|pre|] == e;
    }
  }

  /** Gathering succeeds exactly on consistent entries, and then yields the
      reference definition. */
  lemma {:induction false} CollectFirstSeen(pre: seq<Entry>, es: seq<Entry>)
    requires Consistent(pre)
    ensures Collect(es, FirstSeen(pre)).Success? <==> Consistent(pre + es)
    ensures Collect(es, FirstSeen(pre)).Success? ==> Collect(es, FirstSeen(pre)).value == FirstSeen(pre + es)
    decreases |es|
  {
    if |es| == 0 {
      assert pre + es == pre;
    } else {
      var pre' := pre + [es[0]];
      assert pre' + es[1..] == pre + es;
      if es[0].0 !in Keys(FirstSeen(pre)) {
        CollectNewName(pre, es);
        CollectFirstSeen(pre', es[1..]);
      } else {
        CollectSameName(pre, es);
        if Get(FirstSeen(pre), es[0].0).value == es[0].1 {
          CollectFirstSeen(pre', es[1..]);
        }
      }
    }
  }

  /** Two entries give the name `n` different productions. */
  predicate Conflict(es: seq<Entry>, n: string) {
    exists i, j :: 0 <= i < |es| && 0 <= j < |es| && es[i].0 == n && es[j].0 == n && es[i].1 != es[j].1
  }

  /** An entry whose name already has another production conflicts with it. */
  lemma ConflictAtFront(pre: seq<Entry>, es: seq<Entry>)
    requires |es| > 0 && es[0].0 in Keys(FirstSeen(pre))
    requires Get(FirstSeen(pre), es[0].0).value != es[0].1
    ensures Conflict(pre + es, es[0].0)
  {
    var e := es[0];
    var p := Get(FirstSeen(pre), e.0).value;
    FirstSeenEntries(pre);
    assert (e.0, p) in pre;
    var i :| 0 <= i < |pre| && pre[i] == (e.0, p);
    var s := pre + es;
    assert s[i] == pre[i] && s[|pre|] == e;
  }

  /** A failed gathering names a conflicting name. */
  lemma {:induction false} CollectConflict(pre: seq<Entry>, es: seq<Entry>)
    requires Consistent(pre)
    requires Collect(es, FirstSeen(pre)).Failure?
    ensures Conflict(pre + es, Collect(es, FirstSeen(pre)).error)
    decreases |es|
  {
    var pre' := pre + [es[0]];
    assert pre' + es[1..] == pre + es;
    if es[0].0 !in Keys(FirstSeen(pre)) {
      CollectNewName(pre, es);
      CollectConflict(pre', es[1..]);
    } else if Get(FirstSeen(pre), es[0].0).value == es[0].1 {
      CollectSameName(pre, es);
      CollectConflict(pre', es[1..]);
    } else {
      CollectSameName(pre, es);
      ConflictAtFront(pre, es);
    }
  }
}
