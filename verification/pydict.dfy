/** Python's insertion-ordered `dict` with string keys, as a sequence of
    key/value pairs whose keys are pairwise distinct. Assigning to a present
    key keeps its position; assigning to an absent key appends it. */
module PyDict {
  import opened Wrappers

  type Dict<V> = seq<(string, V)>

  predicate Distinct<T(==)>(xs: seq<T>) {
    forall i, j :: 0 <= i < j < |xs| ==> xs[i] != xs[j]
  }

  function Keys<V>(d: Dict<V>): (ks: seq<string>)
    ensures |ks| == |d|
    ensures forall i :: 0 <= i < |d| ==> ks[i] == d[i].0
  {
    seq(|d|, i requires 0 <= i < |d| => d[i].0)
  }

  function Values<V>(d: Dict<V>): (vs: seq<V>)
    ensures |vs| == |d|
    ensures forall i :: 0 <= i < |d| ==> vs[i] == d[i].1
  {
    seq(|d|, i requires 0 <= i < |d| => d[i].1)
  }

  /** A well-formed dictionary: no key twice. */
  predicate IsDict<V>(d: Dict<V>) {
    Distinct(Keys(d))
  }

  /** The position of the first `k` in `ks`. */
  function IndexOf(ks: seq<string>, k: string): (i: nat)
    requires k in ks
    ensures i < |ks| && ks[i] == k
    ensures forall j :: 0 <= j < i ==> ks[j] != k
  {
    if ks[0] == k then 0 else 1 + IndexOf(ks[1..], k)
  }

  /** Python's `d.get(k)`: the value stored under `k`, or `None`. */
  function Get<V>(d: Dict<V>, k: string): (r: Option<V>)
    ensures r.None? <==> k !in Keys(d)
    ensures r.Some? ==> (k, r.value) in d
  {
    if k in Keys(d) then
      var i := IndexOf(Keys(d), k);
      assert d[i] == (k, d[i].1);
      Some(d[i].1)
    else None
  }

  /** In a well-formed dictionary the pair at any position is what `Get` sees. */
  lemma GetAt<V>(d: Dict<V>, i: nat)
    requires IsDict(d)
    requires i < |d|
    ensures Get(d, d[i].0) == Some(d[i].1)
  {
    var ks := Keys(d);
    assert ks[i] == d[i].0;
    var j := IndexOf(ks, d[i].0);
    assert j == i;
  }

  /** Python's `d[k] = v`. */
  function Put<V>(d: Dict<V>, k: string, v: V): (r: Dict<V>)
    requires IsDict(d)
    ensures IsDict(r)
    ensures k in Keys(d) ==> Keys(r) == Keys(d)
    ensures k !in Keys(d) ==> r == d + [(k, v)]
  {
    if k in Keys(d) then
      var i := IndexOf(Keys(d), k);
      var r := d[i := (k, v)];
      assert Keys(r) == Keys(d);
      r
    else
      var r := d + [(k, v)];
      assert Keys(r) == Keys(d) + [k];
      r
  }

  /** After `d[k] = v`, `k` holds `v` and every other key is unchanged. */
  lemma PutGet<V>(d: Dict<V>, k: string, v: V, k': string)
    requires IsDict(d)
    ensures Get(Put(d, k, v), k) == Some(v)
    ensures k' != k ==> Get(Put(d, k, v), k') == Get(d, k')
  {
    var r := Put(d, k, v);
    if k in Keys(d) {
      var i := IndexOf(Keys(d), k);
      GetAt(r, i);
    } else {
      GetAt(r, |d|);
    }
    if k' != k && k' in Keys(d) {
      var j := IndexOf(Keys(d), k');
      GetAt(d, j);
      GetAt(r, j);
    }
  }

  /** `{keys[i]: values[i] for i in range(len(keys))}`: later assignments to a
      repeated key overwrite earlier ones. */
  function FromPairs<V>(keys: seq<string>, values: seq<V>): (d: Dict<V>)
    requires |keys| <= |values|
    ensures IsDict(d)
    decreases |keys|
  {
    if |keys| == 0 then []
    else
      var n := |keys| - 1;
      Put(FromPairs(keys[..n], values), keys[n], values[n])
  }

  /** Every key of the comprehension holds the value of its last assignment. */
  lemma {:induction false} FromPairsGet<V>(keys: seq<string>, values: seq<V>, i: nat)
    requires |keys| <= |values|
    requires i < |keys|
    requires forall j :: i < j < |keys| ==> keys[j] != keys[i]
    ensures Get(FromPairs(keys, values), keys[i]) == Some(values[i])
    decreases |keys|
  {
    var n := |keys| - 1;
    var pre := keys[..n];
    var d := FromPairs(pre, values);
    PutGet(d, keys[n], values[n], keys[i]);
    if i < n {
      assert pre[i] == keys[i];
      FromPairsGet(pre, values, i);
    }
  }

  /** The comprehension has no key other than the given ones. */
  lemma {:induction false} FromPairsKeys<V>(keys: seq<string>, values: seq<V>, k: string)
    requires |keys| <= |values|
    ensures k in Keys(FromPairs(keys, values)) <==> k in keys
    decreases |keys|
  {
    if |keys| > 0 {
      var n := |keys| - 1;
      var d := FromPairs(keys[..n], values);
      FromPairsKeys(keys[..n], values, k);
      FromPairsKeys(keys[..n], values, keys[n]);
      assert keys == keys[..n] + [keys[n]];
      if keys[n] !in Keys(d) {
        assert Keys(d + [(keys[n], values[n])]) == Keys(d) + [keys[n]];
      }
    }
  }

  /** With distinct keys, the comprehension keeps every pair, in order. */
  lemma {:induction false} FromDistinctPairs<V>(keys: seq<string>, values: seq<V>)
    requires |keys| <= |values|
    requires Distinct(keys)
    ensures FromPairs(keys, values) == seq(|keys|, i requires 0 <= i < |keys| => (keys[i], values[i]))
    decreases |keys|
  {
    if |keys| > 0 {
      var n := |keys| - 1;
      FromDistinctPairs(keys[..n], values);
      FromPairsKeys(keys[..n], values, keys[n]);
      assert keys[n] !in keys[..n];
      var d := FromPairs(keys[..n], values);
      assert FromPairs(keys, values) == d + [(keys[n], values[n])];
      var want := seq(|keys|, i requires 0 <= i < |keys| => (keys[i], values[i]));
      assert d == want[..n];
      assert want == want[..n] + [(keys[n], values[n])];
    }
  }
}
