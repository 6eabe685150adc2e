/** Matching a response against a template's literals, with one capture
    before each literal after the first: the semantics of a full match of the
    literals separated by lazy `(?:.|\n)*?` groups, where a backtracking
    matcher tries each capture shortest first, from left to right. */
module Decompose {
  import opened PyStr
  import opened Wrappers

  /** `c0 + l0 + c1 + l1 + ... + ck + lk`. */
  function Weave(caps: seq<string>, lits: seq<string>): string
    requires |caps| == |lits|
  {
    if |lits| == 0 then "" else caps[0] + lits[0] + Weave(caps[1..], lits[1..])
  }

  /** The captures that split `s` into `c0 + l0 + c1 + l1 + ...`, the first
      capture as short as a split of the rest allows, and so on; `None` when
      no split exists. */
  function Shortest(s: string, lits: seq<string>): (r: Option<seq<string>>)
    ensures r.Some? ==> |r.value| == |lits| && Weave(r.value, lits) == s
    decreases |lits|, |s| + 2
  {
    if |lits| == 0 then (if s == "" then Some([]) else None)
    else ShortestFrom(s, lits, 0)
  }

  /** The shortest split whose first capture has at least `k` characters. */
  function ShortestFrom(s: string, lits: seq<string>, k: nat): (r: Option<seq<string>>)
    requires |lits| > 0
    ensures r.Some? ==> |r.value| == |lits| && Weave(r.value, lits) == s && k <= |r.value[0]|
    decreases |lits|, |s| + 1 - k
  {
    if k > |s| then None
    else if StartsWith(s[k..], lits[0]) && Shortest(s[k + |lits[0]|..], lits[1..]).Some? then
      var rest := Shortest(s[k + |lits[0]|..], lits[1..]).value;
      assert s == s[..k] + lits[0] + s[k + |lits[0]|..];
      assert ([s[..k]] + rest)[1..] == rest;
      Some([s[..k]] + rest)
    else ShortestFrom(s, lits, k + 1)
  }

  /** The first capture can end at `k`: the first literal follows, and the
      rest splits. */
  predicate Fits(s: string, lits: seq<string>, k: nat)
    requires |lits| > 0
  {
    k <= |s| && StartsWith(s[k..], lits[0]) && Shortest(s[k + |lits[0]|..], lits[1..]).Some?
  }

  /** The search from `k` succeeds exactly when some length at or after `k` fits. */
  lemma {:induction false} ShortestFromSome(s: string, lits: seq<string>, k: nat)
    requires |lits| > 0
    ensures ShortestFrom(s, lits, k).Some? <==> exists j :: k <= j <= |s| && Fits(s, lits, j)
    decreases |s| + 1 - k
  {
    if k <= |s| && !Fits(s, lits, k) {
      ShortestFromSome(s, lits, k + 1);
      if ShortestFrom(s, lits, k + 1).None? {
        forall j | k <= j <= |s|
          ensures !Fits(s, lits, j)
        {
          if j > k {
            assert !(k + 1 <= j <= |s| && Fits(s, lits, j));
          }
        }
      }
    }
  }

  /** The search from `k` returns the least fitting length at or after `k`,
      with the shortest split of the rest. */
  lemma {:induction false} ShortestFromLeast(s: string, lits: seq<string>, k: nat)
    requires |lits| > 0
    requires ShortestFrom(s, lits, k).Some?
    ensures var c := ShortestFrom(s, lits, k).value;
            && Fits(s, lits, |c[0]|)
            && c[0] == s[..|c[0]|]
            && (forall j :: k <= j < |c[0]| ==> !Fits(s, lits, j))
            && c[1..] == Shortest(s[|c[0]| + |lits[0]|..], lits[1..]).value
    decreases |s| + 1 - k
  {
    if !Fits(s, lits, k) {
      ShortestFromLeast(s, lits, k + 1);
    } else {
      var c := ShortestFrom(s, lits, k).value;
      assert |c[0]| == k;
    }
  }

  /** Whenever some split exists, the search finds one. */
  lemma {:induction false} ShortestComplete(s: string, lits: seq<string>, caps: seq<string>)
    requires |caps| == |lits| && Weave(caps, lits) == s
    ensures Shortest(s, lits).Some?
    decreases |lits|
  {
    if |lits| > 0 {
      var k := |caps[0]|;
      var rest := Weave(caps[1..], lits[1..]);
      assert s == caps[0] + lits[0] + rest;
      assert s[k..][..|lits[0]|] == lits[0];
      assert s[k + |lits[0]|..] == rest;
      ShortestComplete(rest, lits[1..], caps[1..]);
      assert Fits(s, lits, k);
      ShortestFromSome(s, lits, 0);
    }
  }

  /** `a` is lexicographically at most `b`, comparing capture lengths. */
  predicate ShorterFirst(a: seq<string>, b: seq<string>)
    requires |a| == |b|
  {
    |a| == 0 || |a[0]| < |b[0]| || (|a[0]| == |b[0]| && ShorterFirst(a[1..], b[1..]))
  }

  /** The split found is the one a lazy left-to-right matcher finds: among all
      splits, its capture lengths are lexicographically least. */
  lemma {:induction false} ShortestIsLeast(s: string, lits: seq<string>, caps: seq<string>)
    requires |caps| == |lits| && Weave(caps, lits) == s
    ensures Shortest(s, lits).Some?
    ensures ShorterFirst(Shortest(s, lits).value, caps)
    decreases |lits|
  {
    ShortestComplete(s, lits, caps);
    if |lits| > 0 {
      var c := Shortest(s, lits).value;
      var k := |caps[0]|;
      var rest := Weave(caps[1..], lits[1..]);
      assert s == caps[0] + lits[0] + rest;
      assert s[k..][..|lits[0]|] == lits[0];
      assert s[k + |lits[0]|..] == rest;
      ShortestComplete(rest, lits[1..], caps[1..]);
      assert Fits(s, lits, k);
      ShortestFromLeast(s, lits, 0);
      assert |c[0]| <= k;
      if |c[0]| == k {
        ShortestIsLeast(rest, lits[1..], caps[1..]);
      }
    }
  }

  /** The captures of a response built from captures that each stop at the
      first occurrence of the literal after them are those captures. The last
      capture needs no such condition: it runs to the end. */
  lemma {:induction false} ShortestRecovers(caps: seq<string>, lits: seq<string>)
    requires |caps| == |lits|
    requires forall i :: 0 <= i < |lits| - 1 ==> Find(caps[i] + lits[i], lits[i], 0) == |caps[i]|
    ensures Shortest(Weave(caps, lits), lits) == Some(caps)
    decreases |lits|
  {
    if |lits| > 0 {
      var s := Weave(caps, lits);
      var k := |caps[0]|;
      var rest := Weave(caps[1..], lits[1..]);
      assert s == caps[0] + lits[0] + rest;
      assert s[k..][..|lits[0]|] == lits[0];
      assert s[k + |lits[0]|..] == rest;
      ShortestRecovers(caps[1..], lits[1..]);
      assert Fits(s, lits, k);
      forall j | 0 <= j < k
        ensures !Fits(s, lits, j)
      {
        if |lits| == 1 {
          assert |s[j + |lits[0]|..]| > 0;
        } else if StartsWith(s[j..], lits[0]) {
          var w := caps[0] + lits[0];
          assert w[j..j + |lits[0]|] == s[j..][..|lits[0]|];
          assert OccursAt(w, lits[0], j);
        }
      }
      ShortestComplete(s, lits, caps);
      ShortestFromLeast(s, lits, 0);
      var c := Shortest(s, lits).value;
      assert |c[0]| == k;
      assert s[..k] == caps[0];
      assert c[1..] == caps[1..];
      assert caps == [caps[0]] + caps[1..];
      assert c == [c[0]] + c[1..];
    }
  }

  /** A full match of the response against the literals `l0, l1, ..., lk`
      with a capture between each two: `l0` must start the response, then
      the shortest split of the rest. */
  function FullMatch(lits: seq<string>, response: string): (r: Option<seq<string>>)
    requires |lits| >= 1
    ensures r.Some? ==> |r.value| == |lits| - 1 && response == lits[0] + Weave(r.value, lits[1..])
  {
    if StartsWith(response, lits[0]) then
      assert response == lits[0] + response[|lits[0]|..];
      Shortest(response[|lits[0]|..], lits[1..])
    else None
  }

  /** The match fails only when no decomposition of the response exists. */
  lemma FullMatchComplete(lits: seq<string>, response: string, caps: seq<string>)
    requires |lits| >= 1 && |caps| == |lits| - 1
    requires response == lits[0] + Weave(caps, lits[1..])
    ensures FullMatch(lits, response).Some?
    ensures ShorterFirst(FullMatch(lits, response).value, caps)
  {
    assert response[..|lits[0]|] == lits[0];
    assert response[|lits[0]|..] == Weave(caps, lits[1..]);
    ShortestIsLeast(response[|lits[0]|..], lits[1..], caps);
  }

  /** Weaving distributes over concatenation. */
  lemma {:induction false} WeaveAppend(a: seq<string>, b: seq<string>, la: seq<string>, lb: seq<string>)
    requires |a| == |la| && |b| == |lb|
    ensures Weave(a + b, la + lb) == Weave(a, la) + Weave(b, lb)
    decreases |a|
  {
    if |a| == 0 {
      assert a + b == b && la + lb == lb;
    } else {
      assert (a + b)[1..] == a[1..] + b && (la + lb)[1..] == la[1..] + lb;
      WeaveAppend(a[1..], b, la[1..], lb);
    }
  }
}
