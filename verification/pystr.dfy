/** The handful of Python `str` operations the compiler is built from, written
    out with Python's semantics: `find`, `split`, `join`, `count`, `strip`,
    `lstrip`, `replace` and slicing. */
module PyStr {

  /** `sub` occurs in `s` starting at offset `i`. */
  predicate OccursAt(s: string, sub: string, i: int) {
    0 <= i && i + |sub| <= |s| && s[i..i + |sub|] == sub
  }

  /** Python's `sub in s`. */
  predicate Contains(s: string, sub: string) {
    exists i | 0 <= i <= |s| :: OccursAt(s, sub, i)
  }

  predicate StartsWith(s: string, prefix: string) {
    |prefix| <= |s| && s[..|prefix|] == prefix
  }

  /** Python's `s.find(sub, start)`: the least offset at or after `start` where
      `sub` occurs, or -1 when there is none. */
  function Find(s: string, sub: string, start: nat): (r: int)
    ensures r == -1 || (start <= r && OccursAt(s, sub, r))
    ensures r == -1 ==> forall i :: start <= i ==> !OccursAt(s, sub, i)
    ensures r != -1 ==> forall i :: start <= i < r ==> !OccursAt(s, sub, i)
    decreases |s| - start
  {
    if start + |sub| > |s| then -1
    else if s[start..start + |sub|] == sub then start
    else Find(s, sub, start + 1)
  }

  /** `find` returns -1 exactly when the needle is absent. */
  lemma FindAbsent(s: string, sub: string)
    ensures Find(s, sub, 0) == -1 <==> !Contains(s, sub)
  {
    var r := Find(s, sub, 0);
    if r != -1 {
      assert OccursAt(s, sub, r);
    }
  }

  /** The first occurrence is found when nothing occurs before it. */
  lemma FindFirst(s: string, sub: string, i: nat)
    requires OccursAt(s, sub, i)
    requires forall j :: 0 <= j < i ==> !OccursAt(s, sub, j)
    ensures Find(s, sub, 0) == i
  {
  }

  /** Python's `sep.join(parts)`. */
  function Join(sep: string, parts: seq<string>): string
  {
    if |parts| == 0 then ""
    else if |parts| == 1 then parts[0]
    else parts[0] + sep + Join(sep, parts[1..])
  }

  /** An occurrence inside a slice is an occurrence in the whole string. */
  lemma OccursInSlice(s: string, sub: string, lo: nat, hi: nat, j: int)
    requires lo <= hi <= |s|
    requires OccursAt(s[lo..hi], sub, j)
    ensures OccursAt(s, sub, lo + j)
  {
    forall k | 0 <= k < |sub|
      ensures s[lo + j + k] == sub[k]
    {
      assert s[lo..hi][j..j + |sub|][k] == sub[k];
    }
  }

  /** Python's `s.split(sep)` for a non-empty separator: the pieces between the
      successive leftmost non-overlapping occurrences of `sep`. */
  function Split(s: string, sep: string): (parts: seq<string>)
    requires |sep| > 0
    ensures |parts| >= 1
    ensures Join(sep, parts) == s
    ensures forall k :: 0 <= k < |parts| ==> !Contains(parts[k], sep)
    decreases |s|
  {
    var i := Find(s, sep, 0);
    if i == -1 then [s]
    else
      var rest := Split(s[i + |sep|..], sep);
      var parts := [s[..i]] + rest;
      assert Join(sep, parts) == s by {
        assert s == s[..i] + sep + s[i + |sep|..];
      }
      assert !Contains(s[..i], sep) by {
        forall j | 0 <= j <= i && OccursAt(s[..i], sep, j)
          ensures false
        {
          OccursInSlice(s, sep, 0, i, j);
        }
      }
      assert forall k :: 1 <= k < |parts| ==> parts[k] == rest[k - 1];
      parts
  }

  /** What a piece of a string contains, the string contains. */
  lemma ContainsWithin(s: string, a: string, b: string)
    requires Contains(s, a) && Contains(a, b)
    ensures Contains(s, b)
  {
    var i :| 0 <= i <= |s| && OccursAt(s, a, i);
    var j :| 0 <= j <= |a| && OccursAt(a, b, j);
    OccursInSlice(s, b, i, i + |a|, j);
  }

  /** No piece of a split holds what the whole string does not. */
  lemma SplitPartsFree(s: string, sep: string, other: string)
    requires |sep| > 0 && !Contains(s, other)
    ensures forall k :: 0 <= k < |Split(s, sep)| ==> !Contains(Split(s, sep)[k], other)
  {
    var parts := Split(s, sep);
    forall k | 0 <= k < |parts| && Contains(parts[k], other)
      ensures false
    {
      JoinHasPart(sep, parts, k);
      ContainsWithin(s, parts[k], other);
    }
  }

  /** Splitting a string with no separator in it gives the string back. */
  lemma SplitNoSep(s: string, sep: string)
    requires |sep| > 0
    requires !Contains(s, sep)
    ensures Split(s, sep) == [s]
  {
    FindAbsent(s, sep);
  }

  /** When the first occurrence of `sep` is right after `a`, `a` is the first piece. */
  lemma SplitCons(a: string, sep: string, b: string)
    requires |sep| > 0
    requires Find(a + sep + b, sep, 0) == |a|
    ensures Split(a + sep + b, sep) == [a] + Split(b, sep)
  {
    var s := a + sep + b;
    assert s[..|a|] == a;
    assert s[|a| + |sep|..] == b;
  }

  /** A string without the character `c` does not contain `[c]`. */
  lemma NoCharNoSep(s: string, c: char)
    requires c !in s
    ensures !Contains(s, [c])
  {
    forall i | 0 <= i < |s|
      ensures !OccursAt(s, [c], i)
    {
      assert s[i..i + 1] == [s[i]];
    }
  }

  /** The first position of the character `c` in `s`. */
  lemma {:induction false} FirstPosition(s: string, c: char) returns (i: nat)
    requires c in s
    ensures i < |s| && s[i] == c && c !in s[..i]
    decreases |s|
  {
    if s[0] == c {
      i := 0;
    } else {
      var k := FirstPosition(s[1..], c);
      i := k + 1;
      assert s[..i] == [s[0]] + s[1..][..k];
    }
  }

  /** The first occurrence of a one-character separator is at `i` when `s[i]`
      is that character and no earlier one is. */
  lemma FindChar(s: string, c: char, i: nat)
    requires i < |s| && s[i] == c && c !in s[..i]
    ensures Find(s, [c], 0) == i
  {
    assert OccursAt(s, [c], i) by {
      assert s[i..i + 1] == [c];
    }
    forall j | 0 <= j < i
      ensures !OccursAt(s, [c], j)
    {
      assert s[j] == s[..i][j];
      assert s[j..j + 1] == [s[j]];
    }
    FindFirst(s, [c], i);
  }

  lemma ConcatAssoc<T>(x: seq<T>, y: seq<T>, z: seq<T>)
    ensures x + (y + z) == (x + y) + z
  {
  }

  /** The first occurrence of the separator ends the first piece. */
  lemma SplitFirst(s: string, sep: string, i: nat)
    requires |sep| > 0 && Find(s, sep, 0) == i
    ensures i + |sep| <= |s|
    ensures Split(s, sep) == [s[..i]] + Split(s[i + |sep|..], sep)
  {
  }

  /** Splitting at an occurrence `i` of a one-character separator splits
      each side of it on its own: the pieces before `i`, then the pieces
      after. */
  lemma {:induction false} SplitAt(s: string, c: char, i: nat)
    requires i < |s| && s[i] == c
    ensures Split(s, [c]) == Split(s[..i], [c]) + Split(s[i + 1..], [c])
    decreases i
  {
    if c !in s[..i] {
      SplitAtFirst(s, c, i);
    } else {
      var f := FirstPosition(s[..i], c);
      assert s[f] == c && s[..f] == s[..i][..f];
      SplitAt(s[f + 1..], c, i - f - 1);
      SplitAtLater(s, c, i, f);
    }
  }

  /** `SplitAt` when no separator comes before `i`: one piece, then the
      pieces after. */
  lemma SplitAtFirst(s: string, c: char, i: nat)
    requires i < |s| && s[i] == c && c !in s[..i]
    ensures Split(s, [c]) == Split(s[..i], [c]) + Split(s[i + 1..], [c])
  {
    FindChar(s, c, i);
    SplitFirst(s, [c], i);
    NoCharNoSep(s[..i], c);
    SplitNoSep(s[..i], [c]);
  }

  /** `SplitAt` when the first separator is at `f` before `i`: the piece
      before `f` comes off both sides alike, and the rest is split at `i`. */
  lemma SplitAtLater(s: string, c: char, i: nat, f: nat)
    requires f < i < |s| && s[i] == c && s[f] == c && c !in s[..f]
    requires var t := s[f + 1..];
             Split(t, [c]) == Split(t[..i - f - 1], [c]) + Split(t[i - f..], [c])
    ensures Split(s, [c]) == Split(s[..i], [c]) + Split(s[i + 1..], [c])
  {
    var t := s[f + 1..];
    assert s[..i][..f] == s[..f] && s[..i][f] == c;
    assert t[..i - f - 1] == s[..i][f + 1..];
    assert t[i - f..] == s[i + 1..];
    FindChar(s, c, f);
    SplitFirst(s, [c], f);
    FindChar(s[..i], c, f);
    SplitFirst(s[..i], [c], f);
    var p, a, b := s[..f], Split(s[..i][f + 1..], [c]), Split(s[i + 1..], [c]);
    assert Split(s, [c]) == [p] + (a + b);
    assert Split(s[..i], [c]) == [p] + a;
    ConcatAssoc([p], a, b);
  }

  /** Splitting at a one-character separator splits each side of it on its
      own: the pieces of `a`, then the pieces of `b`. */
  lemma SplitAround(a: string, c: char, b: string)
    ensures Split(a + [c] + b, [c]) == Split(a, [c]) + Split(b, [c])
  {
    var s := a + [c] + b;
    SplitAt(s, c, |a|);
    assert s[..|a|] == a && s[|a| + 1..] == b;
  }

  /** Splitting on a one-character separator undoes joining with it, as long
      as no part holds that character. */
  lemma {:induction false} SplitJoinChar(parts: seq<string>, c: char)
    requires |parts| >= 1
    requires forall i :: 0 <= i < |parts| ==> c !in parts[i]
    ensures Split(Join([c], parts), [c]) == parts
    decreases |parts|
  {
    if |parts| == 1 {
      NoCharNoSep(parts[0], c);
      SplitNoSep(parts[0], [c]);
    } else {
      var a := parts[0];
      var b := Join([c], parts[1..]);
      var s := a + [c] + b;
      assert OccursAt(s, [c], |a|);
      forall j | 0 <= j < |a|
        ensures !OccursAt(s, [c], j)
      {
        assert s[j] == a[j];
        assert s[j..j + 1][0] == s[j];
      }
      FindFirst(s, [c], |a|);
      SplitCons(a, [c], b);
      SplitJoinChar(parts[1..], c);
      assert parts == [a] + parts[1..];
    }
  }

  /** Python's `s.count(sub)` for a non-empty needle: the number of leftmost
      non-overlapping occurrences. */
  function Count(s: string, sub: string): (n: nat)
    requires |sub| > 0
    ensures n == |Split(s, sub)| - 1
    ensures n > 0 <==> Contains(s, sub)
    decreases |s|
  {
    var i := Find(s, sub, 0);
    FindAbsent(s, sub);
    if i == -1 then 0 else 1 + Count(s[i + |sub|..], sub)
  }

  /** The characters Python's `str.isspace` accepts, which `strip()` removes. */
  const Whitespace: set<char> := {
    '\t', '\n', '\U{0B}', '\U{0C}', '\r', '\U{1C}', '\U{1D}', '\U{1E}', '\U{1F}', ' ',
    '\U{85}', '\U{A0}', '\U{1680}',
    '\U{2000}', '\U{2001}', '\U{2002}', '\U{2003}', '\U{2004}', '\U{2005}',
    '\U{2006}', '\U{2007}', '\U{2008}', '\U{2009}', '\U{200A}',
    '\U{2028}', '\U{2029}', '\U{202F}', '\U{205F}', '\U{3000}'
  }

  /** Python's `s.lstrip(chars)`: the longest suffix of `s` whose first
      character is not in `cs`. */
  function LStrip(s: string, cs: set<char>): (r: string)
    ensures |r| <= |s| && r == s[|s| - |r|..]
    ensures |r| > 0 ==> r[0] !in cs
    ensures forall i :: 0 <= i < |s| - |r| ==> s[i] in cs
    decreases |s|
  {
    if |s| > 0 && s[0] in cs then LStrip(s[1..], cs) else s
  }

  /** Python's `s.rstrip(chars)`: the longest prefix of `s` whose last
      character is not in `cs`. */
  function RStrip(s: string, cs: set<char>): (r: string)
    ensures |r| <= |s| && r == s[..|r|]
    ensures |r| > 0 ==> r[|r| - 1] !in cs
    ensures forall i :: |r| <= i < |s| ==> s[i] in cs
    decreases |s|
  {
    if |s| > 0 && s[|s| - 1] in cs then RStrip(s[..|s| - 1], cs) else s
  }

  /** `r` is the slice of `s` at offset `a`, and every character of `s`
      outside that slice is in `cs`. */
  predicate TrimmedAt(s: string, r: string, a: int, cs: set<char>) {
    && 0 <= a <= |s| - |r|
    && r == s[a..a + |r|]
    && (forall i :: 0 <= i < a ==> s[i] in cs)
    && (forall i :: a + |r| <= i < |s| ==> s[i] in cs)
  }

  /** Python's `s.strip()`: `s` without its leading and trailing whitespace. */
  function Strip(s: string): (r: string)
    ensures |r| <= |s|
    ensures |r| > 0 ==> r[0] !in Whitespace && r[|r| - 1] !in Whitespace
  {
    RStrip(LStrip(s, Whitespace), Whitespace)
  }

  /** `strip()` keeps a contiguous slice and removes only whitespace around it. */
  lemma StripIsTrim(s: string)
    ensures exists a :: TrimmedAt(s, Strip(s), a, Whitespace)
  {
    var l := LStrip(s, Whitespace);
    var r := RStrip(l, Whitespace);
    assert r == Strip(s);
    var a := |s| - |l|;
    assert r == s[a..a + |r|];
    assert TrimmedAt(s, r, a, Whitespace);
  }

  /** `strip()` adds no occurrence: its result is a piece of its input. */
  lemma StripKeepsAbsent(s: string, sub: string)
    requires !Contains(s, sub)
    ensures !Contains(Strip(s), sub)
  {
    StripIsTrim(s);
    var r := Strip(s);
    var a :| TrimmedAt(s, r, a, Whitespace);
    assert s == s[..a] + (r + s[a + |r|..]);
    NoOccurrenceInPart(s[..a], r + s[a + |r|..], sub);
    NoOccurrenceInPart(r, s[a + |r|..], sub);
  }

  /** An occurrence in the middle of a concatenation, shifted by the head. */
  lemma ShiftOccurs(a: string, b: string, c: string, sub: string, k: int)
    requires OccursAt(b, sub, k)
    ensures OccursAt(a + b + c, sub, |a| + k)
  {
    assert (a + b + c)[|a| + k..|a| + k + |sub|] == b[k..k + |sub|];
  }

  /** Every part occurs in the joined string. */
  lemma {:induction false} JoinHasPart(sep: string, parts: seq<string>, i: nat)
    requires i < |parts|
    ensures Contains(Join(sep, parts), parts[i])
    decreases i
  {
    var j := Join(sep, parts);
    if i == 0 {
      if |parts| == 1 {
        assert OccursAt(j, parts[0], 0);
      } else {
        assert j == parts[0] + (sep + Join(sep, parts[1..]));
        assert OccursAt(j, parts[0], 0);
      }
    } else {
      JoinHasPart(sep, parts[1..], i - 1);
      var k :| 0 <= k <= |Join(sep, parts[1..])| && OccursAt(Join(sep, parts[1..]), parts[i], k);
      ShiftOccurs(parts[0] + sep, Join(sep, parts[1..]), "", parts[i], k);
      assert parts[0] + sep + Join(sep, parts[1..]) + "" == j;
    }
  }

  /** Trailing whitespace never survives `strip()`. */
  lemma StripTrailingSpace(s: string)
    ensures Strip(s + " ") == Strip(s)
  {
    var l := LStrip(s, Whitespace);
    var l' := LStrip(s + " ", Whitespace);
    LStripAppend(s, " ", Whitespace);
    if |l| == 0 {
      assert l' == LStrip(" ", Whitespace);
      assert ' ' in Whitespace;
      assert LStrip(" ", Whitespace) == LStrip(" "[1..], Whitespace);
      assert " "[1..] == "";
      assert l' == l;
    } else {
      assert l' == l + " ";
      RStripDropLast(l', Whitespace);
      assert l'[..|l'| - 1] == l;
    }
  }

  /** A final character in `cs` is the first thing `rstrip` removes. */
  lemma RStripDropLast(s: string, cs: set<char>)
    requires |s| > 0 && s[|s| - 1] in cs
    ensures RStrip(s, cs) == RStrip(s[..|s| - 1], cs)
  {
  }

  /** Left-stripping a concatenation only reaches into the second part when
      the first part strips away entirely. */
  lemma {:induction false} LStripAppend(a: string, b: string, cs: set<char>)
    ensures LStrip(a + b, cs) == if |LStrip(a, cs)| == 0 then LStrip(b, cs) else LStrip(a, cs) + b
    decreases |a|
  {
    if |a| == 0 {
      assert a + b == b;
    } else if a[0] in cs {
      assert (a + b)[1..] == a[1..] + b;
      LStripAppend(a[1..], b, cs);
    }
  }

  /** Python's `s.replace(c, t)` for a single-character pattern. */
  function ReplaceChar(s: string, c: char, t: string): (r: string)
    ensures c !in t ==> c !in r
    ensures forall d :: d in r ==> (d in s && d != c) || d in t
    ensures c !in s ==> r == s
    decreases |s|
  {
    if |s| == 0 then ""
    else
      var rest := ReplaceChar(s[1..], c, t);
      if s[0] == c then t + rest else [s[0]] + rest
  }

  /** `ReplaceChar` acts on each part of a concatenation separately. */
  lemma {:induction false} ReplaceCharAppend(a: string, b: string, c: char, t: string)
    ensures ReplaceChar(a + b, c, t) == ReplaceChar(a, c, t) + ReplaceChar(b, c, t)
    decreases |a|
  {
    if |a| == 0 {
      assert a + b == b;
    } else {
      assert (a + b)[1..] == a[1..] + b;
      ReplaceCharAppend(a[1..], b, c, t);
    }
  }

  /** Python's index normalisation for a slice bound: negative bounds count
      from the end, and bounds are clamped to `[0, n]`. */
  function SliceBound(i: int, n: nat): (b: nat)
    ensures b <= n
    ensures 0 <= i <= n ==> b == i
  {
    if i < 0 then (if i + n < 0 then 0 else i + n)
    else if i > n then n
    else i
  }

  /** Python's `s[lo:hi]`: empty whenever the normalised end does not exceed
      the normalised start. */
  function Slice(s: string, lo: int, hi: int): (r: string)
    ensures 0 <= lo <= hi <= |s| ==> r == s[lo..hi]
    ensures 0 <= hi <= lo ==> r == ""
    ensures |r| <= |s|
  {
    var a := SliceBound(lo, |s|);
    var b := SliceBound(hi, |s|);
    if b <= a then "" else s[a..b]
  }

  /** A needle of two equal characters cannot occur in `a + b` unless it
      occurs in `a`, occurs in `b`, or straddles their boundary. */
  lemma NoPairInConcat(a: string, b: string, sub: string)
    requires |sub| == 2
    requires !Contains(a, sub) && !Contains(b, sub)
    requires |a| == 0 || |b| == 0 || a[|a| - 1] != sub[0] || b[0] != sub[1]
    ensures !Contains(a + b, sub)
  {
    var s := a + b;
    forall i | 0 <= i <= |s| && OccursAt(s, sub, i)
      ensures false
    {
      if i + 2 <= |a| {
        assert s[i..i + 2] == a[i..i + 2];
        assert OccursAt(a, sub, i);
      } else if i >= |a| {
        assert s[i..i + 2] == b[i - |a|..i - |a| + 2];
        assert OccursAt(b, sub, i - |a|);
      }
    }
  }

  /** A piece of a string with no occurrence of `sub` has none either. */
  lemma NoOccurrenceInPart(a: string, b: string, sub: string)
    requires !Contains(a + b, sub)
    ensures !Contains(a, sub) && !Contains(b, sub)
  {
    var s := a + b;
    forall i | 0 <= i <= |a|
      ensures !OccursAt(a, sub, i)
    {
      if i + |sub| <= |a| {
        assert s[i..i + |sub|] == a[i..i + |sub|];
        assert !OccursAt(s, sub, i);
      }
    }
    forall i | 0 <= i <= |b|
      ensures !OccursAt(b, sub, i)
    {
      if i + |sub| <= |b| {
        assert s[|a| + i..|a| + i + |sub|] == b[i..i + |sub|];
        assert !OccursAt(s, sub, |a| + i);
      }
    }
  }
}
