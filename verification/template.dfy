/** The `{{name}}` template format: splitting a template into alternating
    literal and placeholder tokens, and the inverse rendering. */
module Template {
  import opened Wrappers
  import opened PyStr

  const Open: string := "{{"
  const Close: string := "}}"

  /** Each `{{`-separated piece split on `}}`, the results concatenated. */
  function TokensOf(pieces: seq<string>): (tokens: seq<string>)
    ensures |tokens| >= |pieces|
  {
    if |pieces| == 0 then []
    else Split(pieces[0], Close) + TokensOf(pieces[1..])
  }

  /** The compiler's tokenisation: `t.split('{{')`, each piece split on `}}`,
      flattened. Even positions hold literal text, odd positions placeholder
      names when the template is well formed. */
  function Tokenize(t: string): (tokens: seq<string>)
    ensures |tokens| >= 1
    ensures forall j :: 0 <= j < |tokens| ==> !Contains(tokens[j], Open) && !Contains(tokens[j], Close)
  {
    TokensFree(Split(t, Open));
    TokensOf(Split(t, Open))
  }

  /** Pieces free of `{{` split into tokens free of both delimiters. */
  lemma {:induction false} TokensFree(pieces: seq<string>)
    requires forall k :: 0 <= k < |pieces| ==> !Contains(pieces[k], Open)
    ensures forall j :: 0 <= j < |TokensOf(pieces)| ==>
              !Contains(TokensOf(pieces)[j], Open) && !Contains(TokensOf(pieces)[j], Close)
    decreases |pieces|
  {
    if |pieces| > 0 {
      SplitPartsFree(pieces[0], Close, Open);
      TokensFree(pieces[1..]);
    }
  }

  /** The tokens at even positions: the literal texts. */
  function Evens(tokens: seq<string>): (r: seq<string>)
    ensures forall i :: 0 <= i < |r| ==> 2 * i < |tokens| && r[i] == tokens[2 * i]
    decreases |tokens|
  {
    if |tokens| == 0 then []
    else
      var odds := Odds(tokens[1..]);
      var r := [tokens[0]] + odds;
      assert forall i :: 0 < i < |r| ==> 2 * i < |tokens| && r[i] == tokens[2 * i] by {
        forall i | 0 < i < |r|
          ensures 2 * i < |tokens| && r[i] == tokens[2 * i]
        {
          var j := i - 1;
          assert r[i] == odds[j];
          assert odds[j] == tokens[1..][2 * j + 1];
          assert 2 * j + 2 == 2 * i;
        }
      }
      r
  }

  /** The tokens at odd positions: the placeholder names. */
  function Odds(tokens: seq<string>): (r: seq<string>)
    ensures forall i :: 0 <= i < |r| ==> 2 * i + 1 < |tokens| && r[i] == tokens[2 * i + 1]
    decreases |tokens|
  {
    if |tokens| == 0 then [] else Evens(tokens[1..])
  }

  /** Every token is a literal or a name, and literals outnumber names by at
      most one. */
  lemma {:induction false} EvensOddsLength(tokens: seq<string>)
    ensures |Evens(tokens)| + |Odds(tokens)| == |tokens|
    ensures |Evens(tokens)| == |Odds(tokens)| || |Evens(tokens)| == |Odds(tokens)| + 1
    decreases |tokens|
  {
    if |tokens| > 0 {
      EvensOddsLength(tokens[1..]);
    }
  }

  /** `[l0, n0, l1, n1, ..., lk]`. */
  function Interleave(lits: seq<string>, names: seq<string>): (r: seq<string>)
    requires |lits| == |names| + 1
    ensures |r| == 2 * |names| + 1
    ensures forall i :: 0 <= i < |lits| ==> r[2 * i] == lits[i]
    ensures forall i :: 0 <= i < |names| ==> r[2 * i + 1] == names[i]
  {
    if |names| == 0 then [lits[0]]
    else [lits[0], names[0]] + Interleave(lits[1..], names[1..])
  }

  /** The template text `l0{{n0}}l1{{n1}}...lk`. */
  function Render(lits: seq<string>, names: seq<string>): string
    requires |lits| == |names| + 1
  {
    if |names| == 0 then lits[0]
    else lits[0] + Open + names[0] + Close + Render(lits[1..], names[1..])
  }

  /** A placeholder name with no brace in it. */
  predicate NameOk(n: string) {
    '{' !in n && '}' !in n
  }

  /** A literal with no delimiter in it that does not end in `{`. */
  predicate LitOk(l: string) {
    !Contains(l, Open) && !Contains(l, Close) && (|l| == 0 || l[|l| - 1] != '{')
  }

  /** Literals and names a template can be rendered from and tokenised back into. */
  predicate PartsOk(lits: seq<string>, names: seq<string>) {
    && |lits| == |names| + 1
    && (forall i :: 0 <= i < |lits| ==> LitOk(lits[i]))
    && (forall i :: 0 <= i < |names| ==> NameOk(names[i]))
  }

  /** A template whose first `{{`-piece has no `}}` and whose every later piece
      has exactly one: each `{{` is closed before the next one opens. */
  predicate WellFormed(t: string) {
    var pieces := Split(t, Open);
    |Split(pieces[0], Close)| == 1 && forall i :: 1 <= i < |pieces| ==> |Split(pieces[i], Close)| == 2
  }

  /** A name without braces contains neither delimiter. */
  lemma NameHasNoDelimiter(n: string)
    requires NameOk(n)
    ensures !Contains(n, Open) && !Contains(n, Close)
  {
    forall i | 0 <= i <= |n|
      ensures !OccursAt(n, Open, i) && !OccursAt(n, Close, i)
    {
      if i + 2 <= |n| {
        assert n[i] in n;
      }
    }
  }

  /** Splitting on a two-character separator undoes joining with it, as long
      as no part contains it and no part but the last ends with its first
      character. */
  lemma {:induction false} SplitJoin(parts: seq<string>, sep: string)
    requires |sep| == 2 && |parts| >= 1
    requires forall i :: 0 <= i < |parts| ==> !Contains(parts[i], sep)
    requires forall i :: 0 <= i < |parts| - 1 ==> |parts[i]| == 0 || parts[i][|parts[i]| - 1] != sep[0]
    ensures Split(Join(sep, parts), sep) == parts
    decreases |parts|
  {
    if |parts| == 1 {
      SplitNoSep(parts[0], sep);
    } else {
      var a := parts[0];
      var b := Join(sep, parts[1..]);
      var s := a + sep + b;
      assert OccursAt(s, sep, |a|);
      forall j | 0 <= j < |a|
        ensures !OccursAt(s, sep, j)
      {
        if j + 2 <= |a| {
          assert s[j..j + 2] == a[j..j + 2];
          assert !OccursAt(a, sep, j);
        } else {
          assert s[j] == a[|a| - 1];
        }
      }
      FindFirst(s, sep, |a|);
      SplitCons(a, sep, b);
      SplitJoin(parts[1..], sep);
      assert parts == [a] + parts[1..];
    }
  }

  /** The `{{`-pieces of a rendered template. */
  function Pieces(lits: seq<string>, names: seq<string>): (ps: seq<string>)
    requires |lits| == |names| + 1
    ensures |ps| == |lits|
  {
    [lits[0]] + seq(|names|, i requires 0 <= i < |names| => names[i] + Close + lits[i + 1])
  }

  lemma TokensOfCons(p: string, ps: seq<string>)
    ensures TokensOf([p] + ps) == Split(p, Close) + TokensOf(ps)
  {
    assert ([p] + ps)[1..] == ps;
  }

  lemma JoinCons(sep: string, p: string, ps: seq<string>)
    requires |ps| > 0
    ensures Join(sep, [p] + ps) == p + sep + Join(sep, ps)
  {
    assert ([p] + ps)[1..] == ps;
  }

  /** The closing delimiter does not contain the opening one. */
  lemma CloseHasNoOpen()
    ensures !Contains(Close, Open)
  {
    forall i | 0 <= i <= |Close|
      ensures !OccursAt(Close, Open, i)
    {
      if i + 2 <= |Close| {
        assert Close[i] == '}';
      }
    }
  }

  lemma {:induction false} RenderIsJoin(lits: seq<string>, names: seq<string>)
    requires |lits| == |names| + 1
    ensures Render(lits, names) == Join(Open, Pieces(lits, names))
    decreases |names|
  {
    if |names| > 0 {
      RenderIsJoin(lits[1..], names[1..]);
      var ps := Pieces(lits, names);
      var qs := Pieces(lits[1..], names[1..]);
      assert ps[1..] == [names[0] + Close + qs[0]] + qs[1..];
      assert Join(Open, ps[1..]) == names[0] + Close + Join(Open, qs);
    }
  }

  /** A name without braces does not end in `}`. */
  lemma NameEnd(n: string)
    requires NameOk(n)
    ensures |n| == 0 || n[|n| - 1] != '}'
  {
    if |n| > 0 {
      assert n[|n| - 1] in n;
    }
  }

  /** A rendered piece `n}}l` splits into its name and literal. */
  lemma PieceSplits(n: string, l: string)
    requires NameOk(n) && LitOk(l)
    ensures Split(n + Close + l, Close) == [n, l]
  {
    NameHasNoDelimiter(n);
    NameEnd(n);
    SplitJoin([n, l], Close);
    assert Join(Close, [n, l]) == n + Close + l;
  }

  /** A rendered piece `n}}l` opens no placeholder, and ends as its literal does. */
  lemma PieceHasNoOpen(n: string, l: string)
    requires NameOk(n) && LitOk(l)
    ensures !Contains(n + Close + l, Open)
    ensures |n + Close + l| > 0 && (n + Close + l)[|n + Close + l| - 1] != '{'
  {
    NameHasNoDelimiter(n);
    CloseHasNoOpen();
    NoPairInConcat(Close, l, Open);
    NoPairInConcat(n, Close + l, Open);
    assert n + (Close + l) == n + Close + l;
  }

  /** Tokenising the pieces of a rendered template gives the interleaving. */
  lemma {:induction false} TokensOfPieces(lits: seq<string>, names: seq<string>)
    requires PartsOk(lits, names)
    ensures TokensOf(Pieces(lits, names)) == Interleave(lits, names)
    decreases |names|
  {
    var ps := Pieces(lits, names);
    SplitNoSep(lits[0], Close);
    if |names| == 0 {
      TokensOfCons(lits[0], []);
      assert ps == [lits[0]] + [];
    } else {
      assert PartsOk(lits[1..], names[1..]);
      TokensOfPieces(lits[1..], names[1..]);
      TokensOfPiecesStep(lits, names);
    }
  }

  /** The pieces of a rendering with a placeholder: the first literal, the
      first name with the second literal, then the later pieces. */
  lemma PiecesCons(lits: seq<string>, names: seq<string>)
    requires |lits| == |names| + 1 && |names| > 0
    ensures Pieces(lits, names) == [lits[0]] + ([names[0] + Close + lits[1]] + Pieces(lits[1..], names[1..])[1..])
  {
  }

  lemma TokensOfPiecesStep(lits: seq<string>, names: seq<string>)
    requires PartsOk(lits, names) && |names| > 0
    requires TokensOf(Pieces(lits[1..], names[1..])) == Interleave(lits[1..], names[1..])
    ensures TokensOf(Pieces(lits, names)) == Interleave(lits, names)
  {
    var qs := Pieces(lits[1..], names[1..]);
    var p1 := names[0] + Close + lits[1];
    TokensOfPiecesHead(lits, names);
    PieceSplits(names[0], lits[1]);
    TokensOfNamed(p1, qs[1..]);
    assert [lits[1]] + qs[1..] == qs;
  }

  /** The first piece of a rendering is its first literal token. */
  lemma TokensOfPiecesHead(lits: seq<string>, names: seq<string>)
    requires |lits| == |names| + 1 && |names| > 0 && !Contains(lits[0], Close)
    ensures TokensOf(Pieces(lits, names)) == [lits[0]] + TokensOf([names[0] + Close + lits[1]] + Pieces(lits[1..], names[1..])[1..])
  {
    var ps := Pieces(lits, names);
    PiecesCons(lits, names);
    SplitNoSep(lits[0], Close);
    TokensOfHead(ps);
    assert ps[1..] == [names[0] + Close + lits[1]] + Pieces(lits[1..], names[1..])[1..];
  }

  /** Rendering then tokenising gives back the literals and names, interleaved. */
  lemma TokenizeRender(lits: seq<string>, names: seq<string>)
    requires PartsOk(lits, names)
    ensures Tokenize(Render(lits, names)) == Interleave(lits, names)
    ensures Split(Render(lits, names), Open) == Pieces(lits, names)
  {
    var ps := Pieces(lits, names);
    RenderIsJoin(lits, names);
    forall i | 0 <= i < |ps|
      ensures !Contains(ps[i], Open)
      ensures i < |ps| - 1 ==> |ps[i]| == 0 || ps[i][|ps[i]| - 1] != Open[0]
    {
      if i > 0 {
        PieceHasNoOpen(names[i - 1], lits[i]);
      }
    }
    SplitJoin(ps, Open);
    TokensOfPieces(lits, names);
  }

  /** A rendered template opens as many placeholders as it has names. */
  lemma RenderCount(lits: seq<string>, names: seq<string>)
    requires PartsOk(lits, names)
    ensures Count(Render(lits, names), Open) == |names|
    ensures WellFormed(Render(lits, names))
  {
    TokenizeRender(lits, names);
    PiecesWellFormed(lits, names);
  }

  /** The first piece of a rendering has no `}}`, every later one exactly one. */
  lemma PiecesWellFormed(lits: seq<string>, names: seq<string>)
    requires PartsOk(lits, names)
    ensures |Split(Pieces(lits, names)[0], Close)| == 1
    ensures forall i :: 1 <= i < |lits| ==> |Split(Pieces(lits, names)[i], Close)| == 2
  {
    SplitNoSep(lits[0], Close);
    forall i | 1 <= i < |lits|
      ensures |Split(Pieces(lits, names)[i], Close)| == 2
    {
      LaterPieceSplits(lits, names, i);
    }
  }

  lemma LaterPieceSplits(lits: seq<string>, names: seq<string>, i: nat)
    requires |lits| == |names| + 1 && 1 <= i < |lits|
    requires NameOk(names[i - 1]) && LitOk(lits[i])
    ensures |Split(Pieces(lits, names)[i], Close)| == 2
  {
    assert Pieces(lits, names)[i] == names[i - 1] + Close + lits[i];
    PieceSplits(names[i - 1], lits[i]);
  }

  /** Rendering the tokens `a, b, us...` puts `a` and the placeholder `b` first. */
  lemma RenderCons(a: string, b: string, us: seq<string>)
    requires |Evens(us)| == |Odds(us)| + 1
    ensures Evens([a, b] + us) == [a] + Evens(us)
    ensures Odds([a, b] + us) == [b] + Odds(us)
    ensures Render(Evens([a, b] + us), Odds([a, b] + us)) == a + Open + (b + Close + Render(Evens(us), Odds(us)))
  {
    var ts := [a, b] + us;
    assert ts[1..] == [b] + us;
    assert ts[1..][1..] == us;
    var r := Render(Evens(us), Odds(us));
    assert a + Open + b + Close + r == a + Open + (b + Close + r);
  }

  /** Re-joining the later pieces once the first of them is split at its `}}`. */
  lemma JoinLaterPieces(pieces: seq<string>, q: seq<string>)
    requires |pieces| >= 2 && q == Split(pieces[1], Close) && |q| == 2
    ensures Join(Open, pieces[1..]) == q[0] + Close + Join(Open, [q[1]] + pieces[2..])
  {
    assert pieces[1] == q[0] + Close + q[1] by {
      JoinCons(Close, q[0], [q[1]]);
      assert q == [q[0]] + [q[1]];
    }
    if |pieces| == 2 {
      assert pieces[1..] == [pieces[1]];
    } else {
      assert pieces[1..] == [pieces[1]] + pieces[2..];
      JoinCons(Open, pieces[1], pieces[2..]);
      JoinCons(Open, q[1], pieces[2..]);
    }
  }

  /** A piece without `}}` is a single token. */
  lemma SingleToken(p: string)
    requires |Split(p, Close)| == 1
    ensures Split(p, Close) == [p]
  {
    var q := Split(p, Close);
    assert Join(Close, q) == q[0];
  }

  /** A first piece without `}}` is the first token. */
  lemma TokensOfHead(pieces: seq<string>)
    requires |pieces| >= 1 && |Split(pieces[0], Close)| == 1
    ensures TokensOf(pieces) == [pieces[0]] + TokensOf(pieces[1..])
  {
    SingleToken(pieces[0]);
    assert pieces == [pieces[0]] + pieces[1..];
    TokensOfCons(pieces[0], pieces[1..]);
  }

  /** A piece with one `}}` gives a name, then a literal that starts the
      tokens of the pieces after it. */
  lemma TokensOfNamed(p: string, rest: seq<string>)
    requires |Split(p, Close)| == 2
    ensures var q := Split(p, Close);
            TokensOf([p] + rest) == [q[0]] + TokensOf([q[1]] + rest)
  {
    var q := Split(p, Close);
    TokensOfCons(p, rest);
    SplitNoSep(q[1], Close);
    TokensOfCons(q[1], rest);
    assert q == [q[0]] + [q[1]];
  }

  /** The first two well-formed pieces give a literal, a name, and a literal
      that starts the tokens of the remaining pieces. */
  lemma TokensOfStep(pieces: seq<string>)
    requires |pieces| >= 2 && |Split(pieces[0], Close)| == 1 && |Split(pieces[1], Close)| == 2
    ensures var q := Split(pieces[1], Close);
            TokensOf(pieces) == [pieces[0], q[0]] + TokensOf([q[1]] + pieces[2..])
  {
    TokensOfHead(pieces);
    TokensOfSecond(pieces);
    ConsTwo(pieces[0], Split(pieces[1], Close)[0], TokensOf([Split(pieces[1], Close)[1]] + pieces[2..]));
  }

  /** The pieces after a first one start with a name and a literal. */
  lemma TokensOfSecond(pieces: seq<string>)
    requires |pieces| >= 2 && |Split(pieces[1], Close)| == 2
    ensures var q := Split(pieces[1], Close);
            TokensOf(pieces[1..]) == [q[0]] + TokensOf([q[1]] + pieces[2..])
  {
    assert pieces[1..] == [pieces[1]] + pieces[2..];
    TokensOfNamed(pieces[1], pieces[2..]);
  }

  lemma ConsTwo(a: string, b: string, rest: seq<string>)
    ensures [a] + ([b] + rest) == [a, b] + rest
  {
  }

  /** The rendering of well-formed pieces extends by one literal and name per
      piece. */
  lemma RenderStep(pieces: seq<string>)
    requires |pieces| >= 2 && |Split(pieces[0], Close)| == 1 && |Split(pieces[1], Close)| == 2
    requires var q := Split(pieces[1], Close);
             var us := TokensOf([q[1]] + pieces[2..]);
             && |Evens(us)| == |pieces| - 1 && |Odds(us)| == |pieces| - 2
             && Join(Open, [q[1]] + pieces[2..]) == Render(Evens(us), Odds(us))
    ensures |Evens(TokensOf(pieces))| == |pieces| && |Odds(TokensOf(pieces))| == |pieces| - 1
    ensures Join(Open, pieces) == Render(Evens(TokensOf(pieces)), Odds(TokensOf(pieces)))
  {
    var q := Split(pieces[1], Close);
    var rest := [q[1]] + pieces[2..];
    var us := TokensOf(rest);
    var ts := TokensOf(pieces);
    TokensOfStep(pieces);
    assert ts == [pieces[0], q[0]] + us;
    RenderCons(pieces[0], q[0], us);
    JoinCons(Open, pieces[0], pieces[1..]);
    assert [pieces[0]] + pieces[1..] == pieces;
    JoinLaterPieces(pieces, q);
  }

  /** The tokens of well-formed pieces alternate, one name per later piece. */
  lemma {:induction false} TokensOfWellFormed(pieces: seq<string>)
    requires |pieces| >= 1 && |Split(pieces[0], Close)| == 1
    requires forall i :: 1 <= i < |pieces| ==> |Split(pieces[i], Close)| == 2
    ensures |Evens(TokensOf(pieces))| == |pieces| && |Odds(TokensOf(pieces))| == |pieces| - 1
    ensures Join(Open, pieces) == Render(Evens(TokensOf(pieces)), Odds(TokensOf(pieces)))
    decreases |pieces|
  {
    if |pieces| == 1 {
      TokensOfSingle(pieces);
    } else {
      var q := Split(pieces[1], Close);
      WellFormedRest(pieces);
      TokensOfWellFormed([q[1]] + pieces[2..]);
      RenderStep(pieces);
    }
  }

  lemma TokensOfSingle(pieces: seq<string>)
    requires |pieces| == 1 && |Split(pieces[0], Close)| == 1
    ensures |Evens(TokensOf(pieces))| == 1 && |Odds(TokensOf(pieces))| == 0
    ensures Join(Open, pieces) == Render(Evens(TokensOf(pieces)), Odds(TokensOf(pieces)))
  {
    SingleToken(pieces[0]);
    TokensOfCons(pieces[0], []);
    assert pieces == [pieces[0]] + [];
  }

  /** Once the second piece is split at its `}}`, its literal and the pieces
      after it are well-formed pieces again. */
  lemma WellFormedRest(pieces: seq<string>)
    requires |pieces| >= 2 && |Split(pieces[1], Close)| == 2
    requires forall i :: 1 <= i < |pieces| ==> |Split(pieces[i], Close)| == 2
    ensures var rest := [Split(pieces[1], Close)[1]] + pieces[2..];
            && |Split(rest[0], Close)| == 1
            && forall i :: 1 <= i < |rest| ==> |Split(rest[i], Close)| == 2
  {
    var q := Split(pieces[1], Close);
    var rest := [q[1]] + pieces[2..];
    SplitNoSep(q[1], Close);
    forall i | 1 <= i < |rest|
      ensures |Split(rest[i], Close)| == 2
    {
      assert rest[i] == pieces[i + 1];
    }
  }

  /** A well-formed template is the rendering of its own literal and name tokens. */
  lemma RenderTokenize(t: string)
    requires WellFormed(t)
    ensures |Evens(Tokenize(t))| == |Odds(Tokenize(t))| + 1
    ensures Render(Evens(Tokenize(t)), Odds(Tokenize(t))) == t
  {
    RenderPieces(Split(t, Open), t);
  }

  lemma RenderPieces(pieces: seq<string>, t: string)
    requires |pieces| >= 1 && |Split(pieces[0], Close)| == 1
    requires forall i :: 1 <= i < |pieces| ==> |Split(pieces[i], Close)| == 2
    requires Join(Open, pieces) == t
    ensures |Evens(TokensOf(pieces))| == |Odds(TokensOf(pieces))| + 1
    ensures Render(Evens(TokensOf(pieces)), Odds(TokensOf(pieces))) == t
  {
    TokensOfWellFormed(pieces);
  }

  /** The number of placeholders of a well-formed template is the number of
      its `{{` delimiters. */
  lemma PlaceholderCount(t: string)
    requires WellFormed(t)
    ensures |Odds(Tokenize(t))| == Count(t, Open)
  {
    TokensOfWellFormed(Split(t, Open));
  }

  /** The tokens `a, b, us...` have `a` as first literal and `b` as first name. */
  lemma EvensOddsCons(a: string, b: string, us: seq<string>)
    ensures Evens([a, b] + us) == [a] + Evens(us)
    ensures Odds([a, b] + us) == [b] + Odds(us)
  {
    var ts := [a, b] + us;
    assert ts[1..] == [b] + us;
    assert ts[1..][1..] == us;
  }

  /** The first of the names, in order, that is not among `keys`. */
  function FirstUnknown(names: seq<string>, keys: seq<string>): (r: Option<string>)
    ensures r.None? <==> forall n :: n in names ==> n in keys
    ensures r.Some? ==> exists i :: && 0 <= i < |names| && names[i] == r.value
                                    && r.value !in keys
                                    && forall j :: 0 <= j < i ==> names[j] in keys
    decreases |names|
  {
    if |names| == 0 then None
    else if names[0] !in keys then Some(names[0])
    else
      var r := FirstUnknown(names[1..], keys);
      assert forall j :: 0 < j < |names| ==> names[j] == names[1..][j - 1];
      r
  }

  // ----- Placeholders separated only by spaces -----

  /** The text with its spaces deleted: Python's `s.replace(' ', '')`. */
  function Unspaced(s: string): string {
    ReplaceChar(s, ' ', "")
  }

  /** Every prefix of the unspaced text is the unspaced form of a prefix. */
  lemma {:induction false} UnspacedPrefix(t: string, k: nat)
    requires k <= |Unspaced(t)|
    ensures exists i :: 0 <= i <= |t| && Unspaced(t[..i]) == Unspaced(t)[..k]
    decreases |t|
  {
    if k == 0 {
      assert Unspaced(t[..0]) == Unspaced(t)[..0];
    } else if t[0] == ' ' {
      UnspacedPrefix(t[1..], k);
      var i :| 0 <= i <= |t[1..]| && Unspaced(t[1..][..i]) == Unspaced(t[1..])[..k];
      UnspacedPrefixStep(t, i, k);
    } else {
      UnspacedPrefix(t[1..], k - 1);
      var i :| 0 <= i <= |t[1..]| && Unspaced(t[1..][..i]) == Unspaced(t[1..])[..k - 1];
      UnspacedPrefixStep(t, i, k);
    }
  }

  /** A prefix of the text after its first character extends to a prefix of
      the text. */
  lemma UnspacedPrefixStep(t: string, i: nat, k: nat)
    requires 0 < k <= |Unspaced(t)| && i < |t|
    requires t[0] == ' ' ==> Unspaced(t[1..][..i]) == Unspaced(t[1..])[..k]
    requires t[0] != ' ' ==> Unspaced(t[1..][..i]) == Unspaced(t[1..])[..k - 1]
    ensures Unspaced(t[..i + 1]) == Unspaced(t)[..k]
  {
    assert t[..i + 1] == [t[0]] + t[1..][..i];
    ReplaceCharAppend([t[0]], t[1..][..i], ' ', "");
    if t[0] != ' ' {
      assert Unspaced(t)[..k] == [t[0]] + Unspaced(t[1..])[..k - 1];
    }
  }

  /** A stretch that reads `w` without its spaces puts `w` in the unspaced text. */
  lemma UnspacedStretch(t: string, w: string, i: nat, j: nat)
    requires i <= j <= |t| && Unspaced(t[i..j]) == w
    ensures OccursAt(Unspaced(t), w, |Unspaced(t[..i])|)
  {
    assert t == t[..i] + t[i..j] + t[j..];
    ReplaceCharAppend(t[..i] + t[i..j], t[j..], ' ', "");
    ReplaceCharAppend(t[..i], t[i..j], ' ', "");
  }

  /** Prefixes of the text have unspaced forms that grow with them. */
  lemma UnspacedMonotone(t: string, i: nat, j: nat)
    requires i <= j <= |t|
    ensures Unspaced(t[..j]) == Unspaced(t[..i]) + Unspaced(t[i..j])
  {
    assert t[..j] == t[..i] + t[i..j];
    ReplaceCharAppend(t[..i], t[i..j], ' ', "");
  }

  /** An occurrence of `w` in the unspaced text comes from a stretch of the text. */
  lemma UnspacedOccurrence(t: string, w: string, k: nat)
    requires |w| > 0 && OccursAt(Unspaced(t), w, k)
    ensures exists i, j :: 0 <= i <= j <= |t| && Unspaced(t[i..j]) == w
  {
    var u := Unspaced(t);
    UnspacedPrefix(t, k);
    UnspacedPrefix(t, k + |w|);
    var i :| 0 <= i <= |t| && Unspaced(t[..i]) == u[..k];
    var j :| 0 <= j <= |t| && Unspaced(t[..j]) == u[..k + |w|];
    if j < i {
      UnspacedMonotone(t, j, i);
    } else {
      UnspacedMonotone(t, i, j);
      assert Unspaced(t[i..j]) == u[k..k + |w|];
    }
  }

  /** The unspaced text contains `w` exactly when some stretch of the text
      reads `w` once its spaces are deleted. */
  lemma UnspacedContains(t: string, w: string)
    ensures Contains(Unspaced(t), w) <==> exists i, j :: 0 <= i <= j <= |t| && Unspaced(t[i..j]) == w
  {
    if exists i, j :: 0 <= i <= j <= |t| && Unspaced(t[i..j]) == w {
      var i, j :| 0 <= i <= j <= |t| && Unspaced(t[i..j]) == w;
      UnspacedStretch(t, w, i, j);
    }
    if Contains(Unspaced(t), w) {
      if |w| == 0 {
        assert Unspaced(t[0..0]) == w;
      } else {
        var k :| 0 <= k <= |Unspaced(t)| && OccursAt(Unspaced(t), w, k);
        UnspacedOccurrence(t, w, k);
      }
    }
  }

  /** The non-empty strings among `xs`, in order. */
  function NonEmpty(xs: seq<string>): (r: seq<string>)
    ensures |r| <= |xs|
    ensures forall x :: x in r <==> x in xs && x != ""
    decreases |xs|
  {
    if |xs| == 0 then []
    else (if xs[0] == "" then [] else [xs[0]]) + NonEmpty(xs[1..])
  }

  lemma NonEmptyCons(x: string, xs: seq<string>)
    ensures NonEmpty([x] + xs) == (if x == "" then [] else [x]) + NonEmpty(xs)
  {
    assert ([x] + xs)[1..] == xs;
  }

  /** Interleaving puts the literals at the even positions and the names at
      the odd ones. */
  lemma {:induction false} EvensOddsInterleave(lits: seq<string>, names: seq<string>)
    requires |lits| == |names| + 1
    ensures Evens(Interleave(lits, names)) == lits && Odds(Interleave(lits, names)) == names
    decreases |names|
  {
    if |names| == 0 {
      assert Evens([lits[0]]) == [lits[0]];
    } else {
      EvensOddsInterleave(lits[1..], names[1..]);
      EvensOddsCons(lits[0], names[0], Interleave(lits[1..], names[1..]));
      assert lits == [lits[0]] + lits[1..] && names == [names[0]] + names[1..];
    }
  }

  /** Dropping the empty strings leaves the run of non-empty ones between
      empty edges. */
  lemma {:induction false} NonEmptyRange(xs: seq<string>, a: nat, m: nat)
    requires a <= m <= |xs|
    requires forall i :: 0 <= i < a ==> xs[i] == ""
    requires forall i :: a <= i < m ==> xs[i] != ""
    requires forall i :: m <= i < |xs| ==> xs[i] == ""
    ensures NonEmpty(xs) == xs[a..m]
    decreases |xs|
  {
    if m == 0 {
      NonEmptyBlank(xs);
    } else {
      NonEmptyCons(xs[0], xs[1..]);
      assert xs == [xs[0]] + xs[1..];
      if a > 0 {
        NonEmptyRange(xs[1..], a - 1, m - 1);
      } else {
        NonEmptyRange(xs[1..], 0, m - 1);
      }
    }
  }

  /** Only empty strings leave nothing. */
  lemma NonEmptyBlank(xs: seq<string>)
    requires forall i :: 0 <= i < |xs| ==> xs[i] == ""
    ensures NonEmpty(xs) == []
  {
    if NonEmpty(xs) != [] {
      assert NonEmpty(xs)[0] in NonEmpty(xs);
    }
  }

  /** Strings that are all non-empty are kept as they are. */
  lemma {:induction false} NonEmptyAll(xs: seq<string>)
    requires forall i :: 0 <= i < |xs| ==> xs[i] != ""
    ensures NonEmpty(xs) == xs
    decreases |xs|
  {
    if |xs| > 0 {
      NonEmptyAll(xs[1..]);
      NonEmptyCons(xs[0], xs[1..]);
      assert xs == [xs[0]] + xs[1..];
    }
  }
}
