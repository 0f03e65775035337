/** How the search for an alias reads a text put together from parts. */
module PumlAliases {
  import opened Text
  import opened PumlDeclarations

  // ---------------------------------------------------------------- what may follow without being read

  /** Text after which, and within which, the alias search finds nothing: blanks, perhaps a colour
      token, blanks, perhaps an opening brace. */
  ghost predicate IsTail(t: string, ws1: string, token: string, ws2: string, brace: string) {
    && t == ws1 + token + ws2 + brace && AllSpace(ws1) && AllSpace(ws2)
    && (token != [] ==> token[0] == '#') && (forall i | 0 <= i < |token| :: !IsSpace(token[i]))
    && (brace == [] || brace == ['{'])
  }

  /** The first character cannot extend an alias, and after leading blanks none begins. */
  predicate IsQuiet(t: string) {
    t != [] ==>
      && !IsAliasChar(t[0]) && !IsWord(t[0])
      && var n := SpacesFrom(t, 0); (n < |t| ==> !IsAliasChar(t[n]))
  }

  lemma {:induction false} SpacesAcross(x: string, t: string, p: nat)
    requires p <= |x|
    ensures SpacesFrom(x + t, p) == SpacesFrom(x, p) + if p + SpacesFrom(x, p) == |x| then SpacesFrom(t, 0) else 0
    decreases |x| - p
  {
    if p < |x| {
      assert (x + t)[p] == x[p];
      if IsSpace(x[p]) {
        SpacesAcross(x, t, p + 1);
      }
    } else {
      SpacesShift(x, t, 0);
    }
  }

  lemma {:induction false} SpacesShift(x: string, t: string, i: nat)
    requires i <= |t|
    ensures SpacesFrom(x + t, |x| + i) == SpacesFrom(t, i)
    decreases |t| - i
  {
    if i < |t| {
      assert (x + t)[|x| + i] == t[i];
      if IsSpace(t[i]) {
        SpacesShift(x, t, i + 1);
      }
    }
  }

  lemma {:induction false} AliasCharsAcross(x: string, t: string, p: nat)
    requires p <= |x| && (t != [] ==> !IsAliasChar(t[0]))
    ensures AliasCharsFrom(x + t, p) == AliasCharsFrom(x, p)
    decreases |x| - p
  {
    if p < |x| {
      assert (x + t)[p] == x[p];
      if IsAliasChar(x[p]) {
        AliasCharsAcross(x, t, p + 1);
      }
    } else {
      assert t != [] ==> (x + t)[p] == t[0];
    }
  }

  lemma BoundaryAcross(x: string, t: string, j: nat)
    requires j <= |x| && (t != [] ==> !IsWord(t[0]))
    ensures BoundaryAt(x + t, j) == BoundaryAt(x, j)
  {
    assert j < |x| ==> (x + t)[j] == x[j];
    assert j == |x| && t != [] ==> (x + t)[j] == t[0];
    assert j > 0 ==> (x + t)[j - 1] == x[j - 1];
  }

  lemma {:induction false} LastBoundaryAcross(x: string, t: string, lo: nat, hi: nat)
    requires lo <= hi <= |x| && (t != [] ==> !IsWord(t[0]))
    ensures LastBoundary(x + t, lo, hi) == LastBoundary(x, lo, hi)
    decreases hi
  {
    BoundaryAcross(x, t, hi);
    if hi > lo {
      LastBoundaryAcross(x, t, lo, hi - 1);
    }
  }

  lemma AliasTextAcross(x: string, t: string, start: nat)
    requires start <= |x| && (t != [] ==> !IsAliasChar(t[0]) && !IsWord(t[0]))
    ensures AliasText(x + t, start) == AliasText(x, start)
  {
    AliasCharsAcross(x, t, start);
    var n := AliasCharsFrom(x, start);
    LastBoundaryAcross(x, t, start, start + n);
    var end := LastBoundary(x, start, start + n);
    assert (x + t)[start..end] == x[start..end];
  }

  /** Blanks that run into `t` are followed by no alias there. */
  lemma NothingPastBlanks(x: string, t: string, n: nat)
    requires IsQuiet(t) && n == SpacesFrom(t, 0)
    ensures AliasText(x + t, |x| + n) == None
  {
    assert |x| + n < |x + t| ==> (x + t)[|x| + n] == t[n];
    assert AliasCharsFrom(x + t, |x| + n) == 0;
  }

  lemma {:induction false} SpacesInside(x: string, t: string, p: nat)
    requires p <= |x| && p + SpacesFrom(x, p) < |x|
    ensures SpacesFrom(x + t, p) == SpacesFrom(x, p)
    decreases |x| - p
  {
    assert (x + t)[p] == x[p];
    if IsSpace(x[p]) {
      SpacesInside(x, t, p + 1);
    }
  }

  lemma AliasAfterInside(x: string, t: string, p: nat)
    requires p <= |x| && p + SpacesFrom(x, p) < |x| && (t != [] ==> !IsAliasChar(t[0]) && !IsWord(t[0]))
    ensures AliasAfter(x + t, p) == AliasAfter(x, p)
  {
    SpacesInside(x, t, p);
    AliasTextAcross(x, t, p + SpacesFrom(x, p));
  }

  lemma AliasAfterAtEnd(x: string, t: string, p: nat)
    requires p <= |x| == p + SpacesFrom(x, p) && IsQuiet(t)
    ensures AliasAfter(x + t, p) == None == AliasAfter(x, p)
  {
    SpacesAcross(x, t, p);
    NothingPastBlanks(x, t, SpacesFrom(t, 0));
    NothingAtEnd(x);
  }

  lemma NothingAtEnd(x: string)
    ensures AliasText(x, |x|) == None
  {}

  lemma AliasAtAcross(x: string, t: string, i: nat)
    requires i < |x| && IsQuiet(t)
    ensures AliasAt(x + t, i) == AliasAt(x, i)
  {
    var w := x + t;
    assert w[i] == x[i];
    BoundaryAcross(x, t, i);
    if i + 1 == |x| {
      assert t != [] ==> w[i + 1] == t[0];
    } else {
      assert w[i + 1] == x[i + 1];
      if i + 2 + SpacesFrom(x, i + 2) < |x| {
        AliasAfterInside(x, t, i + 2);
      } else {
        AliasAfterAtEnd(x, t, i + 2);
      }
    }
  }

  /** No alias is read inside the tail: `as` can only stand in its token, and blanks behind the
      token lead to the brace or the end. */
  lemma NoAliasWithin(x: string, t: string, ws1: string, token: string, ws2: string, brace: string, i: nat)
    requires IsTail(t, ws1, token, ws2, brace) && |x| <= i < |x + t|
    ensures AliasAt(x + t, i).None?
  {
    var w := x + t;
    if WordAsAt(w, i) {
      var a, b := |x| + |ws1|, |x| + |ws1| + |token|;
      TailLetters(x, t, ws1, token, ws2, brace, i);
      if i + 2 == b {
        BlanksToEnd(x + ws1 + token, ws2, brace);
        assert w == x + ws1 + token + (ws2 + brace);
      } else {
        assert w[i + 2] == token[i + 2 - a];
      }
    }
  }

  lemma TailLetters(x: string, t: string, ws1: string, token: string, ws2: string, brace: string, i: nat)
    requires IsTail(t, ws1, token, ws2, brace) && |x| <= i && WordAsAt(x + t, i)
    ensures |x| + |ws1| <= i && i + 2 <= |x| + |ws1| + |token|
  {
    var w := x + t;
    var a, b := |x| + |ws1|, |x| + |ws1| + |token|;
    assert forall j | |x| <= j < a :: w[j] == ws1[j - |x|];
    assert forall j | a <= j < b :: w[j] == token[j - a];
    assert forall j | b <= j < b + |ws2| :: w[j] == ws2[j - b];
    assert forall j | b + |ws2| <= j < |w| :: w[j] == '{';
  }

  lemma BlanksToEnd(u: string, ws: string, brace: string)
    requires AllSpace(ws) && (brace == [] || brace == ['{'])
    ensures AliasAfter(u + (ws + brace), |u|).None?
  {
    var t := ws + brace;
    var n := |ws|;
    SpacesOver(ws, brace);
    SpacesShift(u, t, 0);
    assert |u| + n < |u + t| ==> (u + t)[|u| + n] == '{';
    assert AliasCharsFrom(u + t, |u| + n) == 0;
  }

  lemma {:induction false} SpacesOver(ws: string, rest: string)
    requires AllSpace(ws) && (rest == [] || !IsSpace(rest[0]))
    ensures SpacesFrom(ws + rest, 0) == |ws|
  {
    SpacesOverFrom(ws, rest, 0);
  }

  lemma {:induction false} SpacesOverFrom(ws: string, rest: string, i: nat)
    requires AllSpace(ws) && (rest == [] || !IsSpace(rest[0])) && i <= |ws|
    ensures SpacesFrom(ws + rest, i) == |ws| - i
    decreases |ws| - i
  {
    if i < |ws| {
      assert (ws + rest)[i] == ws[i];
      SpacesOverFrom(ws, rest, i + 1);
    } else {
      assert rest != [] ==> (ws + rest)[i] == rest[0];
    }
  }

  lemma TailIsQuiet(t: string, ws1: string, token: string, ws2: string, brace: string)
    requires IsTail(t, ws1, token, ws2, brace)
    ensures IsQuiet(t)
  {
    if token != [] {
      var rest := token + ws2 + brace;
      assert t == ws1 + rest && rest[0] == '#';
      SpacesOver(ws1, rest);
      assert t[|ws1|] == '#';
    } else {
      var ws := ws1 + ws2;
      assert t == ws + brace;
      SpacesOver(ws, brace);
      assert brace != [] ==> t[|ws|] == '{';
      assert ws != [] ==> t[0] == ws[0];
    }
  }

  /** The search reads `x + t` as it reads `x`. */
  lemma {:induction false} AliasIgnoresTail(x: string, t: string, ws1: string, token: string, ws2: string, brace: string, i: nat)
    requires IsTail(t, ws1, token, ws2, brace)
    ensures AliasFrom(x + t, i) == AliasFrom(x, i)
    decreases |x + t| - i
  {
    if i < |x + t| {
      if i < |x| {
        TailIsQuiet(t, ws1, token, ws2, brace);
        AliasAtAcross(x, t, i);
      } else {
        NoAliasWithin(x, t, ws1, token, ws2, brace, i);
      }
      AliasIgnoresTail(x, t, ws1, token, ws2, brace, i + 1);
    }
  }

  // ---------------------------------------------------------------- reading on behind a text

  /** A text behind which a word begins anew. */
  predicate EndsWord(x: string) { x == [] || !IsWord(x[|x| - 1]) }

  lemma {:induction false} AliasCharsShift(x: string, w: string, i: nat)
    requires i <= |w|
    ensures AliasCharsFrom(x + w, |x| + i) == AliasCharsFrom(w, i)
    decreases |w| - i
  {
    if i < |w| {
      assert (x + w)[|x| + i] == w[i];
      if IsAliasChar(w[i]) {
        AliasCharsShift(x, w, i + 1);
      }
    }
  }

  lemma BoundaryShift(x: string, w: string, j: nat)
    requires EndsWord(x) && j <= |w|
    ensures BoundaryAt(x + w, |x| + j) == BoundaryAt(w, j)
  {
    assert j < |w| ==> (x + w)[|x| + j] == w[j];
    assert j > 0 ==> (x + w)[|x| + j - 1] == w[j - 1];
    assert j == 0 && x != [] ==> (x + w)[|x| - 1] == x[|x| - 1];
  }

  lemma {:induction false} LastBoundaryShift(x: string, w: string, lo: nat, hi: nat)
    requires EndsWord(x) && lo <= hi <= |w|
    ensures LastBoundary(x + w, |x| + lo, |x| + hi) == |x| + LastBoundary(w, lo, hi)
    decreases hi
  {
    BoundaryShift(x, w, hi);
    if hi > lo {
      LastBoundaryShift(x, w, lo, hi - 1);
    }
  }

  lemma AliasTextShift(x: string, w: string, i: nat)
    requires EndsWord(x) && i <= |w|
    ensures AliasText(x + w, |x| + i) == AliasText(w, i)
  {
    AliasCharsShift(x, w, i);
    LastBoundaryShift(x, w, i, i + AliasCharsFrom(w, i));
    SliceShift(x, w, i, LastBoundary(w, i, i + AliasCharsFrom(w, i)));
  }

  lemma SliceShift(x: string, w: string, i: nat, j: nat)
    requires i <= j <= |w|
    ensures (x + w)[|x| + i..|x| + j] == w[i..j]
  {
  }

  lemma WordAsShift(x: string, w: string, i: nat)
    requires EndsWord(x) && i < |w|
    ensures WordAsAt(x + w, |x| + i) == WordAsAt(w, i)
  {
    BoundaryShift(x, w, i);
    assert (x + w)[|x| + i] == w[i];
    assert i + 1 < |w| ==> (x + w)[|x| + i + 1] == w[i + 1];
  }

  lemma AliasAfterShift(x: string, w: string, p: nat)
    requires EndsWord(x) && p <= |w|
    ensures AliasAfter(x + w, |x| + p) == AliasAfter(w, p)
  {
    SpacesShift(x, w, p);
    AliasTextShift(x, w, p + SpacesFrom(w, p));
  }

  lemma AliasAtShift(x: string, w: string, i: nat)
    requires EndsWord(x) && i < |w|
    ensures AliasAt(x + w, |x| + i) == AliasAt(w, i)
  {
    WordAsShift(x, w, i);
    if WordAsAt(w, i) {
      AliasAfterShift(x, w, i + 2);
    }
  }

  /** Behind a text that ends a word the search reads as it reads alone. */
  lemma {:induction false} AliasFromShift(x: string, w: string, i: nat)
    requires EndsWord(x) && i <= |w|
    ensures AliasFrom(x + w, |x| + i) == AliasFrom(w, i)
    decreases |w| - i
  {
    if i < |w| {
      AliasAtShift(x, w, i);
      AliasFromShift(x, w, i + 1);
    }
  }

  lemma QuoteEndsWord(x: string)
    ensures EndsWord(x + ['"'])
  {
    assert (x + ['"'])[|x|] == '"';
  }

  lemma QuoteIsQuiet(y: string)
    requires y != [] && y[0] == '"'
    ensures IsQuiet(y)
  {
    assert SpacesFrom(y, 0) == 0;
  }

  lemma QuoteFirst(x: string, y: string)
    requires y != [] && y[0] == '"'
    ensures x + y == (x + ['"']) + y[1..]
  {
  }

  lemma NoAliasAtQuote(x: string, y: string)
    requires y != [] && y[0] == '"'
    ensures AliasFrom(x + y, |x|) == AliasFrom(x + y, |x| + 1)
  {
    assert (x + y)[|x|] == '"';
  }

  lemma PastQuote(x: string, y: string)
    requires y != [] && y[0] == '"'
    ensures AliasFrom(x + y, |x|) == AliasFrom(y[1..], 0)
  {
    NoAliasAtQuote(x, y);
    QuoteFirst(x, y);
    QuoteEndsWord(x);
    AliasFromShift(x + ['"'], y[1..], 0);
  }

  lemma {:induction false} AliasFromAcross(x: string, y: string, i: nat)
    requires i <= |x| && IsQuiet(y)
    ensures AliasFrom(x + y, i) == if AliasFrom(x, i).Some? then AliasFrom(x, i) else AliasFrom(x + y, |x|)
    decreases |x| - i
  {
    if i < |x| {
      AliasAtAcross(x, y, i);
      AliasFromAcross(x, y, i + 1);
    }
  }

  /** Ahead of a quotation mark the search finds what it finds in the text ahead, else it reads on
      behind the mark. */
  lemma AliasAheadOfQuote(x: string, y: string)
    requires y != [] && y[0] == '"'
    ensures AliasFrom(x + y, 0) == if AliasFrom(x, 0).Some? then AliasFrom(x, 0) else AliasFrom(y, 0)
  {
    QuoteIsQuiet(y);
    AliasFromAcross(x, y, 0);
    PastQuote(x, y);
    PastQuote([], y);
    assert [] + y == y;
  }

  lemma AliasBehindQuotes(w: string)
    ensures AliasFrom(['"', '"'] + w, 0) == AliasFrom(w, 0)
  {
    var y := ['"'] + w;
    assert ['"', '"'] + w == ['"'] + y;
    PastQuote([], ['"'] + y);
    assert [] + (['"'] + y) == ['"'] + y && (['"'] + y)[1..] == y;
    PastQuote([], y);
    assert [] + y == y && y[1..] == w;
  }
}
