/** Cutting a record's prose into passages that never break a word. */
module CorpusText {
  import opened Text

  predicate IsToken(w: string) { w != [] && forall i | 0 <= i < |w| :: !IsSpace(w[i]) }

  predicate AreTokens(ws: seq<string>) { forall i | 0 <= i < |ws| :: IsToken(ws[i]) }

  /** The length of the longest blank-free beginning. */
  function TokenLength(s: string): (n: nat)
    ensures n <= |s| && (forall i | 0 <= i < n :: !IsSpace(s[i])) && (n < |s| ==> IsSpace(s[n]))
  {
    if s == [] || IsSpace(s[0]) then 0 else 1 + TokenLength(s[1..])
  }

  /** `text.split()`. */
  function Words(text: string): (ws: seq<string>)
    ensures AreTokens(ws)
    decreases |text|
  {
    if text == [] then []
    else if IsSpace(text[0]) then Words(text[1..])
    else var n := TokenLength(text); [text[..n]] + Words(text[n..])
  }

  lemma {:induction false} TokenLengthAcross(a: string, c: char, b: string)
    requires IsSpace(c)
    ensures TokenLength(a + ([c] + b)) == TokenLength(a)
  {
    if a == [] {
      assert (a + ([c] + b))[0] == c;
    } else {
      assert (a + ([c] + b))[0] == a[0] && (a + ([c] + b))[1..] == a[1..] + ([c] + b);
      TokenLengthAcross(a[1..], c, b);
    }
  }

  /** A blank, whichever it is, parts the words ahead of it from those behind. */
  lemma {:induction false} WordsAcross(a: string, c: char, b: string)
    requires IsSpace(c)
    ensures Words(a + ([c] + b)) == Words(a) + Words(b)
    decreases |a|
  {
    var s := a + ([c] + b);
    if a == [] {
      assert s[0] == c && s[1..] == b;
    } else if IsSpace(a[0]) {
      assert s[1..] == a[1..] + ([c] + b);
      WordsAcross(a[1..], c, b);
    } else {
      var n := TokenLength(a);
      TokenLengthAcross(a, c, b);
      CutBefore(a, n, [c] + b);
      WordsAcross(a[n..], c, b);
      FirstWordStays(a[..n], Words(a[n..]), Words(b));
    }
  }

  lemma CutBefore(a: string, n: nat, b: string)
    requires n <= |a|
    ensures (a + b)[..n] == a[..n] && (a + b)[n..] == a[n..] + b
  {
  }

  lemma FirstWordStays(w: string, x: seq<string>, y: seq<string>)
    ensures [w] + (x + y) == [w] + x + y
  {
  }

  lemma {:induction false} TokenIsLong(w: string)
    requires forall i | 0 <= i < |w| :: !IsSpace(w[i])
    ensures TokenLength(w) == |w|
  {
  }

  /** A text without blanks is one word. */
  lemma WordsOfToken(w: string)
    requires IsToken(w)
    ensures Words(w) == [w]
  {
    TokenIsLong(w);
    assert w[..|w|] == w && w[|w|..] == [];
  }

  /** `" ".join(ws)`. */
  function Join(ws: seq<string>): string {
    if ws == [] then "" else if |ws| == 1 then ws[0] else ws[0] + [' '] + Join(ws[1..])
  }

  lemma {:induction false} JoinAppend(a: seq<string>, b: seq<string>)
    requires a != [] && b != []
    ensures Join(a + b) == Join(a) + [' '] + Join(b)
  {
    if |a| > 1 {
      assert (a + b)[1..] == a[1..] + b;
      JoinAppend(a[1..], b);
    } else {
      assert (a + b)[1..] == b;
    }
  }

  /** Joining words and splitting them again is the identity. */
  lemma {:induction false} WordsOfJoin(ws: seq<string>)
    requires AreTokens(ws)
    ensures Words(Join(ws)) == ws
  {
    if ws == [] {
    } else if |ws| == 1 {
      assert TokenLength(ws[0]) == |ws[0]|;
      assert ws[0][..|ws[0]|] == ws[0] && ws[0][|ws[0]|..] == "";
    } else {
      var s := Join(ws);
      var n := |ws[0]|;
      var rest := [' '] + Join(ws[1..]);
      assert s == ws[0] + rest;
      assert s[n] == ' ' && s[..n] == ws[0] && s[n..] == rest;
      assert TokenLength(s) == n by { assert forall i | 0 <= i < n :: s[i] == ws[0][i]; }
      assert rest[1..] == Join(ws[1..]);
      WordsOfJoin(ws[1..]);
    }
  }

  // ---------------------------------------------------------------- splits into passages

  function Flatten(passages: seq<seq<string>>): seq<string> {
    if passages == [] then [] else passages[0] + Flatten(passages[1..])
  }

  lemma {:induction false} FlattenAppend(a: seq<seq<string>>, b: seq<seq<string>>)
    ensures Flatten(a + b) == Flatten(a) + Flatten(b)
  {
    if a == [] {
      assert a + b == b;
    } else {
      assert (a + b)[1..] == a[1..] + b;
      FlattenAppend(a[1..], b);
    }
  }

  /** A passage that keeps to the size, or is one word that cannot. */
  predicate Fits(passage: seq<string>, size: int) { |passage| <= 1 || |Join(passage)| <= size }

  predicate AllFit(passages: seq<seq<string>>, size: int) {
    forall i | 0 <= i < |passages| :: Fits(passages[i], size)
  }

  predicate NoneEmpty(passages: seq<seq<string>>) {
    forall i | 0 <= i < |passages| :: passages[i] != []
  }

  /** No passage could have taken the word its successor begins with. */
  predicate Saturated(passages: seq<seq<string>>, size: int) {
    |passages| > 1 ==>
      && passages[1] != [] && !Fits(passages[0] + [passages[1][0]], size)
      && Saturated(passages[1..], size)
  }

  lemma PartIsNarrower(a: seq<string>, x: seq<string>, b: seq<string>)
    ensures |Join(x)| <= |Join(a + x + b)|
  {
    if x != [] {
      if b != [] {
        JoinAppend(a + x, b);
      } else {
        assert a + x + b == a + x;
      }
      if a != [] {
        JoinAppend(a, x);
      } else {
        assert a + x == x;
      }
    }
  }

  /** Starting no earlier, a saturated split needs no more passages than any other that fits. */
  lemma {:induction false} SaturatedStaysAhead(p: seq<seq<string>>, q: seq<seq<string>>, lead: seq<string>, size: int)
    requires NoneEmpty(p) && Saturated(p, size) && AllFit(q, size)
    requires Flatten(q) == lead + Flatten(p)
    ensures |p| <= |q|
    decreases |q|
  {
    if p != [] {
      assert Flatten(p) == p[0] + Flatten(p[1..]);
      assert q != [];
      var first := q[0];
      var later := Flatten(q[1..]);
      var all := first + later;
      assert all == lead + Flatten(p);
      if |first| <= |lead| {
        assert later == all[|first|..] == lead[|first|..] + Flatten(p);
        SaturatedStaysAhead(p, q[1..], lead[|first|..], size);
      } else {
        var x := first[|lead|..];
        assert first == all[..|first|] == lead + x;
        assert x + later == all[|lead|..] == Flatten(p);
        FirstReachesFurther(p, lead, x, later, size);
        assert later == (x + later)[|x|..] == p[0][|x|..] + Flatten(p[1..]);
        SaturatedStaysAhead(p[1..], q[1..], p[0][|x|..], size);
      }
    }
  }

  /** A passage that fits cannot outreach a saturated first passage begun inside it. */
  lemma FirstReachesFurther(p: seq<seq<string>>, lead: seq<string>, x: seq<string>, later: seq<string>, size: int)
    requires p != [] && p[0] != [] && Saturated(p, size) && Fits(lead + x, size)
    requires x + later == p[0] + Flatten(p[1..])
    ensures |x| <= |p[0]|
  {
    var n := |p[0]|;
    if n < |x| {
      assert p[1..] != [];
      var next := p[1][0];
      var taken := p[0] + [next];
      assert Flatten(p[1..])[0] == next;
      assert x[..n + 1] == (x + later)[..n + 1] == (p[0] + Flatten(p[1..]))[..n + 1] == taken;
      assert lead + x == lead + taken + x[n + 1..];
      PartIsNarrower(lead, taken, x[n + 1..]);
    }
  }

  lemma {:induction false} SaturatedAppend(p: seq<seq<string>>, last: seq<string>, size: int)
    requires p != [] ==> Saturated(p, size) && last != [] && !Fits(p[|p| - 1] + [last[0]], size)
    ensures Saturated(p + [last], size)
  {
    var r := p + [last];
    if |p| > 1 {
      assert r[1..] == p[1..] + [last] && p[1..][|p| - 2] == p[|p| - 1];
      SaturatedAppend(p[1..], last, size);
    } else if |p| == 1 {
      assert r[1..] == [last];
    }
  }

  // ---------------------------------------------------------------- the chunker

  /** Each chunk as the words it is made of. */
  function Passages(chunks: seq<string>): seq<seq<string>> { seq(|chunks|, i requires 0 <= i < |chunks| => Words(chunks[i])) }

  /** Each chunk is its passage joined. */
  predicate Spells(chunks: seq<string>, passages: seq<seq<string>>) {
    |chunks| == |passages| &&
    forall i | 0 <= i < |chunks| :: AreTokens(passages[i]) && passages[i] != [] && chunks[i] == Join(passages[i])
  }

  predicate WellCut(chunk: string, size: int) {
    chunk == Join(Words(chunk)) && chunk != [] && (|chunk| <= size || |Words(chunk)| == 1)
  }

  lemma PassagesOfJoins(chunks: seq<string>, passages: seq<seq<string>>, size: int)
    requires Spells(chunks, passages) && AllFit(passages, size)
    ensures Passages(chunks) == passages
    ensures forall i | 0 <= i < |chunks| :: WellCut(chunks[i], size)
  {
    forall i | 0 <= i < |chunks| ensures Words(chunks[i]) == passages[i] && chunks[i] != [] {
      WordsOfJoin(passages[i]);
      assert passages[i][0] != [];
    }
  }

  lemma Fewest(words: seq<string>, passages: seq<seq<string>>, size: int)
    requires Flatten(passages) == words && NoneEmpty(passages) && Saturated(passages, size)
    ensures forall q: seq<seq<string>> | Flatten(q) == words && AllFit(q, size) :: |passages| <= |q|
  {
    forall q: seq<seq<string>> | Flatten(q) == words && AllFit(q, size) ensures |passages| <= |q| {
      SaturatedStaysAhead(passages, q, [], size);
    }
  }

  /** Having read `words`: `done` is cut and saturated, `current` is the passage still open. */
  ghost predicate Cutting(words: seq<string>, chunks: seq<string>, done: seq<seq<string>>, current: seq<string>, size: int) {
    && Flatten(done) + current == words && AreTokens(current) && Fits(current, size)
    && (words != [] ==> current != [])
    && Spells(chunks, done) && AllFit(done, size) && Saturated(done, size)
    && (done != [] ==> current != [] && !Fits(done[|done| - 1] + [current[0]], size))
  }

  lemma OpenGrows(words: seq<string>, chunks: seq<string>, done: seq<seq<string>>, current: seq<string>, word: string, size: int)
    requires Cutting(words, chunks, done, current, size) && IsToken(word)
    requires Fits(current + [word], size)
    ensures Cutting(words + [word], chunks, done, current + [word], size)
  {
    assert Flatten(done) + (current + [word]) == Flatten(done) + current + [word];
  }

  lemma OpenCloses(words: seq<string>, chunks: seq<string>, done: seq<seq<string>>, current: seq<string>, size: int)
    requires Cutting(words, chunks, done, current, size) && current != []
    ensures Flatten(done + [current]) == words
    ensures Spells(chunks + [Join(current)], done + [current]) && AllFit(done + [current], size)
    ensures Saturated(done + [current], size)
  {
    FlattenAppend(done, [current]);
    SaturatedAppend(done, current, size);
  }

  lemma NextOpens(words: seq<string>, chunks: seq<string>, done: seq<seq<string>>, current: seq<string>, word: string, size: int)
    requires Cutting(words, chunks, done, current, size) && current != [] && IsToken(word)
    requires !Fits(current + [word], size)
    ensures Cutting(words + [word], chunks + [Join(current)], done + [current], [word], size)
  {
    OpenCloses(words, chunks, done, current, size);
  }

  /** The chunks' words are the text's words; each chunk is those words joined and keeps to the size
      unless it is a single over-long word; and no split that does so has fewer. */
  method TextChunks(text: string, size: int) returns (chunks: seq<string>)
    ensures Flatten(Passages(chunks)) == Words(text)
    ensures forall i | 0 <= i < |chunks| :: WellCut(chunks[i], size)
    ensures forall q: seq<seq<string>> | Flatten(q) == Words(text) && AllFit(q, size) :: |chunks| <= |q|
  {
    var words := Words(text);
    chunks := [];
    if words == [] {
      return;
    }
    var current: seq<string> := [];
    var length := 0;
    ghost var done: seq<seq<string>> := [];
    for n := 0 to |words|
      invariant Cutting(words[..n], chunks, done, current, size)
      invariant length == |Join(current)|
    {
      var word := words[n];
      assert words[..n + 1] == words[..n] + [word];
      var addition := |word| + if current != [] then 1 else 0;
      if current != [] {
        JoinAppend(current, [word]);
      }
      if current != [] && length + addition > size {
        NextOpens(words[..n], chunks, done, current, word, size);
        chunks := chunks + [Join(current)];
        done := done + [current];
        current, length := [word], |word|;
      } else {
        OpenGrows(words[..n], chunks, done, current, word, size);
        current := current + [word];
        length := length + addition;
      }
    }
    assert words[..|words|] == words;
    LastCloses(words, chunks, done, current, size);
    chunks := chunks + [Join(current)];
  }

  /** With the open passage closed, the chunks are what is promised. */
  lemma LastCloses(words: seq<string>, chunks: seq<string>, done: seq<seq<string>>, current: seq<string>, size: int)
    requires Cutting(words, chunks, done, current, size) && current != []
    ensures var all := chunks + [Join(current)];
            && Flatten(Passages(all)) == words && (forall i | 0 <= i < |all| :: WellCut(all[i], size))
            && forall q: seq<seq<string>> | Flatten(q) == words && AllFit(q, size) :: |all| <= |q|
  {
    OpenCloses(words, chunks, done, current, size);
    PassagesOfJoins(chunks + [Join(current)], done + [current], size);
    Fewest(words, done + [current], size);
  }
}
