/** What a declaration calls its element, and calling it something else. */
module PumlLabels {
  import opened Text
  import opened CorpusText
  import opened PumlQuotations
  import opened PumlDeclarations
  import opened PumlRestyle

  /** A line declares the same whatever its label says. */
  lemma LabelDeclaresNothing(before: string, text: string, text': string, after: string)
    requires QuoteFree(before) && QuoteFree(text) && QuoteFree(text')
    ensures AliasDeclaredOn(Around(before, text, after)) == AliasDeclaredOn(Around(before, text', after))
  {
    StripAround(before, text, after);
    StripAround(before, text', after);
    LStripKeepsQuoteFree(before);
    UnquotedAround(LStrip(before), text, RStrip(after));
    UnquotedAround(LStrip(before), text', RStrip(after));
    SameStart(LStrip(before), text, text', RStrip(after));
  }

  // ---------------------------------------------------------------- the text of a label

  function Requoted(s: string): string { seq(|s|, i requires 0 <= i < |s| => if s[i] == '"' then '\'' else s[i]) }

  /** One line, words apart by one blank, and no quotation mark. */
  function QuotedLabelText(text: string): string { Requoted(Join(Words(text))) }

  lemma {:induction false} JoinIsTrimmed(ws: seq<string>)
    requires AreTokens(ws)
    ensures Trimmed(Join(ws)) && (ws != [] ==> Join(ws) != [])
  {
    if |ws| == 1 {
      assert IsToken(ws[0]);
    } else if |ws| > 1 {
      assert IsToken(ws[0]);
      JoinIsTrimmed(ws[1..]);
      var s := Join(ws);
      assert s[0] == ws[0][0] && s[|s| - 1] == Join(ws[1..])[|Join(ws[1..])| - 1];
    }
  }

  lemma LabelTextIsPlain(text: string)
    ensures QuoteFree(QuotedLabelText(text)) && Trimmed(QuotedLabelText(text))
  {
    JoinIsTrimmed(Words(text));
    RequotedStaysTrimmed(Join(Words(text)));
  }

  lemma RequotedStaysTrimmed(s: string)
    requires Trimmed(s)
    ensures QuoteFree(Requoted(s)) && Trimmed(Requoted(s))
  {
    assert !IsSpace('\'');
  }

  /** The same text but for quotation marks, which are written as apostrophes. */
  predicate IsRequoted(was: string, now: string) {
    |now| == |was| && forall i | 0 <= i < |was| :: now[i] == if was[i] == '"' then '\'' else was[i]
  }

  function RequotedAll(ws: seq<string>): seq<string> { seq(|ws|, i requires 0 <= i < |ws| => Requoted(ws[i])) }

  lemma RequotedAppend(a: string, b: string)
    ensures Requoted(a + b) == Requoted(a) + Requoted(b)
  {
  }

  lemma {:induction false} RequotedJoin(ws: seq<string>)
    ensures Requoted(Join(ws)) == Join(RequotedAll(ws))
  {
    if |ws| > 1 {
      RequotedJoin(ws[1..]);
      RequotedAppend(ws[0] + [' '], Join(ws[1..]));
      RequotedAppend(ws[0], [' ']);
      assert Requoted([' ']) == [' '];
      assert RequotedAll(ws)[1..] == RequotedAll(ws[1..]);
    }
  }

  /** A label says its name word for word, one blank apart, quotation marks written as apostrophes. */
  lemma LabelSaysTheName(name: string) returns (ws: seq<string>)
    ensures QuotedLabelText(name) == Join(ws) && Words(QuotedLabelText(name)) == ws && |ws| == |Words(name)|
    ensures forall i | 0 <= i < |ws| :: IsRequoted(Words(name)[i], ws[i])
  {
    ws := RequotedAll(Words(name));
    RequotedJoin(Words(name));
    forall i | 0 <= i < |ws| ensures IsToken(ws[i]) {
      assert IsToken(Words(name)[i]);
      assert !IsSpace('\'');
    }
    WordsOfJoin(ws);
  }

  // ---------------------------------------------------------------- the parts of a label

  const SPRITE := ['<', '$']
  const OPENING := ['\\', 'n', '\U{AB}']
  const CLOSING := '\U{BB}'

  /** How far `<$…>` and the blanks behind it reach, or 0. */
  function SpriteLength(s: string): (n: nat)
    ensures n <= |s|
  {
    if !(SPRITE <= s) then 0
    else
      var close := IndexOf(s[2..], '>');
      if close == |s| - 2 then 0 else close + 3 + SpacesFrom(s, close + 3)
  }

  /** A line in guillemets that closes the text begins at `i`; a last newline is overlooked. */
  predicate GuillemetAt(s: string, i: nat) {
    i + 3 <= |s| && s[i..i + 3] == OPENING
    && var end := i + 4 + IndexOf(s[i + 3..], CLOSING); end == |s| || (end + 1 == |s| && s[end] == '\n')
  }

  function GuillemetText(s: string, i: nat): string
    requires GuillemetAt(s, i)
  {
    s[i..i + 4 + IndexOf(s[i + 3..], CLOSING)]
  }

  function GuillemetFrom(s: string, i: nat): (n: nat)
    requires i <= |s|
    ensures i <= n <= |s| && (n < |s| ==> GuillemetAt(s, n)) && forall k | i <= k < n :: !GuillemetAt(s, k)
    decreases |s| - i
  {
    if i == |s| || GuillemetAt(s, i) then i else GuillemetFrom(s, i + 1)
  }

  /** Where the line in guillemets begins, or the length where there is none. */
  function GuillemetStart(s: string): (n: nat)
    ensures n <= |s| && (n < |s| ==> GuillemetAt(s, n)) && forall k | 0 <= k < n :: !GuillemetAt(s, k)
  {
    GuillemetFrom(s, 0)
  }

  /** A label's sprite, the label proper, and what is appended: a line in guillemets and a block. */
  datatype Parts = Parts(sprite: string, base: string, guillemet: string, block: string)

  /** Where the appended block begins, or the length. */
  function BlockStart(s: string): (n: nat)
    ensures n <= |s|
  {
    if Find(APPENDED, s) < 0 then |s| else Find(APPENDED, s)
  }

  function Guillemet(s: string): string {
    var n := GuillemetStart(s);
    if n < |s| then GuillemetText(s, n) else []
  }

  function LabelParts(text: string): Parts {
    var p := SpriteLength(text);
    PartsBehind(text[..p], text[p..])
  }

  /** The parts, once the sprite is read. */
  function PartsBehind(sprite: string, rest: string): Parts {
    var named := rest[..BlockStart(rest)];
    Parts(sprite, named[..GuillemetStart(named)], Guillemet(named), rest[BlockStart(rest)..])
  }

  function Spelled(p: Parts): string { p.sprite + (p.base + (p.guillemet + p.block)) }

  // What the parts of a label look like.

  predicate IsSprite(s: string) { s == [] || (SPRITE <= s && SpriteLength(s) == |s|) }

  predicate IsBlock(s: string) { s == [] || APPENDED <= s }

  predicate IsGuillemet(s: string) { s == [] || (GuillemetAt(s, 0) && s[|s| - 1] == CLOSING) }

  predicate Unmarked(s: string) { Find(APPENDED, s) < 0 }

  ghost predicate WellFormed(p: Parts) {
    IsSprite(p.sprite) && IsBlock(p.block) && IsGuillemet(p.guillemet) && Unmarked(p.guillemet)
  }

  /** A label that can stand among these parts: it brings no sprite where there is none, holds no block
      of its own, and no line in guillemets begins in it and closes with what follows. */
  predicate Readable(t: string, p: Parts) { BringsNoSprite(t, p) && Unclosed(t, p.guillemet) }

  predicate BringsNoSprite(t: string, p: Parts) { p.sprite != [] || SpriteLength(t + (p.guillemet + p.block)) == 0 }

  predicate Unclosed(t: string, guillemet: string) { Unmarked(t) && GuillemetStart(t + guillemet) == |t| }

  // ---------------------------------------------------------------- the block

  lemma OccursAhead(m: string, a: string, b: string, i: nat)
    ensures i + |m| <= |a| && Occurs(m, a + b, i) ==> Occurs(m, a, i)
  {
    if i + |m| <= |a| {
      assert a[i..i + |m|] == (a + b)[i..i + |m|];
    }
  }

  lemma OccursOver(m: string, a: string, b: string, i: nat)
    ensures i < |a| < i + |m| && b != [] && Occurs(m, a + b, i) ==> m[|a| - i] == b[0]
  {
    if i < |a| < i + |m| <= |a + b| && b != [] {
      assert (a + b)[i..i + |m|][|a| - i] == b[0];
    }
  }

  lemma MarkerIsOneBackslash()
    ensures forall j | 0 < j < |APPENDED| :: APPENDED[j] != APPENDED[0]
  {
    forall j | 0 < j < |APPENDED| ensures APPENDED[j] != APPENDED[0] {
      MarkerHasOneBackslash(j);
    }
  }

  lemma NoMarkerAcross(a: string, b: string, i: nat)
    requires Unmarked(a) && (b == [] || b[0] == APPENDED[0]) && Occurs(APPENDED, a + b, i)
    ensures i >= |a|
  {
    OccursAhead(APPENDED, a, b, i);
    OccursOver(APPENDED, a, b, i);
    MarkerIsOneBackslash();
  }

  /** The block is found behind an unmarked text. */
  lemma BlockFound(a: string, block: string)
    requires Unmarked(a) && IsBlock(block)
    ensures BlockStart(a + block) == |a|
  {
    if block == [] {
      assert a + block == a;
    } else {
      assert (a + block)[|a|..|a| + |APPENDED|] == APPENDED;
      assert Occurs(APPENDED, a + block, |a|);
      assert block[0] == APPENDED[0];
      NoMarkerAcross(a, block, Find(APPENDED, a + block));
    }
  }

  lemma BlockFoundEarly(t: string, rest: string)
    requires !Unmarked(t)
    ensures BlockStart(t + rest) < |t|
  {
    var i := Find(APPENDED, t);
    assert (t + rest)[i..i + |APPENDED|] == t[i..i + |APPENDED|];
    assert Occurs(APPENDED, t + rest, i);
  }

  lemma OccursBehind(m: string, t: string, g: string, i: nat)
    requires Occurs(m, t + g, i) && i >= |t|
    ensures Occurs(m, g, i - |t|)
  {
    assert (t + g)[i..i + |m|] == g[i - |t|..i - |t| + |m|];
  }

  lemma OccursInSlice(m: string, s: string, i: nat, j: nat, k: nat)
    requires i <= j <= |s| && Occurs(m, s[i..j], k)
    ensures Occurs(m, s, i + k)
  {
    var a, b := s[i..j][k..k + |m|], s[i + k..i + k + |m|];
    forall x | 0 <= x < |m| ensures a[x] == b[x] {
      assert a[x] == s[i..j][k + x];
    }
  }

  lemma UnmarkedJoin(t: string, g: string)
    requires Unmarked(t) && Unmarked(g) && (g == [] || g[0] == APPENDED[0])
    ensures Unmarked(t + g)
  {
    var i := Find(APPENDED, t + g);
    if i >= 0 {
      NoMarkerAcross(t, g, i);
      OccursBehind(APPENDED, t, g, i);
    }
  }

  lemma BlockIsBlock(s: string)
    ensures IsBlock(s[BlockStart(s)..]) && Unmarked(s[..BlockStart(s)])
  {
    var n := BlockStart(s);
    var i := Find(APPENDED, s[..n]);
    if i >= 0 {
      assert s[i..i + |APPENDED|] == s[..n][i..i + |APPENDED|];
      assert Occurs(APPENDED, s, i);
    }
    if n < |s| {
      assert s[n..][..|APPENDED|] == s[n..n + |APPENDED|];
    }
  }

  // ---------------------------------------------------------------- the line in guillemets

  lemma IndexInSlice(s: string, c: char, n: nat)
    requires IndexOf(s, c) < n <= |s|
    ensures IndexOf(s[..n], c) == IndexOf(s, c)
  {
  }

  lemma GuillemetTextIs(s: string, i: nat, j: nat)
    requires i + 4 + j <= |s| && s[i..i + 3] == OPENING && j == IndexOf(s[i + 3..], CLOSING)
    ensures IsGuillemet(s[i..i + 4 + j])
  {
    var g := s[i..i + 4 + j];
    assert g[0..3] == s[i..i + 3];
    assert g[0 + 3..] == s[i + 3..][..j + 1];
    IndexInSlice(s[i + 3..], CLOSING, j + 1);
    assert g[|g| - 1] == s[i + 3..][j];
  }

  lemma GuillemetAtIs(s: string, i: nat)
    requires GuillemetAt(s, i)
    ensures IsGuillemet(GuillemetText(s, i))
  {
    GuillemetTextIs(s, i, IndexOf(s[i + 3..], CLOSING));
  }

  lemma GuillemetIsGuillemet(s: string)
    ensures IsGuillemet(Guillemet(s))
  {
    var i := GuillemetStart(s);
    if i < |s| {
      GuillemetAtIs(s, i);
    }
  }

  lemma UnmarkedSlice(s: string, i: nat, j: nat)
    requires Unmarked(s) && i <= j <= |s|
    ensures Unmarked(s[i..j])
  {
    var k := Find(APPENDED, s[i..j]);
    if k >= 0 {
      OccursInSlice(APPENDED, s, i, j, k);
    }
  }

  lemma EmptyIsUnmarked()
    ensures Unmarked([])
  {
  }

  lemma GuillemetAtIsUnmarked(s: string, i: nat)
    requires Unmarked(s) && GuillemetAt(s, i)
    ensures Unmarked(GuillemetText(s, i))
  {
    UnmarkedSlice(s, i, i + 4 + IndexOf(s[i + 3..], CLOSING));
  }

  lemma GuillemetIsUnmarked(s: string)
    requires Unmarked(s)
    ensures Unmarked(Guillemet(s))
  {
    EmptyIsUnmarked();
    var i := GuillemetStart(s);
    if i < |s| {
      GuillemetAtIsUnmarked(s, i);
    }
  }

  lemma GuillemetStarts(g: string)
    requires IsGuillemet(g) && g != []
    ensures g[0] == APPENDED[0] && !IsSpace(g[0])
  {
    assert g[0] == g[0..3][0];
  }

  /** A line in guillemets is found again behind any text, unless one is found ahead of it. */
  lemma GuillemetBehind(t: string, g: string)
    requires IsGuillemet(g) && g != []
    ensures GuillemetAt(t + g, |t|) && GuillemetText(t + g, |t|) == g
  {
    var s := t + g;
    assert s[|t|..|t| + 3] == g[0..3] && s[|t| + 3..] == g[3..];
    assert s[|t|..] == g;
    assert g[3..] == g[0 + 3..];
  }

  lemma NamedParts(t: string, g: string)
    requires IsGuillemet(g) && GuillemetStart(t + g) == |t|
    ensures (t + g)[..GuillemetStart(t + g)] == t && Guillemet(t + g) == g
  {
    if g == [] {
      assert t + g == t;
    } else {
      GuillemetBehind(t, g);
    }
  }

  // ---------------------------------------------------------------- the sprite

  lemma {:induction false} SpacesNoFurther(t: string, rest: string, i: nat)
    requires i <= |t| && (rest == [] || !IsSpace(rest[0]))
    ensures SpacesFrom(t + rest, i) == SpacesFrom(t, i)
    decreases |t| - i
  {
    if i < |t| {
      assert (t + rest)[i] == t[i];
      if IsSpace(t[i]) {
        SpacesNoFurther(t, rest, i + 1);
      }
    } else {
      assert rest != [] ==> (t + rest)[i] == rest[0];
    }
  }

  lemma {:induction false} SpacesInSlice(s: string, i: nat, n: nat)
    requires i <= |s| && i <= n == i + SpacesFrom(s, i)
    ensures SpacesFrom(s[..n], i) == n - i
    decreases |s| - i
  {
    if i < n {
      SpacesInSlice(s, i + 1, n);
    }
  }

  lemma SpriteIsSprite(s: string)
    ensures IsSprite(s[..SpriteLength(s)])
  {
    var n := SpriteLength(s);
    if n > 0 {
      var close := IndexOf(s[2..], '>');
      assert s[..n][..2] == s[..2] == SPRITE;
      assert s[..n][2..] == s[2..][..n - 2];
      IndexInSlice(s[2..], '>', n - 2);
      SpacesInSlice(s, close + 3, n);
    }
  }

  /** A sprite that closes is read up to there, whatever follows that is no blank. */
  lemma SpriteWithin(t: string, rest: string)
    requires SpriteLength(t) > 0 && (rest == [] || !IsSpace(rest[0]))
    ensures SpriteLength(t + rest) == SpriteLength(t)
  {
    var close := IndexOf(t[2..], '>');
    assert (t + rest)[..2] == t[..2] == SPRITE;
    assert (t + rest)[2..] == t[2..] + rest;
    IndexOfAppend(t[2..], rest, '>');
    SpacesNoFurther(t, rest, close + 3);
  }

  // ---------------------------------------------------------------- a label among parts

  lemma PartsAreWellFormed(text: string)
    ensures WellFormed(LabelParts(text))
  {
    var p := SpriteLength(text);
    var rest := text[p..];
    SpriteIsSprite(text);
    BlockIsBlock(rest);
    GuillemetIsGuillemet(rest[..BlockStart(rest)]);
    GuillemetIsUnmarked(rest[..BlockStart(rest)]);
  }

  lemma BlockStarts(block: string)
    requires IsBlock(block) && block != []
    ensures block[0] == APPENDED[0] && !IsSpace(block[0])
  {
    assert block[0] == block[..|APPENDED|][0];
  }

  /** Behind a sprite stands no blank. */
  lemma RestStarts(t: string, g: string, block: string)
    requires Trimmed(t) && IsGuillemet(g) && IsBlock(block)
    ensures var rest := t + (g + block); rest == [] || !IsSpace(rest[0])
  {
    if t != [] {
      assert (t + (g + block))[0] == t[0];
    } else if g != [] {
      GuillemetStarts(g);
      assert (t + (g + block))[0] == g[0];
    } else if block != [] {
      BlockStarts(block);
      assert (t + (g + block))[0] == block[0];
    }
  }

  lemma RestSplits(t: string, g: string, block: string)
    requires Unmarked(t) && IsGuillemet(g) && Unmarked(g) && IsBlock(block)
    ensures var rest := t + (g + block);
            BlockStart(rest) == |t + g| && rest[..|t + g|] == t + g && rest[|t + g|..] == block
  {
    if g != [] {
      GuillemetStarts(g);
    }
    UnmarkedJoin(t, g);
    assert t + (g + block) == (t + g) + block;
    BlockFound(t + g, block);
  }

  lemma GuillemetNoLater(t: string, g: string)
    requires IsGuillemet(g)
    ensures GuillemetStart(t + g) <= |t|
  {
    if g == [] {
      assert t + g == t;
    } else {
      GuillemetBehind(t, g);
    }
  }

  lemma BehindIff(sprite: string, t: string, g: string, block: string)
    requires IsGuillemet(g) && Unmarked(g) && IsBlock(block)
    ensures PartsBehind(sprite, t + (g + block)) == Parts(sprite, t, g, block) <==> Unclosed(t, g)
    ensures !Unclosed(t, g) ==> |PartsBehind(sprite, t + (g + block)).base| < |t|
  {
    if Unmarked(t) {
      RestSplits(t, g, block);
      GuillemetNoLater(t, g);
      if GuillemetStart(t + g) == |t| {
        NamedParts(t, g);
      }
    } else {
      BlockFoundEarly(t, g + block);
    }
  }

  lemma SpriteSplits(sprite: string, rest: string)
    requires SpriteLength(sprite + rest) == |sprite|
    ensures LabelParts(sprite + rest) == PartsBehind(sprite, rest)
  {
    assert (sprite + rest)[..|sprite|] == sprite && (sprite + rest)[|sprite|..] == rest;
  }

  lemma SpriteReadIff(sprite: string, t: string, g: string, block: string)
    requires IsSprite(sprite) && Trimmed(t) && IsGuillemet(g) && IsBlock(block)
    ensures SpriteLength(sprite + (t + (g + block))) == |sprite| <==> sprite != [] || SpriteLength(t + (g + block)) == 0
  {
    if sprite == [] {
      assert sprite + (t + (g + block)) == t + (g + block);
    } else {
      RestStarts(t, g, block);
      SpriteWithin(sprite, t + (g + block));
    }
  }

  /** A label written among parts is read back, and they with it, exactly when it is readable there. */
  lemma PartsReadBackIff(p: Parts, t: string)
    requires WellFormed(p) && Trimmed(t)
    ensures LabelParts(Spelled(p.(base := t))) == p.(base := t) <==> Readable(t, p)
    ensures BringsNoSprite(t, p) && !Readable(t, p) ==> |LabelParts(Spelled(p.(base := t))).base| < |t|
  {
    var rest := t + (p.guillemet + p.block);
    SpriteReadIff(p.sprite, t, p.guillemet, p.block);
    BehindIff(p.sprite, t, p.guillemet, p.block);
    if SpriteLength(p.sprite + rest) == |p.sprite| {
      SpriteSplits(p.sprite, rest);
    } else {
      assert LabelParts(p.sprite + rest).sprite == (p.sprite + rest)[..SpriteLength(p.sprite + rest)];
    }
  }

  // ---------------------------------------------------------------- a label as it is spelled

  /** `<$w>` and blanks. */
  function SpelledSprite(w: string, blanks: string): string { ['<', '$'] + (w + (['>'] + blanks)) }

  /** A line break and `g` in guillemets. */
  function SpelledGuillemet(g: string): string { ['\\', 'n', '\U{AB}'] + (g + ['\U{BB}']) }

  lemma {:induction false} AllAreSpaces(s: string, i: nat)
    requires i <= |s| && forall j | i <= j < |s| :: IsSpace(s[j])
    ensures SpacesFrom(s, i) == |s| - i
    decreases |s| - i
  {
    if i < |s| {
      AllAreSpaces(s, i + 1);
    }
  }

  lemma SpelledSpriteParts(w: string, blanks: string)
    requires '>' !in w
    ensures var s := SpelledSprite(w, blanks);
            s[..2] == SPRITE && s[2..] == w + (['>'] + blanks) && IndexOf(s[2..], '>') == |w|
  {
    var s := SpelledSprite(w, blanks);
    assert s[2..] == w + (['>'] + blanks);
    assert IndexOf(w, '>') == |w| && IndexOf(['>'] + blanks, '>') == 0;
    IndexOfAppend(w, ['>'] + blanks, '>');
  }

  lemma SpelledSpriteIsSprite(w: string, blanks: string)
    requires '>' !in w && AllSpace(blanks)
    ensures IsSprite(SpelledSprite(w, blanks)) && SpelledSprite(w, blanks) != []
  {
    var s := SpelledSprite(w, blanks);
    var n := |w| + 3;
    SpelledSpriteParts(w, blanks);
    assert forall j | n <= j < |s| :: s[j] == blanks[j - n];
    AllAreSpaces(s, n);
  }

  lemma SpelledGuillemetIsGuillemet(g: string)
    requires CLOSING !in g
    ensures IsGuillemet(SpelledGuillemet(g))
  {
    var s := SpelledGuillemet(g);
    assert s[0..3] == OPENING && s[0 + 3..] == g + [CLOSING];
    assert IndexOf(g, CLOSING) == |g| && IndexOf([CLOSING], CLOSING) == 0;
    IndexOfAppend(g, [CLOSING], CLOSING);
  }

  lemma NoBackslashNoMark(s: string)
    requires forall i | 0 < i < |s| :: s[i] != '\\'
    requires s != [] && s[0] == '\\' ==> |s| > 2 && s[2] != '<'
    ensures Unmarked(s)
  {
    forall i: nat ensures !Occurs(APPENDED, s, i) {
      MarkAt(s, i);
    }
  }

  lemma MarkAt(s: string, i: nat)
    ensures Occurs(APPENDED, s, i) ==> i + 2 < |s| && s[i] == '\\' && s[i + 2] == '<'
  {
    if Occurs(APPENDED, s, i) {
      var m := s[i..i + |APPENDED|];
      assert m[0] == s[i] && m[2] == s[i + 2];
    }
  }

  lemma PlainBaseIsUnclosed(base: string, g: string)
    requires '\\' !in base && IsGuillemet(g)
    ensures Unclosed(base, g)
  {
    NoBackslashNoMark(base);
    var s := base + g;
    GuillemetNoLater(base, g);
    forall i | 0 <= i < |base| ensures !GuillemetAt(s, i) {
      if i + 3 <= |s| {
        assert s[i..i + 3][0] == base[i] && OPENING[0] == '\\';
      }
    }
  }

  /** A label spelled with a sprite, a name, a line in guillemets and an appended block is read as those. */
  lemma SpelledLabelIsRead(w: string, blanks: string, base: string, g: string, rest: string)
    requires '>' !in w && AllSpace(blanks) && Trimmed(base) && '\\' !in base && CLOSING !in g && '\\' !in g
    ensures LabelParts(SpelledSprite(w, blanks) + (base + (SpelledGuillemet(g) + (APPENDED + rest))))
         == Parts(SpelledSprite(w, blanks), base, SpelledGuillemet(g), APPENDED + rest)
  {
    var p := Parts(SpelledSprite(w, blanks), base, SpelledGuillemet(g), APPENDED + rest);
    SpelledSpriteIsSprite(w, blanks);
    SpelledGuillemetIsGuillemet(g);
    NoBackslashNoMark(SpelledGuillemet(g));
    PlainBaseIsUnclosed(base, SpelledGuillemet(g));
    PartsReadBackIff(p, base);
  }

  /** And one spelled as a name alone is that name. */
  lemma PlainLabelIsRead(base: string)
    requires Trimmed(base) && '\\' !in base && SpriteLength(base) == 0
    ensures LabelParts(base) == Parts([], base, [], [])
  {
    var p := Parts([], base, [], []);
    EmptyIsUnmarked();
    PlainBaseIsUnclosed(base, []);
    assert [] + (base + ([] + [])) == base && base + ([] + []) == base;
    PartsReadBackIff(p, base);
  }

  // ---------------------------------------------------------------- reading and writing a label

  /** What the declaration calls its element. */
  function LabelDeclaredOn(line: string): Option<string> {
    if AliasDeclaredOn(line).None? then None
    else match Quotation(Strip(line)) case None => None case Some(q) => Some(Strip(LabelParts(q.text).base))
  }

  /** The text of the label with its element called `name`. */
  function RelabelledText(text: string, name: string): string {
    Spelled(LabelParts(text).(base := QuotedLabelText(name)))
  }

  function Relabelled(line: string, name: string): string {
    if AliasDeclaredOn(line).None? then line
    else match Quotation(line) case None => line case Some(q) => Around(q.before, RelabelledText(q.text, name), q.after)
  }

  lemma QuoteFreeSlice(s: string, i: nat, j: nat)
    requires QuoteFree(s) && i <= j <= |s|
    ensures QuoteFree(s[i..j])
  {
  }

  lemma QuoteFreeJoin(a: string, b: string)
    requires QuoteFree(a) && QuoteFree(b)
    ensures QuoteFree(a + b)
  {
  }

  lemma GuillemetIsQuoteFree(s: string)
    requires QuoteFree(s)
    ensures QuoteFree(Guillemet(s))
  {
    var i := GuillemetStart(s);
    if i < |s| {
      QuoteFreeSlice(s, i, i + 4 + IndexOf(s[i + 3..], CLOSING));
    }
  }

  lemma PartsAreQuoteFree(text: string)
    requires QuoteFree(text)
    ensures var p := LabelParts(text); QuoteFree(p.sprite) && QuoteFree(p.guillemet) && QuoteFree(p.block)
  {
    var n := SpriteLength(text);
    var rest := text[n..];
    QuoteFreeSlice(text, 0, n);
    QuoteFreeSlice(text, n, |text|);
    assert text[0..n] == text[..n] && text[n..|text|] == rest;
    var b := BlockStart(rest);
    QuoteFreeSlice(rest, 0, b);
    QuoteFreeSlice(rest, b, |rest|);
    assert rest[0..b] == rest[..b] && rest[b..|rest|] == rest[b..];
    GuillemetIsQuoteFree(rest[..b]);
  }

  lemma RelabelledIsQuoteFree(text: string, name: string)
    requires QuoteFree(text)
    ensures QuoteFree(RelabelledText(text, name))
  {
    var p, t := LabelParts(text), QuotedLabelText(name);
    PartsAreQuoteFree(text);
    LabelTextIsPlain(name);
    QuoteFreeJoin(p.guillemet, p.block);
    QuoteFreeJoin(t, p.guillemet + p.block);
    QuoteFreeJoin(p.sprite, t + (p.guillemet + p.block));
  }

  /** Whatever an element is called, its line declares the same alias and opens the same block. */
  lemma RelabelKeepsDeclaration(line: string, name: string)
    ensures AliasDeclaredOn(Relabelled(line, name)) == AliasDeclaredOn(line)
  {
    if AliasDeclaredOn(line).Some? && Quotation(line).Some? {
      var q := Quotation(line).value;
      QuotationStands(line);
      RelabelledIsQuoteFree(q.text, name);
      LabelDeclaresNothing(q.before, q.text, RelabelledText(q.text, name), q.after);
    }
  }

  lemma StrippedQuotation(before: string, text: string, after: string)
    requires QuoteFree(before) && QuoteFree(text)
    ensures Quotation(Strip(Around(before, text, after))) == Some(Quote(LStrip(before), text, RStrip(after)))
  {
    StripAround(before, text, after);
    LStripKeepsQuoteFree(before);
    QuotationIs(LStrip(before), text, RStrip(after));
  }

  /** The parts of the label on a line. */
  function PartsOn(line: string): Option<Parts> {
    match Quotation(line) case None => None case Some(q) => Some(LabelParts(q.text))
  }

  lemma RelabelledStands(line: string, name: string)
    requires AliasDeclaredOn(line).Some? && Quotation(line).Some?
    ensures var q := Quotation(line).value;
            && QuoteFree(q.before) && QuoteFree(RelabelledText(q.text, name))
            && Quotation(Relabelled(line, name)) == Some(Quote(q.before, RelabelledText(q.text, name), q.after))
  {
    var q := Quotation(line).value;
    QuotationStands(line);
    RelabelledIsQuoteFree(q.text, name);
    QuotationIs(q.before, RelabelledText(q.text, name), q.after);
  }

  /** A declaration with a label, called anew, is read back under its new name with its sprite and its
      appended lines as they were, exactly when the name is readable among them. */
  lemma RelabelReadsBackIff(line: string, name: string)
    requires AliasDeclaredOn(line).Some? && Quotation(line).Some?
    ensures var p, t := PartsOn(line).value, QuotedLabelText(name);
            PartsOn(Relabelled(line, name)) == Some(p.(base := t)) <==> Readable(t, p)
  {
    var text := Quotation(line).value.text;
    RelabelledStands(line, name);
    LabelTextIsPlain(name);
    PartsAreWellFormed(text);
    PartsReadBackIff(LabelParts(text), QuotedLabelText(name));
  }

  lemma RelabelIsRead(line: string, name: string)
    requires AliasDeclaredOn(line).Some? && Quotation(line).Some?
    ensures LabelDeclaredOn(Relabelled(line, name)) == Some(Strip(LabelParts(RelabelledText(Quotation(line).value.text, name)).base))
  {
    var q := Quotation(line).value;
    RelabelKeepsDeclaration(line, name);
    RelabelledStands(line, name);
    StrippedQuotation(q.before, RelabelledText(q.text, name), q.after);
  }

  // ---------------------------------------------------------------- a name that brings a sprite

  lemma ShorterBase(sprite: string, t: string, g: string, block: string)
    requires IsGuillemet(g) && Unmarked(g) && IsBlock(block)
    ensures |PartsBehind(sprite, t + (g + block)).base| <= |t|
  {
    BehindIff(sprite, t, g, block);
  }

  lemma CutName(t: string, n: nat, rest: string)
    requires n <= |t|
    ensures t[..n] + (t[n..] + rest) == t + rest
  {
  }

  lemma AppendedStarts(g: string, block: string)
    requires IsGuillemet(g) && IsBlock(block)
    ensures g + block == [] || !IsSpace((g + block)[0])
  {
    RestStarts([], g, block);
    assert [] + (g + block) == g + block;
  }

  /** Such a name is read without its sprite. */
  lemma SpriteCut(t: string, g: string, block: string)
    requires IsGuillemet(g) && Unmarked(g) && IsBlock(block) && SpriteLength(t) > 0
    ensures |LabelParts(t + (g + block)).base| < |t|
  {
    var n := SpriteLength(t);
    AppendedStarts(g, block);
    SpriteWithin(t, g + block);
    CutName(t, n, g + block);
    SpriteSplits(t[..n], t[n..] + (g + block));
    ShorterBase(t[..n], t[n..], g, block);
  }

  lemma SpriteShortens(t: string, p: Parts)
    requires WellFormed(p) && p.sprite == [] && SpriteLength(t) > 0
    ensures |LabelParts(Spelled(p.(base := t))).base| < |t|
  {
    SpriteCut(t, p.guillemet, p.block);
    assert [] + (t + (p.guillemet + p.block)) == t + (p.guillemet + p.block);
  }

  /** A sprite that the name begins closes in what is appended, and what stands there behind it happens
      to read as the name. */
  predicate AppendedSpells(t: string, p: Parts) {
    var rest := t + (p.guillemet + p.block);
    SpriteLength(t) == 0 && Strip(PartsBehind([], rest[SpriteLength(rest)..]).base) == t
  }

  /** When a name among these parts is read back: it brings no sprite where there is none and closes
      nothing it should not, or the appended lines happen to spell it. */
  predicate NameStands(t: string, p: Parts) {
    if BringsNoSprite(t, p) then Unclosed(t, p.guillemet) else AppendedSpells(t, p)
  }

  lemma BaseIsRead(t: string, p: Parts)
    requires p.sprite == []
    ensures var rest := t + (p.guillemet + p.block);
            LabelParts(Spelled(p.(base := t))).base == PartsBehind([], rest[SpriteLength(rest)..]).base
  {
    var rest := t + (p.guillemet + p.block);
    assert [] + rest == rest;
  }

  lemma NameStandsIff(t: string, p: Parts)
    requires WellFormed(p) && Trimmed(t)
    ensures Strip(LabelParts(Spelled(p.(base := t))).base) == t <==> NameStands(t, p)
  {
    TrimmedIsStripped(t);
    if BringsNoSprite(t, p) {
      PartsReadBackIff(p, t);
    } else if SpriteLength(t) > 0 {
      SpriteShortens(t, p);
    } else {
      BaseIsRead(t, p);
    }
  }

  /** For every line and every name: when the name itself is read back. */
  lemma NameReadsBackIff(line: string, name: string)
    requires AliasDeclaredOn(line).Some? && Quotation(line).Some?
    ensures LabelDeclaredOn(Relabelled(line, name)) == Some(QuotedLabelText(name))
       <==> NameStands(QuotedLabelText(name), PartsOn(line).value)
  {
    var text, t := Quotation(line).value.text, QuotedLabelText(name);
    RelabelIsRead(line, name);
    LabelTextIsPlain(name);
    PartsAreWellFormed(text);
    NameStandsIff(t, LabelParts(text));
  }

  /** On a label without a sprite, a name that opens and closes one is always lost. */
  lemma SpriteNameIsLost(line: string, name: string)
    requires AliasDeclaredOn(line).Some? && Quotation(line).Some? && PartsOn(line).value.sprite == []
    requires SpriteLength(QuotedLabelText(name)) > 0
    ensures LabelDeclaredOn(Relabelled(line, name)) != Some(QuotedLabelText(name))
  {
    var p, t := PartsOn(line).value, QuotedLabelText(name);
    NameReadsBackIff(line, name);
    PartsAreWellFormed(Quotation(line).value.text);
    AppendedStarts(p.guillemet, p.block);
    SpriteWithin(t, p.guillemet + p.block);
  }

  /** A word without quotation marks is its own label. */
  lemma WordIsItsOwnText(w: string)
    requires IsToken(w) && QuoteFree(w)
    ensures QuotedLabelText(w) == w
  {
    WordsOfJoin([w]);
    assert Join([w]) == w;
    assert Words(w) == [w];
    assert Requoted(w) == w;
  }

  lemma MarkIsAWord()
    ensures IsToken(APPENDED) && QuoteFree(APPENDED)
  {
  }

  lemma MarkedIsMarked(m: string)
    ensures Occurs(m, m, 0)
  {
    assert m[0..|m|] == m;
  }

  lemma NoSpriteBehindBackslash(s: string)
    requires s != [] && s[0] == '\\'
    ensures SpriteLength(s) == 0
  {
  }

  /** The mark of an appended block is lost as a name on every line. */
  lemma MarkIsLost(line: string, p: Parts)
    requires AliasDeclaredOn(line).Some? && PartsOn(line) == Some(p)
    ensures LabelDeclaredOn(Relabelled(line, APPENDED)) != Some(APPENDED)
  {
    MarkIsAWord();
    WordIsItsOwnText(APPENDED);
    MarkedIsMarked(APPENDED);
    NoSpriteBehindBackslash(APPENDED + (p.guillemet + p.block));
    NameReadsBackIff(line, APPENDED);
  }

  /** Calling an element one name and then another is calling it the other, when the first is readable. */
  lemma RelabelOverwrites(line: string, name: string, other: string)
    requires AliasDeclaredOn(line).Some? && Quotation(line).Some?
    requires Readable(QuotedLabelText(name), PartsOn(line).value)
    ensures Relabelled(Relabelled(line, name), other) == Relabelled(line, other)
  {
    RelabelKeepsDeclaration(line, name);
    RelabelledStands(line, name);
    RelabelReadsBackIff(line, name);
  }
}
