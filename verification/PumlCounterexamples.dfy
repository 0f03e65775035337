/** Lines, styles and bodies for which restyling falls short of the round trip it is documented to be. */
module PumlCounterexamples {
  import opened Text
  import opened PumlQuotations
  import opened PumlDeclarations
  import opened PumlAliases
  import opened PumlRestyle
  import opened PumlLabelLines
  import opened PumlBodies
  import opened PumlLenses
  import opened PumlLabels
  import opened CorpusText

  // ---------------------------------------------------------------- a line that names one letter

  lemma {:induction false} AliasIsFound(w: string, i: nat, k: nat)
    requires i <= k < |w| && AliasAt(w, k).Some?
    ensures AliasFrom(w, i).Some?
    decreases k - i
  {
    if i < k {
      AliasIsFound(w, i + 1, k);
    }
  }

  /** ` as c`. */
  function As(c: char): string { [' ', 'a', 's', ' ', c] }

  /** `"" as c`. */
  function Named(c: char): string { Around([], [], As(c)) }

  /** `as c` is read as an alias of one letter. */
  lemma AliasIs(w: string, k: nat, c: char)
    requires k + 4 <= |w| && w[k] == 'a' && w[k + 1] == 's' && w[k + 2] == ' ' && w[k + 3] == c && IsUpper(c)
    requires k > 0 && !IsWord(w[k - 1])
    requires k + 4 < |w| ==> !IsWord(w[k + 4]) && !IsAliasChar(w[k + 4])
    ensures AliasAt(w, k) == Some([c])
  {
    assert BoundaryAt(w, k);
    assert SpacesFrom(w, k + 3) == 0;
    assert SpacesFrom(w, k + 2) == 1;
    assert AliasCharsFrom(w, k + 4) == 0;
    assert AliasCharsFrom(w, k + 3) == 1;
    assert BoundaryAt(w, k + 4);
    assert w[k + 3..k + 4] == [c];
  }

  lemma AliasFirst(w: string, name: string)
    requires |w| > 1 && w[0] == ' ' && AliasAt(w, 1) == Some(name)
    ensures AliasFrom(w, 0) == Some(name)
  {
    assert AliasFrom(w, 1) == AliasAt(w, 1);
  }

  lemma AsReads(c: char, rest: string)
    requires IsUpper(c) && (rest != [] ==> !IsWord(rest[0]) && !IsAliasChar(rest[0]))
    ensures AliasFrom(As(c) + rest, 0) == Some([c])
  {
    var w := As(c) + rest;
    assert w[0] == ' ' && w[1] == 'a' && w[2] == 's' && w[3] == ' ' && w[4] == c;
    assert rest != [] ==> w[5] == rest[0];
    AliasIs(w, 1, c);
    AliasFirst(w, [c]);
  }

  /** The name is no colour. */
  lemma {:induction false} NoColour(s: string, c: char)
    requires EndsWith(s, c) && IsUpper(c) && |s| > 1 && s[|s| - 2] == ' '
    ensures RStrip(s) == s && WithoutColour(s) == s
  {
    var n := |s| - 1;
    assert s[..n][n - 1] == ' ';
    assert TokenStart(s[..n]) == n;
    assert TokenStart(s) == n;
  }

  lemma NamedShape(c: char)
    requires IsUpper(c)
    ensures var s := Named(c);
            && |s| == 7 && s[0] == '"' && s[5] == ' ' && s[6] == c && Trimmed(s)
  {
  }

  lemma NamedSplits(c: char)
    requires IsUpper(c)
    ensures Core(Named(c)) == Named(c) && !Opens(Named(c)) && Strip(Named(c)) == Named(c)
  {
    NamedShape(c);
    PlainParts(Named(c), c);
  }

  lemma PlainParts(s: string, c: char)
    requires |s| == 7 && s[0] == '"' && s[5] == ' ' && s[6] == c && IsUpper(c) && Trimmed(s)
    ensures Core(s) == s && !Opens(s) && Strip(s) == s
  {
    NoColour(s, c);
    TrimmedIsStripped(s);
  }

  lemma NamedQuotes(c: char)
    ensures Quotation(Named(c)) == Some(Quote([], [], As(c)))
  {
    QuotationIs([], [], As(c));
  }

  lemma AsIsQuoteFree(c: char)
    requires IsUpper(c)
    ensures QuoteFree(As(c))
  {
  }

  lemma NamedAlias(c: char)
    requires IsUpper(c)
    ensures AliasFrom(Unquoted(Named(c)), 0) == Some([c])
  {
    AsIsQuoteFree(c);
    UnquotedPlain(As(c));
    ReadAround([], [], As(c));
    ReadBehindPlain([], As(c));
    AsReads(c, []);
    assert As(c) + [] == As(c);
  }

  lemma NamedReads(c: char)
    requires IsUpper(c)
    ensures AliasDeclaredOn(Named(c)) == Some(AliasDeclaration([c], false))
  {
    NamedShape(c);
    NamedSplits(c);
    NamedAlias(c);
    ReadsAs(Named(c), [c]);
  }

  lemma ReadsAs(s: string, name: string)
    requires s != [] && s[0] != '\'' && Strip(s) == s && AliasFrom(Unquoted(s), 0) == Some(name)
    ensures AliasDeclaredOn(s) == Some(AliasDeclaration(name, EndsWith(s, '{')))
  {
    UnquotedLast(s, '{');
  }

  // ---------------------------------------------------------------- a brace laid bare

  lemma BracedCore(core: string, token: string)
    requires core != [] && Trimmed(core) && IsColourToken(token)
    ensures Core(core + ([' '] + token)) == core && !Opens(core + ([' '] + token))
  {
    ColouredEnd(core, token);
    CoreOfColoured(core, [' '] + token, token);
  }

  lemma CoreOfColoured(core: string, suffix: string, token: string)
    requires core != [] && Trimmed(core) && IsColourToken(token) && suffix == [' '] + token
    ensures Core(core + suffix) == core
  {
    ColouredEnd(core, token);
    WrittenColourDrops(core, token);
    TrimmedIsStripped(core);
  }

  /** A colour behind a brace: whatever label lines are written without a fill, the line that opened
      nothing opens a block. */
  lemma ColourBehindBrace(core: string, token: string, style: Style)
    requires core != [] && Trimmed(core) && EndsWith(core, '{') && IsColourToken(token)
    requires SafeColours(style) && QuietLabels(style) && style.fill.None? && Rewrites(core + ([' '] + token), style)
    ensures AliasDeclaredOn(Restyled(core + ([' '] + token), style)) != AliasDeclaredOn(core + ([' '] + token))
  {
    BracedCore(core, token);
    RestyleWithoutFillIff(core + ([' '] + token), style);
  }

  /** One label line and no fill. */
  function Lined(text: string): Style { Style(None, None, None, [text]) }

  lemma LinedIsQuiet(text: string)
    requires QuoteFree(text)
    ensures SafeColours(Lined(text)) && QuietLabels(Lined(text))
  {
  }

  /** `"" as c` and whatever follows behind a blank. */
  function Followed(c: char, rest: string): string { Around([], [], As(c) + rest) }

  lemma FollowedIs(c: char, rest: string, more: string)
    ensures Followed(c, rest) + more == Followed(c, rest + more)
  {
  }

  lemma FollowedEnds(c: char, rest: string)
    requires rest != [] && !IsSpace(rest[|rest| - 1])
    ensures var s := Followed(c, rest); Trimmed(s) && s != [] && s[0] == '"' && s[|s| - 1] == rest[|rest| - 1]
  {
  }

  lemma FollowedReads(c: char, rest: string)
    requires IsUpper(c) && QuoteFree(rest) && rest != [] && rest[0] == ' ' && !IsSpace(rest[|rest| - 1])
    ensures AliasDeclaredOn(Followed(c, rest)).Some?
  {
    FollowedEnds(c, rest);
    TrimmedIsStripped(Followed(c, rest));
    AsIsQuoteFree(c);
    UnquotedPlain(As(c) + rest);
    ReadAround([], [], As(c) + rest);
    ReadBehindPlain([], As(c) + rest);
    AsReads(c, rest);
    ReadsAs(Followed(c, rest), [c]);
  }

  lemma FollowedIsLabelled(c: char, rest: string, style: Style)
    ensures WithRestyledLabel(Followed(c, rest), style).Some?
  {
    QuotationIs([], [], As(c) + rest);
  }

  lemma ColouredTail(rest: string, token: string)
    requires QuoteFree(rest) && IsColourToken(token)
    ensures var t := rest + ([' '] + token); QuoteFree(t) && t != [] && !IsSpace(t[|t| - 1])
  {
    ColourTokenIsBlankFree(token);
    var t := rest + ([' '] + token);
    assert t[|t| - 1] == token[|token| - 1];
  }

  /** Such lines exist: `"" as c {` with any colour behind it opens no block, and opens one once label
      lines are written. */
  lemma BraceCanBeBared(c: char, token: string, text: string)
    requires IsUpper(c) && IsColourToken(token) && QuoteFree(text)
    ensures var line := Followed(c, [' ', '{']) + ([' '] + token);
            AliasDeclaredOn(Restyled(line, Lined(text))) != AliasDeclaredOn(line)
  {
    var box := Followed(c, [' ', '{']);
    FollowedEnds(c, [' ', '{']);
    FollowedIs(c, [' ', '{'], [' '] + token);
    ColouredTail([' ', '{'], token);
    FollowedReads(c, [' ', '{'] + ([' '] + token));
    BracedCore(box, token);
    FollowedIsLabelled(c, [' ', '{'], Lined(text));
    LinedIsQuiet(text);
    ColourBehindBrace(box, token, Lined(text));
  }

  // ---------------------------------------------------------------- two colours

  /** A line that ends in two colours does not settle at once. */
  lemma SecondColourRemains(core: string, u: string, a: string, b: string)
    requires core != [] && Trimmed(core) && IsColourToken(a) && IsColourToken(b) && u == core + ([' '] + a)
    ensures !SettlesAtOnce(u + ([' '] + b)) && Core(u + ([' '] + b)) == u
  {
    ColouredEnd(core, a);
    ColouredEnd(u, b);
    assert u[0] == core[0];
    CoreOfColoured(u, [' '] + b, b);
    WrittenColourDrops(core, a);
  }

  /** Such lines exist: over `"" as c` with two colours behind it, writing label lines twice is not
      writing them once. */
  lemma TwoColoursNeedTwoPasses(c: char, one: string, two: string, text: string)
    requires IsUpper(c) && IsColourToken(one) && IsColourToken(two) && QuoteFree(text)
    ensures var line := Followed(c, [' '] + one) + ([' '] + two);
            Restyled(Restyled(line, Lined(text)), Lined(text)) != Restyled(line, Lined(text))
  {
    TwiceColouredReads(c, one, two);
    TwiceColouredRemains(c, one, two);
    FollowedIsLabelled(c, [' '] + one, Lined(text));
    LinedIsQuiet(text);
    TwoPasses(Followed(c, [' '] + one), two, Lined(text));
  }

  lemma TwiceColouredReads(c: char, one: string, two: string)
    requires IsUpper(c) && IsColourToken(one) && IsColourToken(two)
    ensures AliasDeclaredOn(Followed(c, [' '] + one) + ([' '] + two)).Some?
  {
    ColouredTail([], one);
    assert [] + ([' '] + one) == [' '] + one;
    ColouredTail([' '] + one, two);
    FollowedIs(c, [' '] + one, [' '] + two);
    FollowedReads(c, [' '] + one + ([' '] + two));
  }

  lemma TwiceColouredRemains(c: char, one: string, two: string)
    requires IsUpper(c) && IsColourToken(one) && IsColourToken(two)
    ensures var u := Followed(c, [' '] + one); !SettlesAtOnce(u + ([' '] + two)) && Core(u + ([' '] + two)) == u
  {
    NamedShape(c);
    NamedThen(c, [' '] + one);
    SecondColourRemains(Named(c), Followed(c, [' '] + one), one, two);
  }

  lemma NamedThen(c: char, rest: string)
    ensures Named(c) + rest == Followed(c, rest)
  {
  }

  lemma TwoPasses(u: string, token: string, style: Style)
    requires LabelOnly(style) && AliasDeclaredOn(u + ([' '] + token)).Some? && WithRestyledLabel(u, style).Some?
    requires !SettlesAtOnce(u + ([' '] + token)) && Core(u + ([' '] + token)) == u
    ensures var line := u + ([' '] + token); Restyled(Restyled(line, style), style) != Restyled(line, style)
  {
    LabelOnlySettlesIff(u + ([' '] + token), style);
  }

  // ---------------------------------------------------------------- a quotation mark in a label line

  /** A fill, and one label line. */
  function Painted(fill: string, text: string): Style { Style(Some(fill), None, None, [text]) }

  lemma NamedIsRewritten(c: char, fill: string, text: string)
    requires IsUpper(c)
    ensures Rewrites(Named(c), Painted(fill, text))
  {
    NamedReads(c);
    NamedSplits(c);
    NamedQuotes(c);
    HasLabel(Named(c), Named(c), Painted(fill, text));
  }

  lemma HasLabel(line: string, core: string, style: Style)
    requires AliasDeclaredOn(line).Some? && core == Core(line) && Quotation(core).Some? && style.fill.Some?
    ensures Rewrites(line, style)
  {
  }

  lemma PaintedLabel(fill: string, text: string)
    ensures var style := Painted(fill, text);
            RestyledLabel([], style.labelLines, style.ink) == APPENDED + (text + "</size>")
  {
    assert TintedAll([text], None) == [text];
    assert LabelBase([]) == [];
    LeadingNothing(APPENDED, text + "</size>");
  }

  lemma LeadingNothing(a: string, b: string)
    ensures [] + a + b == a + b
  {
  }

  /** A quotation mark in the label ends it: what follows is read as code. */
  lemma ReadBehindMark(u: string, v: string, after: string)
    requires QuoteFree(u) && QuoteFree(v) && QuoteFree(after)
    ensures ReadBehind(u + (['"'] + v), after) == AliasFrom(v + (['"'] + after), 0)
  {
    Rebracket(u, v, after);
    ReadBehindPlain(u, v + (['"'] + after));
    UnquotedPast(v, ['"'] + after);
    OneMark(after);
  }

  lemma Rebracket(u: string, v: string, after: string)
    ensures (u + (['"'] + v)) + (['"'] + after) == u + (['"'] + (v + (['"'] + after)))
  {
  }

  lemma OneMark(after: string)
    requires QuoteFree(after)
    ensures Unquoted(['"'] + after) == ['"'] + after
  {
    assert (['"'] + after)[1..] == after;
  }

  lemma MarkedText(m: string, a: string, b: string, end: string)
    ensures m + ((a + (['"'] + b)) + end) == (m + a) + (['"'] + (b + end))
  {
  }

  lemma SizeIsQuoteFree()
    ensures QuoteFree("</size>")
  {
  }

  /** How the label line `a"b` is read: everything behind its mark. */
  lemma MarkedReads(c: char, fill: string, a: string, b: string)
    requires IsUpper(c) && QuoteFree(a) && QuoteFree(b)
    ensures ReadBehind(RestyledLabel([], [a + (['"'] + b)], None), As(c)) == AliasFrom((b + "</size>") + (['"'] + As(c)), 0)
  {
    PaintedLabel(fill, a + (['"'] + b));
    MarkedText(APPENDED, a, b, "</size>");
    MarkerIsQuoteFree();
    SizeIsQuoteFree();
    QuoteFreeJoin(APPENDED, a);
    QuoteFreeJoin(b, "</size>");
    AsIsQuoteFree(c);
    ReadBehindMark(APPENDED + a, b + "</size>", As(c));
  }

  lemma StyledReads(c: char, fill: string, a: string, b: string)
    requires IsUpper(c) && QuoteFree(a) && QuoteFree(b)
    requires Rewrites(Named(c), Painted(fill, a + (['"'] + b)))
    ensures AliasFrom(Unquoted(StyledCore(Named(c), Painted(fill, a + (['"'] + b))).value), 0)
         == AliasFrom((b + "</size>") + (['"'] + As(c)), 0)
  {
    NamedSplits(c);
    NamedQuotes(c);
    MarkedReads(c, fill, a, b);
    BareLabelReads(RestyledLabel([], [a + (['"'] + b)], None), As(c));
  }

  lemma BareLabelReads(text: string, after: string)
    ensures AliasFrom(Unquoted(Around([], text, after)), 0) == ReadBehind(text, after)
  {
    ReadAround([], text, after);
  }

  lemma OtherIsRead(c: char, d: char, end: string)
    requires IsUpper(d) && end != [] && end[0] == '<'
    ensures AliasFrom((As(d) + end) + (['"'] + As(c)), 0) == Some([d])
  {
    var rest := end + (['"'] + As(c));
    assert (As(d) + end) + (['"'] + As(c)) == As(d) + rest && rest[0] == '<';
    AsReads(d, rest);
  }

  /** With a fill, and whatever precedes the mark: the label line `a" as d` makes `"" as c` declare `d`. */
  lemma AliasCanChange(c: char, d: char, fill: string, a: string)
    requires IsUpper(c) && IsUpper(d) && AreColourChars(fill) && QuoteFree(a)
    ensures AliasDeclaredOn(Named(c)) == Some(AliasDeclaration([c], false))
    ensures AliasDeclaredOn(Restyled(Named(c), Painted(fill, a + (['"'] + As(d))))) == Some(AliasDeclaration([d], false))
  {
    var text := a + (['"'] + As(d));
    NamedReads(c);
    NamedSplits(c);
    NamedIsRewritten(c, fill, text);
    RestyledReads(Named(c), Painted(fill, text));
    AsIsQuoteFree(d);
    StyledReads(c, fill, a, As(d));
    OtherIsRead(c, d, "</size>");
  }

  lemma NameBehindMark(v: string, c: char)
    requires IsUpper(c)
    ensures AliasFrom(v + (['"'] + As(c)), 0).Some?
  {
    var w := v + (['"'] + As(c));
    var k := |v| + 2;
    assert w[k - 1] == ' ' && w[k] == 'a' && w[k + 1] == 's' && w[k + 2] == ' ' && w[k + 3] == c;
    AliasIs(w, k, c);
    AliasIsFound(w, 0, k);
  }

  lemma MarkIsNoise(fill: string, a: string, b: string)
    ensures !QuietLabels(Painted(fill, a + (['"'] + b)))
  {
    assert (a + (['"'] + b))[|a|] == '"';
    assert Painted(fill, a + (['"'] + b)).labelLines[0] == a + (['"'] + b);
  }

  /** With a fill, and whatever stands about the mark: the label line `a"b` is appended anew by each pass. */
  lemma LabelCanGrow(c: char, fill: string, a: string, b: string)
    requires IsUpper(c) && AreColourChars(fill) && QuoteFree(a) && QuoteFree(b)
    ensures var style := Painted(fill, a + (['"'] + b));
            Quotes(Restyled(Restyled(Named(c), style), style)) > Quotes(Restyled(Named(c), style))
  {
    var text := a + (['"'] + b);
    NamedIsRewritten(c, fill, text);
    MarkIsNoise(fill, a, b);
    StillDeclares(c, fill, a, b);
    NoisyLabelsGrow(Named(c), Painted(fill, text));
  }

  lemma StillDeclares(c: char, fill: string, a: string, b: string)
    requires IsUpper(c) && QuoteFree(a) && QuoteFree(b)
    ensures !LosesAlias(Core(Named(c)), Painted(fill, a + (['"'] + b)))
  {
    NamedSplits(c);
    NamedQuotes(c);
    MarkedReads(c, fill, a, b);
    NameBehindMark(b + "</size>", c);
  }

  // ---------------------------------------------------------------- a line break in a label line

  /** A text in which nothing can introduce an alias. */
  predicate Asless(w: string) { forall i | 0 <= i < |w| - 1 :: w[i] == 'a' ==> w[i + 1] != 's' }

  lemma {:induction false} AslessReadsNothing(w: string, i: nat)
    requires Asless(w)
    ensures AliasFrom(w, i).None?
    decreases |w| - i
  {
    if i < |w| {
      AslessReadsNothing(w, i + 1);
    }
  }

  lemma AslessDeclaresNothing(s: string)
    requires s != [] && s[0] == '"' && QuoteFree(s[1..]) && Asless(s)
    ensures AliasDeclaredOn(s).None?
  {
    var t := RStrip(s[1..]);
    StripAtQuote(s);
    OneMark(t);
    AslessReadsNothing(['"'] + t, 0);
    ReadsNothing(s, ['"'] + t);
  }

  lemma StripAtQuote(s: string)
    requires s != [] && s[0] == '"'
    ensures Strip(s) == ['"'] + RStrip(s[1..]) && Strip(s) <= s
  {
    QuoteIsNotBlank();
    assert s == ['"'] + s[1..];
    RStripAt(['"'], s[1..]);
  }

  lemma ReadsNothing(s: string, stripped: string)
    requires Strip(s) == stripped && AliasFrom(Unquoted(stripped), 0).None?
    ensures AliasDeclaredOn(s).None?
  {
  }

  lemma CommentDeclaresNothing(s: string)
    requires s != [] && s[0] == '\''
    ensures AliasDeclaredOn(s).None?
  {
    assert s == ['\''] + s[1..];
    RStripAt(['\''], s[1..]);
    assert Strip(s)[0] == '\'';
  }

  lemma MarkerIsAsless(a: string)
    requires Asless(a) && QuoteFree(a)
    ensures Asless(['"'] + (APPENDED + a)) && QuoteFree(APPENDED + a)
  {
    MarkerIsQuoteFree();
    var w := ['"'] + (APPENDED + a);
    var n := |APPENDED| + 1;
    assert forall i | 0 <= i < n :: w[i] != 'a';
    assert forall i | n <= i < |w| :: w[i] == a[i - n];
  }

  lemma MarkerIsOneLine(a: string)
    requires OneLine(a)
    ensures OneLine(['"'] + (APPENDED + a))
  {
    assert OneLine(APPENDED);
    JoinOneLine(APPENDED, a);
    JoinOneLine(['"'], APPENDED + a);
  }

  lemma FirstHalf(a: string)
    requires OneLine(a) && QuoteFree(a) && Asless(a)
    ensures DeclaredAliases(['"'] + (APPENDED + a)) == []
  {
    var s := ['"'] + (APPENDED + a);
    MarkerIsAsless(a);
    MarkerIsOneLine(a);
    assert s[1..] == APPENDED + a;
    AslessDeclaresNothing(s);
    OneLineDeclares(s);
  }

  lemma SecondHalf(b: string, rest: string)
    requires OneLine(b) && OneLine(rest)
    ensures DeclaredAliases((['\''] + b) + rest) == []
  {
    var s := (['\''] + b) + rest;
    JoinOneLine(['\''], b);
    JoinOneLine(['\''] + b, rest);
    CommentDeclaresNothing(s);
    OneLineDeclares(s);
  }

  lemma WrittenRestIsOneLine(c: char, style: Style)
    requires IsUpper(c) && SafeColours(style)
    ensures OneLine(['"'] + (As(c) + (ColourSuffix(style) + Trailer(Named(c)))))
  {
    WrittenTailIsOneLine(Named(c), style);
    JoinOneLine(As(c), ColourSuffix(style) + Trailer(Named(c)));
    JoinOneLine(['"'], As(c) + (ColourSuffix(style) + Trailer(Named(c))));
  }

  lemma BrokenText(m: string, a: string, v: string, end: string)
    ensures m + ((a + ['\n'] + v) + end) == (m + a) + ['\n'] + (v + end)
  {
  }

  lemma BrokenLabel(fill: string, a: string, b: string)
    ensures var style := Painted(fill, a + ['\n'] + (['\''] + b));
            RestyledLabel([], style.labelLines, style.ink) == (APPENDED + a) + ['\n'] + ((['\''] + b) + "</size>")
  {
    PaintedLabel(fill, a + ['\n'] + (['\''] + b));
    BrokenText(APPENDED, a, ['\''] + b, "</size>");
  }

  lemma SizedRest(b: string, end: string, rest: string)
    ensures ((['\''] + b) + end) + rest == (['\''] + b) + (end + rest)
  {
  }

  lemma SizeIsOneLine()
    ensures OneLine("</size>")
  {
  }

  lemma NamedHasNoMargin(c: char)
    requires IsUpper(c)
    ensures Indent(Named(c)) == []
  {
    NamedShape(c);
  }

  /** How the line reads with such a label: up to the newline, and behind it. */
  lemma BrokenNameReads(c: char, style: Style, u: string, v: string)
    requires IsUpper(c) && style.labelLines != [] && Rewrites(Named(c), style)
    requires RestyledLabel([], style.labelLines, style.ink) == u + ['\n'] + v
    ensures DeclaredAliases(Restyled(Named(c), style)) == DeclaredAliases(['"'] + u)
            + DeclaredAliases(v + (['"'] + (As(c) + (ColourSuffix(style) + Trailer(Named(c))))))
  {
    NamedSplits(c);
    NamedQuotes(c);
    NamedHasNoMargin(c);
    BrokenLabelDeclares(Named(c), style, u, v);
    LeadingNothings(['"'] + u);
  }

  lemma BehindIsSilent(c: char, style: Style, b: string)
    requires IsUpper(c) && SafeColours(style) && OneLine(b)
    ensures DeclaredAliases(((['\''] + b) + "</size>") + (['"'] + (As(c) + (ColourSuffix(style) + Trailer(Named(c)))))) == []
  {
    var rest := ['"'] + (As(c) + (ColourSuffix(style) + Trailer(Named(c))));
    WrittenRestIsOneLine(c, style);
    SizeIsOneLine();
    JoinOneLine("</size>", rest);
    SizedRest(b, "</size>", rest);
    SecondHalf(b, "</size>" + rest);
  }

  lemma BrokenNameIsSilent(c: char, fill: string, a: string, b: string)
    requires IsUpper(c) && AreColourChars(fill) && OneLine(a) && QuoteFree(a) && Asless(a) && OneLine(b)
    ensures DeclaredAliases(Restyled(Named(c), Painted(fill, a + ['\n'] + (['\''] + b)))) == []
  {
    var text := a + ['\n'] + (['\''] + b);
    NamedIsRewritten(c, fill, text);
    BrokenLabel(fill, a, b);
    BrokenNameReads(c, Painted(fill, text), APPENDED + a, (['\''] + b) + "</size>");
    FirstHalf(a);
    BehindIsSilent(c, Painted(fill, text), b);
  }

  lemma LeadingNothings(s: string)
    ensures [] + ([] + s) == s
  {
  }

  lemma NamedIsOneLine(c: char)
    requires IsUpper(c)
    ensures OneLine(Named(c)) && SplitLines(Named(c)) == [Named(c)] && Ending(Named(c)) == []
  {
    assert Named(c) != [];
    assert OneLine(As(c));
    AroundIsOneLine([], [], As(c));
    SplitLast(Named(c));
    assert Named(c)[6] == c;
  }

  /** With a fill, and whatever stands about the break: under the label line `a`, newline, `'b` the body
      `"" as c` declares nothing. */
  lemma BodyCanFallSilent(c: char, fill: string, a: string, b: string)
    requires IsUpper(c) && AreColourChars(fill) && OneLine(a) && QuoteFree(a) && Asless(a) && OneLine(b)
    ensures DeclaredAliases(Named(c)) == [AliasDeclaration([c], false)]
    ensures DeclaredAliases(BodyUnderLens(Named(c), map[[c] := Painted(fill, a + ['\n'] + (['\''] + b))])) == []
  {
    var styles := map[[c] := Painted(fill, a + ['\n'] + (['\''] + b))];
    NamedReads(c);
    NamedIsOneLine(c);
    OneLineDeclares(Named(c));
    LensDeclaresLineByLine(Named(c), styles);
    GatherOne(Named(c), Lens(styles));
    BrokenNameIsSilent(c, fill, a, b);
  }

  lemma GatherOne(line: string, f: string -> string)
    ensures Gathered(Mapped([line], f)) == DeclaredAliases(f(line))
  {
    assert [line][1..] == [];
    assert Mapped([line], f) == [f(line)] && [f(line)][1..] == [];
  }

  // ---------------------------------------------------------------- names that are lost

  lemma NamedPartsOn(c: char)
    ensures PartsOn(Named(c)).Some? && PartsOn(Named(c)).value.sprite == []
  {
    NamedQuotes(c);
  }

  /** `"" as c` cannot be called by the mark of an appended block. */
  lemma NameCanBeLost(c: char)
    requires IsUpper(c)
    ensures LabelDeclaredOn(Relabelled(Named(c), APPENDED)) != Some(APPENDED)
  {
    NamedReads(c);
    NamedPartsOn(c);
    MarkIsLost(Named(c), PartsOn(Named(c)).value);
  }

  /** `<$w>v`. */
  function SpriteAhead(w: string, v: string): string { SPRITE + (w + (['>'] + v)) }

  lemma SpriteIsAWord(w: string, v: string)
    requires IsToken(w) && QuoteFree(w) && IsToken(v) && QuoteFree(v)
    ensures IsToken(SpriteAhead(w, v)) && QuoteFree(SpriteAhead(w, v))
  {
  }

  lemma SpriteCloses(w: string, v: string)
    ensures SpriteLength(SpriteAhead(w, v)) > 0
  {
    var s := SpriteAhead(w, v);
    assert s[..2] == SPRITE;
    assert s[2..] == w + (['>'] + v) && (w + (['>'] + v))[|w|] == '>';
    assert IndexOf(w + (['>'] + v), '>') <= |w|;
  }

  /** Nor by a name that brings a sprite: `<$w>v` for any words `w` and `v`. */
  lemma SpriteCanBeLost(c: char, w: string, v: string)
    requires IsUpper(c) && IsToken(w) && QuoteFree(w) && IsToken(v) && QuoteFree(v)
    ensures LabelDeclaredOn(Relabelled(Named(c), SpriteAhead(w, v))) != Some(SpriteAhead(w, v))
  {
    NamedReads(c);
    NamedPartsOn(c);
    SpriteIsAWord(w, v);
    SpriteCloses(w, v);
    WordIsItsOwnText(SpriteAhead(w, v));
    SpriteNameIsLost(Named(c), SpriteAhead(w, v));
  }
}
