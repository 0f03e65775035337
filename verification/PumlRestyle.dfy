/** Restyling a declaration leaves it declaring what it declared. */
module PumlRestyle {
  import opened Text
  import opened PumlQuotations
  import opened PumlDeclarations
  import opened PumlAliases

  /** What a line declares, given its stripped text split before a tail. */
  lemma DeclaredOnCore(line: string, core: string, t: string, ws1: string, token: string, ws2: string, brace: string)
    requires Strip(line) == core + t && core != [] && core[0] != '\'' && QuoteFree(t)
    requires IsTail(t, ws1, token, ws2, brace)
    ensures AliasDeclaredOn(line) ==
            match AliasFrom(Unquoted(core), 0)
            case None => None
            case Some(alias) => Some(AliasDeclaration(alias, EndsWith(core + t, '{')))
  {
    UnquotedAppend(core, t);
    UnquotedLast(core + t, '{');
    AliasIgnoresTail(Unquoted(core), t, ws1, token, ws2, brace, 0);
  }

  // ---------------------------------------------------------------- the parts of a line

  lemma {:induction false} LStripAppend(u: string, t: string)
    requires LStrip(u) != []
    ensures LStrip(u + t) == LStrip(u) + t
  {
    if u != [] && IsSpace(u[0]) {
      assert (u + t)[1..] == u[1..] + t;
      LStripAppend(u[1..], t);
    }
  }

  lemma {:induction false} TokenIsBlankFree(s: string)
    ensures forall i | TokenStart(s) <= i < |s| :: !IsSpace(s[i])
  {
    if s != [] && !IsSpace(s[|s| - 1]) {
      TokenIsBlankFree(s[..|s| - 1]);
    }
  }

  lemma ColourParts(stem: string) returns (ws1: string, token: string)
    requires RStrip(stem) == stem
    ensures stem == WithoutColour(stem) + ws1 + token && AllSpace(ws1)
    ensures (ws1 == [] && token == []) || (ws1 != [] && IsColourToken(token))
    ensures forall i | 0 <= i < |token| :: !IsSpace(token[i])
    ensures RStrip(WithoutColour(stem)) == WithoutColour(stem)
  {
    var n := TokenStart(stem);
    if n > 0 && IsColourToken(stem[n..]) {
      TokenIsBlankFree(stem);
      ws1 := BlanksBehind(stem[..n]);
      token := stem[n..];
      CutAt(stem, n);
      StrippedTwice(stem[..n]);
    } else {
      ws1, token := [], [];
    }
  }

  lemma CutAt(s: string, n: nat)
    requires 0 < n <= |s| && IsSpace(s[n - 1])
    ensures s == s[..n] + s[n..] && RStrip(s[..n]) != s[..n]
  {
    assert s[..n][n - 1] == s[n - 1];
  }

  /** A text is its stripped part and blanks. */
  lemma BlanksBehind(s: string) returns (ws: string)
    ensures s == RStrip(s) + ws && AllSpace(ws)
  {
    RStripDropsBlanks(s);
    ws := s[|RStrip(s)|..];
  }

  lemma StemParts(line: string) returns (ws2: string, brace: string)
    ensures RStrip(line) == Stem(line) + ws2 + brace && AllSpace(ws2) && RStrip(Stem(line)) == Stem(line)
    ensures if EndsWith(RStrip(line), '{') then brace == ['{'] else ws2 == [] && brace == []
  {
    var r := RStrip(line);
    if EndsWith(r, '{') {
      ws2 := BlanksBehind(r[..|r| - 1]);
      brace := ['{'];
      EndsInBrace(r);
      StrippedTwice(r[..|r| - 1]);
    } else {
      ws2, brace := [], [];
      StrippedTwice(line);
    }
  }

  lemma EndsInBrace(r: string)
    requires EndsWith(r, '{')
    ensures r == r[..|r| - 1] + ['{']
  {
  }

  lemma StrippedTwice(s: string)
    ensures RStrip(RStrip(s)) == RStrip(s)
  {
  }

  lemma TokenHasNoQuote(token: string)
    requires IsColourToken(token)
    ensures QuoteFree(token)
  {}

  /** Every line is its bare declaration and a tail. */
  lemma LineParts(line: string) returns (t: string, ws1: string, token: string, ws2: string, brace: string)
    ensures RStrip(line) == WithoutColour(Stem(line)) + t && IsTail(t, ws1, token, ws2, brace) && QuoteFree(t)
    ensures if EndsWith(RStrip(line), '{') then brace == ['{'] else ws2 == [] && brace == []
    ensures (ws1 == [] && token == []) || (ws1 != [] && IsColourToken(token))
    ensures var bare := WithoutColour(Stem(line)); RStrip(bare) == bare
  {
    ws2, brace := StemParts(line);
    ws1, token := ColourParts(Stem(line));
    t := ws1 + token + ws2 + brace;
    Regroup(WithoutColour(Stem(line)), ws1, token, ws2, brace);
    TailIsUnquoted(ws1, token, ws2, brace);
  }

  lemma Regroup(bare: string, ws1: string, token: string, ws2: string, brace: string)
    ensures bare + ws1 + token + ws2 + brace == bare + (ws1 + token + ws2 + brace)
  {}

  lemma TailIsUnquoted(ws1: string, token: string, ws2: string, brace: string)
    requires AllSpace(ws1) && AllSpace(ws2) && (token == [] || IsColourToken(token)) && (brace == [] || brace == ['{'])
    ensures QuoteFree(ws1 + token + ws2 + brace)
  {
    if token != [] { TokenHasNoQuote(token); }
    assert QuoteFree(ws1) && QuoteFree(ws2);
  }

  lemma LStripBlankPrefix(ws: string, t: string)
    requires AllSpace(ws) && (t == [] || !IsSpace(t[0]))
    ensures LStrip(ws + t) == t
  {
    LStripPast(ws, t);
  }

  lemma TokenReadsNothing(token: string, ws2: string, brace: string)
    requires QuoteFree(token + ws2 + brace) && (token != [] ==> token[0] == '#')
    requires AllSpace(ws2) && (forall i | 0 <= i < |token| :: !IsSpace(token[i])) && (brace == [] || brace == ['{'])
    ensures AliasFrom(Unquoted(token + ws2 + brace), 0).None?
  {
    var rest := token + ws2 + brace;
    assert rest == [] + token + ws2 + brace && [] + rest == rest;
    AliasIgnoresTail([], rest, [], token, ws2, brace, 0);
    UnquotedPlain(rest);
  }

  lemma BlankBeforeToken(lead: string, token: string, ws2: string, brace: string)
    requires AllSpace(lead) && token != [] && token[0] == '#'
    ensures LStrip(lead + token + ws2 + brace) == token + ws2 + brace
  {
    var rest := token + ws2 + brace;
    assert lead + token + ws2 + brace == lead + rest && rest[0] == '#';
    LStripBlankPrefix(lead, rest);
  }

  /** A blank before a tail leaves nothing to read. */
  lemma BlankReadsNothing(bare: string, t: string, ws1: string, token: string, ws2: string, brace: string)
    requires AllSpace(bare) && QuoteFree(t) && IsTail(t, ws1, token, ws2, brace)
    ensures AliasFrom(Unquoted(LStrip(bare + t)), 0).None?
  {
    if token != [] {
      BlankBeforeColour(bare, t, ws1, token, ws2, brace);
    } else {
      BlankBeforeNothing(bare, t, ws1, ws2, brace);
    }
  }

  lemma BlankBeforeNothing(bare: string, t: string, ws1: string, ws2: string, brace: string)
    requires AllSpace(bare) && AllSpace(ws1) && AllSpace(ws2) && (brace == [] || brace == ['{'])
    requires t == ws1 + [] + ws2 + brace
    ensures AliasFrom(Unquoted(LStrip(bare + t)), 0).None?
  {
    BlanksGather(bare, ws1, ws2, brace);
    AllBlank(bare, ws1);
    AllBlank(bare + ws1, ws2);
    BlankThenBrace(bare + ws1 + ws2, brace);
    BraceReadsNothing(brace);
  }

  lemma BlanksGather(bare: string, ws1: string, ws2: string, brace: string)
    ensures bare + (ws1 + [] + ws2 + brace) == bare + ws1 + ws2 + brace
  {
  }

  lemma AllBlank(a: string, b: string)
    requires AllSpace(a) && AllSpace(b)
    ensures AllSpace(a + b)
  {
  }

  lemma BlankThenBrace(ws: string, brace: string)
    requires AllSpace(ws) && (brace == [] || brace == ['{'])
    ensures LStrip(ws + brace) == brace
  {
    LStripBlankPrefix(ws, brace);
  }

  lemma BraceReadsNothing(brace: string)
    requires brace == [] || brace == ['{']
    ensures AliasFrom(Unquoted(brace), 0).None?
  {
    UnquotedPlain(brace);
  }

  lemma BlankBeforeColour(bare: string, t: string, ws1: string, token: string, ws2: string, brace: string)
    requires AllSpace(bare) && QuoteFree(t) && IsTail(t, ws1, token, ws2, brace) && token != []
    ensures AliasFrom(Unquoted(LStrip(bare + t)), 0).None?
  {
    Regroup(bare, ws1, token, ws2, brace);
    QuoteFreeRest(ws1, token, ws2, brace);
    ColouredBlankReadsNothing(bare + ws1, token, ws2, brace);
  }

  lemma QuoteFreeRest(ws1: string, token: string, ws2: string, brace: string)
    requires QuoteFree(ws1 + token + ws2 + brace)
    ensures QuoteFree(token + ws2 + brace)
  {
    assert ws1 + token + ws2 + brace == ws1 + (token + ws2 + brace);
    QuoteFreeEnd(ws1, token + ws2 + brace);
  }

  lemma ColouredBlankReadsNothing(lead: string, token: string, ws2: string, brace: string)
    requires AllSpace(lead) && AllSpace(ws2) && token != [] && token[0] == '#'
    requires (forall i | 0 <= i < |token| :: !IsSpace(token[i])) && (brace == [] || brace == ['{'])
    requires QuoteFree(token + ws2 + brace)
    ensures AliasFrom(Unquoted(LStrip(lead + token + ws2 + brace)), 0).None?
  {
    BlankBeforeToken(lead, token, ws2, brace);
    TokenReadsNothing(token, ws2, brace);
  }

  /** A line with nothing before its tail declares nothing. */
  lemma DeclarationHasACore(line: string)
    requires AliasDeclaredOn(line).Some?
    ensures LStrip(WithoutColour(Stem(line))) != []
  {
    var t, ws1, token, ws2, brace := LineParts(line);
    BlankCoreReadsNothing(line, t, ws1, token, ws2, brace);
  }

  lemma BlankCoreReadsNothing(line: string, t: string, ws1: string, token: string, ws2: string, brace: string)
    requires RStrip(line) == WithoutColour(Stem(line)) + t && IsTail(t, ws1, token, ws2, brace) && QuoteFree(t)
    ensures LStrip(WithoutColour(Stem(line))) == [] ==> AliasFrom(Unquoted(Strip(line)), 0).None?
  {
    var bare := WithoutColour(Stem(line));
    LStripDropsBlanks(bare);
    if LStrip(bare) == [] {
      BlankReadsNothing(bare, t, ws1, token, ws2, brace);
    }
  }

  // ---------------------------------------------------------------- styles that are safe to write

  predicate AreColourChars(s: string) { forall i | 0 <= i < |s| :: IsColourChar(s[i]) }

  predicate IsColour(s: Option<string>) { s.Some? ==> AreColourChars(s.value) }

  /** Colours hold colour characters, as the caller checks. Label lines are as the model has them. */
  predicate SafeColours(style: Style) { IsColour(style.fill) && IsColour(style.border) && IsColour(style.ink) }

  /** No label line holds a quotation mark. */
  predicate QuietLabels(style: Style) { forall i | 0 <= i < |style.labelLines| :: QuoteFree(style.labelLines[i]) }

  lemma ColourTokenIsToken(fill: string, border: Option<string>, ink: Option<string>)
    requires AreColourChars(fill) && IsColour(border) && IsColour(ink)
    ensures IsColourToken(ColourToken(fill, border, ink))
  {
    var tail := "back:" + fill + Optional(";line:", border) + Optional(";text:", ink);
    OptionalIsColour(";line:", border);
    OptionalIsColour(";text:", ink);
    assert AreColourChars("back:");
    assert AreColourChars(tail);
    assert ColourToken(fill, border, ink) == ['#'] + tail;
  }

  lemma OptionalIsColour(lead: string, part: Option<string>)
    requires AreColourChars(lead) && IsColour(part)
    ensures AreColourChars(Optional(lead, part))
  {}

  lemma ColourTokenIsBlankFree(token: string)
    requires IsColourToken(token)
    ensures (forall i | 0 <= i < |token| :: !IsSpace(token[i])) && QuoteFree(token)
  {}

  lemma ColourIsQuoteFree(s: string)
    requires AreColourChars(s)
    ensures QuoteFree(s)
  {}

  lemma {:induction false} JoinIsQuoteFree(ls: seq<string>)
    requires forall i | 0 <= i < |ls| :: QuoteFree(ls[i])
    ensures QuoteFree(LineBreakJoin(ls))
  {
    if |ls| > 1 {
      JoinIsQuoteFree(ls[1..]);
      assert QuoteFree("\\n");
    }
  }

  lemma TintIsQuoteFree(ink: string)
    requires AreColourChars(ink)
    ensures QuoteFree("<color:#" + ink + ">") && QuoteFree("</color>")
  {
    ColourIsQuoteFree(ink);
    assert QuoteFree("<color:#") && QuoteFree(">");
  }

  lemma TintedIsQuoteFree(line: string, ink: Option<string>)
    requires QuoteFree(line) && IsColour(ink)
    ensures QuoteFree(Tinted(line, ink))
  {
    if ink.Some? {
      TintIsQuoteFree(ink.value);
    }
  }

  lemma AppendixIsQuoteFree(style: Style)
    requires SafeColours(style) && QuietLabels(style)
    ensures QuoteFree(Appendix(style.labelLines, style.ink))
  {
    var tinted := TintedAll(style.labelLines, style.ink);
    forall i | 0 <= i < |tinted| ensures QuoteFree(tinted[i]) { TintedIsQuoteFree(style.labelLines[i], style.ink); }
    JoinIsQuoteFree(tinted);
    assert QuoteFree("</size>");
  }

  lemma MarkerIsQuoteFree()
    ensures QuoteFree(APPENDED)
  {
  }

  lemma LabelIsQuoteFree(text: string, style: Style)
    requires QuoteFree(text) && SafeColours(style) && QuietLabels(style)
    ensures QuoteFree(RestyledLabel(text, style.labelLines, style.ink))
  {
    assert QuoteFree(LabelBase(text));
    MarkerIsQuoteFree();
    AppendixIsQuoteFree(style);
  }

  // ---------------------------------------------------------------- restyling a label

  /** The alias read from a label and what follows it. */
  function ReadBehind(text: string, after: string): Option<string> {
    AliasFrom(Unquoted(['"'] + (text + (['"'] + after))), 0)
  }

  lemma UnquotedOpens(s: string)
    requires s != [] && s[0] == '"'
    ensures Unquoted(s) != [] && Unquoted(s)[0] == '"'
  {
  }

  /** The alias of a text about a label is read ahead of the label, else from the label on. */
  lemma ReadAround(before: string, text: string, after: string)
    requires QuoteFree(before)
    ensures AliasFrom(Unquoted(Around(before, text, after)), 0) ==
            if AliasFrom(before, 0).Some? then AliasFrom(before, 0) else ReadBehind(text, after)
  {
    var s := ['"'] + (text + (['"'] + after));
    UnquotedPast(before, s);
    UnquotedOpens(s);
    AliasAheadOfQuote(before, Unquoted(s));
  }

  /** A label without quotation marks is passed over. */
  lemma ReadBehindPlain(text: string, after: string)
    requires QuoteFree(text)
    ensures ReadBehind(text, after) == AliasFrom(Unquoted(after), 0)
  {
    UnquotedHere(text, after);
    AliasBehindQuotes(Unquoted(after));
  }

  /** The label a style writes in place of the first quotation. */
  function LabelIn(core: string, style: Style): string
    requires Quotation(core).Some?
  {
    RestyledLabel(Quotation(core).value.text, style.labelLines, style.ink)
  }

  /** The label lines leave the alias as it was read: it stands ahead of the label, or the label and
      what follows it are read as what follows it. */
  predicate KeepsAlias(core: string, style: Style) {
    style.labelLines == [] || Quotation(core).None? ||
    var q := Quotation(core).value;
    AliasFrom(q.before, 0).Some? || ReadBehind(LabelIn(core, style), q.after) == AliasFrom(Unquoted(q.after), 0)
  }

  /** The label lines leave no alias to be read. */
  predicate LosesAlias(core: string, style: Style) {
    && style.labelLines != [] && Quotation(core).Some?
    && var q := Quotation(core).value;
       AliasFrom(q.before, 0).None? && ReadBehind(LabelIn(core, style), q.after).None?
  }

  /** How the alias is read once the label lines are written. */
  lemma LabelledReads(core: string, style: Style)
    requires Labelled(core, style).Some?
    ensures var r := Labelled(core, style).value;
            && (AliasFrom(Unquoted(r), 0) == AliasFrom(Unquoted(core), 0) <==> KeepsAlias(core, style))
            && (AliasFrom(Unquoted(core), 0).Some? ==> (AliasFrom(Unquoted(r), 0).None? <==> LosesAlias(core, style)))
  {
    if style.labelLines != [] {
      var q := Quotation(core).value;
      QuotationStands(core);
      ReadAround(q.before, q.text, q.after);
      ReadBehindPlain(q.text, q.after);
      ReadAround(q.before, LabelIn(core, style), q.after);
    }
  }

  /** Label lines without quotation marks always keep it. */
  lemma QuietLabelsKeepAlias(core: string, style: Style)
    requires SafeColours(style) && QuietLabels(style)
    ensures KeepsAlias(core, style)
  {
    if style.labelLines != [] && Quotation(core).Some? {
      QuotationStands(core);
      LabelIsQuoteFree(Quotation(core).value.text, style);
      ReadBehindPlain(LabelIn(core, style), Quotation(core).value.after);
    }
  }

  // ---------------------------------------------------------------- the round trip

  /** The declaration proper: without margin, colour and brace. */
  function Core(line: string): string { LStrip(WithoutColour(Stem(line))) }

  predicate Opens(line: string) { EndsWith(RStrip(line), '{') }

  /** What a declaring line declares is read from its core. */
  lemma ReadsItsCore(line: string)
    requires AliasDeclaredOn(line).Some?
    ensures var d := AliasDeclaredOn(line).value;
            && Core(line) != [] && Core(line)[0] != '\''
            && AliasFrom(Unquoted(Core(line)), 0) == Some(d.alias) && d.opensBlock == Opens(line)
  {
    DeclarationHasACore(line);
    var t, ws1, token, ws2, brace := LineParts(line);
    LStripAppend(WithoutColour(Stem(line)), t);
    assert Strip(line) == Core(line) + t;
    assert Core(line)[0] == Strip(line)[0];
    DeclaredOnCore(line, Core(line), t, ws1, token, ws2, brace);
    SameEnd(RStrip(line), Core(line) + t, '{');
  }

  /** A text and its left-stripped rest end alike. */
  lemma SameEnd(r: string, s: string, c: char)
    requires s != [] && s == LStrip(r)
    ensures EndsWith(s, c) == EndsWith(r, c)
  {}

  /** A colour suffix and a brace as the rewrite writes them. */
  predicate IsWritten(suffix: string, token: string, trailer: string) {
    && ((suffix == [] && token == []) || (suffix == [' '] + token && IsColourToken(token)))
    && (trailer == [] || trailer == [' ', '{'])
  }

  /** What is read from a core between a blank margin and a written tail. */
  lemma ReadsWrittenCore(line: string, core: string, suffix: string, trailer: string, token: string)
    requires Strip(line) == core + (suffix + trailer)
    requires core != [] && core[0] != '\'' && IsWritten(suffix, token, trailer)
    ensures AliasDeclaredOn(line) ==
            match AliasFrom(Unquoted(core), 0)
            case None => None
            case Some(alias) => Some(AliasDeclaration(alias, EndsWith(core + (suffix + trailer), '{')))
  {
    var ws1 := if suffix == [] then [] else [' '];
    var ws2 := if trailer == [] then [] else [' '];
    var brace := if trailer == [] then [] else ['{'];
    WrittenTail(suffix, trailer, token, ws1, ws2, brace);
    DeclaredOnCore(line, core, suffix + trailer, ws1, token, ws2, brace);
  }

  lemma WrittenTail(suffix: string, trailer: string, token: string, ws1: string, ws2: string, brace: string)
    requires IsWritten(suffix, token, trailer)
    requires ws1 == (if suffix == [] then [] else [' ']) && ws2 == (if trailer == [] then [] else [' '])
    requires brace == if trailer == [] then [] else ['{']
    ensures IsTail(suffix + trailer, ws1, token, ws2, brace) && QuoteFree(suffix + trailer)
  {
    if token != [] { ColourTokenIsBlankFree(token); }
    assert suffix == ws1 + token && trailer == ws2 + brace;
    TailParts(ws1, token, ws2, brace);
  }

  lemma TailParts(ws1: string, token: string, ws2: string, brace: string)
    ensures (ws1 + token) + (ws2 + brace) == ws1 + token + ws2 + brace
  {
  }

  lemma WrittenIsTrimmed(core: string, suffix: string, trailer: string, token: string)
    requires core != [] && Trimmed(core) && IsWritten(suffix, token, trailer)
    ensures var s := core + (suffix + trailer);
            Trimmed(s) && s[0] == core[0] && (suffix != [] ==> (s[|s| - 1] == '{' <==> trailer != []))
  {
    var s := core + (suffix + trailer);
    if trailer != [] {
      assert s[|s| - 1] == '{';
    } else if suffix != [] {
      ColourTokenIsBlankFree(token);
      assert s[|s| - 1] == token[|token| - 1];
    } else {
      assert s == core;
    }
  }

  lemma WrittenStrip(margin: string, core: string, suffix: string, trailer: string, token: string)
    requires AllSpace(margin) && core != [] && Trimmed(core) && IsWritten(suffix, token, trailer)
    ensures Strip(margin + (core + (suffix + trailer))) == core + (suffix + trailer)
    ensures RStrip(margin + (core + (suffix + trailer))) == margin + (core + (suffix + trailer))
    ensures LStrip(margin + (core + (suffix + trailer))) == core + (suffix + trailer)
  {
    WrittenIsTrimmed(core, suffix, trailer, token);
    StripBehind(margin, core + (suffix + trailer));
  }

  lemma StripBehind(margin: string, s: string)
    requires AllSpace(margin) && s != [] && Trimmed(s)
    ensures Strip(margin + s) == s && RStrip(margin + s) == margin + s && LStrip(margin + s) == s
  {
    StripUnique(margin, s, []);
    assert margin + s + [] == margin + s;
  }

  /** The core after the style's label lines, if any, are written into it. */
  function StyledCore(line: string, style: Style): Option<string> {
    Labelled(Core(line), style)
  }

  predicate Rewrites(line: string, style: Style) {
    && AliasDeclaredOn(line).Some? && (style.fill.Some? || style.labelLines != [])
    && StyledCore(line, style).Some?
  }

  lemma LStripParts(s: string) returns (ws: string)
    ensures AllSpace(ws) && s == ws + LStrip(s)
  {
    LStripDropsBlanks(s);
    ws := s[..|s| - |LStrip(s)|];
  }

  lemma BlanksAreQuoteFree(ws: string)
    requires AllSpace(ws)
    ensures QuoteFree(ws)
  {
    QuoteIsNotBlank();
  }

  /** A margin ahead of a text stays ahead of its label. */
  lemma LabelPastBlanks(ws: string, core: string, style: Style)
    requires AllSpace(ws)
    ensures WithRestyledLabel(ws + core, style) ==
            match WithRestyledLabel(core, style) case None => None case Some(r) => Some(ws + r)
  {
    BlanksAreQuoteFree(ws);
    UnquotedAhead(ws, core);
    if Quotation(core).Some? {
      var q := Quotation(core).value;
      QuotedPast(ws, core);
      AroundBehind(ws, q.before, LabelIn(core, style), q.after);
    }
  }

  /** A label stands in the same frame as the one it replaces. */
  lemma FramedAlike(before: string, text: string, text': string, after: string)
    ensures var s, s' := Around(before, text, after), Around(before, text', after);
            s != [] && s' != [] && s'[0] == s[0] && s'[|s'| - 1] == s[|s| - 1]
  {
    SameStart(before, text, text', after);
    AroundCloses(before, text, after);
    AroundCloses(before, text', after);
    ClosesAlike(before + (['"'] + (text + ['"'])), before + (['"'] + (text' + ['"'])), after);
  }

  lemma ClosesAlike(h: string, h': string, t: string)
    requires EndsWith(h, '"') && EndsWith(h', '"')
    ensures (h + t)[|h + t| - 1] == (h' + t)[|h' + t| - 1]
  {
    if t == [] {
      assert h + t == h && h' + t == h';
    }
  }

  /** A labelled core is trimmed, begins alike and ends alike. */
  lemma LabelledIsFramed(core: string, style: Style)
    requires Labelled(core, style).Some? && core != [] && Trimmed(core)
    ensures var r := Labelled(core, style).value;
            r != [] && Trimmed(r) && r[0] == core[0] && r[|r| - 1] == core[|core| - 1]
  {
    if style.labelLines != [] {
      var q := Quotation(core).value;
      QuotationStands(core);
      FramedAlike(q.before, q.text, LabelIn(core, style), q.after);
    }
  }

  /** Writing the label lines and stripping the margin may be done in either order. */
  lemma LabelThenStrip(bare: string, style: Style)
    requires LStrip(bare) != []
    ensures match Labelled(LStrip(bare), style)
            case None => Labelled(bare, style).None?
            case Some(r) => Labelled(bare, style).Some? && LStrip(Labelled(bare, style).value) == r
  {
    if style.labelLines != [] {
      var core := LStrip(bare);
      var ws := LStripParts(bare);
      LabelPastBlanks(ws, core, style);
      if WithRestyledLabel(core, style).Some? {
        LabelStartsAlike(core, style);
        LStripBlankPrefix(ws, WithRestyledLabel(core, style).value);
      }
    }
  }

  lemma LabelStartsAlike(core: string, style: Style)
    requires core != [] && WithRestyledLabel(core, style).Some?
    ensures var r := WithRestyledLabel(core, style).value; r != [] && r[0] == core[0]
  {
    var q := Quotation(core).value;
    QuotationStands(core);
    FramedAlike(q.before, q.text, LabelIn(core, style), q.after);
  }

  lemma RestyledIs(line: string, style: Style, labelled: Option<string>)
    requires AliasDeclaredOn(line).Some? && labelled == Labelled(WithoutColour(Stem(line)), style)
    ensures Restyled(line, style) ==
            if (style.fill.None? && style.labelLines == []) || labelled.None? then line
            else Indent(line) + (LStrip(labelled.value) + (ColourSuffix(style) + Trailer(line)))
  {
  }

  lemma StyledCoreIs(line: string, style: Style, labelled: Option<string>)
    requires LStrip(WithoutColour(Stem(line))) != [] && labelled == Labelled(WithoutColour(Stem(line)), style)
    ensures StyledCore(line, style) == match labelled case None => None case Some(r) => Some(LStrip(r))
  {
    LabelThenStrip(WithoutColour(Stem(line)), style);
  }

  /** A rewritten line is its margin, its styled core, the colour and the brace. */
  lemma RestyledShape(line: string, style: Style)
    requires AliasDeclaredOn(line).Some?
    ensures Rewrites(line, style) ==>
              Restyled(line, style) == Indent(line) + (StyledCore(line, style).value + (ColourSuffix(style) + Trailer(line)))
    ensures !Rewrites(line, style) ==> Restyled(line, style) == line
  {
    DeclarationHasACore(line);
    var labelled := Labelled(WithoutColour(Stem(line)), style);
    StyledCoreIs(line, style, labelled);
    RestyledIs(line, style, labelled);
  }

  ghost function TokenOf(style: Style): string {
    match style.fill case None => "" case Some(fill) => ColourToken(fill, style.border, style.ink)
  }

  lemma StyleIsWritten(line: string, style: Style)
    requires SafeColours(style)
    ensures IsWritten(ColourSuffix(style), TokenOf(style), Trailer(line))
  {
    if style.fill.Some? {
      ColourTokenIsToken(style.fill.value, style.border, style.ink);
    }
  }

  lemma IndentIsBlank(line: string)
    ensures AllSpace(Indent(line))
  {
    LStripDropsBlanks(line);
  }

  /** The core is trimmed: its margin, colour and brace are gone with the blanks before them. */
  lemma CoreIsTrimmed(line: string)
    requires Core(line) != []
    ensures Trimmed(Core(line))
  {
    var t, ws1, token, ws2, brace := LineParts(line);
    var bare := WithoutColour(Stem(line));
    assert bare[|bare| - 1] == Core(line)[|Core(line)| - 1];
  }

  /** What a rewritten line declares: the alias its labelled core is read to have, and a block where the
      rewrite wrote a brace or laid one bare. */
  lemma RestyledReads(line: string, style: Style)
    requires SafeColours(style) && Rewrites(line, style)
    ensures AliasDeclaredOn(Restyled(line, style)) ==
            match AliasFrom(Unquoted(StyledCore(line, style).value), 0)
            case None => None
            case Some(alias) => Some(AliasDeclaration(alias, Opens(line) || (style.fill.None? && EndsWith(Core(line), '{'))))
  {
    RestyledShape(line, style);
    StyledCoreIsFramed(line, style);
    WrittenLineReads(line, StyledCore(line, style).value, style);
  }

  lemma StyledCoreIsFramed(line: string, style: Style)
    requires Rewrites(line, style)
    ensures var core := StyledCore(line, style).value;
            core != [] && Trimmed(core) && core[0] != '\'' && EndsWith(core, '{') == EndsWith(Core(line), '{')
  {
    ReadsItsCore(line);
    CoreIsTrimmed(line);
    FramedCore(Core(line), style);
  }

  lemma FramedCore(core: string, style: Style)
    requires Labelled(core, style).Some? && core != [] && Trimmed(core) && core[0] != '\''
    ensures var r := Labelled(core, style).value;
            r != [] && Trimmed(r) && r[0] != '\'' && EndsWith(r, '{') == EndsWith(core, '{')
  {
    LabelledIsFramed(core, style);
  }

  lemma WrittenLineReads(line: string, core: string, style: Style)
    requires SafeColours(style) && core != [] && Trimmed(core) && core[0] != '\''
    ensures AliasDeclaredOn(Indent(line) + (core + (ColourSuffix(style) + Trailer(line)))) ==
            match AliasFrom(Unquoted(core), 0)
            case None => None
            case Some(alias) => Some(AliasDeclaration(alias, Opens(line) || (style.fill.None? && EndsWith(core, '{'))))
  {
    StyleIsWritten(line, style);
    IndentIsBlank(line);
    WrittenBrace(line, core, style);
    WrittenStrip(Indent(line), core, ColourSuffix(style), Trailer(line), TokenOf(style));
    ReadsWrittenCore(Indent(line) + (core + (ColourSuffix(style) + Trailer(line))),
                     core, ColourSuffix(style), Trailer(line), TokenOf(style));
  }

  lemma WrittenBrace(line: string, core: string, style: Style)
    requires SafeColours(style) && core != [] && Trimmed(core)
    ensures EndsWith(core + (ColourSuffix(style) + Trailer(line)), '{') <==>
            Opens(line) || (style.fill.None? && EndsWith(core, '{'))
  {
    StyleIsWritten(line, style);
    WrittenIsTrimmed(core, ColourSuffix(style), Trailer(line), TokenOf(style));
    var s := core + (ColourSuffix(style) + Trailer(line));
    if style.fill.None? {
      assert ColourSuffix(style) + Trailer(line) == Trailer(line);
      assert Trailer(line) == [] ==> s == core;
      assert Trailer(line) != [] ==> s[|s| - 1] == '{';
    }
  }

  /** No colour that is dropped stood behind a brace. */
  predicate KeepsBlock(line: string, style: Style) {
    style.fill.Some? || Opens(line) || !EndsWith(Core(line), '{')
  }

  /** Whatever the label lines say, a rewritten line names the alias it named exactly where the label
      lines keep it, names none exactly where they lose it, and declares what it declared exactly where
      besides no colour that stood behind a brace is dropped. */
  lemma RewriteKeepsDeclarationIff(line: string, style: Style)
    requires SafeColours(style) && Rewrites(line, style)
    ensures var d, d' := AliasDeclaredOn(line), AliasDeclaredOn(Restyled(line, style));
            && (d'.Some? && d'.value.alias == d.value.alias <==> KeepsAlias(Core(line), style))
            && (d'.None? <==> LosesAlias(Core(line), style))
            && (d' == d <==> KeepsAlias(Core(line), style) && KeepsBlock(line, style))
  {
    RestyledReads(line, style);
    ReadsItsCore(line);
    LabelledReads(Core(line), style);
  }

  /** A line keeps its declaration under a style. */
  predicate KeepsDeclaration(line: string, style: Style) {
    !Rewrites(line, style) || (KeepsAlias(Core(line), style) && KeepsBlock(line, style))
  }

  /** The round trip, for every line and all label lines. */
  lemma RestyleKeepsDeclarationIff(line: string, style: Style)
    requires SafeColours(style)
    ensures AliasDeclaredOn(Restyled(line, style)) == AliasDeclaredOn(line) <==> KeepsDeclaration(line, style)
    ensures AliasDeclaredOn(line).None? ==> AliasDeclaredOn(Restyled(line, style)).None?
  {
    if Rewrites(line, style) {
      RewriteKeepsDeclarationIff(line, style);
    } else if AliasDeclaredOn(line).Some? {
      RestyledShape(line, style);
    }
  }

  /** A restyle that supplies a fill and no quotation marks leaves every line declaring what it declared. */
  lemma RestyleKeepsDeclaration(line: string, style: Style)
    requires SafeColours(style) && QuietLabels(style) && style.fill.Some?
    ensures AliasDeclaredOn(Restyled(line, style)) == AliasDeclaredOn(line)
  {
    RestyleKeepsDeclarationIff(line, style);
    QuietLabelsKeepAlias(Core(line), style);
  }

  /** Without a fill the alias survives too, but dropping a colour can bare a brace that stood before
      it: the declaration is kept exactly unless the line ends in a colour behind such a brace. */
  lemma RestyleWithoutFillIff(line: string, style: Style)
    requires SafeColours(style) && QuietLabels(style) && style.fill.None? && Rewrites(line, style)
    ensures AliasDeclaredOn(Restyled(line, style)).Some?
         && AliasDeclaredOn(Restyled(line, style)).value.alias == AliasDeclaredOn(line).value.alias
    ensures AliasDeclaredOn(Restyled(line, style)) == AliasDeclaredOn(line) <==>
            (Opens(line) || !EndsWith(Core(line), '{'))
  {
    RewriteKeepsDeclarationIff(line, style);
    QuietLabelsKeepAlias(Core(line), style);
  }

  // ---------------------------------------------------------------- restyling twice

  /** The marker begins with a backslash and holds no other, so it cannot overlap itself. */
  lemma MarkerHasOneBackslash(j: nat)
    requires 0 < j < |APPENDED|
    ensures APPENDED[j] != APPENDED[0]
  {}

  lemma MarkerFound(base: string, rest: string)
    requires forall i :: !Occurs(APPENDED, base, i)
    ensures Find(APPENDED, base + APPENDED + rest) == |base|
  {
    var m := APPENDED;
    var s := base + m + rest;
    assert s[|base|..|base| + |m|] == m;
    assert Occurs(m, s, |base|);
    forall i | 0 <= i < |base| ensures !Occurs(m, s, i) {
      MarkerNotBefore(base, rest, i);
    }
  }

  lemma MarkerNotBefore(base: string, rest: string, i: nat)
    requires i < |base| && !Occurs(APPENDED, base, i)
    ensures !Occurs(APPENDED, base + APPENDED + rest, i)
  {
    var m := APPENDED;
    var s := base + m + rest;
    var j := |base| - i;
    if j >= |m| {
      assert s[i..i + |m|] == base[i..i + |m|];
    } else {
      MarkerHasOneBackslash(j);
      assert s[i + j] == m[0];
      assert i + |m| <= |s| && s[i..i + |m|][j] == s[i + j];
    }
  }

  lemma BaseHasNoMarker(text: string)
    ensures forall i :: !Occurs(APPENDED, LabelBase(text), i)
  {
    var base := LabelBase(text);
    var m := APPENDED;
    forall i ensures !Occurs(m, base, i) {
      if 0 <= i <= |base| - |m| {
        assert base[i..i + |m|] == text[i..i + |m|];
        assert Occurs(m, base, i) ==> Occurs(m, text, i);
      }
    }
  }

  /** Restyling a label replaces what an earlier restyle appended. */
  lemma LabelSettles(text: string, labelLines: seq<string>, ink: Option<string>)
    requires labelLines != []
    ensures RestyledLabel(RestyledLabel(text, labelLines, ink), labelLines, ink) == RestyledLabel(text, labelLines, ink)
  {
    var base := LabelBase(text);
    var appendix := Appendix(labelLines, ink);
    BaseHasNoMarker(text);
    MarkerFound(base, appendix);
    assert (base + APPENDED + appendix)[..|base|] == base;
  }

  /** A quiet label is found again where it was written, and written as it stands. */
  lemma LabelledSettles(s: string, style: Style)
    requires SafeColours(style) && QuietLabels(style) && style.labelLines != [] && WithRestyledLabel(s, style).Some?
    ensures var r := WithRestyledLabel(s, style).value; WithRestyledLabel(r, style) == Some(r)
  {
    var q := Quotation(s).value;
    QuotationStands(s);
    LabelIsQuoteFree(q.text, style);
    LabelSettles(q.text, style.labelLines, style.ink);
    QuotationIs(q.before, LabelIn(s, style), q.after);
  }

  lemma {:induction false} TokenStartIs(s: string, token: string)
    requires s != [] && IsSpace(s[|s| - 1]) && forall i | 0 <= i < |token| :: !IsSpace(token[i])
    ensures TokenStart(s + token) == |s|
  {
    if token == [] {
      assert s + token == s;
    } else {
      var n := |token| - 1;
      assert (s + token)[..|s + token| - 1] == s + token[..n];
      TokenStartIs(s, token[..n]);
    }
  }

  /** The written colour is found and dropped again. */
  lemma WrittenColourDrops(s: string, token: string)
    requires s != [] && !IsSpace(s[|s| - 1]) && IsColourToken(token)
    ensures WithoutColour(s + ([' '] + token)) == s
  {
    ColourTokenIsBlankFree(token);
    var head := s + [' '];
    assert s + ([' '] + token) == head + token;
    TokenStartIs(head, token);
    assert (head + token)[..|head|] == head && (head + token)[|head|..] == token;
    RStripPast(s, [' ']);
  }

  /** The stem of a written line is everything up to its colour. */
  lemma WrittenStem(line: string, s: string, token: string, trailer: string)
    requires s != [] && IsColourToken(token) && (trailer == [] || trailer == [' ', '{'])
    requires line == s + ([' '] + token) + trailer
    ensures Stem(line) == s + ([' '] + token) && Trailer(line) == trailer
  {
    ColouredEnd(s, token);
    if trailer == [] {
      assert line == s + ([' '] + token);
    } else {
      BracedStem(line, s + ([' '] + token));
    }
  }

  lemma BracedStem(line: string, u: string)
    requires line == u + [' ', '{'] && RStrip(u) == u
    ensures Stem(line) == u && Trailer(line) == [' ', '{']
  {
    assert line[|line| - 1] == '{' && line[..|line| - 1] == u + [' '];
    RStripPast(u, [' ']);
  }

  lemma ColouredEnd(s: string, token: string)
    requires IsColourToken(token)
    ensures var u := s + ([' '] + token); RStrip(u) == u && !EndsWith(u, '{')
  {
    ColourTokenIsBlankFree(token);
    var u := s + ([' '] + token);
    assert u[|u| - 1] == token[|token| - 1];
  }

  /** A written line has the parts it was written from. */
  lemma WrittenParts(margin: string, core: string, token: string, trailer: string)
    requires AllSpace(margin) && core != [] && Trimmed(core) && IsColourToken(token) && (trailer == [] || trailer == [' ', '{'])
    ensures var line := margin + (core + (([' '] + token) + trailer));
            Core(line) == core && Indent(line) == margin && Trailer(line) == trailer
  {
    var suffix := [' '] + token;
    var line := margin + (core + (suffix + trailer));
    var s := margin + core;
    assert line == s + suffix + trailer;
    assert s[|s| - 1] == core[|core| - 1];
    WrittenStem(line, s, token, trailer);
    WrittenColourDrops(s, token);
    LStripBlankPrefix(margin, core);
    WrittenStrip(margin, core, suffix, trailer, token);
    assert line[..|margin|] == margin;
  }

  lemma LabelledTwice(core: string, style: Style)
    requires SafeColours(style) && QuietLabels(style) && Labelled(core, style).Some?
    ensures Labelled(Labelled(core, style).value, style) == Labelled(core, style)
  {
    if style.labelLines != [] {
      LabelledSettles(core, style);
    }
  }

  /** The line written from these parts is rewritten to itself. */
  lemma WrittenSettles(margin: string, core: string, trailer: string, style: Style)
    requires SafeColours(style) && style.fill.Some? && AllSpace(margin) && core != [] && Trimmed(core)
    requires trailer == [] || trailer == [' ', '{']
    requires Labelled(core, style) == Some(core)
    ensures var line := margin + (core + (ColourSuffix(style) + trailer)); Restyled(line, style) == line
  {
    var token := TokenOf(style);
    ColourTokenIsToken(style.fill.value, style.border, style.ink);
    var line := margin + (core + (ColourSuffix(style) + trailer));
    WrittenParts(margin, core, token, trailer);
    if AliasDeclaredOn(line).Some? {
      RestyledShape(line, style);
    }
  }

  /** Restyling again with the same style changes nothing. */
  lemma RestyleIsIdempotent(line: string, style: Style)
    requires SafeColours(style) && QuietLabels(style) && style.fill.Some?
    ensures Restyled(Restyled(line, style), style) == Restyled(line, style)
  {
    if AliasDeclaredOn(line).Some? {
      RestyledShape(line, style);
      if Rewrites(line, style) {
        StyledCoreIsFramed(line, style);
        IndentIsBlank(line);
        LabelledTwice(Core(line), style);
        WrittenSettles(Indent(line), StyledCore(line, style).value, Trailer(line), style);
      }
    }
  }
}
