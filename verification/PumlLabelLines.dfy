/** Restyling that writes label lines and no colour: what a second pass does. */
module PumlLabelLines {
  import opened Text
  import opened PumlQuotations
  import opened PumlDeclarations
  import opened PumlRestyle

  // ---------------------------------------------------------------- behind the label

  lemma {:induction false} TokenPast(h: string, t: string)
    requires h != [] && !IsSpace(h[|h| - 1])
    ensures TokenStart(t) > 0 ==> TokenStart(h + t) == |h| + TokenStart(t)
    ensures TokenStart(t) == 0 ==> TokenStart(h + t) < |h|
  {
    if t == [] {
      assert h + t == h;
    } else {
      var n := |t| - 1;
      assert (h + t)[|h + t| - 1] == t[n] && (h + t)[..|h + t| - 1] == h + t[..n];
      TokenPast(h, t[..n]);
    }
  }

  lemma TokenHoldsQuote(h: string, t: string, n: nat)
    requires EndsWith(h, '"') && n < |h|
    ensures !IsColourToken((h + t)[n..])
  {
    var token := (h + t)[n..];
    assert token[|h| - 1 - n] == '"';
  }

  function DropAt(s: string, n: nat): string
    requires n <= |s|
  {
    if n > 0 && IsColourToken(s[n..]) then RStrip(s[..n]) else s
  }

  lemma DropsAtToken(s: string)
    ensures WithoutColour(s) == DropAt(s, TokenStart(s))
  {
  }

  lemma Slices(h: string, t: string, n: nat)
    requires n <= |t|
    ensures (h + t)[|h| + n..] == t[n..] && (h + t)[..|h| + n] == h + t[..n]
  {
  }

  lemma DropBehind(h: string, t: string, n: nat)
    requires h != [] && !IsSpace(h[|h| - 1]) && 0 < n <= |t|
    ensures DropAt(h + t, |h| + n) == h + DropAt(t, n)
  {
    Slices(h, t, n);
    RStripAt(h, t[..n]);
  }

  /** A colour is looked for behind the label only. */
  lemma ColourPast(h: string, t: string)
    requires EndsWith(h, '"')
    ensures WithoutColour(h + t) == h + WithoutColour(t)
  {
    QuoteIsNotBlank();
    TokenPast(h, t);
    DropsAtToken(t);
    DropsAtToken(h + t);
    if TokenStart(t) > 0 {
      DropBehind(h, t, TokenStart(t));
    } else {
      TokenHoldsQuote(h, t, TokenStart(h + t));
    }
  }

  // ---------------------------------------------------------------- the label and what follows it

  /** A text whose label is as the style writes it, whatever follows. */
  ghost predicate Steady(h: string, style: Style) { forall t :: WithRestyledLabel(h + t, style) == Some(h + t) }

  /** A text up to and including a label. */
  function UpTo(before: string, text: string): string { before + (['"'] + (text + ['"'])) }

  lemma SteadyLabel(before: string, text: string, style: Style)
    requires QuoteFree(before) && QuoteFree(text) && RestyledLabel(text, style.labelLines, style.ink) == text
    ensures Steady(UpTo(before, text), style)
  {
    forall t ensures WithRestyledLabel(UpTo(before, text) + t, style) == Some(UpTo(before, text) + t) {
      AroundCloses(before, text, t);
      QuotationIs(before, text, t);
    }
  }

  lemma UpToEnds(before: string, text: string)
    ensures EndsWith(UpTo(before, text), '"')
  {
  }

  /** A text splits behind its label; restyling replaces what is ahead of the split. */
  lemma LabelSplit(s: string, style: Style) returns (h: string, h': string, t: string)
    requires SafeColours(style) && QuietLabels(style) && style.labelLines != [] && WithRestyledLabel(s, style).Some?
    ensures s == h + t && WithRestyledLabel(s, style) == Some(h' + t)
    ensures EndsWith(h, '"') && EndsWith(h', '"') && Steady(h', style)
  {
    var q, l := Quotation(s).value, LabelIn(s, style);
    QuotationStands(s);
    LabelIsQuoteFree(q.text, style);
    LabelSettles(q.text, style.labelLines, style.ink);
    h, h', t := UpTo(q.before, q.text), UpTo(q.before, l), q.after;
    SteadyLabel(q.before, l, style);
    UpToEnds(q.before, q.text);
    UpToEnds(q.before, l);
    AroundCloses(q.before, q.text, t);
    AroundCloses(q.before, l, t);
  }

  // ---------------------------------------------------------------- the second pass

  /** What the second pass makes of the text behind the label, `trailer` being the brace written by the
      first: it drops one more colour, and writes a brace that now stands last anew. */
  function Again(t: string, trailer: string): string {
    if trailer != [] || !EndsWith(t, '{') then WithoutColour(t) + trailer
    else WithoutColour(RStrip(t[..|t| - 1])) + [' ', '{']
  }

  lemma Regrouped(a: string, b: string, c: string)
    ensures a + b + c == a + (b + c)
  {
  }

  predicate EndsInColour(s: string) {
    var n := TokenStart(s);
    n > 0 && IsColourToken(s[n..])
  }

  predicate EndsInBlank(s: string) { s != [] && IsSpace(s[|s| - 1]) }

  /** Where a first pass leaves a line that a second leaves alone, as the line itself shows: no second
      colour stands behind the first, and a brace laid bare was written as the rewrite writes one, behind
      one blank and no colour. */
  predicate SettlesAtOnce(line: string) {
    var core := Core(line);
    if Opens(line) || !EndsWith(core, '{') then !EndsInColour(core)
    else
      |core| > 1 && core[|core| - 2] == ' ' && !EndsInBlank(core[..|core| - 2]) && !EndsInColour(core[..|core| - 2])
  }

  lemma DropsNothingIff(s: string)
    ensures WithoutColour(s) == s <==> !EndsInColour(s)
  {
    var n := TokenStart(s);
    if EndsInColour(s) {
      CutAt(s, n);
    }
  }

  lemma DropsOnly(s: string)
    ensures |WithoutColour(s)| <= |s|
  {
  }

  /** A brace is written as it stood exactly where one blank and no colour preceded it. */
  lemma BraceStoodIff(core: string)
    requires EndsWith(core, '{')
    ensures WithoutColour(RStrip(core[..|core| - 1])) + [' ', '{'] == core
       <==> |core| > 1 && core[|core| - 2] == ' ' && !EndsInBlank(core[..|core| - 2]) && !EndsInColour(core[..|core| - 2])
  {
    var u := core[..|core| - 1];
    if WithoutColour(RStrip(u)) + [' ', '{'] == core {
      BraceStood(core, WithoutColour(RStrip(u)));
    } else if |core| > 1 && core[|core| - 2] == ' ' && !EndsInBlank(core[..|core| - 2]) {
      var p := core[..|core| - 2];
      BlankAndBrace(core);
      RStripPast(p, [' ']);
      DropsNothingIff(p);
    }
  }

  lemma BlankAndBrace(core: string)
    requires EndsWith(core, '{') && |core| > 1 && core[|core| - 2] == ' '
    ensures core[..|core| - 1] == core[..|core| - 2] + [' '] && core[..|core| - 2] + [' ', '{'] == core
  {
  }

  lemma BraceStood(core: string, p: string)
    requires EndsWith(core, '{') && p == WithoutColour(RStrip(core[..|core| - 1])) && p + [' ', '{'] == core
    ensures |core| > 1 && core[|core| - 2] == ' ' && p == core[..|core| - 2] && !EndsInBlank(p) && !EndsInColour(p)
  {
    var r := RStrip(core[..|core| - 1]);
    DropsOnly(r);
    BlankAndBrace(core);
    RStripPast(p, [' ']);
    DropsNothingIff(p);
  }

  /** That shape is what a second pass leaves alone. */
  lemma SettlesIff(line: string)
    ensures Again(Core(line), Trailer(line)) == Core(line) + Trailer(line) <==> SettlesAtOnce(line)
  {
    var core, trailer := Core(line), Trailer(line);
    assert trailer != [] <==> Opens(line);
    if trailer != [] || !EndsWith(core, '{') {
      DropsNothingIff(core);
      SameHead(WithoutColour(core), core, trailer);
    } else {
      assert core + trailer == core;
      BraceStoodIff(core);
    }
  }

  lemma SameHead(a: string, b: string, t: string)
    ensures a + t == b + t <==> a == b
  {
    if a + t == b + t {
      assert |a| == |b|;
      assert (a + t)[..|a|] == a && (b + t)[..|b|] == b;
    }
  }

  lemma AgainPast(h: string, t: string, trailer: string)
    requires EndsWith(h, '"')
    ensures Again(h + t, trailer) == h + Again(t, trailer)
  {
    EndsBehind(h, t);
    if trailer != [] || !EndsWith(t, '{') {
      ColourPast(h, t);
      Regrouped(h, WithoutColour(t), trailer);
    } else {
      BracePast(h, t);
      Regrouped(h, WithoutColour(RStrip(t[..|t| - 1])), [' ', '{']);
    }
  }

  lemma EndsBehind(h: string, t: string)
    requires EndsWith(h, '"')
    ensures EndsWith(h + t, '{') == EndsWith(t, '{')
  {
    if t == [] {
      assert h + t == h;
    } else {
      assert (h + t)[|h + t| - 1] == t[|t| - 1];
    }
  }

  lemma BracePast(h: string, t: string)
    requires EndsWith(h, '"') && t != []
    ensures WithoutColour(RStrip((h + t)[..|h + t| - 1])) == h + WithoutColour(RStrip(t[..|t| - 1]))
  {
    var u := t[..|t| - 1];
    assert (h + t)[..|h + t| - 1] == h + u;
    QuoteIsNotBlank();
    RStripAt(h, u);
    ColourPast(h, RStrip(u));
  }

  /** Whether nothing changes does not depend on the label. */
  lemma AgainAlike(h: string, h': string, t: string, trailer: string)
    requires EndsWith(h, '"') && EndsWith(h', '"')
    ensures Again(h + t, trailer) == h + t + trailer <==> Again(h' + t, trailer) == h' + t + trailer
  {
    AgainIff(h, t, trailer);
    AgainIff(h', t, trailer);
  }

  lemma AgainIff(h: string, t: string, trailer: string)
    requires EndsWith(h, '"')
    ensures Again(h + t, trailer) == h + t + trailer <==> Again(t, trailer) == t + trailer
  {
    AgainPast(h, t, trailer);
    Regrouped(h, t, trailer);
    SameTail(h, Again(t, trailer), t + trailer);
  }

  lemma SameTail(h: string, a: string, b: string)
    ensures h + a == h + b <==> a == b
  {
    assert (h + a)[|h|..] == a && (h + b)[|h|..] == b;
  }

  /** How a line written from these parts is taken apart: the brace, and the rest up to it. */
  lemma StemOfWritten(margin: string, u: string, trailer: string)
    requires u != [] && Trimmed(u) && (trailer == [] || trailer == [' ', '{'])
    requires trailer != [] || !EndsWith(u, '{')
    ensures Stem(margin + (u + trailer)) == margin + u && Trailer(margin + (u + trailer)) == trailer
  {
    var s := margin + u;
    assert s[|s| - 1] == u[|u| - 1];
    if trailer == [] {
      assert margin + (u + trailer) == s;
    } else {
      assert margin + (u + trailer) == s + [' ', '{'];
      BracedStem(margin + (u + trailer), s);
    }
  }

  lemma LastCut(a: string, b: string)
    requires b != []
    ensures (a + b)[|a + b| - 1] == b[|b| - 1] && (a + b)[..|a + b| - 1] == a + b[..|b| - 1]
  {
  }

  lemma StemOfBraced(a: string, t: string)
    requires EndsWith(a, '"') && EndsWith(t, '{')
    ensures Stem(a + t) == a + RStrip(t[..|t| - 1]) && Trailer(a + t) == [' ', '{']
  {
    MarksAreNotBlank();
    LastCut(a, t);
    BracedAsIs(a + t);
    RStripAt(a, t[..|t| - 1]);
  }

  lemma BracedAsIs(s: string)
    requires EndsWith(s, '{')
    ensures Stem(s) == RStrip(s[..|s| - 1]) && Trailer(s) == [' ', '{']
  {
    MarksAreNotBlank();
  }

  lemma StemOfBared(margin: string, h: string, t: string)
    requires EndsWith(h, '"') && EndsWith(t, '{')
    ensures Stem(margin + (h + t)) == margin + (h + RStrip(t[..|t| - 1])) && Trailer(margin + (h + t)) == [' ', '{']
  {
    StemOfBraced(margin + h, t);
    Regrouped(margin, h, t);
    Regrouped(margin, h, RStrip(t[..|t| - 1]));
  }

  lemma MarksAreNotBlank()
    ensures !IsSpace('{') && !IsSpace('"')
  {
  }

  lemma IndentOf(margin: string, s: string)
    requires AllSpace(margin) && s != [] && !IsSpace(s[0])
    ensures Indent(margin + s) == margin
  {
    LStripBlankPrefix(margin, s);
    assert (margin + s)[..|margin|] == margin;
  }

  predicate LabelOnly(style: Style) { SafeColours(style) && QuietLabels(style) && style.fill.None? && style.labelLines != [] }

  lemma CoreOf(line: string, margin: string, h: string, u: string)
    requires AllSpace(margin) && EndsWith(h, '"') && !IsSpace(h[0]) && Stem(line) == margin + (h + u)
    ensures Core(line) == h + WithoutColour(u)
  {
    assert EndsWith(margin + h, '"');
    Regrouped(margin, h, u);
    ColourPast(margin + h, u);
    Regrouped(margin, h, WithoutColour(u));
    LStripBlankPrefix(margin, h + WithoutColour(u));
  }

  /** A declaring line whose label is as the style writes it: one colour is dropped, the brace rewritten. */
  lemma RestyledFromParts(line: string, margin: string, h: string, u: string, trailer: string, style: Style)
    requires LabelOnly(style) && AliasDeclaredOn(line).Some? && AllSpace(margin) && EndsWith(h, '"') && !IsSpace(h[0])
    requires Steady(h, style) && Stem(line) == margin + (h + u) && Trailer(line) == trailer && Indent(line) == margin
    ensures Restyled(line, style) == margin + (h + (WithoutColour(u) + trailer))
  {
    CoreOf(line, margin, h, u);
    assert WithRestyledLabel(h + WithoutColour(u), style) == Some(h + WithoutColour(u));
    RestyledShape(line, style);
    assert ColourSuffix(style) + trailer == trailer;
    Regrouped(h, WithoutColour(u), trailer);
  }

  lemma SecondPass(margin: string, h: string, t: string, trailer: string, style: Style)
    requires LabelOnly(style) && AllSpace(margin) && EndsWith(h, '"') && Steady(h, style) && Trimmed(h + t)
    requires trailer == [] || trailer == [' ', '{']
    requires AliasDeclaredOn(margin + (h + t + trailer)).Some?
    ensures Restyled(margin + (h + t + trailer), style) == margin + (h + Again(t, trailer))
  {
    var line := margin + (h + t + trailer);
    assert (h + t)[0] == h[0];
    IndentOf(margin, h + t + trailer);
    EndsBehind(h, t);
    if trailer != [] || !EndsWith(t, '{') {
      StemOfWritten(margin, h + t, trailer);
      RestyledFromParts(line, margin, h, t, trailer, style);
    } else {
      assert h + t + trailer == h + t;
      StemOfBared(margin, h, t);
      RestyledFromParts(line, margin, h, RStrip(t[..|t| - 1]), [' ', '{'], style);
    }
  }

  lemma SecondPassIff(margin: string, h: string, t: string, trailer: string, style: Style)
    requires LabelOnly(style) && AllSpace(margin) && EndsWith(h, '"') && Steady(h, style) && Trimmed(h + t)
    requires trailer == [] || trailer == [' ', '{']
    requires AliasDeclaredOn(margin + (h + t + trailer)).Some?
    ensures Restyled(margin + (h + t + trailer), style) == margin + (h + t + trailer)
       <==> Again(h + t, trailer) == h + t + trailer
  {
    SecondPass(margin, h, t, trailer, style);
    AgainPast(h, t, trailer);
    SameTail(margin, Again(h + t, trailer), h + t + trailer);
  }

  /** Writing label lines without a colour settles in one pass exactly where no second colour stands
      behind the first and a brace laid bare was written as the rewrite writes one. */
  lemma LabelOnlySettlesIff(line: string, style: Style)
    requires LabelOnly(style) && Rewrites(line, style)
    ensures Restyled(Restyled(line, style), style) == Restyled(line, style) <==> SettlesAtOnce(line)
  {
    var margin, trailer := Indent(line), Trailer(line);
    RestyledShape(line, style);
    StyledCoreIsFramed(line, style);
    RestyleWithoutFillIff(line, style);
    IndentIsBlank(line);
    var h0, h, t := LabelSplit(Core(line), style);
    assert ColourSuffix(style) + trailer == trailer;
    SecondPassIff(margin, h, t, trailer, style);
    AgainAlike(h0, h, t, trailer);
    SettlesIff(line);
  }

  // ---------------------------------------------------------------- quotation marks in label lines

  lemma QuotesOfParts(a: string, b: string)
    requires QuoteFree(b)
    ensures Quotes(a + b) == Quotes(a) && Quotes(b + a) == Quotes(a)
  {
    QuotesAppend(a, b);
    QuotesAppend(b, a);
    QuoteFreeIff(b);
  }

  /** A line's quotation marks are all in its core. */
  lemma QuotesOfLine(line: string)
    ensures Quotes(line) == Quotes(Core(line))
  {
    var t, ws1, token, ws2, brace := LineParts(line);
    var bare := WithoutColour(Stem(line));
    var right := BlanksBehind(line);
    var left := LStripParts(bare);
    BlanksAreQuoteFree(right);
    BlanksAreQuoteFree(left);
    QuotesOfParts(RStrip(line), right);
    QuotesOfParts(bare, t);
    QuotesOfParts(LStrip(bare), left);
  }

  lemma QuotesOfLabel(text: string, style: Style)
    requires QuoteFree(text) && style.labelLines != []
    ensures Quotes(RestyledLabel(text, style.labelLines, style.ink)) == Quotes(Appendix(style.labelLines, style.ink))
  {
    assert QuoteFree(LabelBase(text));
    MarkerIsQuoteFree();
    QuotesOfParts(APPENDED, LabelBase(text));
    QuotesOfParts(Appendix(style.labelLines, style.ink), LabelBase(text) + APPENDED);
  }

  /** The quotation marks a style writes. */
  function Noise(style: Style): nat {
    if style.labelLines == [] then 0 else Quotes(Appendix(style.labelLines, style.ink))
  }

  lemma QuotesOfLabelled(core: string, style: Style)
    requires Labelled(core, style).Some?
    ensures Quotes(Labelled(core, style).value) == Quotes(core) + Noise(style)
  {
    if style.labelLines != [] {
      var q := Quotation(core).value;
      QuotationStands(core);
      QuoteFreeIff(q.text);
      QuotesAround(q.before, q.text, q.after);
      QuotesAround(q.before, LabelIn(core, style), q.after);
      QuotesOfLabel(q.text, style);
    }
  }

  lemma WrittenIsQuoteFree(line: string, style: Style)
    requires SafeColours(style)
    ensures QuoteFree(ColourSuffix(style) + Trailer(line))
  {
    StyleIsWritten(line, style);
    if style.fill.Some? {
      ColourTokenIsBlankFree(TokenOf(style));
    }
  }

  lemma QuotesOfWritten(margin: string, core: string, written: string)
    requires AllSpace(margin) && QuoteFree(written)
    ensures Quotes(margin + (core + written)) == Quotes(core)
  {
    BlanksAreQuoteFree(margin);
    QuotesOfParts(core + written, margin);
    QuotesOfParts(core, written);
  }

  /** Every rewrite adds the quotation marks of its label lines, and takes none away. */
  lemma RewriteAddsQuotes(line: string, style: Style)
    requires SafeColours(style) && Rewrites(line, style)
    ensures Quotes(Restyled(line, style)) == Quotes(line) + Noise(style)
  {
    RestyledShape(line, style);
    IndentIsBlank(line);
    WrittenIsQuoteFree(line, style);
    QuotesOfLine(line);
    QuotesOfLabelled(Core(line), style);
    QuotesOfWritten(Indent(line), StyledCore(line, style).value, ColourSuffix(style) + Trailer(line));
  }

  lemma {:induction false} JoinShowsQuotes(ls: seq<string>, i: nat)
    requires i < |ls| && QuoteFree(LineBreakJoin(ls))
    ensures QuoteFree(ls[i])
  {
    if |ls| > 1 {
      var rest := LineBreakJoin(ls[1..]);
      assert LineBreakJoin(ls) == ls[0] + ("\\n" + rest);
      QuoteFreeParts(ls[0], "\\n" + rest);
      QuoteFreeEnd("\\n", rest);
      if i > 0 {
        JoinShowsQuotes(ls[1..], i - 1);
      }
    }
  }

  lemma QuoteFreeParts(a: string, b: string)
    requires QuoteFree(a + b)
    ensures QuoteFree(a) && QuoteFree(b)
  {
    assert forall i | 0 <= i < |a| :: a[i] == (a + b)[i];
    QuoteFreeEnd(a, b);
  }

  lemma TintShowsQuotes(line: string, ink: Option<string>)
    requires QuoteFree(Tinted(line, ink))
    ensures QuoteFree(line)
  {
    if ink.Some? && ink.value != [] {
      var lead := "<color:#" + ink.value + ">";
      QuoteFreeParts(lead + line, "</color>");
      QuoteFreeParts(lead, line);
    }
  }

  /** A style writes quotation marks exactly where its label lines hold some. */
  lemma NoiseIff(style: Style)
    requires SafeColours(style)
    ensures Noise(style) == 0 <==> QuietLabels(style)
  {
    if style.labelLines != [] {
      QuoteFreeIff(Appendix(style.labelLines, style.ink));
      if QuietLabels(style) {
        AppendixIsQuoteFree(style);
      } else if QuoteFree(Appendix(style.labelLines, style.ink)) {
        QuietAppendix(style);
      }
    }
  }

  lemma QuietAppendix(style: Style)
    requires QuoteFree(Appendix(style.labelLines, style.ink))
    ensures QuietLabels(style)
  {
    var tinted := TintedAll(style.labelLines, style.ink);
    QuoteFreeParts(LineBreakJoin(tinted), "</size>");
    forall i | 0 <= i < |style.labelLines| ensures QuoteFree(style.labelLines[i]) {
      JoinShowsQuotes(tinted, i);
      TintShowsQuotes(style.labelLines[i], style.ink);
    }
  }

  /** A rewritten line that still declares is rewritten again: it has a label. */
  lemma RewritesAgain(line: string, style: Style)
    requires SafeColours(style) && Rewrites(line, style) && AliasDeclaredOn(Restyled(line, style)).Some?
    ensures Rewrites(Restyled(line, style), style)
  {
    if style.labelLines != [] {
      RewriteAddsQuotes(line, style);
      QuotesOfLine(line);
      QuotesOfLine(Restyled(line, style));
      QuotationIff(Core(line));
      QuotationIff(Core(Restyled(line, style)));
    }
  }

  /** A label line holding a quotation mark is appended anew by every pass over a line that declares. */
  lemma NoisyLabelsGrow(line: string, style: Style)
    requires SafeColours(style) && !QuietLabels(style) && Rewrites(line, style) && !LosesAlias(Core(line), style)
    ensures Quotes(Restyled(Restyled(line, style), style)) == Quotes(Restyled(line, style)) + Noise(style)
    ensures Noise(style) > 0
  {
    NoiseIff(style);
    RewriteKeepsDeclarationIff(line, style);
    RewritesAgain(line, style);
    RewriteAddsQuotes(Restyled(line, style), style);
  }

  // ---------------------------------------------------------------- restyling twice

  /** One pass over a line is all: it rewrites nothing, it leaves no alias, or its label lines hold no
      quotation mark and it supplies a fill or settles at once. */
  predicate SettlesUnder(line: string, style: Style) {
    || !Rewrites(line, style) || LosesAlias(Core(line), style)
    || (QuietLabels(style) && (style.fill.Some? || SettlesAtOnce(line)))
  }

  /** Every restyle, whatever its label lines say and with a fill or without, changes nothing the second
      time exactly there. */
  lemma RestyleIsIdempotentIff(line: string, style: Style)
    requires SafeColours(style)
    ensures Restyled(Restyled(line, style), style) == Restyled(line, style) <==> SettlesUnder(line, style)
  {
    if Rewrites(line, style) {
      RewriteSettlesIff(line, style);
    } else if AliasDeclaredOn(line).Some? {
      RestyledShape(line, style);
    }
  }

  lemma RewriteSettlesIff(line: string, style: Style)
    requires SafeColours(style) && Rewrites(line, style)
    ensures Restyled(Restyled(line, style), style) == Restyled(line, style) <==> SettlesUnder(line, style)
  {
    if LosesAlias(Core(line), style) {
      RewriteKeepsDeclarationIff(line, style);
    } else if !QuietLabels(style) {
      NoisyLabelsGrow(line, style);
    } else if style.fill.Some? {
      RestyleIsIdempotent(line, style);
    } else {
      LabelOnlySettlesIff(line, style);
    }
  }

  // ---------------------------------------------------------------- lines a style leaves alone

  lemma QuotationWithin(left: string, s: string, right: string)
    requires QuoteFree(left) && Quotation(s).Some?
    ensures Quotation(left + (s + right)).Some? && Quotation(left + (s + right)).value.text == Quotation(s).value.text
  {
    var q := Quotation(s).value;
    QuotationStands(s);
    AroundAhead(q.before, q.text, q.after, right);
    QuotationIs(q.before, q.text, q.after + right);
    QuotedPast(left, s + right);
  }

  lemma AroundAhead(before: string, text: string, after: string, right: string)
    ensures Around(before, text, after) + right == Around(before, text, after + right)
  {
  }

  lemma AroundCore(line: string) returns (left: string, right: string)
    ensures line == left + (Core(line) + right) && QuoteFree(left)
  {
    var t, ws1, token, ws2, brace := LineParts(line);
    var bare := WithoutColour(Stem(line));
    var blanks := BlanksBehind(line);
    left := LStripParts(bare);
    right := t + blanks;
    BlanksAreQuoteFree(left);
    LineRegrouped(left, Core(line), t, blanks);
  }

  lemma LineRegrouped(left: string, core: string, t: string, blanks: string)
    ensures left + core + t + blanks == left + (core + (t + blanks))
  {
  }

  /** A line's label is the label of its core. */
  lemma LabelOfCore(line: string)
    requires Quotation(Core(line)).Some?
    ensures Quotation(line).Some? && Quotation(line).value.text == Quotation(Core(line)).value.text
  {
    var left, right := AroundCore(line);
    QuotationWithin(left, Core(line), right);
  }

  lemma LabelOfWritten(line: string, style: Style)
    requires SafeColours(style) && QuietLabels(style) && style.labelLines != [] && Rewrites(line, style)
    ensures Quotation(Restyled(line, style)).Some?
         && Quotation(Restyled(line, style)).value.text == LabelIn(Core(line), style)
  {
    var q := Quotation(Core(line)).value;
    QuotationStands(Core(line));
    LabelIsQuoteFree(q.text, style);
    QuotationIs(q.before, LabelIn(Core(line), style), q.after);
    RestyledShape(line, style);
    IndentIsBlank(line);
    BlanksAreQuoteFree(Indent(line));
    QuotationWithin(Indent(line), StyledCore(line, style).value, ColourSuffix(style) + Trailer(line));
  }

  /** The label is as the style writes it. */
  predicate LabelStands(core: string, style: Style) {
    style.labelLines == [] || Quotation(core).None? || LabelIn(core, style) == Quotation(core).value.text
  }

  /** Label and tail of a line are as the style writes them. */
  predicate StandsAsWritten(line: string, style: Style) {
    LabelStands(Core(line), style) && line == Indent(line) + (Core(line) + (ColourSuffix(style) + Trailer(line)))
  }

  lemma LabelStandsIff(core: string, style: Style)
    requires Labelled(core, style).Some? && LabelStands(core, style)
    ensures Labelled(core, style) == Some(core)
  {
    if style.labelLines != [] {
      QuotationStands(core);
    }
  }

  /** A style leaves a line alone exactly where it rewrites nothing or label and tail stand as written. */
  lemma LeavesAloneIff(line: string, style: Style)
    requires SafeColours(style)
    ensures Restyled(line, style) == line <==> !Rewrites(line, style) || StandsAsWritten(line, style)
  {
    if Rewrites(line, style) {
      RestyledShape(line, style);
      if Restyled(line, style) == line {
        LabelHasSettled(line, style);
        LabelStandsIff(Core(line), style);
      } else if LabelStands(Core(line), style) {
        LabelStandsIff(Core(line), style);
      }
    } else if AliasDeclaredOn(line).Some? {
      RestyledShape(line, style);
    }
  }

  lemma LabelHasSettled(line: string, style: Style)
    requires SafeColours(style) && Rewrites(line, style) && Restyled(line, style) == line
    ensures LabelStands(Core(line), style)
  {
    if style.labelLines != [] {
      RewriteAddsQuotes(line, style);
      NoiseIff(style);
      LabelOfWritten(line, style);
      LabelOfCore(line);
    }
  }

  /** The rewrite as it is carried out, taking the line apart and putting it together again. A caller
      gets back a line that declares what the line declared, and that a further call leaves alone,
      exactly under the conditions named. */
  method RestyledDeclaration(line: string, style: Style) returns (r: string)
    ensures r == Restyled(line, style)
    ensures SafeColours(style) ==> (AliasDeclaredOn(r) == AliasDeclaredOn(line) <==> KeepsDeclaration(line, style))
    ensures SafeColours(style) ==> (Restyled(r, style) == r <==> SettlesUnder(line, style))
  {
    if SafeColours(style) {
      RestyleKeepsDeclarationIff(line, style);
      RestyleIsIdempotentIff(line, style);
    }
    if AliasDeclaredOn(line).None? || (style.fill.None? && style.labelLines == []) {
      return line;
    }
    var stem, trailer := TakeApart(line);
    var withoutColour := WithoutColour(stem);
    var labelled := Labelled(withoutColour, style);
    if labelled.None? {
      return line;
    }
    withoutColour := labelled.value;
    var suffix := ColourSuffix(style);
    r := Indent(line) + (LStrip(withoutColour) + (suffix + trailer));
  }
}
