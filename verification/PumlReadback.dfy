/** Reading back what a restyle writes: its colours, its label lines, and the text it leaves. */
module PumlReadback {
  import opened Text
  import opened CorpusText
  import opened PumlQuotations
  import opened PumlDeclarations
  import opened PumlAliases
  import opened PumlRestyle
  import opened PumlLabelLines
  import opened PumlBodies
  import opened PumlLenses

  // ---------------------------------------------------------------- a reader of colours

  /** The text cut at every `c`. */
  function Pieces(s: string, c: char): seq<string>
    decreases |s|
  {
    var (a, rest) := Cut(s, c);
    match rest case None => [a] case Some(r) => [a] + Pieces(r, c)
  }

  /** What stands behind the colon of the first piece under this key. */
  function ValueOf(pieces: seq<string>, key: string): Option<string> {
    if pieces == [] then None
    else
      var (k, value) := Cut(pieces[0], ':');
      if k == key && value.Some? then value else ValueOf(pieces[1..], key)
  }

  /** The colour a line closes with: its last word other than a brace, less the `#`. */
  function ClosingColour(line: string): Option<string> {
    var ws := Words(line);
    var n := if ws != [] && ws[|ws| - 1] == ['{'] then |ws| - 1 else |ws|;
    if n > 0 && '#' in ws[n - 1] && ws[n - 1][0] == '#' then Some(ws[n - 1][1..]) else None
  }

  datatype Colours = Colours(fill: Option<string>, border: Option<string>, ink: Option<string>)

  function ReadColours(line: string): Colours {
    match ClosingColour(line)
    case None => Colours(None, None, None)
    case Some(text) =>
      var pieces := Pieces(text, ';');
      Colours(ValueOf(pieces, "back"), ValueOf(pieces, "line"), ValueOf(pieces, "text"))
  }

  /** A colour that holds neither mark. */
  predicate IsUnmarked(s: Option<string>) { s.Some? ==> ';' !in s.value && ':' !in s.value }

  predicate UnmarkedColours(style: Style) { IsUnmarked(style.fill) && IsUnmarked(style.border) && IsUnmarked(style.ink) }

  // ---------------------------------------------------------------- the colours are read back

  lemma LastPiece(a: string, c: char)
    requires c !in a
    ensures Pieces(a, c) == [a]
  {
    CutIs(a, c, None);
  }

  lemma FirstPiece(a: string, c: char, rest: string)
    requires c !in a
    ensures Pieces(a + ([c] + rest), c) == [a] + Pieces(rest, c)
  {
    CutIs(a, c, Some(rest));
    assert a + ([c] + rest) == a + [c] + rest;
  }

  /** `key:value`. */
  function Entry(key: string, value: string): string { key + [':'] + value }

  predicate IsKey(key: string) { ':' !in key && ';' !in key }

  lemma EntryIsOnePiece(key: string, value: string)
    requires IsKey(key) && ';' !in value
    ensures ';' !in Entry(key, value)
  {
  }

  lemma EntryReads(key: string, value: string, rest: seq<string>, asked: string)
    requires IsKey(key)
    ensures ValueOf([Entry(key, value)] + rest, asked) == if key == asked then Some(value) else ValueOf(rest, asked)
  {
    CutIs(key, ':', Some(value));
    assert ([Entry(key, value)] + rest)[1..] == rest;
  }

  /** A further entry, if there is a value for it, behind a semicolon. */
  function Further(key: string, value: Option<string>): string {
    match value case None => [] case Some(v) => [';'] + Entry(key, v)
  }

  function FurtherPieces(key: string, value: Option<string>): seq<string> {
    match value case None => [] case Some(v) => [Entry(key, v)]
  }

  lemma TwoPieces(first: string, key: string, value: Option<string>)
    requires ';' !in first && IsKey(key) && IsUnmarked(value)
    ensures Pieces(first + Further(key, value), ';') == [first] + FurtherPieces(key, value)
  {
    if value.Some? {
      EntryIsOnePiece(key, value.value);
      FirstPiece(first, ';', Entry(key, value.value));
      LastPiece(Entry(key, value.value), ';');
    } else {
      assert first + [] == first;
      LastPiece(first, ';');
    }
  }

  lemma ThreePieces(first: string, key: string, value: Option<string>, key': string, value': Option<string>)
    requires ';' !in first && IsKey(key) && IsUnmarked(value) && IsKey(key') && IsUnmarked(value')
    ensures Pieces(first + (Further(key, value) + Further(key', value')), ';')
         == [first] + (FurtherPieces(key, value) + FurtherPieces(key', value'))
  {
    if value.Some? {
      EntryIsOnePiece(key, value.value);
      PastEntry(first, Entry(key, value.value), key', value');
    } else {
      assert Further(key, value) + Further(key', value') == Further(key', value');
      assert FurtherPieces(key, value) + FurtherPieces(key', value') == FurtherPieces(key', value');
      TwoPieces(first, key', value');
    }
  }

  lemma PastEntry(first: string, entry: string, key: string, value: Option<string>)
    requires ';' !in first && ';' !in entry && IsKey(key) && IsUnmarked(value)
    ensures Pieces(first + (([';'] + entry) + Further(key, value)), ';') == [first] + ([entry] + FurtherPieces(key, value))
  {
    TwoPieces(entry, key, value);
    Behind(first, entry + Further(key, value), [entry] + FurtherPieces(key, value));
    Regrouped([';'], entry, Further(key, value));
  }

  lemma Behind(first: string, rest: string, pieces: seq<string>)
    requires ';' !in first && Pieces(rest, ';') == pieces
    ensures Pieces(first + ([';'] + rest), ';') == [first] + pieces
  {
    FirstPiece(first, ';', rest);
  }

  lemma OneEntryReads(key: string, value: Option<string>, rest: seq<string>, asked: string)
    requires IsKey(key)
    ensures ValueOf(FurtherPieces(key, value) + rest, asked) ==
            if key == asked && value.Some? then value else ValueOf(rest, asked)
  {
    if value.Some? {
      EntryReads(key, value.value, rest, asked);
    } else {
      assert [] + rest == rest;
    }
  }

  lemma ThreeEntriesRead(first: string, a: Option<string>, b: Option<string>, asked: string)
    ensures var pieces := [Entry("back", first)] + (FurtherPieces("line", a) + FurtherPieces("text", b));
            ValueOf(pieces, asked) == if asked == "back" then Some(first) else if asked == "line" then a
                                      else if asked == "text" then b else None
  {
    KeysAreKeys();
    EntryReads("back", first, FurtherPieces("line", a) + FurtherPieces("text", b), asked);
    OneEntryReads("line", a, FurtherPieces("text", b), asked);
    OneEntryReads("text", b, [], asked);
    assert FurtherPieces("text", b) + [] == FurtherPieces("text", b);
  }

  lemma KeysAreKeys()
    ensures IsKey("back") && IsKey("line") && IsKey("text")
  {
  }

  lemma OptionalIsFurther(value: Option<string>)
    ensures Optional(";line:", value) == Further("line", value) && Optional(";text:", value) == Further("text", value)
  {
    assert ";line:" == [';'] + ("line" + [':']) && ";text:" == [';'] + ("text" + [':']);
  }

  lemma TokenIs(fill: string, border: Option<string>, ink: Option<string>)
    ensures ColourToken(fill, border, ink) == ['#'] + (Entry("back", fill) + (Further("line", border) + Further("text", ink)))
  {
    OptionalIsFurther(border);
    OptionalIsFurther(ink);
    assert "back:" == "back" + [':'];
  }

  lemma TokenReads(fill: string, border: Option<string>, ink: Option<string>)
    requires IsUnmarked(Some(fill)) && IsUnmarked(border) && IsUnmarked(ink)
    ensures var pieces := Pieces(ColourToken(fill, border, ink)[1..], ';');
            ValueOf(pieces, "back") == Some(fill) && ValueOf(pieces, "line") == border && ValueOf(pieces, "text") == ink
  {
    KeysAreKeys();
    TokenIs(fill, border, ink);
    EntryIsOnePiece("back", fill);
    ThreePieces(Entry("back", fill), "line", border, "text", ink);
    ThreeEntriesRead(fill, border, ink, "back");
    ThreeEntriesRead(fill, border, ink, "line");
    ThreeEntriesRead(fill, border, ink, "text");
    KeysDiffer();
  }

  lemma KeysDiffer()
    ensures "back" != "line" && "back" != "text" && "line" != "text"
  {
    assert "back"[0] == 'b' && "line"[0] == 'l' && "text"[0] == 't';
  }

  lemma LastWords(head: string, token: string, trailer: string)
    requires IsToken(token) && (trailer == [] || trailer == [' ', '{'])
    ensures Words(head + ([' '] + (token + trailer))) == Words(head) + ([token] + if trailer == [] then [] else [['{']])
  {
    WordsAcross(head, ' ', token + trailer);
    WordsOfToken(token);
    if trailer == [] {
      assert token + trailer == token;
    } else {
      assert token + trailer == token + ([' '] + ['{']);
      WordsAcross(token, ' ', ['{']);
      WordsOfToken(['{']);
    }
  }

  lemma ClosesWithToken(head: string, token: string, trailer: string)
    requires IsToken(token) && token[0] == '#' && (trailer == [] || trailer == [' ', '{'])
    ensures ClosingColour(head + ([' '] + (token + trailer))) == Some(token[1..])
  {
    LastWords(head, token, trailer);
    var before := Words(head);
    var ws := before + ([token] + if trailer == [] then [] else [['{']]);
    var n := |before| + 1;
    assert ws[n - 1] == token && token[0] in token;
    assert trailer != [] ==> ws[|ws| - 1] == ['{'];
    assert trailer == [] ==> ws[|ws| - 1] == token;
  }

  lemma WrittenRegrouped(margin: string, core: string, token: string, trailer: string)
    ensures margin + (core + (([' '] + token) + trailer)) == (margin + core) + ([' '] + (token + trailer))
  {
  }

  /** The colours a style supplies are read off the line it wrote, each where it belongs, and no other. */
  lemma ColoursReadBack(line: string, style: Style)
    requires SafeColours(style) && UnmarkedColours(style) && style.fill.Some? && Rewrites(line, style)
    ensures ReadColours(Restyled(line, style)) == Colours(style.fill, style.border, style.ink)
  {
    var token := TokenOf(style);
    RestyledShape(line, style);
    ColourTokenIsToken(style.fill.value, style.border, style.ink);
    ColourTokenIsBlankFree(token);
    WrittenRegrouped(Indent(line), StyledCore(line, style).value, token, Trailer(line));
    ClosesWithToken(Indent(line) + StyledCore(line, style).value, token, Trailer(line));
    TokenReads(style.fill.value, style.border, style.ink);
  }

  // ---------------------------------------------------------------- a reader of label lines

  const MARK := "\\n<size:10>"
  const BREAK := "\\n"
  const CLOSE := "</size>"

  predicate ClosesWith(s: string, end: string) { |end| <= |s| && s[|s| - |end|..] == end }

  /** The text cut at every `\\n`. */
  function Broken(s: string): seq<string>
    decreases |s|
  {
    var i := Find(BREAK, s);
    if i < 0 then [s] else [s[..i]] + Broken(s[i + 2..])
  }

  /** The lines of the block a label ends in, if it does. */
  function BlockLines(text: string): Option<seq<string>> {
    var i := Find(MARK, text);
    if i < 0 || !ClosesWith(text[i + |MARK|..], CLOSE) then None
    else
      var rest := text[i + |MARK|..];
      Some(Broken(rest[..|rest| - |CLOSE|]))
  }

  predicate OfOnePiece(s: string) { Find(BREAK, s) < 0 }

  lemma BreakChars()
    ensures |BREAK| == 2 && BREAK[0] == '\\' && BREAK[1] == 'n'
  {
  }

  lemma BreakAt(s: string, i: nat)
    ensures Occurs(BREAK, s, i) <==> i + 2 <= |s| && s[i] == '\\' && s[i + 1] == 'n'
  {
    BreakChars();
    if i + 2 <= |s| {
      assert s[i..i + 2] == [s[i], s[i + 1]];
      assert BREAK == ['\\', 'n'];
    }
  }

  lemma BreakFound(a: string, rest: string)
    requires OfOnePiece(a)
    ensures Find(BREAK, a + (BREAK + rest)) == |a|
  {
    var s := a + (BREAK + rest);
    BreakChars();
    BreakAt(s, |a|);
    forall i | 0 <= i < |a| ensures !Occurs(BREAK, s, i) {
      BreakAt(s, i);
      BreakAt(a, i);
    }
  }

  lemma BrokenPast(a: string, rest: string)
    requires OfOnePiece(a)
    ensures Broken(a + (BREAK + rest)) == [a] + Broken(rest)
  {
    var s := a + (BREAK + rest);
    BreakFound(a, rest);
    BreakChars();
    assert s[..|a|] == a && s[|a| + 2..] == rest;
  }

  predicate AllOfOnePiece(ls: seq<string>) { forall i | 0 <= i < |ls| :: OfOnePiece(ls[i]) }

  lemma JoinedFirst(ls: seq<string>)
    requires |ls| > 1
    ensures LineBreakJoin(ls) == ls[0] + (BREAK + LineBreakJoin(ls[1..]))
  {
  }

  lemma {:induction false} BrokenJoin(ls: seq<string>)
    requires ls != [] && AllOfOnePiece(ls)
    ensures Broken(LineBreakJoin(ls)) == ls
  {
    if |ls| == 1 {
      assert ls == [ls[0]];
    } else {
      BrokenJoin(ls[1..]);
      BrokenPast(ls[0], LineBreakJoin(ls[1..]));
      JoinedFirst(ls);
      assert [ls[0]] + ls[1..] == ls;
    }
  }

  /** A label line between its tint tags, if there is a tint. */
  predicate IsTinted(line: string, ink: Option<string>, shown: string) {
    if ink.None? || ink.value == [] then shown == line else shown == "<color:#" + ink.value + ">" + line + "</color>"
  }

  lemma ColourHasNoBackslash(s: string)
    requires AreColourChars(s)
    ensures forall i | 0 <= i < |s| :: s[i] != '\\'
  {
  }

  lemma LiteralsHaveNoBackslash()
    ensures forall i | 0 <= i < |"<color:#"| :: "<color:#"[i] != '\\'
    ensures forall i | 0 <= i < |"</color>"| :: "</color>"[i] != '\\'
  {
  }

  /** Text without a backslash about a line keeps it of one piece. */
  lemma FramedIsOfOnePiece(lead: string, line: string, end: string)
    requires OfOnePiece(line) && end != [] && end[0] != 'n'
    requires (forall i | 0 <= i < |lead| :: lead[i] != '\\') && forall i | 0 <= i < |end| :: end[i] != '\\'
    ensures OfOnePiece(lead + line + end)
  {
    var s := lead + line + end;
    forall i: nat ensures !Occurs(BREAK, s, i) {
      BreakAt(s, i);
      if |lead| <= i < |lead| + |line| {
        BreakAt(line, i - |lead|);
      }
    }
  }

  lemma TintedIsOfOnePiece(line: string, ink: Option<string>)
    requires OfOnePiece(line) && IsColour(ink)
    ensures OfOnePiece(Tinted(line, ink)) && IsTinted(line, ink, Tinted(line, ink))
  {
    if ink.Some? && ink.value != [] {
      var lead := "<color:#" + ink.value + ">";
      LiteralsHaveNoBackslash();
      ColourHasNoBackslash(ink.value);
      FramedIsOfOnePiece(lead, line, "</color>");
    }
  }

  /** What the label said ahead of any block, it still says. */
  predicate SaysAhead(text: string, written: string) {
    var n := Find(MARK, written);
    0 <= n <= |text| && written[..n] == text[..n] && Find(MARK, text) == if |text| == n then -1 else n
  }

  lemma MarkIsTheMark()
    ensures MARK == APPENDED
  {
  }

  lemma BaseIs(text: string, base: string)
    requires base == LabelBase(text)
    ensures base <= text && Find(APPENDED, text) == if |text| == |base| then -1 else |base|
  {
    MarkerIsLong();
  }

  lemma MarkerIsLong()
    ensures |APPENDED| > 0
  {
  }

  lemma LabelReads(base: string, block: string)
    requires forall i :: !Occurs(APPENDED, base, i)
    ensures Find(MARK, base + APPENDED + (block + CLOSE)) == |base| && (base + APPENDED + (block + CLOSE))[..|base|] == base
    ensures BlockLines(base + APPENDED + (block + CLOSE)) == Some(Broken(block))
  {
    var text := base + APPENDED + (block + CLOSE);
    MarkIsTheMark();
    MarkerFound(base, block + CLOSE);
    assert text[|base| + |MARK|..] == block + CLOSE;
    assert (block + CLOSE)[|block|..] == CLOSE && (block + CLOSE)[..|block|] == block;
  }

  /** The label lines are read off the label in order, each between its tint tags, and ahead of them the
      label says what it said. */
  lemma LabelLinesReadBack(text: string, style: Style) returns (shown: seq<string>)
    requires SafeColours(style) && style.labelLines != [] && AllOfOnePiece(style.labelLines)
    ensures var written := RestyledLabel(text, style.labelLines, style.ink);
            BlockLines(written) == Some(shown) && SaysAhead(text, written)
    ensures |shown| == |style.labelLines|
         && forall i | 0 <= i < |shown| :: IsTinted(style.labelLines[i], style.ink, shown[i])
  {
    shown := TintedAll(style.labelLines, style.ink);
    forall i | 0 <= i < |shown| ensures OfOnePiece(shown[i]) && IsTinted(style.labelLines[i], style.ink, shown[i]) {
      TintedIsOfOnePiece(style.labelLines[i], style.ink);
    }
    BrokenJoin(shown);
    BaseHasNoMarker(text);
    BaseIs(text, LabelBase(text));
    MarkIsTheMark();
    LabelReads(LabelBase(text), LineBreakJoin(shown));
  }

  /** So they are read off the line, where they hold no quotation mark. */
  lemma LineShowsItsLabelLines(line: string, style: Style) returns (shown: seq<string>)
    requires SafeColours(style) && QuietLabels(style) && style.labelLines != [] && AllOfOnePiece(style.labelLines)
    requires Rewrites(line, style)
    ensures Quotation(line).Some? && Quotation(Restyled(line, style)).Some?
    ensures var was, now := Quotation(line).value.text, Quotation(Restyled(line, style)).value.text;
            BlockLines(now) == Some(shown) && SaysAhead(was, now)
    ensures |shown| == |style.labelLines|
         && forall i | 0 <= i < |shown| :: IsTinted(style.labelLines[i], style.ink, shown[i])
  {
    LabelOfCore(line);
    LabelOfWritten(line, style);
    shown := LabelLinesReadBack(Quotation(Core(line)).value.text, style);
  }

  // ---------------------------------------------------------------- the text that is left

  /** What a rewrite drops: blanks, perhaps a colour, perhaps a brace. */
  predicate IsDropped(blanks: string, colour: string, brace: string, end: string) {
    && AllSpace(blanks) && AllSpace(end) && (colour == [] || IsColourToken(colour))
    && (brace == [] || (brace != [] && brace[|brace| - 1] == '{' && AllSpace(brace[..|brace| - 1])))
  }

  lemma DropsAfterCore(line: string) returns (margin: string, blanks: string, colour: string, brace: string, end: string)
    requires Core(line) != []
    ensures AllSpace(margin) && line == margin + (Core(line) + (blanks + colour + brace + end))
    ensures IsDropped(blanks, colour, brace, end) && (brace != [] <==> Opens(line))
    ensures Indent(line) == margin
  {
    var t, ws1, token, ws2, mark := LineParts(line);
    var bare := WithoutColour(Stem(line));
    end := BlanksBehind(line);
    margin := LStripParts(bare);
    blanks, colour, brace := ws1, token, ws2 + mark;
    TailParts(ws1, token, ws2, mark);
    PartsInLine(line, margin, Core(line), t, end);
    IndentOf(margin, Core(line) + (t + end));
  }

  lemma PartsInLine(line: string, margin: string, core: string, t: string, end: string)
    requires line == margin + core + t + end && core != []
    ensures line == margin + (core + (t + end)) && (core + (t + end))[0] == core[0]
  {
  }

  /** The first label has the style's label lines, and all about it is as it was. */
  predicate IsRelabelled(core: string, core': string, style: Style) {
    && Quotation(core).Some?
    && var q := Quotation(core).value;
    && core == Around(q.before, q.text, q.after)
    && core' == Around(q.before, RestyledLabel(q.text, style.labelLines, style.ink), q.after)
  }

  /** A rewritten line keeps its margin and its text: what stands ahead of the first label and behind it,
      up to a colour, a brace and blanks, which the style's colour and a brace take the place of. */
  lemma RewriteKeepsTheText(line: string, style: Style)
    returns (margin: string, core: string, core': string, blanks: string, colour: string, brace: string, end: string)
    requires Rewrites(line, style)
    ensures AllSpace(margin) && core != [] && !IsSpace(core[0])
    ensures line == margin + (core + (blanks + colour + brace + end)) && IsDropped(blanks, colour, brace, end)
    ensures Restyled(line, style) == margin + (core' + (
              (if style.fill.None? then [] else [' '] + ColourToken(style.fill.value, style.border, style.ink))
              + if brace == [] then [] else [' ', '{']))
    ensures style.labelLines == [] ==> core' == core
    ensures style.labelLines != [] ==> IsRelabelled(core, core', style)
  {
    ReadsItsCore(line);
    CoreIsTrimmed(line);
    core, core' := Core(line), StyledCore(line, style).value;
    margin, blanks, colour, brace, end := DropsAfterCore(line);
    RestyledShape(line, style);
    if style.labelLines != [] {
      QuotationStands(core);
    }
  }

  // ---------------------------------------------------------------- a body under a lens

  lemma {:induction false} LinesStayInPlace(lines: seq<string>, end: string, i: nat)
    requires i < |lines| && lines[i] != []
    ensures i < |Seen(lines, end)| && Seen(lines, end)[i] == lines[i]
  {
  }

  /** Line by line a body shows the colours its lens has for it. */
  lemma LensPaintsEachLine(body: string, styles: map<string, Style>, i: nat, style: Style)
    requires OneLineLens(styles) && i < |SplitLines(body)| && StyleFor(SplitLines(body)[i], styles) == Some(style)
    requires style.fill.Some? && UnmarkedColours(style) && Rewrites(SplitLines(body)[i], style)
    ensures i < |SplitLines(BodyUnderLens(body, styles))|
    ensures ReadColours(SplitLines(BodyUnderLens(body, styles))[i]) == Colours(style.fill, style.border, style.ink)
  {
    var lines := SplitLines(body);
    LinesUnderLens(body, styles);
    MappedAt(lines, Lens(styles), i);
    ColoursReadBack(lines[i], style);
    EmptyIsNotColoured();
    LinesStayInPlace(Mapped(lines, Lens(styles)), Ending(body), i);
  }

  lemma EmptyIsNotColoured()
    ensures ReadColours([]).fill.None?
  {
  }

  /** And a line whose alias has no style stays as it was. */
  lemma LensSparesTheRest(body: string, styles: map<string, Style>, i: nat)
    requires OneLineLens(styles) && i < |SplitLines(body)| && StyleFor(SplitLines(body)[i], styles).None?
    requires SplitLines(body)[i] != []
    ensures i < |SplitLines(BodyUnderLens(body, styles))|
    ensures SplitLines(BodyUnderLens(body, styles))[i] == SplitLines(body)[i]
  {
    var lines := SplitLines(body);
    LinesUnderLens(body, styles);
    MappedAt(lines, Lens(styles), i);
    LinesStayInPlace(Mapped(lines, Lens(styles)), Ending(body), i);
  }
}
