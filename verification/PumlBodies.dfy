/** Reading and restyling whole bodies, line by line. */
module PumlBodies {
  import opened Text
  import opened PumlQuotations
  import opened PumlDeclarations
  import opened PumlRestyle

  function LineLength(s: string): (n: nat)
    ensures n <= |s|
  {
    if s == [] || IsLineBreak(s[0]) then 0 else 1 + LineLength(s[1..])
  }

  /** A carriage return and the newline behind it end one line. */
  function BreakLength(body: string, n: nat): nat
    requires n < |body|
  {
    if body[n] == '\r' && n + 1 < |body| && body[n + 1] == '\n' then 2 else 1
  }

  /** `body.splitlines()`. */
  function SplitLines(body: string): seq<string>
    decreases |body|
  {
    if body == [] then []
    else
      var n := LineLength(body);
      if n == |body| then [body] else [body[..n]] + SplitLines(body[n + BreakLength(body, n)..])
  }

  function Held<T>(x: Option<T>): seq<T> { match x case None => [] case Some(t) => [t] }

  function DeclaredOnLines(lines: seq<string>): seq<AliasDeclaration> {
    if lines == [] then [] else Held(AliasDeclaredOn(lines[0])) + DeclaredOnLines(lines[1..])
  }

  function DeclaredAliases(body: string): seq<AliasDeclaration> { DeclaredOnLines(SplitLines(body)) }

  function JoinLines(lines: seq<string>): string {
    if lines == [] then "" else if |lines| == 1 then lines[0] else lines[0] + ['\n'] + JoinLines(lines[1..])
  }

  function Mapped(lines: seq<string>, f: string -> string): (r: seq<string>)
    ensures |r| == |lines|
  {
    if lines == [] then [] else [f(lines[0])] + Mapped(lines[1..], f)
  }

  function Ending(body: string): string { if EndsWith(body, '\n') then ['\n'] else [] }

  function BodyMapped(body: string, f: string -> string): string {
    JoinLines(Mapped(SplitLines(body), f)) + Ending(body)
  }

  predicate OneLine(s: string) { forall i | 0 <= i < |s| :: !IsLineBreak(s[i]) }

  predicate AllOneLine(lines: seq<string>) { forall i | 0 <= i < |lines| :: OneLine(lines[i]) }

  /** A style that is written on one line. */
  predicate OneLineStyle(style: Style) { SafeColours(style) && AllOneLine(style.labelLines) }

  lemma {:induction false} LineHasNoBreak(s: string)
    ensures OneLine(s[..LineLength(s)])
  {
    if s != [] && !IsLineBreak(s[0]) {
      LineHasNoBreak(s[1..]);
      var n := LineLength(s);
      assert forall i | 1 <= i < n :: s[..n][i] == s[1..][..n - 1][i - 1];
    }
  }

  lemma {:induction false} SplitLinesAreLines(body: string)
    ensures AllOneLine(SplitLines(body))
    decreases |body|
  {
    if body != [] {
      var n := LineLength(body);
      LineHasNoBreak(body);
      if n < |body| {
        SplitLinesAreLines(body[n + BreakLength(body, n)..]);
      }
    }
  }

  lemma {:induction false} LineLengthIs(a: string, b: string)
    requires OneLine(a) && (b == [] || IsLineBreak(b[0]))
    ensures LineLength(a + b) == |a|
  {
    if a == [] {
      assert a + b == b;
    } else {
      assert (a + b)[0] == a[0] && (a + b)[1..] == a[1..] + b;
      LineLengthIs(a[1..], b);
    }
  }

  // ---------------------------------------------------------------- a text and a newline behind it

  predicate EndsInBreak(s: string) { s != [] && IsLineBreak(s[|s| - 1]) }

  lemma EmptySplits()
    ensures SplitLines([]) == [] && SplitLines(['\n']) == [[]]
  {
    assert ['\n'][1..] == [];
  }

  lemma FirstLine(a: string, b: string)
    requires OneLine(a) && b != [] && IsLineBreak(b[0])
    ensures SplitLines(a + b) == [a] + SplitLines(b[BreakLength(b, 0)..])
  {
    var body := a + b;
    LineLengthIs(a, b);
    assert body[|a|] == b[0] && body[..|a|] == a;
    assert |b| > 1 ==> body[|a| + 1] == b[1];
    assert body[|a| + BreakLength(b, 0)..] == b[BreakLength(b, 0)..];
  }

  lemma SplitFirst(a: string, rest: string)
    requires OneLine(a)
    ensures SplitLines(a + ['\n'] + rest) == [a] + SplitLines(rest)
  {
    FirstLine(a, ['\n'] + rest);
    assert a + ['\n'] + rest == a + (['\n'] + rest) && (['\n'] + rest)[1..] == rest;
  }

  /** Whatever ends a line, a carriage return with its newline as one, what stands ahead is the line. */
  lemma BreakEndsALine(a: string, b: string, rest: string)
    requires OneLine(a)
    requires b == ['\r', '\n'] || (|b| == 1 && IsLineBreak(b[0]) && !(b == ['\r'] && rest != [] && rest[0] == '\n'))
    ensures SplitLines(a + (b + rest)) == [a] + SplitLines(rest)
  {
    var w := b + rest;
    assert w[0] == b[0] && (|w| > 1 ==> w[1] == if |b| > 1 then b[1] else rest[0]);
    FirstLine(a, w);
    assert BreakLength(w, 0) == |b| && w[|b|..] == rest;
  }

  lemma SplitLast(a: string)
    requires OneLine(a)
    ensures SplitLines(a) == if a == [] then [] else [a]
  {
    LineLengthIs(a, []);
    assert a + [] == a;
  }

  /** A text that is not one line is a line, a break and a rest. */
  lemma LineAndRest(m: string) returns (a: string, b: string)
    requires LineLength(m) < |m|
    ensures m == a + b && OneLine(a) && b != [] && IsLineBreak(b[0])
    ensures SplitLines(m) == [a] + SplitLines(b[BreakLength(b, 0)..])
  {
    var n := LineLength(m);
    a, b := m[..n], m[n..];
    LineHasNoBreak(m);
    BreakAtEnd(m);
    HalvesOf(m, n);
    FirstLine(a, b);
  }

  lemma HalvesOf(m: string, n: nat)
    requires n < |m|
    ensures m[..n] + m[n..] == m && m[n..] != [] && m[n..][0] == m[n]
  {
  }

  lemma {:induction false} BreakAtEnd(m: string)
    requires LineLength(m) < |m|
    ensures IsLineBreak(m[LineLength(m)])
  {
    if !IsLineBreak(m[0]) {
      BreakAtEnd(m[1..]);
    }
  }

  lemma {:induction false} NoBreakAtAll(m: string)
    requires LineLength(m) == |m|
    ensures OneLine(m)
  {
    LineHasNoBreak(m);
    assert m[..|m|] == m;
  }

  /** What a newline behind `m` adds to its lines: an empty line if `m` ends one itself, unless the two
      are one break. */
  ghost predicate Gap(m: string, rest: string, gap: seq<string>) {
    && SplitLines(m + ['\n'] + rest) == SplitLines(m) + gap + SplitLines(rest)
    && (gap == [] || gap == [[]]) && (m == [] ==> gap == [[]]) && (m != [] && !EndsInBreak(m) ==> gap == [])
  }

  lemma {:induction false} SplitOfBreak(m: string, rest: string) returns (gap: seq<string>)
    ensures Gap(m, rest, gap)
    decreases |m|
  {
    if LineLength(m) == |m| {
      NoBreakAtAll(m);
      gap := GapOfLine(m, rest);
    } else {
      var a, b := LineAndRest(m);
      if b == ['\r'] {
        gap := [];
        GapOfReturn(m, a, rest);
      } else {
        BreaksApart(a, b, rest);
        gap := SplitOfBreak(b[BreakLength(b, 0)..], rest);
        GapPast(m, a, b, rest, gap);
      }
    }
  }

  lemma GapOfLine(m: string, rest: string) returns (gap: seq<string>)
    requires OneLine(m)
    ensures Gap(m, rest, gap)
  {
    SplitFirst(m, rest);
    SplitLast(m);
    gap := if m == [] then [[]] else [];
    assert [[]] == [m] || m != [];
  }

  lemma GapOfReturn(m: string, a: string, rest: string)
    requires OneLine(a) && m == a + ['\r'] && SplitLines(m) == [a] + SplitLines(['\r'][1..])
    ensures Gap(m, rest, [])
  {
    BreaksOnce(a, ['\r'], rest);
    assert m[|m| - 1] == '\r';
  }

  lemma GapPast(m: string, a: string, b: string, rest: string, gap: seq<string>)
    requires OneLine(a) && b != [] && b != ['\r'] && IsLineBreak(b[0]) && BreakLength(b, 0) <= |b|
    requires m == a + b && SplitLines(m) == [a] + SplitLines(b[BreakLength(b, 0)..])
    requires Gap(b[BreakLength(b, 0)..], rest, gap)
    ensures Gap(m, rest, gap)
  {
    GapStays(a, b, rest, gap);
    if !EndsInBreak(m) {
      GoesOn(a, b);
    }
  }

  lemma GapStays(a: string, b: string, rest: string, gap: seq<string>)
    requires OneLine(a) && b != [] && b != ['\r'] && IsLineBreak(b[0]) && BreakLength(b, 0) <= |b|
    requires var t := b[BreakLength(b, 0)..]; SplitLines(t + ['\n'] + rest) == SplitLines(t) + gap + SplitLines(rest)
    ensures SplitLines(a + b + ['\n'] + rest) == ([a] + SplitLines(b[BreakLength(b, 0)..])) + gap + SplitLines(rest)
  {
    BreaksApart(a, b, rest);
    PastGap(a, SplitLines(b[BreakLength(b, 0)..]), gap, SplitLines(rest));
  }

  lemma BreaksOnce(a: string, b: string, rest: string)
    requires OneLine(a) && b == ['\r']
    ensures SplitLines(a + b + ['\n'] + rest) == [a] + SplitLines(rest)
    ensures BreakLength(b, 0) == 1 && SplitLines(b[1..]) == []
  {
    JoinsTheBreak(b, rest);
    FirstLine(a, b + ['\n'] + rest);
    BreakBehind(a, b, rest);
    EmptySplits();
    assert b[1..] == [];
  }

  lemma BreakBehind(a: string, b: string, rest: string)
    ensures a + b + ['\n'] + rest == a + (b + ['\n'] + rest)
  {
  }

  lemma BreaksApart(a: string, b: string, rest: string)
    requires OneLine(a) && b != [] && b != ['\r'] && IsLineBreak(b[0])
    ensures BreakLength(b, 0) <= |b|
    ensures SplitLines(a + b + ['\n'] + rest) == [a] + SplitLines(b[BreakLength(b, 0)..] + ['\n'] + rest)
  {
    BreakStays(b, rest);
    assert (b + ['\n'] + rest)[0] == b[0];
    FirstLine(a, b + ['\n'] + rest);
    BreakBehind(a, b, rest);
  }

  lemma PastGap(a: string, x: seq<string>, gap: seq<string>, y: seq<string>)
    ensures [a] + (x + gap + y) == ([a] + x) + gap + y
  {
  }

  lemma JoinsTheBreak(b: string, rest: string)
    requires b == ['\r']
    ensures var w := b + ['\n'] + rest; w != [] && BreakLength(w, 0) == 2 && w[2..] == rest
  {
    var w := b + ['\n'] + rest;
    assert w[0] == '\r' && w[1] == '\n';
  }

  lemma BreakStays(b: string, rest: string)
    requires b != [] && b != ['\r']
    ensures var w := b + ['\n'] + rest;
            BreakLength(w, 0) == BreakLength(b, 0) <= |b| && w[BreakLength(b, 0)..] == b[BreakLength(b, 0)..] + ['\n'] + rest
  {
    var w := b + ['\n'] + rest;
    assert w[0] == b[0];
    assert |b| > 1 ==> w[1] == b[1];
    assert |b| == 1 ==> b == [b[0]];
  }

  // ---------------------------------------------------------------- a restyled line is one line

  lemma JoinOneLine(a: string, b: string)
    requires OneLine(a) && OneLine(b)
    ensures OneLine(a + b)
  {}

  lemma SliceOneLine(s: string, i: nat, j: nat)
    requires OneLine(s) && i <= j <= |s|
    ensures OneLine(s[i..j]) && OneLine(s[..j]) && OneLine(s[i..])
  {}

  lemma ColourIsOneLine(s: string)
    requires AreColourChars(s)
    ensures OneLine(s)
  {}

  lemma SuffixIsOneLine(style: Style)
    requires SafeColours(style)
    ensures OneLine(ColourSuffix(style))
  {
    if style.fill.Some? {
      ColourTokenIsToken(style.fill.value, style.border, style.ink);
      ColourIsOneLine(ColourToken(style.fill.value, style.border, style.ink));
    }
  }

  lemma TintIsOneLine(ink: string)
    requires AreColourChars(ink)
    ensures OneLine("<color:#" + ink + ">") && OneLine("</color>")
  {
    ColourIsOneLine(ink);
    assert OneLine("<color:#") && OneLine(">");
  }

  lemma TintedIsOneLine(line: string, ink: Option<string>)
    requires OneLine(line) && IsColour(ink)
    ensures OneLine(Tinted(line, ink))
  {
    if ink.Some? {
      TintIsOneLine(ink.value);
    }
  }

  lemma {:induction false} LabelLinesAreOneLine(ls: seq<string>)
    requires AllOneLine(ls)
    ensures OneLine(LineBreakJoin(ls))
  {
    if |ls| > 1 {
      LabelLinesAreOneLine(ls[1..]);
      assert OneLine("\\n");
    }
  }

  lemma LabelIsOneLine(text: string, style: Style)
    requires OneLine(text) && OneLineStyle(style)
    ensures OneLine(RestyledLabel(text, style.labelLines, style.ink))
  {
    assert OneLine(LabelBase(text));
    assert OneLine(APPENDED) && OneLine("</size>");
    var tinted := TintedAll(style.labelLines, style.ink);
    forall i | 0 <= i < |tinted| ensures OneLine(tinted[i]) { TintedIsOneLine(style.labelLines[i], style.ink); }
    LabelLinesAreOneLine(tinted);
  }

  lemma LabelledIsOneLine(s: string, style: Style)
    requires OneLine(s) && OneLineStyle(style) && WithRestyledLabel(s, style).Some?
    ensures OneLine(WithRestyledLabel(s, style).value)
  {
    var q := Quotation(s).value;
    QuotationStands(s);
    PartsAreOneLine(q.before, q.text, q.after);
    LabelIsOneLine(q.text, style);
    AroundIsOneLine(q.before, LabelIn(s, style), q.after);
  }

  lemma PartsAreOneLine(before: string, text: string, after: string)
    requires OneLine(Around(before, text, after))
    ensures OneLine(before) && OneLine(text) && OneLine(after)
  {
    var s := Around(before, text, after);
    var n := |before| + 1;
    assert s[..|before|] == before && s[n..n + |text|] == text && s[n + |text| + 1..] == after;
    SliceOneLine(s, n, n + |text|);
    SliceOneLine(s, n + |text| + 1, |s|);
    SliceOneLine(s, 0, |before|);
  }

  lemma AroundIsOneLine(before: string, text: string, after: string)
    requires OneLine(before) && OneLine(text) && OneLine(after)
    ensures OneLine(Around(before, text, after))
  {
    JoinOneLine(['"'], after);
    JoinOneLine(text, ['"'] + after);
    JoinOneLine(['"'], text + (['"'] + after));
    JoinOneLine(before, ['"'] + (text + (['"'] + after)));
  }

  lemma BareIsOneLine(line: string)
    requires OneLine(line)
    ensures OneLine(WithoutColour(Stem(line)))
  {
    var r := RStrip(line);
    StripsOneLine(line);
    if r != [] {
      SliceOneLine(r, 0, |r| - 1);
      StripsOneLine(r[..|r| - 1]);
    }
    var stem := Stem(line);
    SliceOneLine(stem, 0, TokenStart(stem));
    StripsOneLine(stem[..TokenStart(stem)]);
  }

  lemma StripsOneLine(s: string)
    requires OneLine(s)
    ensures OneLine(RStrip(s)) && OneLine(LStrip(s))
  {
    SliceOneLine(s, 0, |RStrip(s)|);
    SliceOneLine(s, |s| - |LStrip(s)|, |s|);
  }

  lemma RestyledIsOneLine(line: string, style: Style)
    requires OneLine(line) && OneLineStyle(style)
    ensures OneLine(Restyled(line, style))
  {
    BareIsOneLine(line);
    SuffixIsOneLine(style);
    var labelled := Labelled(WithoutColour(Stem(line)), style);
    if labelled.Some? {
      if style.labelLines != [] {
        LabelledIsOneLine(WithoutColour(Stem(line)), style);
      }
      WrittenIsOneLine(Indent(line), labelled.value, ColourSuffix(style), Trailer(line));
    }
  }

  lemma WrittenIsOneLine(margin: string, labelled: string, suffix: string, trailer: string)
    requires OneLine(margin) && OneLine(labelled) && OneLine(suffix) && OneLine(trailer)
    ensures OneLine(margin + (LStrip(labelled) + (suffix + trailer)))
  {
    JoinOneLine(suffix, trailer);
    JoinOneLine(LStrip(labelled), suffix + trailer);
    JoinOneLine(margin, LStrip(labelled) + (suffix + trailer));
  }

  lemma CoreIsOneLine(line: string)
    requires OneLine(line)
    ensures OneLine(Core(line))
  {
    BareIsOneLine(line);
    StripsOneLine(WithoutColour(Stem(line)));
  }

  lemma EndsBehindCore(margin: string, core: string, written: string)
    requires core != [] && OneLine(written)
    ensures EndsInBreak(margin + (core + written)) ==> written == [] && IsLineBreak(core[|core| - 1])
  {
    var s := margin + (core + written);
    assert s[|s| - 1] == if written == [] then core[|core| - 1] else written[|written| - 1];
  }

  lemma LabelledEndsNoLine(core: string, style: Style)
    requires Labelled(core, style).Some? && core != [] && Trimmed(core) && OneLine(core)
    ensures var r := Labelled(core, style).value; r != [] && !IsLineBreak(r[|r| - 1])
  {
    LabelledIsFramed(core, style);
  }

  lemma StyledCoreEndsNoLine(line: string, style: Style)
    requires OneLine(line) && Rewrites(line, style)
    ensures var r := StyledCore(line, style).value; r != [] && !IsLineBreak(r[|r| - 1])
  {
    CoreIsOneLine(line);
    ReadsItsCore(line);
    CoreIsTrimmed(line);
    LabelledEndsNoLine(Core(line), style);
  }

  lemma WrittenTailIsOneLine(line: string, style: Style)
    requires SafeColours(style)
    ensures OneLine(ColourSuffix(style) + Trailer(line))
  {
    SuffixIsOneLine(style);
    JoinOneLine(ColourSuffix(style), Trailer(line));
  }

  /** Whatever breaks its label lines hold, a restyled line does not end in one. */
  lemma RestyledEndsNoLine(line: string, style: Style)
    requires OneLine(line) && SafeColours(style)
    ensures !EndsInBreak(Restyled(line, style))
  {
    if Rewrites(line, style) {
      RestyledShape(line, style);
      StyledCoreEndsNoLine(line, style);
      WrittenTailIsOneLine(line, style);
      EndsBehindCore(Indent(line), StyledCore(line, style).value, ColourSuffix(style) + Trailer(line));
    } else if AliasDeclaredOn(line).Some? {
      RestyledShape(line, style);
    }
  }

  lemma MappedStep(lines: seq<string>, n: nat, f: string -> string)
    requires n < |lines|
    ensures Mapped(lines[n..], f) == [f(lines[n])] + Mapped(lines[n + 1..], f)
  {
    assert lines[n..][1..] == lines[n + 1..];
  }

  /** The loop over the lines of a body. */
  method ApplyToLines(body: string, f: string -> string) returns (rewritten: string)
    ensures rewritten == BodyMapped(body, f)
  {
    var lines := SplitLines(body);
    var out: seq<string> := [];
    for n := 0 to |lines|
      invariant out + Mapped(lines[n..], f) == Mapped(lines, f)
    {
      MappedStep(lines, n, f);
      out := out + [f(lines[n])];
    }
    assert out == Mapped(lines, f) by { assert lines[|lines|..] == [] && out + [] == out; }
    rewritten := JoinLines(out) + Ending(body);
  }

  // ---------------------------------------------------------------- what a joined text declares

  lemma {:induction false} DeclaredAppend(a: seq<string>, b: seq<string>)
    ensures DeclaredOnLines(a + b) == DeclaredOnLines(a) + DeclaredOnLines(b)
  {
    if a == [] {
      assert a + b == b;
    } else {
      assert (a + b)[1..] == a[1..] + b;
      DeclaredAppend(a[1..], b);
    }
  }

  lemma EmptyDeclaresNothing()
    ensures AliasDeclaredOn([]).None?
    ensures DeclaredOnLines([[]]) == []
  {}

  /** A newline keeps the declarations of two texts apart, whatever breaks they hold. */
  lemma BreakDeclares(m: string, rest: string)
    ensures DeclaredAliases(m + ['\n'] + rest) == DeclaredAliases(m) + DeclaredAliases(rest)
  {
    var gap := SplitOfBreak(m, rest);
    EmptyDeclaresNothing();
    DeclaredAppend(SplitLines(m) + gap, SplitLines(rest));
    DeclaredAppend(SplitLines(m), gap);
  }

  /** What texts declare, one after the other. */
  function Gathered(texts: seq<string>): seq<AliasDeclaration> {
    if texts == [] then [] else DeclaredAliases(texts[0]) + Gathered(texts[1..])
  }

  /** Joining texts and reading the body again declares what the texts declare. */
  lemma {:induction false} JoinedDeclares(texts: seq<string>, end: string)
    requires end == [] || end == ['\n']
    ensures DeclaredAliases(JoinLines(texts) + end) == Gathered(texts)
  {
    if |texts| <= 1 {
      JoinedLast(texts, end);
    } else {
      JoinCons(texts, end);
      BreakDeclares(texts[0], JoinLines(texts[1..]) + end);
      JoinedDeclares(texts[1..], end);
    }
  }

  lemma JoinedLast(texts: seq<string>, end: string)
    requires (end == [] || end == ['\n']) && |texts| <= 1
    ensures DeclaredAliases(JoinLines(texts) + end) == Gathered(texts)
  {
    var m := JoinLines(texts);
    assert Gathered(texts) == DeclaredAliases(m);
    if end == [] {
      assert m + end == m;
    } else {
      assert m + end == m + ['\n'] + [];
      BreakDeclares(m, []);
    }
  }

  lemma JoinCons(lines: seq<string>, end: string)
    requires |lines| > 1
    ensures JoinLines(lines) + end == lines[0] + ['\n'] + (JoinLines(lines[1..]) + end)
  {}

  lemma OneLineDeclares(line: string)
    requires OneLine(line)
    ensures DeclaredAliases(line) == Held(AliasDeclaredOn(line))
  {
    SplitLast(line);
    EmptyDeclaresNothing();
    OneDeclares(line);
  }

  lemma OneDeclares(line: string)
    ensures DeclaredOnLines([line]) == Held(AliasDeclaredOn(line))
  {
    assert [line][1..] == [] && DeclaredOnLines([]) == [];
  }

  lemma {:induction false} LinesGather(lines: seq<string>)
    requires AllOneLine(lines)
    ensures Gathered(lines) == DeclaredOnLines(lines)
  {
    if lines != [] {
      OneLineDeclares(lines[0]);
      LinesGather(lines[1..]);
    }
  }

  // ---------------------------------------------------------------- the lines of a joined text

  /** The lines a text takes up in a body. */
  function LinesOf(m: string): seq<string> { if m == [] then [[]] else SplitLines(m) }

  function AllLinesOf(texts: seq<string>): seq<string> {
    if texts == [] then [] else LinesOf(texts[0]) + AllLinesOf(texts[1..])
  }

  predicate NoneEndsInBreak(texts: seq<string>) { forall i | 0 <= i < |texts| :: !EndsInBreak(texts[i]) }

  /** The lines a joined text splits into: an empty last line is only seen if a newline closes it. */
  function Seen(lines: seq<string>, end: string): seq<string> {
    if lines != [] && end == [] && lines[|lines| - 1] == [] then lines[..|lines| - 1] else lines
  }

  lemma BreakEnds(b: string)
    requires b != [] && IsLineBreak(b[0]) && BreakLength(b, 0) >= |b|
    ensures EndsInBreak(b)
  {
    assert |b| <= 2;
  }

  lemma GoesOn(a: string, b: string)
    requires b != [] && IsLineBreak(b[0]) && !EndsInBreak(a + b)
    ensures BreakLength(b, 0) < |b| && !EndsInBreak(b[BreakLength(b, 0)..])
  {
    assert (a + b)[|a + b| - 1] == b[|b| - 1];
    if BreakLength(b, 0) >= |b| {
      BreakEnds(b);
    }
  }

  lemma LastBehind(a: seq<string>, b: seq<string>)
    requires b != []
    ensures a + b != [] && (a + b)[|a + b| - 1] == b[|b| - 1]
  {
  }

  lemma {:induction false} LastPiece(m: string)
    requires m != [] && !EndsInBreak(m)
    ensures SplitLines(m) != [] && SplitLines(m)[|SplitLines(m)| - 1] != []
    decreases |m|
  {
    if LineLength(m) == |m| {
      NoBreakAtAll(m);
      SplitLast(m);
    } else {
      var a, b := LineAndRest(m);
      GoesOn(a, b);
      var rest := b[BreakLength(b, 0)..];
      LastPiece(rest);
      LastBehind([a], SplitLines(rest));
    }
  }

  lemma LinesBehind(m: string, rest: string)
    requires !EndsInBreak(m)
    ensures SplitLines(m + ['\n'] + rest) == LinesOf(m) + SplitLines(rest)
  {
    var gap := SplitOfBreak(m, rest);
  }

  lemma SeenBehind(a: seq<string>, b: seq<string>, end: string)
    requires b != []
    ensures a + Seen(b, end) == Seen(a + b, end)
  {
  }

  lemma AllLinesOfSome(texts: seq<string>)
    requires texts != []
    ensures AllLinesOf(texts) != []
  {
    if texts[0] != [] {
      assert SplitLines(texts[0]) != [];
    }
  }

  lemma {:induction false} SplitOfJoin(texts: seq<string>, end: string)
    requires texts != [] && NoneEndsInBreak(texts) && (end == [] || end == ['\n'])
    ensures SplitLines(JoinLines(texts) + end) == Seen(AllLinesOf(texts), end)
  {
    if |texts| == 1 {
      SplitOfOne(texts[0], end);
      assert AllLinesOf(texts) == LinesOf(texts[0]);
    } else {
      JoinCons(texts, end);
      LinesBehind(texts[0], JoinLines(texts[1..]) + end);
      SplitOfJoin(texts[1..], end);
      AllLinesOfSome(texts[1..]);
      SeenBehind(LinesOf(texts[0]), AllLinesOf(texts[1..]), end);
    }
  }

  lemma SplitOfOne(m: string, end: string)
    requires !EndsInBreak(m) && (end == [] || end == ['\n'])
    ensures SplitLines(m + end) == Seen(LinesOf(m), end)
  {
    if end == [] {
      assert m + end == m;
      if m != [] {
        LastPiece(m);
      }
    } else {
      assert m + end == m + ['\n'] + [];
      LinesBehind(m, []);
    }
  }

  lemma OneLineStandsAlone(line: string)
    requires OneLine(line)
    ensures LinesOf(line) == [line] && !EndsInBreak(line)
  {
    SplitLast(line);
  }

  lemma {:induction false} LinesStandAlone(lines: seq<string>)
    requires AllOneLine(lines)
    ensures AllLinesOf(lines) == lines
  {
    if lines != [] {
      OneLineStandsAlone(lines[0]);
      LinesStandAlone(lines[1..]);
      assert [lines[0]] + lines[1..] == lines;
    }
  }

  lemma LinesEndInNoBreak(lines: seq<string>)
    requires AllOneLine(lines)
    ensures NoneEndsInBreak(lines)
  {
    forall i | 0 <= i < |lines| ensures !EndsInBreak(lines[i]) {
      OneLineStandsAlone(lines[i]);
    }
  }

  lemma OnePiece(m: string)
    requires !EndsInBreak(m)
    ensures |LinesOf(m)| >= 1 && (|LinesOf(m)| == 1 ==> LinesOf(m) == [m])
  {
    if m != [] && LineLength(m) < |m| {
      var a, b := LineAndRest(m);
      GoesOn(a, b);
      var rest := b[BreakLength(b, 0)..];
      LastPiece(rest);
      assert |[a] + SplitLines(rest)| == 1 + |SplitLines(rest)|;
    }
  }

  /** Texts take up a line each at least, and no more only where they are lines. */
  lemma {:induction false} LinesAtLeast(texts: seq<string>)
    requires NoneEndsInBreak(texts)
    ensures |AllLinesOf(texts)| >= |texts|
    ensures |AllLinesOf(texts)| == |texts| ==> AllLinesOf(texts) == texts
  {
    if texts != [] {
      OnePiece(texts[0]);
      LinesAtLeast(texts[1..]);
    }
  }

  // ---------------------------------------------------------------- bodies that a rewrite leaves alone

  /** Every break is a newline. */
  predicate OnlyNewlines(s: string) { forall i | 0 <= i < |s| && IsLineBreak(s[i]) :: s[i] == '\n' }

  lemma NewlinesApart(a: string, b: string)
    ensures OnlyNewlines(a + b) <==> OnlyNewlines(a) && OnlyNewlines(b)
  {
    assert forall i | 0 <= i < |a| :: (a + b)[i] == a[i];
    assert forall i | 0 <= i < |b| :: b[i] == (a + b)[|a| + i];
  }

  lemma {:induction false} JoinHasNewlines(lines: seq<string>)
    requires AllOneLine(lines)
    ensures OnlyNewlines(JoinLines(lines))
  {
    if |lines| > 1 {
      JoinHasNewlines(lines[1..]);
      NewlinesApart(lines[0] + ['\n'], JoinLines(lines[1..]));
      NewlinesApart(lines[0], ['\n']);
    }
  }

  lemma EndingBehind(a: string, rest: string)
    requires rest != []
    ensures Ending(a + rest) == Ending(rest)
  {
    assert (a + rest)[|a + rest| - 1] == rest[|rest| - 1];
  }

  lemma OneLineRejoins(b: string)
    requires OneLine(b)
    ensures JoinLines(SplitLines(b)) + Ending(b) == b
  {
    SplitLast(b);
    assert !IsLineBreak('\n') || !EndsWith(b, '\n');
    assert b + [] == b;
  }

  lemma NewlineFirst(b: string)
    requires b != [] && IsLineBreak(b[0]) && OnlyNewlines(b)
    ensures b[0] == '\n' && BreakLength(b, 0) == 1 && OnlyNewlines(b[1..]) && b == ['\n'] + b[1..]
  {
  }

  /** A body whose breaks are newlines is its lines joined, with its own ending. */
  lemma {:induction false} Rejoins(body: string)
    requires OnlyNewlines(body)
    ensures JoinLines(SplitLines(body)) + Ending(body) == body
    decreases |body|
  {
    if LineLength(body) == |body| {
      NoBreakAtAll(body);
      OneLineRejoins(body);
    } else {
      var a, b := LineAndRest(body);
      NewlinesApart(a, b);
      NewlineFirst(b);
      Rejoins(b[1..]);
      RejoinsStep(body, a, b[1..]);
    }
  }

  lemma RejoinsStep(body: string, a: string, rest: string)
    requires body == a + (['\n'] + rest) && SplitLines(body) == [a] + SplitLines(rest)
    requires JoinLines(SplitLines(rest)) + Ending(rest) == rest
    ensures JoinLines(SplitLines(body)) + Ending(body) == body
  {
    assert body == a + ['\n'] + rest;
    if rest == [] {
      EmptySplits();
      assert body == a + ['\n'];
      assert SplitLines(body) == [a];
    } else {
      assert SplitLines(rest) != [];
      EndingBehind(a + ['\n'], rest);
      RejoinsBehind(a, SplitLines(rest), Ending(rest));
    }
  }

  lemma RejoinsBehind(a: string, lines: seq<string>, end: string)
    requires lines != []
    ensures JoinLines([a] + lines) + end == a + ['\n'] + (JoinLines(lines) + end)
  {
    assert ([a] + lines)[1..] == lines;
    JoinCons([a] + lines, end);
  }

  ghost predicate Settled(lines: seq<string>, f: string -> string) {
    forall i | 0 <= i < |lines| :: f(lines[i]) == lines[i]
  }

  lemma {:induction false} MappedAt(lines: seq<string>, f: string -> string, i: nat)
    requires i < |lines|
    ensures Mapped(lines, f)[i] == f(lines[i])
  {
    if i > 0 {
      MappedAt(lines[1..], f, i - 1);
    }
  }

  lemma MappedIsSame(lines: seq<string>, f: string -> string)
    ensures Mapped(lines, f) == lines <==> Settled(lines, f)
  {
    forall i | 0 <= i < |lines| ensures Mapped(lines, f)[i] == f(lines[i]) {
      MappedAt(lines, f, i);
    }
  }

  /** A joined text that does not end in a newline shows its last line. */
  lemma {:induction false} LastIsSeen(texts: seq<string>)
    requires |texts| > 1 && texts[|texts| - 1] == []
    ensures EndsWith(JoinLines(texts), '\n')
  {
    var rest := JoinLines(texts[1..]);
    if |texts| > 2 {
      LastIsSeen(texts[1..]);
    }
    EndsAfter(texts[0] + ['\n'], rest, '\n');
  }

  lemma {:induction false} LastOfAll(texts: seq<string>)
    requires texts != [] && NoneEndsInBreak(texts)
    ensures AllLinesOf(texts) != []
    ensures AllLinesOf(texts)[|AllLinesOf(texts)| - 1] == [] ==> texts[|texts| - 1] == []
  {
    if |texts| == 1 {
      LastOfOne(texts[0]);
      assert AllLinesOf(texts) == LinesOf(texts[0]);
    } else {
      LastOfAll(texts[1..]);
      LastBehind(LinesOf(texts[0]), AllLinesOf(texts[1..]));
      assert texts[1..][|texts| - 2] == texts[|texts| - 1];
    }
  }

  lemma LastOfOne(m: string)
    requires !EndsInBreak(m)
    ensures LinesOf(m) != [] && (LinesOf(m)[|LinesOf(m)| - 1] == [] ==> m == [])
  {
    if m != [] {
      LastPiece(m);
    }
  }

  /** Where the joined texts are the body, with the body's ending, every line of theirs is seen. */
  lemma AllIsSeen(texts: seq<string>, body: string)
    requires texts != [] && NoneEndsInBreak(texts) && body != [] && JoinLines(texts) + Ending(body) == body
    ensures SplitLines(body) == AllLinesOf(texts)
  {
    SplitOfJoin(texts, Ending(body));
    LastOfAll(texts);
    if Ending(body) == [] {
      assert JoinLines(texts) + [] == JoinLines(texts);
      if |texts| > 1 && texts[|texts| - 1] == [] {
        LastIsSeen(texts);
      }
    }
  }

  /** A rewrite that ends no line in a break leaves a body alone exactly where the body's breaks are
      newlines and the rewrite leaves each line alone. */
  lemma BodyFixedIff(body: string, f: string -> string)
    requires NoneEndsInBreak(Mapped(SplitLines(body), f))
    ensures BodyMapped(body, f) == body <==> OnlyNewlines(body) && Settled(SplitLines(body), f)
  {
    var lines := SplitLines(body);
    MappedIsSame(lines, f);
    SplitLinesAreLines(body);
    if BodyMapped(body, f) == body {
      FixedBody(body, f);
    } else if OnlyNewlines(body) {
      Rejoins(body);
    }
  }

  lemma FixedBody(body: string, f: string -> string)
    requires NoneEndsInBreak(Mapped(SplitLines(body), f)) && BodyMapped(body, f) == body
    ensures OnlyNewlines(body) && Mapped(SplitLines(body), f) == SplitLines(body)
  {
    var lines := SplitLines(body);
    if body != [] {
      assert lines != [];
      AllIsSeen(Mapped(lines, f), body);
      LinesAtLeast(Mapped(lines, f));
      SplitLinesAreLines(body);
      JoinHasNewlines(lines);
      NewlinesApart(JoinLines(lines), Ending(body));
    }
  }
}
