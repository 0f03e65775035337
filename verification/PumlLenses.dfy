/** A body under a lens: every line whose alias has a style is restyled. */
module PumlLenses {
  import opened Text
  import opened PumlQuotations
  import opened PumlDeclarations
  import opened PumlRestyle
  import opened PumlLabelLines
  import opened PumlBodies

  /** One line under a lens: restyled if its alias has a style, else as it came. */
  function UnderLens(line: string, styles: map<string, Style>): string {
    match AliasDeclaredOn(line)
    case None => line
    case Some(d) => if d.alias in styles then Restyled(line, styles[d.alias]) else line
  }

  function Lens(styles: map<string, Style>): string -> string { (line: string) => UnderLens(line, styles) }

  function BodyUnderLens(body: string, styles: map<string, Style>): string { BodyMapped(body, Lens(styles)) }

  /** Colours are colours; label lines say anything. */
  predicate SafeLens(styles: map<string, Style>) { forall a | a in styles :: SafeColours(styles[a]) }

  /** Label lines hold no line break either; they may hold quotation marks. */
  predicate OneLineLens(styles: map<string, Style>) { forall a | a in styles :: OneLineStyle(styles[a]) }

  predicate QuietLens(styles: map<string, Style>) {
    OneLineLens(styles) && forall a | a in styles :: QuietLabels(styles[a])
  }

  predicate FillingLens(styles: map<string, Style>) {
    QuietLens(styles) && forall a | a in styles :: styles[a].fill.Some?
  }

  // ---------------------------------------------------------------- one line

  /** The style the lens has for a line, if any. */
  function StyleFor(line: string, styles: map<string, Style>): Option<Style> {
    match AliasDeclaredOn(line)
    case None => None
    case Some(d) => if d.alias in styles then Some(styles[d.alias]) else None
  }

  /** The line keeps its declaration under the lens. */
  predicate KeptUnder(line: string, styles: map<string, Style>) {
    var style := StyleFor(line, styles);
    style.Some? ==> KeepsDeclaration(line, style.value)
  }

  /** The line keeps its alias under the lens. */
  predicate NamedUnder(line: string, styles: map<string, Style>) {
    var style := StyleFor(line, styles);
    style.Some? && Rewrites(line, style.value) ==> KeepsAlias(Core(line), style.value)
  }

  /** The line is not given another alias under the lens, though it may lose its own. */
  predicate NotRenamed(line: string, styles: map<string, Style>) {
    var style := StyleFor(line, styles);
    NamedUnder(line, styles) || (style.Some? && LosesAlias(Core(line), style.value))
  }

  /** The lens has nothing to change on the line. */
  predicate LeftUnder(line: string, styles: map<string, Style>) {
    var style := StyleFor(line, styles);
    style.Some? && Rewrites(line, style.value) ==> StandsAsWritten(line, style.value)
  }

  /** The lens settles the line in one pass: its style does, or, where the line is given another alias,
      the style of that one has nothing to change. */
  predicate SettledUnder(line: string, styles: map<string, Style>) {
    var style := StyleFor(line, styles);
    style.Some? ==>
      if NotRenamed(line, styles) then SettlesUnder(line, style.value) else LeftUnder(UnderLens(line, styles), styles)
  }

  predicate AllKept(lines: seq<string>, styles: map<string, Style>) { forall i | 0 <= i < |lines| :: KeptUnder(lines[i], styles) }

  predicate AllNamed(lines: seq<string>, styles: map<string, Style>) { forall i | 0 <= i < |lines| :: NamedUnder(lines[i], styles) }

  predicate AllSettled(lines: seq<string>, styles: map<string, Style>) { forall i | 0 <= i < |lines| :: SettledUnder(lines[i], styles) }

  predicate AllLeft(lines: seq<string>, styles: map<string, Style>) { forall i | 0 <= i < |lines| :: LeftUnder(lines[i], styles) }

  function NameOf(d: Option<AliasDeclaration>): Option<string> { match d case None => None case Some(x) => Some(x.alias) }

  lemma LensOnLine(line: string, styles: map<string, Style>)
    requires SafeLens(styles)
    ensures var d, d' := AliasDeclaredOn(line), AliasDeclaredOn(UnderLens(line, styles));
            && (d'.Some? ==> d.Some?) && (d' == d <==> KeptUnder(line, styles))
            && (NameOf(d') == NameOf(d) <==> NamedUnder(line, styles))
            && (NotRenamed(line, styles) <==> d'.None? || NameOf(d') == NameOf(d))
  {
    var style := StyleFor(line, styles);
    if style.Some? {
      RestyleKeepsDeclarationIff(line, style.value);
      if Rewrites(line, style.value) {
        RewriteKeepsDeclarationIff(line, style.value);
      } else {
        RestyledShape(line, style.value);
      }
    }
  }

  lemma LensIsOneLine(line: string, styles: map<string, Style>)
    requires OneLine(line) && OneLineLens(styles)
    ensures OneLine(UnderLens(line, styles))
  {
    var style := StyleFor(line, styles);
    if style.Some? {
      RestyledIsOneLine(line, style.value);
    }
  }

  lemma LensLeavesLine(line: string, styles: map<string, Style>)
    requires SafeLens(styles)
    ensures UnderLens(line, styles) == line <==> LeftUnder(line, styles)
  {
    var style := StyleFor(line, styles);
    if style.Some? {
      LeavesAloneIff(line, style.value);
    }
  }

  lemma LensTwiceOnLine(line: string, styles: map<string, Style>)
    requires SafeLens(styles)
    ensures UnderLens(UnderLens(line, styles), styles) == UnderLens(line, styles) <==> SettledUnder(line, styles)
  {
    LensOnLine(line, styles);
    LensLeavesLine(UnderLens(line, styles), styles);
    var style := StyleFor(line, styles);
    if style.Some? && NotRenamed(line, styles) {
      TwiceOnLine(line, UnderLens(line, styles), style.value, styles);
      RestyleIsIdempotentIff(line, style.value);
    }
  }

  /** A line that keeps its alias, or has none left, is restyled again with the same style. */
  lemma TwiceOnLine(line: string, line': string, style: Style, styles: map<string, Style>)
    requires StyleFor(line, styles) == Some(style)
    requires AliasDeclaredOn(line').None? || NameOf(AliasDeclaredOn(line')) == NameOf(AliasDeclaredOn(line))
    ensures UnderLens(line', styles) == Restyled(line', style)
  {
  }

  // ---------------------------------------------------------------- all lines

  predicate Each(lines: seq<string>, p: string -> bool) { forall i | 0 <= i < |lines| :: p(lines[i]) }

  lemma EachIsFirstAndRest(lines: seq<string>, p: string -> bool)
    requires lines != []
    ensures Each(lines, p) <==> p(lines[0]) && Each(lines[1..], p)
  {
    var rest := lines[1..];
    assert forall i | 0 <= i < |rest| :: rest[i] == lines[i + 1];
    assert forall i | 1 <= i < |lines| :: lines[i] == rest[i - 1];
  }

  /** `f` makes no line declare that did not. */
  function Modest(f: string -> string): string -> bool {
    (line: string) => AliasDeclaredOn(f(line)).Some? ==> AliasDeclaredOn(line).Some?
  }

  /** `f` writes a line that declares what the line declared. */
  function Keeper(f: string -> string): string -> bool {
    (line: string) => AliasDeclaredOn(f(line)) == AliasDeclaredOn(line)
  }

  /** `f` writes a line that names the alias the line named, or none where it named none. */
  function Namer(f: string -> string): string -> bool {
    (line: string) => NameOf(AliasDeclaredOn(f(line))) == NameOf(AliasDeclaredOn(line))
  }

  function Names(ds: seq<AliasDeclaration>): seq<string> { seq(|ds|, i requires 0 <= i < |ds| => ds[i].alias) }

  lemma DeclaredCons(line: string, rest: seq<string>)
    ensures DeclaredOnLines([line] + rest) == Held(AliasDeclaredOn(line)) + DeclaredOnLines(rest)
  {
    assert ([line] + rest)[1..] == rest;
  }

  lemma NamesBehind(a: Option<AliasDeclaration>, x: seq<AliasDeclaration>)
    ensures Names(Held(a) + x) == Held(NameOf(a)) + Names(x)
  {
  }

  /** Where neither piece can be longer, the wholes agree only if the pieces do. */
  lemma PiecesDecide<T(!new)>(a: Option<T>, b: Option<T>, x: seq<T>, y: seq<T>)
    requires (a.Some? ==> b.Some?) && |x| <= |y|
    ensures Held(a) + x == Held(b) + y <==> a == b && x == y
  {
    var p, q := Held(a) + x, Held(b) + y;
    if p == q {
      assert |p| == |q| && |Held(a)| == |Held(b)|;
      assert p[|Held(a)|..] == x && q[|Held(b)|..] == y;
      assert a.Some? ==> p[0] == a.value && q[0] == b.value;
    }
  }

  /** Where no line comes to declare, lines declare what they declared exactly when each does, and name
      what they named exactly when each does. */
  lemma {:induction false} LinesDeclareIff(lines: seq<string>, f: string -> string)
    requires Each(lines, Modest(f))
    ensures |DeclaredOnLines(Mapped(lines, f))| <= |DeclaredOnLines(lines)|
    ensures DeclaredOnLines(Mapped(lines, f)) == DeclaredOnLines(lines) <==> Each(lines, Keeper(f))
    ensures Names(DeclaredOnLines(Mapped(lines, f))) == Names(DeclaredOnLines(lines)) <==> Each(lines, Namer(f))
  {
    if lines != [] {
      var rest := lines[1..];
      EachIsFirstAndRest(lines, Modest(f));
      EachIsFirstAndRest(lines, Keeper(f));
      EachIsFirstAndRest(lines, Namer(f));
      LinesDeclareIff(rest, f);
      DeclaredCons(f(lines[0]), Mapped(rest, f));
      FirstDecides(AliasDeclaredOn(f(lines[0])), AliasDeclaredOn(lines[0]), DeclaredOnLines(Mapped(rest, f)), DeclaredOnLines(rest));
    }
  }

  lemma FirstDecides(a: Option<AliasDeclaration>, b: Option<AliasDeclaration>, x: seq<AliasDeclaration>, y: seq<AliasDeclaration>)
    requires (a.Some? ==> b.Some?) && |x| <= |y|
    ensures |Held(a) + x| <= |Held(b) + y|
    ensures Held(a) + x == Held(b) + y <==> a == b && x == y
    ensures Names(Held(a) + x) == Names(Held(b) + y) <==> NameOf(a) == NameOf(b) && Names(x) == Names(y)
  {
    PiecesDecide(a, b, x, y);
    NamesBehind(a, x);
    NamesBehind(b, y);
    PiecesDecide(NameOf(a), NameOf(b), Names(x), Names(y));
  }

  lemma LensOnEach(lines: seq<string>, styles: map<string, Style>)
    requires SafeLens(styles)
    ensures Each(lines, Modest(Lens(styles)))
    ensures Each(lines, Keeper(Lens(styles))) <==> AllKept(lines, styles)
    ensures Each(lines, Namer(Lens(styles))) <==> AllNamed(lines, styles)
  {
    forall i | 0 <= i < |lines|
      ensures Modest(Lens(styles))(lines[i])
           && (Keeper(Lens(styles))(lines[i]) <==> KeptUnder(lines[i], styles))
           && (Namer(Lens(styles))(lines[i]) <==> NamedUnder(lines[i], styles))
    {
      LensOnLine(lines[i], styles);
    }
  }

  // ---------------------------------------------------------------- the body

  /** A body under any lens declares, line by line, what its restyled lines declare, whatever quotation
      marks and line breaks the label lines bring. */
  lemma LensDeclaresLineByLine(body: string, styles: map<string, Style>)
    ensures DeclaredAliases(BodyUnderLens(body, styles)) == Gathered(Mapped(SplitLines(body), Lens(styles)))
    ensures DeclaredAliases(body) == Gathered(SplitLines(body))
  {
    JoinedDeclares(Mapped(SplitLines(body), Lens(styles)), Ending(body));
    SplitLinesAreLines(body);
    LinesGather(SplitLines(body));
  }

  lemma BreakInLabel(margin: string, before: string, u: string, v: string, after: string, written: string)
    ensures margin + (Around(before, u + ['\n'] + v, after) + written)
         == (margin + (before + (['"'] + u))) + ['\n'] + (v + (['"'] + (after + written)))
  {
  }

  /** A newline in a label cuts the declaration in two: the line declares what the text up to the newline
      and the text behind it declare. */
  lemma BrokenLabelDeclares(line: string, style: Style, u: string, v: string)
    requires style.labelLines != [] && Rewrites(line, style) && LabelIn(Core(line), style) == u + ['\n'] + v
    ensures var q := Quotation(Core(line)).value;
            DeclaredAliases(Restyled(line, style)) ==
            DeclaredAliases(Indent(line) + (q.before + (['"'] + u)))
            + DeclaredAliases(v + (['"'] + (q.after + (ColourSuffix(style) + Trailer(line)))))
  {
    var q, written := Quotation(Core(line)).value, ColourSuffix(style) + Trailer(line);
    RestyledShape(line, style);
    BreakInLabel(Indent(line), q.before, u, v, q.after, written);
    BreakDeclares(Indent(line) + (q.before + (['"'] + u)), v + (['"'] + (q.after + written)));
  }

  lemma LensedAreLines(body: string, styles: map<string, Style>)
    requires OneLineLens(styles)
    ensures AllOneLine(Mapped(SplitLines(body), Lens(styles)))
  {
    var lines, f := SplitLines(body), Lens(styles);
    SplitLinesAreLines(body);
    forall i | 0 <= i < |lines| ensures OneLine(Mapped(lines, f)[i]) {
      MappedAt(lines, f, i);
      LensIsOneLine(lines[i], styles);
    }
  }

  /** Restyle a body and read it back: the same aliases in the same order exactly when the label lines
      keep each line's alias, and the same declarations exactly when besides no line loses a colour that
      stood behind a brace. */
  lemma LensKeepsDeclaredAliasesIff(body: string, styles: map<string, Style>)
    requires OneLineLens(styles)
    ensures Names(DeclaredAliases(BodyUnderLens(body, styles))) == Names(DeclaredAliases(body))
       <==> AllNamed(SplitLines(body), styles)
    ensures DeclaredAliases(BodyUnderLens(body, styles)) == DeclaredAliases(body)
       <==> AllKept(SplitLines(body), styles)
  {
    var lines, f := SplitLines(body), Lens(styles);
    LensDeclaresLineByLine(body, styles);
    LensedAreLines(body, styles);
    LinesGather(Mapped(lines, f));
    LensOnEach(lines, styles);
    LinesDeclareIff(lines, f);
  }

  lemma QuietKeeps(line: string, styles: map<string, Style>)
    requires QuietLens(styles)
    ensures NamedUnder(line, styles) && (FillingLens(styles) ==> KeptUnder(line, styles))
  {
    var style := StyleFor(line, styles);
    if style.Some? {
      QuietLabelsKeepAlias(Core(line), style.value);
    }
  }

  /** Without quotation marks and with a fill in every style the declarations are always kept. */
  lemma LensKeepsDeclaredAliases(body: string, styles: map<string, Style>)
    requires FillingLens(styles)
    ensures DeclaredAliases(BodyUnderLens(body, styles)) == DeclaredAliases(body)
  {
    LensKeepsDeclaredAliasesIff(body, styles);
    var lines := SplitLines(body);
    forall i | 0 <= i < |lines| ensures KeptUnder(lines[i], styles) {
      QuietKeeps(lines[i], styles);
    }
  }

  // ---------------------------------------------------------------- a lens that changes nothing

  lemma LensEndsNoLine(line: string, styles: map<string, Style>)
    requires OneLine(line) && SafeLens(styles)
    ensures !EndsInBreak(UnderLens(line, styles))
  {
    var style := StyleFor(line, styles);
    if style.Some? {
      RestyledEndsNoLine(line, style.value);
    }
  }

  lemma LensEndsNone(lines: seq<string>, styles: map<string, Style>)
    requires AllOneLine(lines) && SafeLens(styles)
    ensures NoneEndsInBreak(Mapped(lines, Lens(styles)))
  {
    var f := Lens(styles);
    forall i | 0 <= i < |lines| ensures !EndsInBreak(Mapped(lines, f)[i]) {
      MappedAt(lines, f, i);
      LensEndsNoLine(lines[i], styles);
    }
  }

  /** A lens leaves a body alone exactly where its breaks are newlines and every line the lens would
      rewrite stands as its style writes it, whatever the label lines say. */
  lemma LensLeavesAloneIff(body: string, styles: map<string, Style>)
    requires SafeLens(styles)
    ensures BodyUnderLens(body, styles) == body <==> OnlyNewlines(body) && AllLeft(SplitLines(body), styles)
  {
    var lines := SplitLines(body);
    SplitLinesAreLines(body);
    LensEndsNone(lines, styles);
    BodyFixedIff(body, Lens(styles));
    forall i | 0 <= i < |lines| ensures Lens(styles)(lines[i]) == lines[i] <==> LeftUnder(lines[i], styles) {
      LensLeavesLine(lines[i], styles);
    }
  }

  lemma SeenSettles(lines: seq<string>, end: string, f: string -> string)
    requires f([]) == []
    ensures Settled(Seen(lines, end), f) <==> Settled(lines, f)
  {
    var seen := Seen(lines, end);
    assert forall i | 0 <= i < |seen| :: seen[i] == lines[i];
  }

  lemma LensLeavesEmpty(styles: map<string, Style>)
    ensures Lens(styles)([]) == []
  {
    EmptyDeclaresNothing();
  }

  lemma LensSettlesEach(lines: seq<string>, styles: map<string, Style>)
    requires SafeLens(styles)
    ensures Settled(Mapped(lines, Lens(styles)), Lens(styles)) <==> AllSettled(lines, styles)
  {
    var f := Lens(styles);
    forall i | 0 <= i < |lines| ensures f(Mapped(lines, f)[i]) == Mapped(lines, f)[i] <==> SettledUnder(lines[i], styles) {
      MappedAt(lines, f, i);
      LensTwiceOnLine(lines[i], styles);
    }
  }

  /** The lines of a body under a lens that writes lines. */
  lemma LinesUnderLens(body: string, styles: map<string, Style>)
    requires OneLineLens(styles)
    ensures SplitLines(BodyUnderLens(body, styles)) == Seen(Mapped(SplitLines(body), Lens(styles)), Ending(body))
    ensures OnlyNewlines(BodyUnderLens(body, styles))
  {
    var styled := Mapped(SplitLines(body), Lens(styles));
    LensedAreLines(body, styles);
    LinesStandAlone(styled);
    LinesEndInNoBreak(styled);
    JoinHasNewlines(styled);
    NewlinesApart(JoinLines(styled), Ending(body));
    if styled != [] {
      SplitOfJoin(styled, Ending(body));
    }
  }

  /** Applying the same lens to a restyled body changes nothing exactly when it settles every
      line. */
  lemma LensIsIdempotentIff(body: string, styles: map<string, Style>)
    requires OneLineLens(styles)
    ensures BodyUnderLens(BodyUnderLens(body, styles), styles) == BodyUnderLens(body, styles)
       <==> AllSettled(SplitLines(body), styles)
  {
    var lines, f, styled := SplitLines(body), Lens(styles), BodyUnderLens(body, styles);
    LinesUnderLens(body, styles);
    LensLeavesEmpty(styles);
    SeenSettles(Mapped(lines, f), Ending(body), f);
    LensSettlesEach(lines, styles);
    SplitLinesAreLines(styled);
    LensEndsNone(SplitLines(styled), styles);
    BodyFixedIff(styled, f);
  }

  /** Without quotation marks and with a fill in every style it always does. */
  lemma LensIsIdempotent(body: string, styles: map<string, Style>)
    requires FillingLens(styles)
    ensures BodyUnderLens(BodyUnderLens(body, styles), styles) == BodyUnderLens(body, styles)
  {
    var lines := SplitLines(body);
    forall i | 0 <= i < |lines| ensures SettledUnder(lines[i], styles) {
      QuietKeeps(lines[i], styles);
    }
    LensIsIdempotentIff(body, styles);
  }
}
