/** Bodies as drawn: boxes of lines inside lines, and what the two readers make of them. */
module PumlDrawings {
  import opened Text
  import opened PumlQuotations
  import opened PumlDeclarations
  import opened PumlBodies
  import opened Blocks
  import PumlNesting
  import PumlGroupings

  // ---------------------------------------------------------------- drawings

  /** The lines a box opens and closes with. */
  datatype Braces = Braces(opening: string, closing: string)

  type DrawnTree = Tree<Braces, string>
  type Drawing = Forest<Braces, string>

  function TreeLines(t: DrawnTree): seq<string> {
    match t
    case Box(braces, inside) => [braces.opening] + Lines(inside) + [braces.closing]
    case Item(line) => [line]
  }

  function Lines(d: Drawing): seq<string> {
    match d case Nil => [] case Cons(t, rest) => TreeLines(t) + Lines(rest)
  }

  predicate Closes(line: string) { Strip(line) == ['}'] }

  /** Every box opens with a line that opens and closes with a brace, and between them stand lines that
      do neither. */
  predicate IsDrawnTree(t: DrawnTree, opens: string -> bool, plain: string -> bool) {
    match t
    case Box(braces, inside) => opens(braces.opening) && Closes(braces.closing) && IsDrawn(inside, opens, plain)
    case Item(line) => plain(line)
  }

  predicate IsDrawn(d: Drawing, opens: string -> bool, plain: string -> bool) {
    match d case Nil => true case Cons(t, rest) => IsDrawnTree(t, opens, plain) && IsDrawn(rest, opens, plain)
  }

  /** The forest a drawing shows, by what its opening lines and its other lines say. */
  function SketchTree<O, L>(t: DrawnTree, head: string -> O, leaf: string -> L): Tree<O, L> {
    match t
    case Box(braces, inside) => Box(head(braces.opening), Sketch(inside, head, leaf))
    case Item(line) => Item(leaf(line))
  }

  function Sketch<O, L>(d: Drawing, head: string -> O, leaf: string -> L): Forest<O, L> {
    match d case Nil => Nil case Cons(t, rest) => Cons(SketchTree(t, head, leaf), Sketch(rest, head, leaf))
  }

  function Classified<O, L>(lines: seq<string>, classify: string -> Token<O, L>): seq<Token<O, L>> {
    seq(|lines|, i requires 0 <= i < |lines| => classify(lines[i]))
  }

  /** The reader takes opening lines for openings, closing lines for closings, and the rest for neither. */
  ghost predicate Agrees<O(!new), L(!new)>(classify: string -> Token<O, L>, opens: string -> bool, plain: string -> bool,
                                           head: string -> O, leaf: string -> L) {
    && (forall line :: opens(line) ==> classify(line) == Open(head(line)))
    && (forall line :: plain(line) ==> classify(line) == Line(leaf(line)))
    && (forall line :: Closes(line) ==> classify(line) == Close)
  }

  lemma ClassifiedAppend<O, L>(a: seq<string>, b: seq<string>, classify: string -> Token<O, L>)
    ensures Classified(a + b, classify) == Classified(a, classify) + Classified(b, classify)
  {
  }

  lemma ClassifiedOne<O, L>(line: string, classify: string -> Token<O, L>)
    ensures Classified([line], classify) == [classify(line)]
  {
  }

  /** Then it reads the forest. */
  lemma {:induction false} DrawnIsPrinted<O(!new), L(!new)>(d: Drawing, classify: string -> Token<O, L>,
      opens: string -> bool, plain: string -> bool, head: string -> O, leaf: string -> L)
    requires Agrees(classify, opens, plain, head, leaf) && IsDrawn(d, opens, plain)
    ensures Classified(Lines(d), classify) == Print(Sketch(d, head, leaf))
    decreases d, 1
  {
    match d
    case Nil =>
    case Cons(t, rest) =>
      DrawnTreeIsPrinted(t, classify, opens, plain, head, leaf);
      DrawnIsPrinted(rest, classify, opens, plain, head, leaf);
      ClassifiedAppend(TreeLines(t), Lines(rest), classify);
  }

  lemma {:induction false} DrawnTreeIsPrinted<O(!new), L(!new)>(t: DrawnTree, classify: string -> Token<O, L>,
      opens: string -> bool, plain: string -> bool, head: string -> O, leaf: string -> L)
    requires Agrees(classify, opens, plain, head, leaf) && IsDrawnTree(t, opens, plain)
    ensures Classified(TreeLines(t), classify) == PrintTree(SketchTree(t, head, leaf))
    decreases t, 0
  {
    match t
    case Item(line) => ClassifiedOne(line, classify);
    case Box(braces, inside) =>
      DrawnIsPrinted(inside, classify, opens, plain, head, leaf);
      ClassifiedAppend([braces.opening] + Lines(inside), [braces.closing], classify);
      ClassifiedAppend([braces.opening], Lines(inside), classify);
      ClassifiedOne(braces.opening, classify);
      ClassifiedOne(braces.closing, classify);
  }

  lemma DeclaresAsStripped(line: string)
    ensures AliasDeclaredOn(Strip(line)) == AliasDeclaredOn(line) == AliasDeclaredOn(RStrip(line))
  {
    StripIdempotent(line);
    TrimmedEnd(line);
  }

  lemma TrimmedEnd(line: string)
    ensures RStrip(RStrip(line)) == RStrip(line)
  {
  }

  // ---------------------------------------------------------------- as nesting

  /** Blank lines, comments, directives, titles and sprites say nothing of nesting. */
  predicate IsSkipped(line: string) {
    var s := Strip(line);
    s == [] || s[0] == '\'' || s[0] == '!' || s[0] == '@' || "title" <= s || "sprite" <= s
  }

  /** A box opens with a line that declares an alias and ends in a brace, or declares none and does. */
  predicate OpensScope(line: string) {
    && !IsSkipped(line)
    && match AliasDeclaredOn(line) case Some(d) => d.opensBlock case None => EndsWith(Strip(line), '{')
  }

  /** Any other line that does not close one. */
  predicate OpensNoScope(line: string) {
    IsSkipped(line) || (!Closes(line) && !OpensScope(line))
  }

  function AliasOn(line: string): Option<string> { match AliasDeclaredOn(line) case None => None case Some(d) => Some(d.alias) }

  function ScopeNamed(line: string): string { match AliasOn(line) case None => "" case Some(alias) => alias }

  function NamedOn(line: string): Option<string> { if IsSkipped(line) then None else AliasOn(line) }

  lemma NestingReads(line: string)
    ensures OpensScope(line) && !Closes(line) ==> PumlNesting.Classify(line) == Open(ScopeNamed(line))
    ensures OpensNoScope(line) ==> PumlNesting.Classify(line) == Line(NamedOn(line))
    ensures Closes(line) ==> PumlNesting.Classify(line) == Close
  {
    DeclaresAsStripped(line);
  }

  lemma ClosingOpensNothing(line: string)
    requires Closes(line)
    ensures !OpensScope(line)
  {
    PumlGroupings.ClosingDeclaresNothing(line);
  }

  lemma NestingAgrees()
    ensures Agrees(PumlNesting.Classify, OpensScope, OpensNoScope, ScopeNamed, NamedOn)
  {
    forall line: string
      ensures OpensScope(line) ==> PumlNesting.Classify(line) == Open(ScopeNamed(line))
      ensures OpensNoScope(line) ==> PumlNesting.Classify(line) == Line(NamedOn(line))
      ensures Closes(line) ==> PumlNesting.Classify(line) == Close
    {
      NestingReads(line);
      if Closes(line) {
        ClosingOpensNothing(line);
      }
    }
  }

  /** The forest of a drawing: its boxes by the aliases of their opening lines, empty where they have
      none, and in them the aliases of the other lines. */
  function NestingOf(d: Drawing): Forest<string, Option<string>> { Sketch(d, ScopeNamed, NamedOn) }

  lemma DrawingIsItsForest(content: string, d: Drawing)
    requires SplitLines(content) == Lines(d) && IsDrawn(d, OpensScope, OpensNoScope)
    ensures ForestOf(PumlNesting.Tokens(SplitLines(content))) == NestingOf(d)
  {
    NestingAgrees();
    DrawnIsPrinted(d, PumlNesting.Classify, OpensScope, OpensNoScope, ScopeNamed, NamedOn);
    assert PumlNesting.Tokens(Lines(d)) == Classified(Lines(d), PumlNesting.Classify);
    ForestRoundTrip(NestingOf(d));
  }

  /** Whatever its lines, a body that is drawn is read as drawn: its declarations are found in the order
      drawn, each with the boxes about it. */
  lemma FoundAsDrawn(content: string, d: Drawing)
    requires SplitLines(content) == Lines(d) && IsDrawn(d, OpensScope, OpensNoScope)
    ensures PumlNesting.Found(content) == PumlNesting.Preorder(NestingOf(d), [])
  {
    DrawingIsItsForest(content, d);
    PumlNesting.EveryBodyReadsAsItsForest(PumlNesting.Tokens(SplitLines(content)));
  }

  /** Its containment relations are what stands immediately in a box, and with the indirect ones they are
      all that the drawing shows, each once. */
  lemma ContainedAsDrawn(content: string, d: Drawing)
    requires SplitLines(content) == Lines(d) && IsDrawn(d, OpensScope, OpensNoScope)
    ensures PumlNesting.ContainmentRelations(PumlNesting.Found(content)) == PumlNesting.Immediate(NestingOf(d), "")
    ensures multiset(PumlNesting.ContainmentRelations(PumlNesting.Found(content)))
          + multiset(PumlNesting.IndirectNestingRelations(PumlNesting.Found(content)))
         == multiset(PumlNesting.Contained(NestingOf(d), []))
  {
    DrawingIsItsForest(content, d);
    PumlNesting.ContainmentIsImmediate(content);
    PumlNesting.NestingIsStatedExactlyOnce(content);
  }

  // ---------------------------------------------------------------- as groupings

  predicate OpensBraces(line: string) { EndsWith(RStrip(line), '{') }

  predicate OpensNoBraces(line: string) { !OpensBraces(line) && !Closes(line) }

  /** A labelled grouping, or a plain box under the alias its line declares, if any. */
  function BoxOpened(line: string): PumlGroupings.Head {
    match PumlGroupings.GroupOpen(RStrip(line))
    case Some(title) => PumlGroupings.Grouping(title)
    case None => PumlGroupings.Plain(AliasOn(line))
  }

  lemma LabelEndsAsItsRest(caption: string, gap: string, stereotype: string, rest: string)
    requires EndsWith(rest, '{')
    ensures EndsWith(PumlGroupings.SpelledLabel(caption, gap, stereotype, rest), '{')
  {
    EndsAfter(['>'], rest, '{');
    EndsAfter(stereotype, ['>'] + rest, '{');
    EndsAfter(['<', '<'], stereotype + (['>'] + rest), '{');
    EndsAfter(gap, ['<', '<'] + (stereotype + (['>'] + rest)), '{');
    EndsAfter(['"'], gap + (['<', '<'] + (stereotype + (['>'] + rest))), '{');
    EndsAfter(caption, ['"'] + (gap + (['<', '<'] + (stereotype + (['>'] + rest)))), '{');
    EndsAfter(['"'], caption + (['"'] + (gap + (['<', '<'] + (stereotype + (['>'] + rest))))), '{');
  }

  lemma EndsBehindAll(margin: string, keyword: string, gap: string, s: string)
    requires EndsWith(s, '{')
    ensures EndsWith(margin + (keyword + (gap + s)), '{')
  {
    EndsAfter(gap, s, '{');
    EndsAfter(keyword, gap + s, '{');
    EndsAfter(margin, keyword + (gap + s), '{');
  }

  lemma OpeningEnds(rest: string)
    requires PumlGroupings.IsOpening(rest)
    ensures EndsWith(rest, '{')
  {
  }

  /** A line that opens a grouping ends in a brace. */
  lemma GroupingOpensBraces(line: string)
    requires PumlGroupings.GroupOpen(line).Some?
    ensures EndsWith(line, '{')
  {
    var title := PumlGroupings.GroupOpen(line).value;
    var margin, gap, gap', stereotype, rest := PumlGroupings.GroupOpenSpells(line);
    OpeningEnds(rest);
    LabelEndsAsItsRest(title.caption, gap', stereotype, rest);
    EndsBehindAll(margin, PumlGroupings.RECTANGLE, gap, PumlGroupings.SpelledLabel(title.caption, gap', stereotype, rest));
  }

  lemma GroupingReads(line: string)
    ensures OpensBraces(line) ==> PumlGroupings.Classify(line) == Open(BoxOpened(line))
    ensures OpensNoBraces(line) ==> PumlGroupings.Classify(line) == Line(AliasOn(line))
    ensures Closes(line) ==> PumlGroupings.Classify(line) == Close && !OpensBraces(line)
  {
    var r := RStrip(line);
    TrimmedEnd(line);
    DeclaresAsStripped(line);
    if PumlGroupings.GroupOpen(r).Some? {
      GroupingOpensBraces(r);
    }
    if Closes(line) {
      ClosingEnds(line);
    }
  }

  lemma ClosingEnds(line: string)
    requires Closes(line)
    ensures !EndsWith(RStrip(line), '{')
  {
    var r := RStrip(line);
    assert LStrip(r) == ['}'];
    assert r[|r| - 1] == '}';
  }

  lemma GroupingsAgree()
    ensures Agrees(PumlGroupings.Classify, OpensBraces, OpensNoBraces, BoxOpened, AliasOn)
  {
    forall line: string
      ensures OpensBraces(line) ==> PumlGroupings.Classify(line) == Open(BoxOpened(line))
      ensures OpensNoBraces(line) ==> PumlGroupings.Classify(line) == Line(AliasOn(line))
      ensures Closes(line) ==> PumlGroupings.Classify(line) == Close
    {
      GroupingReads(line);
    }
  }

  function GroupingsOf(d: Drawing): Forest<PumlGroupings.Head, Option<string>> { Sketch(d, BoxOpened, AliasOn) }

  lemma PrintedIsTaken<O, L>(f: Forest<O, L>)
    ensures TakeAll(Print(f)) == Partial(f, [])
  {
    TakesForest(Partial(Nil, []), f);
    TopFilled(Nil, f);
    JoinNil(f);
  }

  /** A body that is drawn has the groupings of the drawing: each closed grouping under its label with the
      declarations it is innermost about. */
  lemma GroupedAsDrawn(body: string, d: Drawing)
    requires SplitLines(body) == Lines(d) && IsDrawn(d, OpensBraces, OpensNoBraces)
    ensures PumlGroupings.Emitted(TakeAll(PumlGroupings.Tokens(SplitLines(body))))
         == PumlGroupings.Returned(PumlGroupings.Memberships(GroupingsOf(d)))
  {
    GroupingsAgree();
    DrawnIsPrinted(d, PumlGroupings.Classify, OpensBraces, OpensNoBraces, BoxOpened, AliasOn);
    assert PumlGroupings.Tokens(Lines(d)) == Classified(Lines(d), PumlGroupings.Classify);
    PrintedIsTaken(GroupingsOf(d));
    var ms := PumlGroupings.Memberships(GroupingsOf(d));
    assert ms + [] == ms;
  }
}
