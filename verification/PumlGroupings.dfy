/** Labelled grouping rectangles of a body, with the aliases declared inside each. */
module PumlGroupings {
  import opened Text
  import opened PumlQuotations
  import opened PumlDeclarations
  import opened PumlBodies
  import opened Blocks
  import opened Sequences

  // ---------------------------------------------------------------- the opening line

  datatype Title = Title(caption: string, stereotype: string)

  const RECTANGLE := "rectangle"
  const GROUPING := "Grouping"

  /** What follows `p` when `s` begins with it. */
  function After(p: string, s: string): Option<string> { if p <= s then Some(s[|p|..]) else None }

  /** What follows one blank or more. */
  function AfterBlanks(s: string): Option<string> {
    if s != [] && IsSpace(s[0]) then Some(LStrip(s)) else None
  }

  predicate EndsIn(s: string, suffix: string) { |suffix| <= |s| && s[|s| - |suffix|..] == suffix }

  /** The end of an opening line: `>…{` once the stereotype is read. */
  predicate IsOpening(s: string) { s != [] && s[0] == '>' && EndsWith(s[1..], '{') }

  /** From the stereotype on: `<<…Grouping>>…{`. */
  function StereotypeAt(suffix: string, s: string): Option<string> {
    match After(['<', '<'], s)
    case None => None
    case Some(t) =>
      var (stereotype, rest) := Cut(t, '>');
      if rest.Some? && EndsIn(stereotype, suffix) && IsOpening(rest.value) then Some(stereotype) else None
  }

  /** From the label on: `"label" …`, what follows its blanks being read by `next`. */
  function LabelAt(s: string, next: string -> Option<string>): Option<Title> {
    match After(['"'], s)
    case None => None
    case Some(t) =>
      var (caption, rest) := Cut(t, '"');
      if rest.None? || caption == [] then None else
      match AfterBlanks(rest.value)
      case None => None
      case Some(u) => match next(u) case None => None case Some(stereotype) => Some(Title(caption, stereotype))
  }

  /** The keyword and its blanks, what follows being read by `next`. */
  function KeywordAt(keyword: string, s: string, next: string -> Option<Title>): Option<Title> {
    match After(keyword, s)
    case None => None
    case Some(t) => match AfterBlanks(t) case None => None case Some(u) => next(u)
  }

  function Stereotypes(suffix: string): string -> Option<string> { (s: string) => StereotypeAt(suffix, s) }

  function Labels(suffix: string): string -> Option<Title> { (s: string) => LabelAt(s, Stereotypes(suffix)) }

  /** The label and stereotype of a line that opens a labelled grouping; `line` has no trailing blank. */
  function GroupOpen(line: string): Option<Title> { Stripped(KeywordAt(RECTANGLE, LStrip(line), Labels(GROUPING))) }

  function Stripped(title: Option<Title>): Option<Title> {
    match title case None => None case Some(t) => Some(t.(stereotype := Strip(t.stereotype)))
  }

  // The pattern's spellings, read part by part from the right.

  lemma Skips(p: string, s: string)
    ensures After(p, p + s) == Some(s)
  {
  }

  predicate Starts(s: string) { s != [] && !IsSpace(s[0]) }

  lemma SkipsBlanks(gap: string, s: string)
    requires AllSpace(gap) && gap != [] && Starts(s)
    ensures AfterBlanks(gap + s) == Some(s)
  {
    LStripPast(gap, s);
  }

  lemma CutsAt(a: string, c: char, s: string)
    requires c !in a
    ensures Cut(a + ([c] + s), c) == (a, Some(s))
  {
    CutIs(a, c, Some(s));
    assert a + [c] + s == a + ([c] + s);
  }

  lemma StereotypeReads(suffix: string, stereotype: string, rest: string)
    requires '>' !in stereotype && EndsIn(stereotype, suffix) && IsOpening(rest)
    ensures StereotypeAt(suffix, ['<', '<'] + (stereotype + (['>'] + rest))) == Some(stereotype)
  {
    Skips(['<', '<'], stereotype + (['>'] + rest));
    CutsAt(stereotype, '>', rest);
  }

  lemma MarksAreNotBlank(c: char)
    requires c == '<' || c == '"' || c == 'r'
    ensures !IsSpace(c)
  {
  }

  lemma MarkStarts(mark: string, s: string)
    requires mark != [] && (mark[0] == '<' || mark[0] == '"')
    ensures Starts(mark + s)
  {
    MarksAreNotBlank(mark[0]);
  }

  lemma LabelReads(caption: string, gap: string, s: string, next: string -> Option<string>)
    requires '"' !in caption && caption != [] && AllSpace(gap) && gap != [] && Starts(s) && next(s).Some?
    ensures LabelAt(['"'] + (caption + (['"'] + (gap + s))), next) == Some(Title(caption, next(s).value))
  {
    Skips(['"'], caption + (['"'] + (gap + s)));
    CutsAt(caption, '"', gap + s);
    SkipsBlanks(gap, s);
  }

  lemma KeywordReads(keyword: string, gap: string, s: string, next: string -> Option<Title>)
    requires AllSpace(gap) && gap != [] && Starts(s)
    ensures KeywordAt(keyword, keyword + (gap + s), next) == next(s)
  {
    Skips(keyword, gap + s);
    SkipsBlanks(gap, s);
  }

  /** From the label on, any way the pattern lets it be written. */
  function SpelledLabel(caption: string, gap: string, stereotype: string, rest: string): string {
    ['"'] + (caption + (['"'] + (gap + (['<', '<'] + (stereotype + (['>'] + rest))))))
  }

  lemma SpelledLabelReads(suffix: string, caption: string, gap: string, stereotype: string, rest: string)
    requires AllSpace(gap) && gap != [] && '"' !in caption && caption != []
    requires '>' !in stereotype && EndsIn(stereotype, suffix) && IsOpening(rest)
    ensures Labels(suffix)(SpelledLabel(caption, gap, stereotype, rest)) == Some(Title(caption, stereotype))
  {
    var s := ['<', '<'] + (stereotype + (['>'] + rest));
    StereotypeReads(suffix, stereotype, rest);
    MarkStarts(['<', '<'], stereotype + (['>'] + rest));
    LabelReads(caption, gap, s, Stereotypes(suffix));
  }

  lemma RectangleIsAWord()
    ensures RECTANGLE != [] && !IsSpace(RECTANGLE[0])
  {
    MarksAreNotBlank(RECTANGLE[0]);
  }

  lemma SpelledReads(keyword: string, margin: string, gap: string, s: string, next: string -> Option<Title>)
    requires AllSpace(margin) && AllSpace(gap) && gap != [] && Starts(s) && Starts(keyword)
    ensures KeywordAt(keyword, LStrip(margin + (keyword + (gap + s))), next) == next(s)
  {
    KeywordReads(keyword, gap, s, next);
    LStripPast(margin, keyword + (gap + s));
  }

  /** Every spelling the pattern allows is read with its own label and stereotype. */
  lemma GroupOpenReads(margin: string, gap: string, caption: string, gap': string, stereotype: string, rest: string)
    requires AllSpace(margin) && AllSpace(gap) && gap != [] && AllSpace(gap') && gap' != []
    requires '"' !in caption && caption != [] && '>' !in stereotype && EndsIn(stereotype, GROUPING) && IsOpening(rest)
    ensures GroupOpen(margin + (RECTANGLE + (gap + SpelledLabel(caption, gap', stereotype, rest))))
         == Some(Title(caption, Strip(stereotype)))
  {
    SpelledLabelReads(GROUPING, caption, gap', stereotype, rest);
    RectangleIsAWord();
    MarkStarts(['"'], caption + (['"'] + (gap' + (['<', '<'] + (stereotype + (['>'] + rest))))));
    SpelledReads(RECTANGLE, margin, gap, SpelledLabel(caption, gap', stereotype, rest), Labels(GROUPING));
  }

  function Margin(s: string): string { s[..|s| - |LStrip(s)|] }

  lemma MarginIs(s: string)
    ensures AllSpace(Margin(s)) && s == Margin(s) + LStrip(s)
  {
    LStripDropsBlanks(s);
  }

  lemma MarginIsThere(s: string)
    requires AfterBlanks(s).Some?
    ensures Margin(s) != []
  {
    assert LStrip(s) == LStrip(s[1..]);
  }

  lemma AfterIs(p: string, s: string)
    requires After(p, s).Some?
    ensures s == p + After(p, s).value
  {
  }

  lemma CutParts(s: string, c: char)
    requires Cut(s, c).1.Some?
    ensures s == Cut(s, c).0 + ([c] + Cut(s, c).1.value) && c !in Cut(s, c).0
  {
    assert s == Cut(s, c).0 + [c] + Cut(s, c).1.value;
  }

  lemma StereotypeSpells(suffix: string, s: string) returns (rest: string)
    requires StereotypeAt(suffix, s).Some?
    ensures var stereotype := StereotypeAt(suffix, s).value;
            '>' !in stereotype && EndsIn(stereotype, suffix) && IsOpening(rest) && s == ['<', '<'] + (stereotype + (['>'] + rest))
  {
    AfterIs(['<', '<'], s);
    var t := After(['<', '<'], s).value;
    CutParts(t, '>');
    rest := Cut(t, '>').1.value;
  }

  lemma LabelSpells(s: string, next: string -> Option<string>) returns (gap: string, rest: string)
    requires LabelAt(s, next).Some?
    ensures AllSpace(gap) && gap != [] && next(rest).Some?
    ensures var title := LabelAt(s, next).value;
            '"' !in title.caption && title.caption != [] && Some(title.stereotype) == next(rest)
            && s == ['"'] + (title.caption + (['"'] + (gap + rest)))
  {
    AfterIs(['"'], s);
    var t := After(['"'], s).value;
    CutParts(t, '"');
    var u := Cut(t, '"').1.value;
    gap, rest := Margin(u), LStrip(u);
    MarginIs(u);
    MarginIsThere(u);
  }

  lemma KeywordSpells(keyword: string, line: string, next: string -> Option<Title>) returns (margin: string, gap: string, rest: string)
    requires KeywordAt(keyword, LStrip(line), next).Some?
    ensures AllSpace(margin) && AllSpace(gap) && gap != [] && line == margin + (keyword + (gap + rest))
    ensures KeywordAt(keyword, LStrip(line), next) == next(rest)
  {
    var s := LStrip(line);
    AfterIs(keyword, s);
    var t := After(keyword, s).value;
    margin, gap, rest := Margin(line), Margin(t), LStrip(t);
    MarginIs(line);
    MarginIs(t);
    MarginIsThere(t);
  }

  /** And nothing else is: a line read as an opening is such a spelling. */
  lemma GroupOpenSpells(line: string) returns (margin: string, gap: string, gap': string, stereotype: string, rest: string)
    requires GroupOpen(line).Some?
    ensures AllSpace(margin) && AllSpace(gap) && gap != [] && AllSpace(gap') && gap' != []
    ensures '>' !in stereotype && EndsIn(stereotype, GROUPING) && IsOpening(rest)
    ensures var title := GroupOpen(line).value;
            '"' !in title.caption && title.caption != [] && title.stereotype == Strip(stereotype)
            && line == margin + (RECTANGLE + (gap + SpelledLabel(title.caption, gap', stereotype, rest)))
  {
    var s, t;
    margin, gap, s := KeywordSpells(RECTANGLE, line, Labels(GROUPING));
    gap', t := LabelSpells(s, Stereotypes(GROUPING));
    stereotype := StereotypeAt(GROUPING, t).value;
    rest := StereotypeSpells(GROUPING, t);
  }

  // ---------------------------------------------------------------- lines as tokens

  /** How a scope is opened: as a labelled grouping, or plainly, possibly declaring an alias. */
  datatype Head = Grouping(title: Title) | Plain(declared: Option<string>)

  type GroupingToken = Token<Head, Option<string>>

  function Declared(line: string): Option<string> {
    match AliasDeclaredOn(line) case None => None case Some(d) => Some(d.alias)
  }

  function Classify(raw: string): GroupingToken {
    var line := RStrip(raw);
    TokenOf(GroupOpen(line), Declared(line), EndsWith(line, '{'), Strip(line) == ['}'])
  }

  function TokenOf(opening: Option<Title>, declared: Option<string>, opens: bool, closes: bool): GroupingToken {
    match opening
    case Some(title) => Open(Grouping(title))
    case None => if opens then Open(Plain(declared)) else if closes then Close else Line(declared)
  }

  function Tokens(lines: seq<string>): seq<GroupingToken> {
    seq(|lines|, i requires 0 <= i < |lines| => Classify(lines[i]))
  }

  lemma ClosingDeclaresNothing(line: string)
    requires Strip(line) == ['}']
    ensures Declared(line).None?
  {
    assert Unquoted(['}'][1..]) == [];
    assert Unquoted(['}']) == ['}'];
    assert AliasFrom(['}'], 1).None?;
    assert AliasAt(['}'], 0).None?;
  }

  // ---------------------------------------------------------------- the reader

  /** An open scope: a grouping collecting its members, or any other. */
  datatype Scope = Collecting(title: Title, members: seq<string>) | Passing

  datatype LabeledGrouping = LabeledGrouping(title: Title, memberAliases: seq<string>)

  datatype State = State(stack: seq<Scope>, groupings: seq<LabeledGrouping>)

  /** The scopes with `aliases` added to the innermost grouping, if there is one. */
  function Credit(stack: seq<Scope>, aliases: seq<string>): (r: seq<Scope>)
    ensures |r| == |stack|
  {
    if stack == [] then []
    else
      var n := |stack| - 1;
      match stack[n]
      case Collecting(title, members) => stack[..n] + [Collecting(title, members + aliases)]
      case Passing => Credit(stack[..n], aliases) + [Passing]
  }

  function Declaring(alias: Option<string>): seq<string> { match alias case None => [] case Some(a) => [a] }

  /** What closing a scope returns: a grouping's members, first occurrences only. */
  function Closing(scope: Scope): seq<LabeledGrouping> {
    match scope
    case Passing => []
    case Collecting(title, members) => [LabeledGrouping(title, FirstOccurrences(members))]
  }

  function Read(s: State, t: GroupingToken): State {
    match t
    case Open(Grouping(title)) => s.(stack := s.stack + [Collecting(title, [])])
    case Open(Plain(alias)) => s.(stack := Credit(s.stack, Declaring(alias)) + [Passing])
    case Line(alias) => s.(stack := Credit(s.stack, Declaring(alias)))
    case Close =>
      if s.stack == [] then s
      else
        var n := |s.stack| - 1;
        State(s.stack[..n], s.groupings + Closing(s.stack[n]))
  }

  function ReadAll(s: State, ts: seq<GroupingToken>): State
    decreases |ts|
  {
    if ts == [] then s else Read(ReadAll(s, ts[..|ts| - 1]), ts[|ts| - 1])
  }

  const START := State([], [])

  /** Crediting one alias: the search for the innermost grouping from the top of the stack. */
  method CreditInnermost(stack: seq<Scope>, alias: string) returns (r: seq<Scope>)
    ensures r == Credit(stack, [alias])
  {
    r := stack;
    var n := |stack|;
    assert stack[..n] == stack;
    while n > 0 && stack[n - 1].Passing?
      invariant 0 <= n <= |stack|
      invariant Credit(stack, [alias]) == Credit(stack[..n], [alias]) + stack[n..]
    {
      assert stack[..n][..n - 1] == stack[..n - 1];
      assert Credit(stack[..n - 1], [alias]) + [Passing] + stack[n..] == Credit(stack[..n - 1], [alias]) + stack[n - 1..];
      n := n - 1;
    }
    if n > 0 {
      var scope := stack[n - 1];
      r := stack[n - 1 := Collecting(scope.title, scope.members + [alias])];
      assert stack[..n][..n - 1] == stack[..n - 1];
    }
  }

  lemma {:induction false} CreditNothing(stack: seq<Scope>)
    ensures Credit(stack, []) == stack
  {
    if stack != [] {
      var n := |stack| - 1;
      CreditNothing(stack[..n]);
      if stack[n].Collecting? {
        assert stack[n].members + [] == stack[n].members;
      }
    }
  }

  /** One line of the body, by what it opens, declares and closes. */
  method ParseLine(opening: Option<Title>, declared: Option<string>, opens: bool, closes: bool,
                   stack: seq<Scope>, groupings: seq<LabeledGrouping>)
    returns (stack': seq<Scope>, groupings': seq<LabeledGrouping>)
    requires closes ==> declared.None?
    ensures State(stack', groupings') == Read(State(stack, groupings), TokenOf(opening, declared, opens, closes))
  {
    stack', groupings' := stack, groupings;
    CreditNothing(stack);
    if opening.Some? {
      stack' := stack + [Collecting(opening.value, [])];
      return;
    }
    if declared.Some? {
      stack' := CreditInnermost(stack, declared.value);
    }
    if opens {
      stack' := stack' + [Passing];
      return;
    }
    if closes {
      if stack' != [] {
        var n := |stack'| - 1;
        groupings' := groupings + Closing(stack'[n]);
        stack' := stack'[..n];
      }
    }
  }

  method ParseRawLine(raw: string, stack: seq<Scope>, groupings: seq<LabeledGrouping>)
    returns (stack': seq<Scope>, groupings': seq<LabeledGrouping>)
    ensures State(stack', groupings') == Read(State(stack, groupings), Classify(raw))
  {
    var line := RStrip(raw);
    var closes := Strip(line) == ['}'];
    if closes {
      ClosingDeclaresNothing(line);
    }
    stack', groupings' := ParseLine(GroupOpen(line), Declared(line), EndsWith(line, '{'), closes, stack, groupings);
  }

  method ParseLabeledGroupings(body: string) returns (groupings: seq<LabeledGrouping>)
    ensures groupings == Emitted(TakeAll(Tokens(SplitLines(body))))
  {
    groupings := ParseLines(SplitLines(body));
    EveryBodyReadsAsItsForest(Tokens(SplitLines(body)));
  }

  /** The loop over the lines. */
  method ParseLines(lines: seq<string>) returns (groupings: seq<LabeledGrouping>)
    ensures groupings == ReadAll(START, Tokens(lines)).groupings
  {
    ghost var ts := Tokens(lines);
    var stack: seq<Scope> := [];
    groupings := [];
    for n := 0 to |lines|
      invariant State(stack, groupings) == ReadAll(START, ts[..n])
    {
      assert ts[..n + 1][..n] == ts[..n];
      stack, groupings := ParseRawLine(lines[n], stack, groupings);
    }
    assert ts[..|lines|] == ts;
  }

  // ---------------------------------------------------------------- what a forest groups

  type GroupingTree = Tree<Head, Option<string>>
  type GroupingForest = Forest<Head, Option<string>>

  /** The declarations in a forest whose innermost grouping lies outside it. */
  function MembersTree(t: GroupingTree): seq<string> {
    match t
    case Item(alias) => Declaring(alias)
    case Box(Plain(alias), inside) => Declaring(alias) + Members(inside)
    case Box(Grouping(_), _) => []
  }

  function Members(f: GroupingForest): seq<string> {
    match f case Nil => [] case Cons(t, rest) => MembersTree(t) + Members(rest)
  }

  datatype Membership = Membership(title: Title, members: seq<string>)

  /** Every grouping of a forest in closing order, with the declarations it is innermost around. */
  function MembershipsTree(t: GroupingTree): seq<Membership> {
    match t
    case Item(_) => []
    case Box(Plain(_), inside) => Memberships(inside)
    case Box(Grouping(title), inside) => Memberships(inside) + [Membership(title, Members(inside))]
  }

  function Memberships(f: GroupingForest): seq<Membership> {
    match f case Nil => [] case Cons(t, rest) => MembershipsTree(t) + Memberships(rest)
  }

  /** The groupings as returned: the members of each, first occurrences only. */
  function Returned(ms: seq<Membership>): (r: seq<LabeledGrouping>)
    ensures |r| == |ms|
  {
    if ms == [] then []
    else Returned(ms[..|ms| - 1]) + [LabeledGrouping(ms[|ms| - 1].title, FirstOccurrences(ms[|ms| - 1].members))]
  }

  lemma {:induction false} ReturnedAppend(a: seq<Membership>, b: seq<Membership>)
    ensures Returned(a + b) == Returned(a) + Returned(b)
  {
    if b == [] {
      assert a + b == a;
    } else {
      var n := |b| - 1;
      assert (a + b)[..|a + b| - 1] == a + b[..n];
      ReturnedAppend(a, b[..n]);
    }
  }

  lemma ReturnedOne(m: Membership)
    ensures Returned([m]) == [LabeledGrouping(m.title, FirstOccurrences(m.members))]
  {
    assert [m][..0] == [];
    assert Returned([m][..0]) == [];
  }

  // ---------------------------------------------------------------- reading a printed forest

  lemma {:induction false} ReadAppend(s: State, a: seq<GroupingToken>, b: seq<GroupingToken>)
    ensures ReadAll(s, a + b) == ReadAll(ReadAll(s, a), b)
    decreases |b|
  {
    if b == [] {
      assert a + b == a;
    } else {
      var n := |b| - 1;
      assert (a + b)[..|a + b| - 1] == a + b[..n];
      ReadAppend(s, a, b[..n]);
    }
  }

  lemma ReadOne(s: State, t: GroupingToken)
    ensures ReadAll(s, [t]) == Read(s, t)
  {
    assert [t][..0] == [];
    assert ReadAll(s, [t][..0]) == s;
  }

  lemma {:induction false} CreditTwice(stack: seq<Scope>, a: seq<string>, b: seq<string>)
    ensures Credit(Credit(stack, a), b) == Credit(stack, a + b)
  {
    if stack != [] {
      var n := |stack| - 1;
      var once := Credit(stack, a);
      match stack[n]
      case Collecting(title, members) =>
        assert once[..n] == stack[..n];
        assert members + a + b == members + (a + b);
      case Passing =>
        assert once[..n] == Credit(stack[..n], a);
        CreditTwice(stack[..n], a, b);
    }
  }

  lemma CreditUnder(stack: seq<Scope>, scope: Scope, aliases: seq<string>)
    ensures scope.Passing? ==> Credit(stack + [scope], aliases) == Credit(stack, aliases) + [Passing]
    ensures scope.Collecting? ==>
      Credit(stack + [scope], aliases) == stack + [Collecting(scope.title, scope.members + aliases)]
  {
    assert (stack + [scope])[..|stack|] == stack;
  }

  /** What reading a forest does to a state: its free declarations go to the grouping around it, and
      its own groupings are returned. */
  function With(s: State, members: seq<string>, ms: seq<Membership>): State {
    State(Credit(s.stack, members), s.groupings + Returned(ms))
  }

  lemma WithTwice(s: State, a: seq<string>, ms: seq<Membership>, b: seq<string>, ns: seq<Membership>)
    ensures With(With(s, a, ms), b, ns) == With(s, a + b, ms + ns)
  {
    CreditTwice(s.stack, a, b);
    ReturnedAppend(ms, ns);
    Associate(s.groupings, Returned(ms), Returned(ns));
  }

  lemma WithNothing(s: State)
    ensures With(s, [], []) == s
  {
    CreditNothing(s.stack);
    assert s.groupings + [] == s.groupings;
  }

  lemma {:induction false} ReadsForest(f: GroupingForest, s: State)
    ensures ReadAll(s, Print(f)) == With(s, Members(f), Memberships(f))
    decreases f, 2
  {
    match f
    case Nil => WithNothing(s);
    case Cons(t, rest) =>
      ReadAppend(s, PrintTree(t), Print(rest));
      ReadsTree(t, s);
      ReadsForest(rest, With(s, MembersTree(t), MembershipsTree(t)));
      WithTwice(s, MembersTree(t), MembershipsTree(t), Members(rest), Memberships(rest));
  }

  lemma {:induction false} ReadsTree(t: GroupingTree, s: State)
    ensures ReadAll(s, PrintTree(t)) == With(s, MembersTree(t), MembershipsTree(t))
    decreases t, 1
  {
    match t
    case Item(alias) =>
      ReadOne(s, Line(alias));
      assert s.groupings + [] == s.groupings;
    case Box(head, inside) =>
      var within := Read(s, Open(head));
      ReadAppend(s, [Open(head)] + Print(inside), [Close]);
      ReadAppend(s, [Open(head)], Print(inside));
      ReadOne(s, Open(head));
      ReadsForest(inside, within);
      ReadOne(With(within, Members(inside), Memberships(inside)), Close);
      ClosesBox(head, inside, s);
  }

  lemma ClosesBox(head: Head, inside: GroupingForest, s: State)
    ensures Read(With(Read(s, Open(head)), Members(inside), Memberships(inside)), Close)
         == With(s, MembersTree(Box(head, inside)), MembershipsTree(Box(head, inside)))
  {
    match head
    case Plain(alias) => ClosesPlain(alias, inside, s);
    case Grouping(title) => ClosesGrouping(title, Members(inside), Memberships(inside), s);
  }

  lemma ClosesPlain(alias: Option<string>, inside: GroupingForest, s: State)
    ensures Read(With(Read(s, Open(Plain(alias))), Members(inside), Memberships(inside)), Close)
         == With(s, Declaring(alias) + Members(inside), Memberships(inside))
  {
    var stack := Credit(s.stack, Declaring(alias));
    CreditUnder(stack, Passing, Members(inside));
    CreditTwice(s.stack, Declaring(alias), Members(inside));
    ClosesLast(Credit(stack, Members(inside)), Passing, s.groupings + Returned(Memberships(inside)));
    assert s.groupings + Returned(Memberships(inside)) + [] == s.groupings + Returned(Memberships(inside));
  }

  lemma ClosesGrouping(title: Title, members: seq<string>, ms: seq<Membership>, s: State)
    ensures Read(With(Read(s, Open(Grouping(title))), members, ms), Close)
         == With(s, [], ms + [Membership(title, members)])
  {
    var m := Membership(title, members);
    CreditUnder(s.stack, Collecting(title, []), members);
    assert [] + members == members;
    var scope := Collecting(title, members);
    ClosesLast(s.stack, scope, s.groupings + Returned(ms));
    CreditNothing(s.stack);
    ReturnedAppend(ms, [m]);
    ReturnedOne(m);
    Associate(s.groupings, Returned(ms), Returned([m]));
  }

  lemma ClosesLast(stack: seq<Scope>, scope: Scope, groupings: seq<LabeledGrouping>)
    ensures Read(State(stack + [scope], groupings), Close) == State(stack, groupings + Closing(scope))
  {
    assert (stack + [scope])[..|stack|] == stack;
  }

  // ---------------------------------------------------------------- every body

  /** The memberships complete so far: those at the top and those inside scopes still open. */
  function Complete(open: seq<Frame<Head, Option<string>>>): seq<Membership> {
    if open == [] then [] else Complete(open[..|open| - 1]) + Memberships(open[|open| - 1].inside)
  }

  /** What is returned of a body read so far. A grouping never closed is not returned; the groupings
      closed inside it are. */
  function Emitted(p: Partial<Head, Option<string>>): seq<LabeledGrouping> { Returned(Finished(p)) }

  function Finished(p: Partial<Head, Option<string>>): seq<Membership> { Memberships(p.top) + Complete(p.open) }

  lemma {:induction false} BalancedReadsAlike(ts: seq<GroupingToken>)
    ensures ReadAll(START, Balanced(ts)) == ReadAll(START, ts) && |ReadAll(START, ts).stack| == Depth(ts)
  {
    if ts != [] {
      var init, b := ts[..|ts| - 1], Balanced(ts);
      BalancedReadsAlike(init);
      if ts[|ts| - 1].Close? && Depth(init) == 0 {
        assert b == Balanced(init);
      } else {
        assert b[..|b| - 1] == Balanced(init);
      }
    }
  }

  lemma FramesUnfold(open: seq<Frame<Head, Option<string>>>)
    requires open != []
    ensures var n := |open| - 1;
            PrintFrames(open) == PrintFrames(open[..n]) + [Open(open[n].head)] + Print(open[n].inside)
  {
  }

  lemma {:induction false} ReadsFrames(s: State, open: seq<Frame<Head, Option<string>>>)
    ensures ReadAll(s, PrintFrames(open)).groupings == s.groupings + Returned(Complete(open))
    decreases |open|
  {
    if open == [] {
      assert s.groupings + [] == s.groupings;
    } else {
      var init, last := open[..|open| - 1], open[|open| - 1];
      FramesUnfold(open);
      ReadsFrames(s, init);
      ReadsFrame(s, PrintFrames(init), last.head, last.inside);
      ReturnedAppend(Complete(init), Memberships(last.inside));
      Associate(s.groupings, Returned(Complete(init)), Returned(Memberships(last.inside)));
    }
  }

  lemma Associate<T>(a: seq<T>, b: seq<T>, c: seq<T>)
    ensures a + b + c == a + (b + c)
  {
  }

  lemma ReadsFrame(s: State, before: seq<GroupingToken>, head: Head, inside: GroupingForest)
    ensures ReadAll(s, before + [Open(head)] + Print(inside)).groupings
         == ReadAll(s, before).groupings + Returned(Memberships(inside))
  {
    ReadAppend(s, before + [Open(head)], Print(inside));
    ReadAppend(s, before, [Open(head)]);
    ReadOne(ReadAll(s, before), Open(head));
    ReadsForest(inside, Read(ReadAll(s, before), Open(head)));
  }

  /** Whatever the body, balanced or not, what is returned is what its forest groups. */
  lemma EveryBodyReadsAsItsForest(ts: seq<GroupingToken>)
    ensures ReadAll(START, ts).groupings == Emitted(TakeAll(ts))
  {
    BalancedReadsAlike(ts);
    TakenPrints(ts);
    ReadsPartial(TakeAll(ts));
  }

  lemma ReadsPartial(p: Partial<Head, Option<string>>)
    ensures ReadAll(START, PrintPartial(p)).groupings == Emitted(p)
  {
    var ms := Memberships(p.top);
    ReadAppend(START, Print(p.top), PrintFrames(p.open));
    ReadsForest(p.top, START);
    ReadsFrames(With(START, Members(p.top), ms), p.open);
    ReturnedAppend(ms, Complete(p.open));
    assert [] + Returned(ms) == Returned(ms);
  }

  // ---------------------------------------------------------------- nothing is credited twice

  /** The aliases a token declares; a grouping's own opening line declares no member. */
  function Declares(t: GroupingToken): seq<string> {
    match t
    case Line(alias) => Declaring(alias)
    case Open(Plain(alias)) => Declaring(alias)
    case Open(Grouping(_)) => []
    case Close => []
  }

  function DeclaredBy(ts: seq<GroupingToken>): multiset<string> {
    if ts == [] then multiset{} else DeclaredBy(ts[..|ts| - 1]) + multiset(Declares(ts[|ts| - 1]))
  }

  function Credited(ms: seq<Membership>): multiset<string> {
    if ms == [] then multiset{} else Credited(ms[..|ms| - 1]) + multiset(ms[|ms| - 1].members)
  }

  lemma {:induction false} DeclaredAppend(a: seq<GroupingToken>, b: seq<GroupingToken>)
    ensures DeclaredBy(a + b) == DeclaredBy(a) + DeclaredBy(b)
  {
    if b == [] {
      assert a + b == a;
    } else {
      var n := |b| - 1;
      assert (a + b)[..|a + b| - 1] == a + b[..n];
      DeclaredAppend(a, b[..n]);
    }
  }

  lemma DeclaredOne(t: GroupingToken)
    ensures DeclaredBy([t]) == multiset(Declares(t))
  {
    assert [t][..0] == [];
    assert DeclaredBy([t][..0]) == multiset{};
  }

  lemma {:induction false} CreditedAppend(a: seq<Membership>, b: seq<Membership>)
    ensures Credited(a + b) == Credited(a) + Credited(b)
  {
    if b == [] {
      assert a + b == a;
    } else {
      var n := |b| - 1;
      assert (a + b)[..|a + b| - 1] == a + b[..n];
      CreditedAppend(a, b[..n]);
    }
  }

  lemma CreditedOne(m: Membership)
    ensures Credited([m]) == multiset(m.members)
  {
    assert [m][..0] == [];
    assert Credited([m][..0]) == multiset{};
  }

  /** Each declaration of a forest is a member of one grouping, or of none, never of two. */
  lemma {:induction false} NothingIsCreditedTwice(f: GroupingForest)
    ensures DeclaredBy(Print(f)) == multiset(Members(f)) + Credited(Memberships(f))
    decreases f, 1
  {
    match f
    case Nil =>
    case Cons(t, rest) =>
      DeclaredAppend(PrintTree(t), Print(rest));
      NothingInTreeIsCreditedTwice(t);
      NothingIsCreditedTwice(rest);
      CreditedAppend(MembershipsTree(t), Memberships(rest));
      assert multiset(Members(f)) == multiset(MembersTree(t)) + multiset(Members(rest));
  }

  lemma {:induction false} NothingInTreeIsCreditedTwice(t: GroupingTree)
    ensures DeclaredBy(PrintTree(t)) == multiset(MembersTree(t)) + Credited(MembershipsTree(t))
    decreases t, 0
  {
    match t
    case Item(alias) => DeclaredOne(Line(alias));
    case Box(head, inside) =>
      DeclaredAppend([Open(head)] + Print(inside), [Close]);
      DeclaredAppend([Open(head)], Print(inside));
      DeclaredOne(Open(head));
      DeclaredOne(Close);
      NothingIsCreditedTwice(inside);
      match head
      case Plain(alias) =>
        assert multiset(Declaring(alias) + Members(inside)) == multiset(Declaring(alias)) + multiset(Members(inside));
      case Grouping(title) =>
        CreditedAppend(Memberships(inside), [Membership(title, Members(inside))]);
        CreditedOne(Membership(title, Members(inside)));
  }

  /** A returned grouping lists each of its members once, and nothing else. */
  lemma {:induction false} ReturnedMembers(ms: seq<Membership>, i: nat)
    requires i < |ms|
    ensures Returned(ms)[i].title == ms[i].title && NoRepeats(Returned(ms)[i].memberAliases)
    ensures forall a :: a in Returned(ms)[i].memberAliases <==> a in ms[i].members
  {
    if i < |ms| - 1 {
      ReturnedMembers(ms[..|ms| - 1], i);
    } else {
      FirstOccurrencesKeep(ms[i].members);
    }
  }

  lemma {:induction false} FramesCreditOnce(open: seq<Frame<Head, Option<string>>>)
    ensures Credited(Complete(open)) <= DeclaredBy(PrintFrames(open))
  {
    if open != [] {
      var init, last := open[..|open| - 1], open[|open| - 1];
      FramesCreditOnce(init);
      FramesUnfold(open);
      DeclaredAppend(PrintFrames(init) + [Open(last.head)], Print(last.inside));
      DeclaredAppend(PrintFrames(init), [Open(last.head)]);
      NothingIsCreditedTwice(last.inside);
      CreditedAppend(Complete(init), Memberships(last.inside));
    }
  }

  lemma {:induction false} StrayClosingsDeclareNothing(ts: seq<GroupingToken>)
    ensures DeclaredBy(Balanced(ts)) == DeclaredBy(ts)
  {
    if ts != [] {
      var init, b := ts[..|ts| - 1], Balanced(ts);
      StrayClosingsDeclareNothing(init);
      if ts[|ts| - 1].Close? && Depth(init) == 0 {
        assert b == Balanced(init);
      } else {
        assert b[..|b| - 1] == Balanced(init);
      }
    }
  }

  /** Whatever the body, no occurrence of a declaration is credited to two groupings: the members
      credited, counted with repeats, are among the body's declarations. */
  lemma EveryBodyCreditsOnce(ts: seq<GroupingToken>)
    ensures Credited(Finished(TakeAll(ts))) <= DeclaredBy(ts)
  {
    var p := TakeAll(ts);
    TakenPrints(ts);
    StrayClosingsDeclareNothing(ts);
    DeclaredAppend(Print(p.top), PrintFrames(p.open));
    NothingIsCreditedTwice(p.top);
    FramesCreditOnce(p.open);
    CreditedAppend(Memberships(p.top), Complete(p.open));
  }
}
