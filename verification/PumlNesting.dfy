/** Relations a body states by nesting one element inside another. */
module PumlNesting {
  import opened Text
  import opened PumlQuotations
  import opened PumlDeclarations
  import opened PumlBodies
  import opened Blocks

  /** A line as the nesting reader sees it: an opening under an alias (empty when it names nothing), a
      closing, or a line that declares an alias or says nothing. */
  type NestingToken = Token<string, Option<string>>

  function Classify(raw: string): NestingToken {
    var line := Strip(raw);
    if line == [] || line[0] in {'\'', '!', '@'} || "title" <= line || "sprite" <= line then Line(None)
    else if line == ['}'] then Close
    else match AliasDeclaredOn(line)
      case Some(d) => if d.opensBlock then Open(d.alias) else Line(Some(d.alias))
      case None => if EndsWith(line, '{') then Open("") else Line(None)
  }

  lemma {:induction false} AliasIsNamed(w: string, i: nat)
    ensures AliasFrom(w, i).Some? ==> AliasFrom(w, i).value != ""
    decreases |w| - i
  {
    if i < |w| && AliasAt(w, i).None? {
      AliasIsNamed(w, i + 1);
    }
  }

  /** The empty alias marks exactly the scopes that name nothing: no line declares it. */
  lemma DeclaredAliasIsNamed(line: string)
    ensures AliasDeclaredOn(line).Some? ==> AliasDeclaredOn(line).value.alias != ""
  {
    AliasIsNamed(Unquoted(Strip(line)), 0);
  }

  /** A declaration and the scopes enclosing it, outermost first. */
  datatype Nested = Nested(enclosing: seq<string>, alias: string)

  datatype State = State(stack: seq<string>, found: seq<Nested>)

  function Read(s: State, t: NestingToken): State {
    match t
    case Line(None) => s
    case Line(Some(a)) => s.(found := s.found + [Nested(s.stack, a)])
    case Close => if s.stack == [] then s else s.(stack := s.stack[..|s.stack| - 1])
    case Open(a) => State(s.stack + [a], if a == "" then s.found else s.found + [Nested(s.stack, a)])
  }

  function ReadAll(s: State, ts: seq<NestingToken>): State
    decreases |ts|
  {
    if ts == [] then s else Read(ReadAll(s, ts[..|ts| - 1]), ts[|ts| - 1])
  }

  const START := State([], [])

  function Tokens(lines: seq<string>): seq<NestingToken> {
    seq(|lines|, i requires 0 <= i < |lines| => Classify(lines[i]))
  }

  function Found(content: string): seq<Nested> { ReadAll(START, Tokens(SplitLines(content))).found }

  /** One line of the body, over the scopes open and the declarations found before it. */
  method NestedDeclarationsOn(raw: string, stack: seq<string>, found: seq<Nested>)
    returns (stack': seq<string>, found': seq<Nested>)
    ensures State(stack', found') == Read(State(stack, found), Classify(raw))
  {
    stack', found' := stack, found;
    var line := Strip(raw);
    if line == [] || line[0] in {'\'', '!', '@'} || "title" <= line || "sprite" <= line {
      return;
    }
    if line == ['}'] {
      if stack != [] {
        stack' := stack[..|stack| - 1];
      }
      return;
    }
    var declaration := AliasDeclaredOn(line);
    DeclaredAliasIsNamed(line);
    if declaration.Some? && declaration.value.opensBlock {
      found' := found + [Nested(stack, declaration.value.alias)];
      stack' := stack + [declaration.value.alias];
      return;
    }
    if declaration.None? && EndsWith(line, '{') {
      stack' := stack + [""];
      return;
    }
    if declaration.Some? {
      found' := found + [Nested(stack, declaration.value.alias)];
    }
  }

  method NestedDeclarations(content: string) returns (found: seq<Nested>)
    ensures found == Found(content)
    ensures found == Preorder(ForestOf(Tokens(SplitLines(content))), [])
  {
    var lines := SplitLines(content);
    ghost var ts := Tokens(lines);
    var stack: seq<string> := [];
    found := [];
    for n := 0 to |lines|
      invariant State(stack, found) == ReadAll(START, ts[..n])
    {
      assert ts[..n + 1][..n] == ts[..n];
      stack, found := NestedDeclarationsOn(lines[n], stack, found);
    }
    assert ts[..|lines|] == ts;
    EveryBodyReadsAsItsForest(ts);
  }

  lemma {:induction false} ReadAppend(s: State, a: seq<NestingToken>, b: seq<NestingToken>)
    ensures ReadAll(s, a + b) == ReadAll(ReadAll(s, a), b)
    decreases |b|
  {
    if b == [] {
      assert a + b == a;
    } else {
      var n := |b| - 1;
      assert (a + b)[..|a + b| - 1] == a + b[..n];
      ReadAppend(s, a, b[..n]);
    }
  }

  lemma ReadOne(s: State, t: NestingToken)
    ensures ReadAll(s, [t]) == Read(s, t)
  {
    assert [t][..0] == [];
    assert ReadAll(s, [t][..0]) == s;
  }

  // ---------------------------------------------------------------- every body reads as its forest

  type NestingTree = Tree<string, Option<string>>
  type NestingForest = Forest<string, Option<string>>

  /** Each declaration of the forest in drawn order, with its enclosing path. */
  function PreorderTree(t: NestingTree, path: seq<string>): seq<Nested> {
    match t
    case Box(a, inside) => (if a == "" then [] else [Nested(path, a)]) + Preorder(inside, path + [a])
    case Item(Some(a)) => [Nested(path, a)]
    case Item(None) => []
  }

  function Preorder(f: NestingForest, path: seq<string>): seq<Nested> {
    match f case Nil => [] case Cons(t, rest) => PreorderTree(t, path) + Preorder(rest, path)
  }

  /** Reading a printed forest finds its preorder and leaves the scopes as they were. */
  lemma {:induction false} ReadsForest(f: NestingForest, s: State)
    ensures ReadAll(s, Print(f)) == s.(found := s.found + Preorder(f, s.stack))
    decreases f, 2
  {
    match f
    case Nil => assert s.found + [] == s.found;
    case Cons(t, rest) =>
      ReadAppend(s, PrintTree(t), Print(rest));
      ReadsTree(t, s);
      var s1 := ReadAll(s, PrintTree(t));
      ReadsForest(rest, s1);
      assert s.found + PreorderTree(t, s.stack) + Preorder(rest, s.stack) == s.found + Preorder(f, s.stack);
  }

  lemma {:induction false} ReadsTree(t: NestingTree, s: State)
    ensures ReadAll(s, PrintTree(t)) == s.(found := s.found + PreorderTree(t, s.stack))
    decreases t, 1
  {
    match t
    case Item(text) =>
      ReadOne(s, Line(text));
      assert s.found + [] == s.found;
    case Box(_, _) => ReadsBox(t, s);
  }

  lemma {:induction false} ReadsBox(t: NestingTree, s: State)
    requires t.Box?
    ensures ReadAll(s, PrintTree(t)) == s.(found := s.found + PreorderTree(t, s.stack))
    decreases t, 0
  {
    var a, inside := t.head, t.inside;
    var within := Read(s, Open(a));
    ReadAppend(s, [Open(a)] + Print(inside), [Close]);
    ReadAppend(s, [Open(a)], Print(inside));
    ReadOne(s, Open(a));
    ReadsForest(inside, within);
    var inner := ReadAll(within, Print(inside));
    ReadOne(inner, Close);
    assert (s.stack + [a])[..|s.stack|] == s.stack;
    var head := if a == "" then [] else [Nested(s.stack, a)];
    assert s.found + head + Preorder(inside, s.stack + [a]) == s.found + (head + Preorder(inside, s.stack + [a]));
    assert within.found == s.found + head;
  }

  lemma {:induction false} BalancedReadsAlike(ts: seq<NestingToken>)
    ensures ReadAll(START, Balanced(ts)) == ReadAll(START, ts) && |ReadAll(START, ts).stack| == Depth(ts)
  {
    if ts != [] {
      var init, b := ts[..|ts| - 1], Balanced(ts);
      BalancedReadsAlike(init);
      if ts[|ts| - 1].Close? && Depth(init) == 0 {
        assert b == Balanced(init);
      } else {
        assert b[..|b| - 1] == Balanced(init);
      }
    }
  }

  lemma {:induction false} ClosingFindsNothing(s: State, n: nat)
    ensures ReadAll(s, Closes(n)).found == s.found
  {
    if n > 0 {
      assert Closes<string, Option<string>>(n)[..n - 1] == Closes(n - 1);
      ClosingFindsNothing(s, n - 1);
    }
  }

  /** Whatever the body, balanced or not, what is found is the preorder of the forest it forms. */
  lemma EveryBodyReadsAsItsForest(ts: seq<NestingToken>)
    ensures ReadAll(START, ts).found == Preorder(ForestOf(ts), [])
  {
    var f := ForestOf(ts);
    EveryBodyIsAForest(ts);
    BalancedReadsAlike(ts);
    ReadAppend(START, Balanced(ts), Closes(Depth(ts)));
    ClosingFindsNothing(ReadAll(START, ts), Depth(ts));
    ReadsForest(f, START);
    assert [] + Preorder(f, []) == Preorder(f, []);
  }

  // ---------------------------------------------------------------- relations by nesting

  datatype Relation = Relation(source: string, target: string)

  function Aliased(enclosing: seq<string>): seq<string> {
    if enclosing == [] then []
    else Aliased(enclosing[..|enclosing| - 1]) + if enclosing[|enclosing| - 1] == "" then [] else [enclosing[|enclosing| - 1]]
  }

  function ToEach(sources: seq<string>, target: string): seq<Relation> {
    seq(|sources|, i requires 0 <= i < |sources| => Relation(sources[i], target))
  }

  /** The relation to the immediate parent, when that carries an alias. */
  function Direct(d: Nested): seq<Relation> {
    if d.enclosing != [] && d.enclosing[|d.enclosing| - 1] != "" then [Relation(d.enclosing[|d.enclosing| - 1], d.alias)] else []
  }

  function AncestorsAboveTheParent(enclosing: seq<string>): seq<string> {
    var aliased := Aliased(enclosing);
    if enclosing != [] && enclosing[|enclosing| - 1] != "" && aliased != [] then aliased[..|aliased| - 1] else aliased
  }

  function Indirect(d: Nested): seq<Relation> { ToEach(AncestorsAboveTheParent(d.enclosing), d.alias) }

  function ContainmentRelations(found: seq<Nested>): seq<Relation> {
    if found == [] then [] else Direct(found[0]) + ContainmentRelations(found[1..])
  }

  function IndirectNestingRelations(found: seq<Nested>): seq<Relation> {
    if found == [] then [] else Indirect(found[0]) + IndirectNestingRelations(found[1..])
  }

  /** For one declaration, the two readings together name every aliased ancestor once, in order. */
  lemma TogetherEveryAncestor(d: Nested)
    ensures Indirect(d) + Direct(d) == ToEach(Aliased(d.enclosing), d.alias)
  {
    if d.enclosing != [] && d.enclosing[|d.enclosing| - 1] != "" {
      var aliased := Aliased(d.enclosing);
      assert aliased[|aliased| - 1] == d.enclosing[|d.enclosing| - 1];
    }
  }

  // What a forest says contains what: each box every declaration at any depth inside it, anonymous
  // scopes being transparent.

  function ContainedTree(t: NestingTree, ancestors: seq<string>): seq<Relation> {
    match t
    case Box(a, inside) =>
      if a == "" then Contained(inside, ancestors)
      else ToEach(ancestors, a) + Contained(inside, ancestors + [a])
    case Item(Some(a)) => ToEach(ancestors, a)
    case Item(None) => []
  }

  function Contained(f: NestingForest, ancestors: seq<string>): seq<Relation> {
    match f case Nil => [] case Cons(t, rest) => ContainedTree(t, ancestors) + Contained(rest, ancestors)
  }

  function AllAncestors(found: seq<Nested>): seq<Relation> {
    if found == [] then [] else ToEach(Aliased(found[0].enclosing), found[0].alias) + AllAncestors(found[1..])
  }

  lemma {:induction false} AllAncestorsAppend(a: seq<Nested>, b: seq<Nested>)
    ensures AllAncestors(a + b) == AllAncestors(a) + AllAncestors(b)
  {
    if a == [] {
      assert a + b == b;
    } else {
      assert (a + b)[1..] == a[1..] + b;
      AllAncestorsAppend(a[1..], b);
    }
  }

  lemma {:induction false} PreorderContains(f: NestingForest, path: seq<string>)
    ensures AllAncestors(Preorder(f, path)) == Contained(f, Aliased(path))
  {
    match f
    case Nil =>
    case Cons(t, rest) =>
      AllAncestorsAppend(PreorderTree(t, path), Preorder(rest, path));
      PreorderTreeContains(t, path);
      PreorderContains(rest, path);
  }

  lemma {:induction false} PreorderTreeContains(t: NestingTree, path: seq<string>)
    ensures AllAncestors(PreorderTree(t, path)) == ContainedTree(t, Aliased(path))
  {
    match t
    case Item(None) =>
    case Item(Some(a)) => OneDeclaration(Nested(path, a));
    case Box(a, inside) =>
      PreorderContains(inside, path + [a]);
      assert (path + [a])[..|path|] == path;
      if a == "" {
        assert [] + Preorder(inside, path + [a]) == Preorder(inside, path + [a]);
        assert Aliased(path) + [] == Aliased(path);
      } else {
        OneDeclaration(Nested(path, a));
        AllAncestorsAppend([Nested(path, a)], Preorder(inside, path + [a]));
      }
  }

  lemma OneDeclaration(d: Nested)
    ensures AllAncestors([d]) == ToEach(Aliased(d.enclosing), d.alias)
  {
    assert [d][1..] == [];
    assert AllAncestors([d]) == ToEach(Aliased(d.enclosing), d.alias) + [];
  }

  lemma {:induction false} BothReadings(found: seq<Nested>)
    ensures multiset(ContainmentRelations(found)) + multiset(IndirectNestingRelations(found)) == multiset(AllAncestors(found))
  {
    if found != [] {
      TogetherEveryAncestor(found[0]);
      BothReadings(found[1..]);
      var d := found[0];
      assert multiset(Indirect(d) + Direct(d)) == multiset(Indirect(d)) + multiset(Direct(d));
    }
  }

  /** Over any body, the direct and the indirect relations state every containment the body's forest
      draws, each exactly once. */
  lemma NestingIsStatedExactlyOnce(content: string)
    ensures multiset(ContainmentRelations(Found(content))) + multiset(IndirectNestingRelations(Found(content)))
         == multiset(Contained(ForestOf(Tokens(SplitLines(content))), []))
  {
    var ts := Tokens(SplitLines(content));
    EveryBodyReadsAsItsForest(ts);
    BothReadings(Found(content));
    PreorderContains(ForestOf(ts), []);
  }

  // ---------------------------------------------------------------- the relations to the immediate parent

  /** The pair of a scope and what stands in it, if both have a name. */
  function Pair(parent: string, alias: string): seq<Relation> {
    if parent == "" || alias == "" then [] else [Relation(parent, alias)]
  }

  /** What each box of the forest immediately contains, an anonymous box standing between. */
  function ImmediateTree(t: NestingTree, parent: string): seq<Relation> {
    match t
    case Box(a, inside) => Pair(parent, a) + Immediate(inside, a)
    case Item(Some(a)) => Pair(parent, a)
    case Item(None) => []
  }

  function Immediate(f: NestingForest, parent: string): seq<Relation> {
    match f case Nil => [] case Cons(t, rest) => ImmediateTree(t, parent) + Immediate(rest, parent)
  }

  /** No line of the forest declares the empty alias. */
  predicate NamesLines(f: NestingForest) {
    match f case Nil => true case Cons(t, rest) => NamesTree(t) && NamesLines(rest)
  }

  predicate NamesTree(t: NestingTree) {
    match t case Box(_, inside) => NamesLines(inside) case Item(text) => text != Some("")
  }

  function Parent(path: seq<string>): string { if path == [] then "" else path[|path| - 1] }

  lemma {:induction false} ContainmentAppend(a: seq<Nested>, b: seq<Nested>)
    ensures ContainmentRelations(a + b) == ContainmentRelations(a) + ContainmentRelations(b)
  {
    if a == [] {
      assert a + b == b;
    } else {
      assert (a + b)[1..] == a[1..] + b;
      ContainmentAppend(a[1..], b);
    }
  }

  lemma OneContained(path: seq<string>, alias: string)
    requires alias != ""
    ensures ContainmentRelations([Nested(path, alias)]) == Pair(Parent(path), alias)
  {
    var d := Nested(path, alias);
    assert [d][1..] == [];
    assert ContainmentRelations([d]) == Direct(d) + [];
  }

  lemma {:induction false} PreorderIsImmediate(f: NestingForest, path: seq<string>)
    requires NamesLines(f)
    ensures ContainmentRelations(Preorder(f, path)) == Immediate(f, Parent(path))
  {
    match f
    case Nil =>
    case Cons(t, rest) =>
      ContainmentAppend(PreorderTree(t, path), Preorder(rest, path));
      PreorderTreeIsImmediate(t, path);
      PreorderIsImmediate(rest, path);
  }

  lemma {:induction false} PreorderTreeIsImmediate(t: NestingTree, path: seq<string>)
    requires NamesTree(t)
    ensures ContainmentRelations(PreorderTree(t, path)) == ImmediateTree(t, Parent(path))
  {
    match t
    case Item(None) =>
    case Item(Some(a)) => OneContained(path, a);
    case Box(a, inside) =>
      PreorderIsImmediate(inside, path + [a]);
      BoxIsImmediate(a, path, Preorder(inside, path + [a]));
  }

  lemma BoxIsImmediate(a: string, path: seq<string>, inner: seq<Nested>)
    ensures ContainmentRelations((if a == "" then [] else [Nested(path, a)]) + inner) == Pair(Parent(path), a) + ContainmentRelations(inner)
  {
    if a == "" {
      assert [] + inner == inner;
      assert [] + ContainmentRelations(inner) == ContainmentRelations(inner);
    } else {
      ContainmentAppend([Nested(path, a)], inner);
      OneContained(path, a);
    }
  }

  predicate NamesTokens(ts: seq<NestingToken>) { forall i | 0 <= i < |ts| :: ts[i] != Line(Some("")) }

  lemma NamesJoin(a: seq<NestingToken>, b: seq<NestingToken>)
    requires NamesTokens(a + b)
    ensures NamesTokens(a) && NamesTokens(b)
  {
    assert forall i | 0 <= i < |a| :: a[i] == (a + b)[i];
    assert forall i | 0 <= i < |b| :: b[i] == (a + b)[|a| + i];
  }

  lemma {:induction false} PrintNames(f: NestingForest)
    requires NamesTokens(Print(f))
    ensures NamesLines(f)
    decreases f, 1
  {
    match f
    case Nil =>
    case Cons(t, rest) =>
      NamesJoin(PrintTree(t), Print(rest));
      PrintTreeNames(t);
      PrintNames(rest);
  }

  lemma {:induction false} PrintTreeNames(t: NestingTree)
    requires NamesTokens(PrintTree(t))
    ensures NamesTree(t)
    decreases t, 0
  {
    match t
    case Item(text) => assert PrintTree(t)[0] == Line(text);
    case Box(a, inside) =>
      NamesJoin([Open(a)] + Print(inside), [Close]);
      NamesJoin([Open(a)], Print(inside));
      PrintNames(inside);
  }

  lemma {:induction false} BalancedNames(ts: seq<NestingToken>)
    requires NamesTokens(ts)
    ensures NamesTokens(Balanced(ts))
  {
    if ts != [] {
      BalancedNames(ts[..|ts| - 1]);
    }
  }

  lemma ClassifyNames(raw: string)
    ensures Classify(raw) != Line(Some(""))
  {
    DeclaredAliasIsNamed(Strip(raw));
  }

  lemma ForestNames(lines: seq<string>)
    ensures NamesLines(ForestOf(Tokens(lines)))
  {
    var ts := Tokens(lines);
    forall i | 0 <= i < |ts| ensures ts[i] != Line(Some("")) {
      ClassifyNames(lines[i]);
    }
    BalancedNames(ts);
    EveryBodyIsAForest(ts);
    PrintNames(ForestOf(ts));
  }

  /** Over any body the containment relations are the pairs of a box and what stands immediately in it,
      both having an alias; so the indirect ones are the rest. */
  lemma ContainmentIsImmediate(content: string)
    ensures ContainmentRelations(Found(content)) == Immediate(ForestOf(Tokens(SplitLines(content))), "")
  {
    var ts := Tokens(SplitLines(content));
    EveryBodyReadsAsItsForest(ts);
    ForestNames(SplitLines(content));
    PreorderIsImmediate(ForestOf(ts), []);
  }
}
