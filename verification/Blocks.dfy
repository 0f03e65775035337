/** Bodies of lines in braces: every sequence of opening, plain and closing lines as a forest. */
module Blocks {

  datatype Token<O, L> = Open(head: O) | Line(text: L) | Close

  datatype Tree<O, L> = Box(head: O, inside: Forest<O, L>) | Item(text: L)
  datatype Forest<O, L> = Nil | Cons(first: Tree<O, L>, rest: Forest<O, L>)

  function PrintTree<O, L>(t: Tree<O, L>): seq<Token<O, L>> {
    match t
    case Box(head, inside) => [Open(head)] + Print(inside) + [Close]
    case Item(text) => [Line(text)]
  }

  function Print<O, L>(f: Forest<O, L>): seq<Token<O, L>> {
    match f case Nil => [] case Cons(t, rest) => PrintTree(t) + Print(rest)
  }

  /** How many scopes are open once the tokens are read; a closing that closes nothing is ignored. */
  function Depth<O, L>(ts: seq<Token<O, L>>): nat {
    if ts == [] then 0
    else
      var d := Depth(ts[..|ts| - 1]);
      match ts[|ts| - 1]
      case Open(_) => d + 1
      case Line(_) => d
      case Close => if d == 0 then 0 else d - 1
  }

  /** The tokens without the closings that close nothing. */
  function Balanced<O, L>(ts: seq<Token<O, L>>): seq<Token<O, L>> {
    if ts == [] then []
    else
      var init := ts[..|ts| - 1];
      Balanced(init) + if ts[|ts| - 1].Close? && Depth(init) == 0 then [] else [ts[|ts| - 1]]
  }

  /** A scope still open: how it was opened and what stands in it so far. */
  datatype Frame<O, L> = Frame(head: O, inside: Forest<O, L>)

  /** A body read so far: what stands at the top, and the scopes still open, outermost first. */
  datatype Partial<O, L> = Partial(top: Forest<O, L>, open: seq<Frame<O, L>>)

  function Append<O, L>(f: Forest<O, L>, t: Tree<O, L>): Forest<O, L> {
    match f case Nil => Cons(t, Nil) case Cons(u, rest) => Cons(u, Append(rest, t))
  }

  function Place<O, L>(p: Partial<O, L>, t: Tree<O, L>): (r: Partial<O, L>)
    ensures |r.open| == |p.open|
  {
    if p.open == [] then p.(top := Append(p.top, t))
    else
      var n := |p.open| - 1;
      p.(open := p.open[..n] + [Frame(p.open[n].head, Append(p.open[n].inside, t))])
  }

  function CloseLast<O, L>(p: Partial<O, L>): (r: Partial<O, L>)
    requires p.open != []
    ensures |r.open| == |p.open| - 1
  {
    var n := |p.open| - 1;
    Place(p.(open := p.open[..n]), Box(p.open[n].head, p.open[n].inside))
  }

  function Take<O, L>(p: Partial<O, L>, t: Token<O, L>): Partial<O, L> {
    match t
    case Line(text) => Place(p, Item(text))
    case Open(head) => p.(open := p.open + [Frame(head, Nil)])
    case Close => if p.open == [] then p else CloseLast(p)
  }

  function TakeFrom<O, L>(p: Partial<O, L>, ts: seq<Token<O, L>>): Partial<O, L>
    decreases |ts|
  {
    if ts == [] then p else Take(TakeFrom(p, ts[..|ts| - 1]), ts[|ts| - 1])
  }

  function TakeAll<O, L>(ts: seq<Token<O, L>>): Partial<O, L> { TakeFrom(Partial(Nil, []), ts) }

  function CloseAll<O, L>(p: Partial<O, L>): Forest<O, L>
    decreases |p.open|
  {
    if p.open == [] then p.top else CloseAll(CloseLast(p))
  }

  /** The forest a body forms: stray closings ignored, open scopes closed at the end. */
  function ForestOf<O, L>(ts: seq<Token<O, L>>): Forest<O, L> { CloseAll(TakeAll(ts)) }

  function PrintFrames<O, L>(fs: seq<Frame<O, L>>): seq<Token<O, L>> {
    if fs == [] then []
    else PrintFrames(fs[..|fs| - 1]) + [Open(fs[|fs| - 1].head)] + Print(fs[|fs| - 1].inside)
  }

  function PrintPartial<O, L>(p: Partial<O, L>): seq<Token<O, L>> { Print(p.top) + PrintFrames(p.open) }

  function Closes<O, L>(n: nat): seq<Token<O, L>> { seq(n, _ => Close) }

  lemma {:induction false} PrintAppend<O, L>(f: Forest<O, L>, t: Tree<O, L>)
    ensures Print(Append(f, t)) == Print(f) + PrintTree(t)
  {
    match f
    case Nil => assert PrintTree(t) + [] == PrintTree(t);
    case Cons(u, rest) =>
      PrintAppend(rest, t);
      assert PrintTree(u) + (Print(rest) + PrintTree(t)) == PrintTree(u) + Print(rest) + PrintTree(t);
  }

  lemma PrintPlace<O, L>(p: Partial<O, L>, t: Tree<O, L>)
    ensures PrintPartial(Place(p, t)) == PrintPartial(p) + PrintTree(t)
  {
    if p.open == [] {
      PrintAppend(p.top, t);
    } else {
      var n := |p.open| - 1;
      PrintAppend(p.open[n].inside, t);
      assert Place(p, t).open[..n] == p.open[..n];
    }
  }

  lemma Regroup<T>(a: seq<T>, b: seq<T>, c: seq<T>, d: seq<T>, e: seq<T>)
    ensures a + b + (c + d + e) == a + (b + c + d) + e
  {
  }

  lemma PrintClose<O, L>(p: Partial<O, L>)
    requires p.open != []
    ensures PrintPartial(CloseLast(p)) == PrintPartial(p) + [Close]
  {
    var n := |p.open| - 1;
    var f := p.open[n];
    PrintPlace(p.(open := p.open[..n]), Box(f.head, f.inside));
    Regroup(Print(p.top), PrintFrames(p.open[..n]), [Open(f.head)], Print(f.inside), [Close]);
  }

  lemma PrintOpen<O, L>(p: Partial<O, L>, head: O)
    ensures PrintPartial(Take(p, Open(head))) == PrintPartial(p) + [Open(head)]
  {
    var q := p.open + [Frame(head, Nil)];
    assert q[..|q| - 1] == p.open;
    assert PrintFrames(q) == PrintFrames(p.open) + [Open(head)] + [];
  }

  /** What has been read so far, printed, is what was read without its stray closings. */
  lemma {:induction false} TakenPrints<O, L>(ts: seq<Token<O, L>>)
    ensures PrintPartial(TakeAll(ts)) == Balanced(ts) && |TakeAll(ts).open| == Depth(ts)
  {
    if ts != [] {
      var init := ts[..|ts| - 1];
      var p := TakeAll(init);
      TakenPrints(init);
      match ts[|ts| - 1]
      case Line(text) => PrintPlace(p, Item(text));
      case Open(head) => PrintOpen(p, head);
      case Close =>
        if p.open == [] {
          assert Balanced(init) + [] == Balanced(init);
        } else {
          PrintClose(p);
        }
    }
  }

  lemma {:induction false} PrintCloseAll<O, L>(p: Partial<O, L>)
    ensures Print(CloseAll(p)) == PrintPartial(p) + Closes(|p.open|)
    decreases |p.open|
  {
    if p.open == [] {
      assert PrintPartial(p) + [] == Print(p.top);
    } else {
      PrintClose(p);
      PrintCloseAll(CloseLast(p));
      assert [Close] + Closes<O, L>(|p.open| - 1) == Closes(|p.open|);
      assert PrintPartial(p) + [Close] + Closes(|p.open| - 1) == PrintPartial(p) + ([Close] + Closes(|p.open| - 1));
    }
  }

  /** Every body, balanced or not, spells a forest: its own tokens less the stray closings, with the
      scopes left open closed at the end. */
  lemma EveryBodyIsAForest<O, L>(ts: seq<Token<O, L>>)
    ensures Print(ForestOf(ts)) == Balanced(ts) + Closes(Depth(ts))
  {
    TakenPrints(ts);
    PrintCloseAll(TakeAll(ts));
  }

  function PlaceAll<O, L>(p: Partial<O, L>, f: Forest<O, L>): Partial<O, L>
    decreases f
  {
    match f case Nil => p case Cons(t, rest) => PlaceAll(Place(p, t), rest)
  }

  lemma {:induction false} TakeAppend<O, L>(p: Partial<O, L>, a: seq<Token<O, L>>, b: seq<Token<O, L>>)
    ensures TakeFrom(p, a + b) == TakeFrom(TakeFrom(p, a), b)
    decreases |b|
  {
    if b == [] {
      assert a + b == a;
    } else {
      var n := |b| - 1;
      assert (a + b)[..|a + b| - 1] == a + b[..n];
      TakeAppend(p, a, b[..n]);
    }
  }

  lemma TakeOne<O, L>(p: Partial<O, L>, t: Token<O, L>)
    ensures TakeFrom(p, [t]) == Take(p, t)
  {
    assert [t][..0] == [];
    assert TakeFrom(p, [t][..0]) == p;
  }

  /** Reading a printed forest places it where the reading stands. */
  lemma {:induction false} TakesForest<O, L>(p: Partial<O, L>, f: Forest<O, L>)
    ensures TakeFrom(p, Print(f)) == PlaceAll(p, f)
    decreases f, 1
  {
    match f
    case Nil =>
    case Cons(t, rest) =>
      TakeAppend(p, PrintTree(t), Print(rest));
      TakesTree(p, t);
      TakesForest(Place(p, t), rest);
  }

  lemma {:induction false} TakesTree<O, L>(p: Partial<O, L>, t: Tree<O, L>)
    ensures TakeFrom(p, PrintTree(t)) == Place(p, t)
    decreases t, 0
  {
    match t
    case Item(text) => TakeOne(p, Line(text));
    case Box(head, inside) =>
      var within := Take(p, Open(head));
      TakeAppend(p, [Open(head)] + Print(inside), [Close]);
      TakeAppend(p, [Open(head)], Print(inside));
      TakeOne(p, Open(head));
      TakesForest(within, inside);
      FilledFrame(p, head, Nil, inside);
      JoinNil(inside);
      TakeOne(PlaceAll(within, inside), Close);
      ClosedFrame(p, head, inside);
  }

  function Join<O, L>(f: Forest<O, L>, g: Forest<O, L>): Forest<O, L>
    decreases g
  {
    match g case Nil => f case Cons(t, rest) => Join(Append(f, t), rest)
  }

  lemma {:induction false} JoinTo<O, L>(f: Forest<O, L>, t: Tree<O, L>, g: Forest<O, L>)
    ensures Join(Cons(t, f), g) == Cons(t, Join(f, g))
    decreases g
  {
    match g
    case Nil =>
    case Cons(u, rest) => JoinTo(Append(f, u), t, rest);
  }

  lemma {:induction false} JoinNil<O, L>(g: Forest<O, L>)
    ensures Join(Nil, g) == g
  {
    match g
    case Nil =>
    case Cons(t, rest) =>
      JoinTo(Nil, t, rest);
      JoinNil(rest);
  }

  /** Placing a forest inside an open scope fills that scope and touches nothing else. */
  lemma {:induction false} FilledFrame<O, L>(p: Partial<O, L>, head: O, inside: Forest<O, L>, f: Forest<O, L>)
    ensures PlaceAll(p.(open := p.open + [Frame(head, inside)]), f) == p.(open := p.open + [Frame(head, Join(inside, f))])
    decreases f
  {
    match f
    case Nil =>
    case Cons(t, rest) =>
      var q := p.open + [Frame(head, inside)];
      assert q[..|p.open|] == p.open;
      FilledFrame(p, head, Append(inside, t), rest);
  }

  lemma ClosedFrame<O, L>(p: Partial<O, L>, head: O, inside: Forest<O, L>)
    ensures CloseLast(p.(open := p.open + [Frame(head, inside)])) == Place(p, Box(head, inside))
  {
    var q := p.open + [Frame(head, inside)];
    assert q[..|p.open|] == p.open;
  }

  /** Printing and forming are inverse: distinct forests print distinctly. */
  lemma ForestRoundTrip<O, L>(f: Forest<O, L>)
    ensures ForestOf(Print(f)) == f
  {
    TakesForest(Partial(Nil, []), f);
    TopFilled(Nil, f);
    JoinNil(f);
  }

  lemma {:induction false} TopFilled<O, L>(top: Forest<O, L>, f: Forest<O, L>)
    ensures PlaceAll(Partial(top, []), f) == Partial(Join(top, f), [])
    decreases f
  {
    match f
    case Nil =>
    case Cons(t, rest) => TopFilled(Append(top, t), rest);
  }
}
