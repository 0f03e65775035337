/** Rewriting a document's relative links after a move, lexically. */
module DocLinks {
  import opened Text

  // ---------------------------------------------------------------- paths

  /** A component a path may hold: pathlib drops the empty ones and the dots. */
  predicate IsComponent(c: string) { c != "" && c != "." && '/' !in c }

  predicate AreComponents(cs: seq<string>) { forall i | 0 <= i < |cs| :: IsComponent(cs[i]) }

  datatype Path = Path(absolute: bool, parts: seq<string>) {
    predicate Valid() { AreComponents(parts) }
  }

  predicate Slashless(c: string) { '/' !in c }

  function SplitOn(s: string): (r: seq<string>)
    ensures forall i | 0 <= i < |r| :: Slashless(r[i])
    decreases |s|
  {
    var (head, rest) := Cut(s, '/');
    if rest.None? then [head] else [head] + SplitOn(rest.value)
  }

  function Components(ps: seq<string>): (r: seq<string>)
    requires forall i | 0 <= i < |ps| :: '/' !in ps[i]
    ensures AreComponents(r)
  {
    if ps == [] then [] else (if IsComponent(ps[0]) then [ps[0]] else []) + Components(ps[1..])
  }

  function ParsePath(s: string): (p: Path)
    ensures p.Valid()
  {
    Path(s != [] && s[0] == '/', Components(SplitOn(s)))
  }

  /** `base / other`. */
  function Joined(base: Path, other: Path): (p: Path)
    ensures base.Valid() && other.Valid() ==> p.Valid()
  {
    if other.absolute then other else Path(base.absolute, base.parts + other.parts)
  }

  /** The climbing component. */
  const UP := ".."

  function Step(at: seq<string>, c: string): seq<string> {
    if c != UP then at + [c] else if at == [] then [] else at[..|at| - 1]
  }

  /** Where walking `cs` from `at` ends: `..` climbs, and at the root it stays. */
  function Walk(at: seq<string>, cs: seq<string>): seq<string>
    decreases |cs|
  {
    if cs == [] then at else Walk(Step(at, cs[0]), cs[1..])
  }

  predicate IsPlace(at: seq<string>) { AreComponents(at) && UP !in at }

  /** `p.absolute()`. */
  function Anchored(cwd: Path, p: Path): (all: seq<string>)
    requires cwd.Valid() && p.Valid()
    ensures AreComponents(all)
  {
    if p.absolute then p.parts else cwd.parts + p.parts
  }

  /** The absolute place a path names with `.` and `..` collapsed textually. */
  function Lexical(cwd: Path, p: Path): (at: seq<string>)
    requires cwd.Valid() && p.Valid()
    ensures IsPlace(at)
  {
    WalkIsPlace([], Anchored(cwd, p));
    Walk([], Anchored(cwd, p))
  }

  lemma {:induction false} WalkIsPlace(at: seq<string>, cs: seq<string>)
    requires IsPlace(at) && AreComponents(cs)
    ensures IsPlace(Walk(at, cs))
    decreases |cs|
  {
    if cs != [] {
      assert IsPlace(Step(at, cs[0]));
      WalkIsPlace(Step(at, cs[0]), cs[1..]);
    }
  }

  lemma {:induction false} WalkAppend(at: seq<string>, a: seq<string>, b: seq<string>)
    ensures Walk(at, a + b) == Walk(Walk(at, a), b)
    decreases |a|
  {
    if a == [] {
      assert a + b == b;
    } else {
      assert (a + b)[0] == a[0] && (a + b)[1..] == a[1..] + b;
      WalkAppend(Step(at, a[0]), a[1..], b);
    }
  }

  // ---------------------------------------------------------------- relative routes

  function Common(a: seq<string>, b: seq<string>): (n: nat)
    ensures n <= |a| && n <= |b| && a[..n] == b[..n]
    ensures n < |a| && n < |b| ==> a[n] != b[n]
  {
    if a == [] || b == [] || a[0] != b[0] then 0 else 1 + Common(a[1..], b[1..])
  }

  function Ups(n: nat): seq<string> { seq(n, _ => UP) }

  /** The components of `posixpath.relpath`: climb to the common ancestor, then descend. */
  function Route(dir: seq<string>, target: seq<string>): seq<string> {
    var n := Common(dir, target);
    Ups(|dir| - n) + target[n..]
  }

  lemma {:induction false} Climb(at: seq<string>, n: nat)
    requires n <= |at|
    ensures Walk(at, Ups(n)) == at[..|at| - n]
  {
    if n > 0 {
      assert Ups(n)[1..] == Ups(n - 1);
      Climb(at[..|at| - 1], n - 1);
    }
  }

  lemma {:induction false} Descend(at: seq<string>, cs: seq<string>)
    requires UP !in cs
    ensures Walk(at, cs) == at + cs
    decreases |cs|
  {
    if cs != [] {
      assert cs[0] in cs;
      Descend(at + [cs[0]], cs[1..]);
      assert at + [cs[0]] + cs[1..] == at + cs;
    }
  }

  lemma RouteArrives(dir: seq<string>, target: seq<string>)
    requires UP !in target
    ensures Walk(dir, Route(dir, target)) == target
  {
    var n := Common(dir, target);
    WalkAppend(dir, Ups(|dir| - n), target[n..]);
    Climb(dir, |dir| - n);
    Descend(dir[..n], target[n..]);
    CommonSplits(dir, target);
  }

  lemma CommonSplits(dir: seq<string>, target: seq<string>)
    ensures dir[..Common(dir, target)] + target[Common(dir, target)..] == target
  {
    Rejoined(target, Common(dir, target));
  }

  lemma Rejoined<T>(s: seq<T>, n: nat)
    requires n <= |s|
    ensures s[..n] + s[n..] == s
  {
  }

  /** Steps between two places. */
  function Distance(a: seq<string>, b: seq<string>): nat { |a| + |b| - 2 * Common(a, b) }

  lemma {:induction false} CommonOfExtension(a: seq<string>, c: string, b: seq<string>)
    ensures Common(a, b) <= Common(a + [c], b) <= Common(a, b) + 1
    ensures Common(a + [c], b) == Common(a, b) || Common(a, b) == |a|
  {
    if a != [] && b != [] && a[0] == b[0] {
      assert (a + [c])[1..] == a[1..] + [c];
      CommonOfExtension(a[1..], c, b[1..]);
    }
  }

  /** No route is shorter: every walk from `dir` to `target` takes at least as many components. */
  lemma {:induction false} RouteIsShortest(dir: seq<string>, cs: seq<string>, target: seq<string>)
    requires Walk(dir, cs) == target
    ensures |Route(dir, target)| == Distance(dir, target) <= |cs|
    decreases |cs|
  {
    if cs == [] {
      CommonOfSame(dir);
    } else {
      var next := Step(dir, cs[0]);
      RouteIsShortest(next, cs[1..], target);
      if cs[0] != UP {
        CommonOfExtension(dir, cs[0], target);
      } else if dir != [] {
        assert dir == next + [dir[|dir| - 1]];
        CommonOfExtension(next, dir[|dir| - 1], target);
      }
    }
  }

  lemma {:induction false} CommonOfSame(a: seq<string>)
    ensures Common(a, a) == |a|
  {
    if a != [] {
      CommonOfSame(a[1..]);
    }
  }

  // ---------------------------------------------------------------- routes as text

  function JoinSlash(cs: seq<string>): string
    requires cs != []
  {
    if |cs| == 1 then cs[0] else cs[0] + ['/'] + JoinSlash(cs[1..])
  }

  function RelPath(target: seq<string>, dir: seq<string>): string {
    var route := Route(dir, target);
    if route == [] then "." else JoinSlash(route)
  }

  predicate SlashFree(cs: seq<string>) { forall i | 0 <= i < |cs| :: Slashless(cs[i]) }

  lemma SlashFreeRest(cs: seq<string>)
    requires cs != [] && SlashFree(cs)
    ensures Slashless(cs[0]) && SlashFree(cs[1..]) && [cs[0]] + cs[1..] == cs
  {
  }

  lemma SplitOne(c: string)
    requires Slashless(c)
    ensures SplitOn(c) == [c]
  {
    CutIs(c, '/', None);
  }

  lemma {:induction false} SplitJoin(cs: seq<string>)
    requires cs != [] && SlashFree(cs)
    ensures SplitOn(JoinSlash(cs)) == cs
  {
    SlashFreeRest(cs);
    if |cs| == 1 {
      SplitOne(cs[0]);
    } else {
      SplitCons(cs[0], JoinSlash(cs[1..]));
      SplitJoin(cs[1..]);
    }
  }

  lemma SplitCons(head: string, rest: string)
    requires Slashless(head)
    ensures SplitOn(head + ['/'] + rest) == [head] + SplitOn(rest)
  {
    CutIs(head, '/', Some(rest));
  }

  lemma {:induction false} ComponentsKept(cs: seq<string>)
    requires AreComponents(cs)
    ensures Components(cs) == cs
  {
    if cs != [] {
      ComponentsKept(cs[1..]);
    }
  }

  lemma RouteIsComponents(dir: seq<string>, target: seq<string>)
    requires AreComponents(target)
    ensures AreComponents(Route(dir, target))
  {
    var n := Common(dir, target);
    assert forall i | 0 <= i < |dir| - n :: Route(dir, target)[i] == UP;
  }

  /** Reading the written route back gives the route. */
  lemma RelPathReadsBack(dir: seq<string>, target: seq<string>)
    requires AreComponents(target)
    ensures ParsePath(RelPath(target, dir)) == Path(false, Route(dir, target))
  {
    var route := Route(dir, target);
    RouteIsComponents(dir, target);
    if route == [] {
      CutIs(".", '/', None);
      assert SplitOn(".") == ["."];
    } else {
      SplitJoin(route);
      ComponentsKept(route);
      JoinStart(route);
    }
  }

  lemma JoinStart(cs: seq<string>)
    requires cs != [] && IsComponent(cs[0])
    ensures JoinSlash(cs) != [] && JoinSlash(cs)[0] == cs[0][0] != '/'
  {
    assert cs[0][0] in cs[0];
  }

  // ---------------------------------------------------------------- the rewrite

  predicate ResolvesTo(cwd: Path, dir: Path, link: string, target: Path)
    requires cwd.Valid() && dir.Valid() && target.Valid()
  {
    Lexical(cwd, Joined(dir, ParsePath(link))) == Lexical(cwd, target)
  }

  function RewriteDocLink(cwd: Path, link: string, docOldDir: Path, docNewDir: Path, targetOld: Path, targetNew: Path): string
    requires cwd.Valid() && docOldDir.Valid() && docNewDir.Valid() && targetOld.Valid() && targetNew.Valid()
  {
    if !ResolvesTo(cwd, docOldDir, link, targetOld) then link
    else RelPath(Lexical(cwd, targetNew), Lexical(cwd, docNewDir))
  }

  lemma LexicalJoin(cwd: Path, dir: Path, parts: seq<string>)
    requires cwd.Valid() && dir.Valid() && AreComponents(parts)
    ensures Lexical(cwd, Joined(dir, Path(false, parts))) == Walk(Lexical(cwd, dir), parts)
  {
    AnchoredJoin(cwd, dir, parts);
    WalkAppend([], Anchored(cwd, dir), parts);
  }

  lemma AnchoredJoin(cwd: Path, dir: Path, parts: seq<string>)
    requires cwd.Valid() && dir.Valid() && AreComponents(parts)
    ensures Anchored(cwd, Joined(dir, Path(false, parts))) == Anchored(cwd, dir) + parts
  {
    assert cwd.parts + (dir.parts + parts) == cwd.parts + dir.parts + parts;
  }

  /** A written route resolves, from the directory it was computed for, to exactly its target. */
  lemma RelPathResolves(cwd: Path, dir: Path, target: Path)
    requires cwd.Valid() && dir.Valid() && target.Valid()
    ensures ResolvesTo(cwd, dir, RelPath(Lexical(cwd, target), Lexical(cwd, dir)), target)
  {
    var d, t := Lexical(cwd, dir), Lexical(cwd, target);
    RelPathReadsBack(d, t);
    RouteIsComponents(d, t);
    LexicalJoin(cwd, dir, Route(d, t));
    RouteArrives(d, t);
  }

  /** A link to the moved target resolves to the new target afterwards; any other link is untouched. */
  lemma RewriteFollowsTheMove(cwd: Path, link: string, docOldDir: Path, docNewDir: Path, targetOld: Path, targetNew: Path)
    requires cwd.Valid() && docOldDir.Valid() && docNewDir.Valid() && targetOld.Valid() && targetNew.Valid()
    ensures var r := RewriteDocLink(cwd, link, docOldDir, docNewDir, targetOld, targetNew);
            if ResolvesTo(cwd, docOldDir, link, targetOld) then ResolvesTo(cwd, docNewDir, r, targetNew) else r == link
  {
    RelPathResolves(cwd, docNewDir, targetNew);
  }

  /** Moving there and back gives a link that again resolves to the original target, and gives the
      very same link when it was a route to begin with. */
  lemma ThereAndBack(cwd: Path, link: string, docOldDir: Path, docNewDir: Path, targetOld: Path, targetNew: Path)
    requires cwd.Valid() && docOldDir.Valid() && docNewDir.Valid() && targetOld.Valid() && targetNew.Valid()
    requires ResolvesTo(cwd, docOldDir, link, targetOld)
    ensures var there := RewriteDocLink(cwd, link, docOldDir, docNewDir, targetOld, targetNew);
            var back := RewriteDocLink(cwd, there, docNewDir, docOldDir, targetNew, targetOld);
            && ResolvesTo(cwd, docOldDir, back, targetOld)
            && back == RelPath(Lexical(cwd, targetOld), Lexical(cwd, docOldDir))
  {
    RelPathResolves(cwd, docNewDir, targetNew);
    RelPathResolves(cwd, docOldDir, targetOld);
  }

  /** No relative link to the new target has fewer components than the rewritten one. */
  lemma RewriteIsShortest(cwd: Path, link: string, docOldDir: Path, docNewDir: Path, targetOld: Path, targetNew: Path, other: string)
    requires cwd.Valid() && docOldDir.Valid() && docNewDir.Valid() && targetOld.Valid() && targetNew.Valid()
    requires ResolvesTo(cwd, docOldDir, link, targetOld)
    requires !ParsePath(other).absolute && ResolvesTo(cwd, docNewDir, other, targetNew)
    ensures var r := RewriteDocLink(cwd, link, docOldDir, docNewDir, targetOld, targetNew);
            |ParsePath(r).parts| <= |ParsePath(other).parts|
  {
    var d, t := Lexical(cwd, docNewDir), Lexical(cwd, targetNew);
    var parts := ParsePath(other).parts;
    RelPathReadsBack(d, t);
    LexicalJoin(cwd, docNewDir, parts);
    assert ParsePath(other) == Path(false, parts);
    RouteIsShortest(d, parts, t);
  }
}
