/** Reciprocal rank fusion, in exact arithmetic. */
module RankFusion {
  import opened Orders
  import opened Sequences

  datatype Candidate = Candidate(recordType: string, artifactId: string)

  datatype Fused = Fused(candidate: Candidate, score: real)

  const RECORD_TYPE_ORDER := ["entity", "connection", "diagram", "document", "scratchpad", "scratchpad-note"]

  // ---------------------------------------------------------------- first occurrences

  method KeepFirstOccurrences(ranked: seq<Candidate>) returns (kept: seq<Candidate>)
    ensures kept == FirstOccurrences(ranked)
  {
    var seen: set<Candidate> := {};
    kept := [];
    for n := 0 to |ranked|
      invariant kept == FirstOccurrences(ranked[..n])
      invariant forall c :: c in seen <==> c in kept
    {
      assert ranked[..n + 1][..n] == ranked[..n];
      if ranked[n] !in seen {
        seen := seen + {ranked[n]};
        kept := kept + [ranked[n]];
      }
    }
    assert ranked[..|ranked|] == ranked;
  }

  lemma FirstOccurrencesSnoc(l: seq<Candidate>, c: Candidate)
    ensures FirstOccurrences(l + [c]) == if c in l then FirstOccurrences(l) else FirstOccurrences(l) + [c]
  {
    assert (l + [c])[..|l|] == l;
    FirstOccurrencesKeep(l);
  }

  /** Lists alike in first occurrences stay alike when extended. */
  lemma {:induction false} AlikeExtended(a: seq<Candidate>, b: seq<Candidate>, q: seq<Candidate>)
    requires FirstOccurrences(a) == FirstOccurrences(b)
    ensures FirstOccurrences(a + q) == FirstOccurrences(b + q)
  {
    if q == [] {
      assert a + q == a && b + q == b;
    } else {
      var init := q[..|q| - 1];
      AlikeExtended(a, b, init);
      LastOfJoin(a, q);
      LastOfJoin(b, q);
    }
  }

  lemma LastOfJoin<T>(a: seq<T>, q: seq<T>)
    requires q != []
    ensures (a + q)[..|a + q| - 1] == a + q[..|q| - 1] && (a + q)[|a + q| - 1] == q[|q| - 1]
  {
  }

  /** What has been seen may be dropped. */
  lemma {:induction false} SeenMayBeDropped(p: seq<Candidate>, m: seq<Candidate>)
    requires forall i | 0 <= i < |m| :: m[i] in p
    ensures FirstOccurrences(p + m) == FirstOccurrences(p)
  {
    if m == [] {
      assert p + m == p;
    } else {
      var init := m[..|m| - 1];
      SeenMayBeDropped(p, init);
      FirstOccurrencesKeep(p);
      assert (p + m)[..|p + m| - 1] == p + init;
    }
  }

  /** A list may be reduced to its first occurrences wherever it stands. */
  lemma {:induction false} ReduceInside(p: seq<Candidate>, l: seq<Candidate>)
    ensures FirstOccurrences(p + FirstOccurrences(l)) == FirstOccurrences(p + l)
  {
    if l != [] {
      var init := l[..|l| - 1];
      var c := l[|l| - 1];
      ReduceInside(p, init);
      assert p + l == p + init + [c];
      FirstOccurrencesKeep(init);
      if c in init {
        SeenMayBeDropped(p + init, [c]);
      } else {
        AlikeExtended(p + FirstOccurrences(init), p + init, [c]);
        assert p + (FirstOccurrences(init) + [c]) == p + FirstOccurrences(init) + [c];
      }
    }
  }

  lemma FirstOccurrencesIdempotent(l: seq<Candidate>)
    ensures FirstOccurrences(FirstOccurrences(l)) == FirstOccurrences(l)
  {
    ReduceInside([], l);
    assert [] + l == l && [] + FirstOccurrences(l) == FirstOccurrences(l);
  }

  // ---------------------------------------------------------------- ranks and scores

  function IndexIn(l: seq<Candidate>, c: Candidate): (i: nat)
    requires c in l
    ensures i < |l| && l[i] == c && c !in l[..i]
  {
    if l[0] == c then 0 else 1 + IndexIn(l[1..], c)
  }

  /** The rank a list gives a candidate: its place among the list's first occurrences, from 1. */
  function Rank(l: seq<Candidate>, c: Candidate): (r: nat)
    requires c in l
    ensures r >= 1
  {
    FirstOccurrencesKeep(l);
    1 + IndexIn(FirstOccurrences(l), c)
  }

  function Contribution(l: seq<Candidate>, c: Candidate, k: nat): real
    requires k >= 1
  {
    if c in l then 1.0 / ((k + Rank(l, c)) as real) else 0.0
  }

  function Score(lists: seq<seq<Candidate>>, c: Candidate, k: nat): real
    requires k >= 1
  {
    if lists == [] then 0.0
    else Score(lists[..|lists| - 1], c, k) + Contribution(lists[|lists| - 1], c, k)
  }

  function Flatten(lists: seq<seq<Candidate>>): seq<Candidate> {
    if lists == [] then [] else Flatten(lists[..|lists| - 1]) + lists[|lists| - 1]
  }

  // ---------------------------------------------------------------- the order of results

  function KindFrom(t: string, i: nat): nat
    requires i <= |RECORD_TYPE_ORDER|
    decreases |RECORD_TYPE_ORDER| - i
  {
    if i == |RECORD_TYPE_ORDER| || RECORD_TYPE_ORDER[i] == t then i else KindFrom(t, i + 1)
  }

  /** The place of a record type in the declared order; every undeclared type shares the last place. */
  function Kind(t: string): nat { KindFrom(t, 0) }

  predicate Before(a: Fused, b: Fused) {
    || a.score > b.score
    || (a.score == b.score &&
         (|| Kind(a.candidate.recordType) < Kind(b.candidate.recordType)
          || (Kind(a.candidate.recordType) == Kind(b.candidate.recordType)
              && Less(a.candidate.artifactId, b.candidate.artifactId))))
  }

  lemma BeforeIsAsymmetric(a: Fused, b: Fused)
    ensures !(Before(a, b) && Before(b, a))
  {
    LessIsAsymmetric(a.candidate.artifactId, b.candidate.artifactId);
  }

  /** Not coming after is transitive: the order has no gaps. */
  lemma NotAfterIsTransitive(a: Fused, b: Fused, c: Fused)
    requires !Before(b, a) && !Before(c, b)
    ensures !Before(c, a)
  {
    var x, y, z := a.candidate.artifactId, b.candidate.artifactId, c.candidate.artifactId;
    LessIsConnected(x, y);
    LessIsConnected(y, z);
    if Less(z, x) && Less(x, y) { LessIsTransitive(z, x, y); }
    if Less(z, x) && Less(y, z) { LessIsTransitive(y, z, x); }
  }

  predicate Ordered(s: seq<Fused>) { forall i, j | 0 <= i < j < |s| :: !Before(s[j], s[i]) }

  function Insert(s: seq<Fused>, x: Fused): seq<Fused> {
    if s == [] then [x] else if Before(x, s[0]) then [x] + s else [s[0]] + Insert(s[1..], x)
  }

  /** `sorted`: a stable sort. */
  function StableSort(s: seq<Fused>): seq<Fused> {
    if s == [] then [] else Insert(StableSort(s[..|s| - 1]), s[|s| - 1])
  }

  lemma {:induction false} InsertKeeps(s: seq<Fused>, x: Fused)
    requires Ordered(s)
    ensures Ordered(Insert(s, x)) && multiset(Insert(s, x)) == multiset(s) + multiset{x}
  {
    if s != [] {
      var t := s[1..];
      assert s == [s[0]] + t;
      if Before(x, s[0]) {
        forall j | 0 <= j < |s| ensures !Before(s[j], x) {
          BeforeIsAsymmetric(x, s[0]);
          if j > 0 { NotAfterIsTransitive(x, s[0], s[j]); }
        }
      } else {
        InsertKeeps(t, x);
        var r := Insert(t, x);
        forall j | 0 <= j < |r| ensures !Before(r[j], s[0]) {
          assert r[j] in multiset(r);
          assert r[j] == x || r[j] in t;
        }
      }
    }
  }

  lemma {:induction false} SortKeeps(s: seq<Fused>)
    ensures Ordered(StableSort(s)) && multiset(StableSort(s)) == multiset(s)
  {
    if s != [] {
      SortKeeps(s[..|s| - 1]);
      InsertKeeps(StableSort(s[..|s| - 1]), s[|s| - 1]);
      assert s == s[..|s| - 1] + [s[|s| - 1]];
    }
  }

  // ---------------------------------------------------------------- fusion

  function Scored(order: seq<Candidate>, lists: seq<seq<Candidate>>, k: nat): seq<Fused>
    requires k >= 1
  {
    seq(|order|, i requires 0 <= i < |order| => Fused(order[i], Score(lists, order[i], k)))
  }

  /** Candidates in the order they are first met, scored, then stably sorted. */
  function Fuse(lists: seq<seq<Candidate>>, k: nat): seq<Fused>
    requires k >= 1
  {
    StableSort(Scored(FirstOccurrences(Flatten(lists)), lists, k))
  }

  datatype Outcome = Ok(fused: seq<Fused>) | DampingTooSmall

  method FuseRankedLists(lists: seq<seq<Candidate>>, k: int) returns (r: Outcome)
    ensures k < 1 ==> r == DampingTooSmall
    ensures k >= 1 ==> r == Ok(Fuse(lists, k))
  {
    if k < 1 {
      return DampingTooSmall;
    }
    var order: seq<Candidate> := [];
    var totals: map<Candidate, real> := map[];
    for n := 0 to |lists|
      invariant order == FirstOccurrences(Flatten(lists[..n]))
      invariant Tallies(totals, order, lists[..n], [], k)
    {
      order, totals := CountList(order, totals, lists[n], k, lists[..n]);
      TallyDone(totals, order, lists, n, k);
    }
    assert lists[..|lists|] == lists;
    TotalsAreScores(totals, order, lists, k);
    r := Ok(StableSort(Totalled(order, totals)));
  }

  /** The inner loop: each of one list's first occurrences earns its reciprocal rank. */
  method CountList(order: seq<Candidate>, totals: map<Candidate, real>, ranked: seq<Candidate>, k: nat,
                   ghost done: seq<seq<Candidate>>)
    returns (order': seq<Candidate>, totals': map<Candidate, real>)
    requires k >= 1 && order == FirstOccurrences(Flatten(done)) && Tallies(totals, order, done, [], k)
    ensures order' == FirstOccurrences(Flatten(done) + FirstOccurrences(ranked))
    ensures Tallies(totals', order', done, FirstOccurrences(ranked), k)
  {
    var kept := KeepFirstOccurrences(ranked);
    ghost var met := Flatten(done);
    FirstOccurrencesKeep(ranked);
    order', totals' := order, totals;
    assert met + kept[..0] == met && kept[..0] == [];
    for i := 0 to |kept|
      invariant order' == FirstOccurrences(met + kept[..i])
      invariant Tallies(totals', order', done, kept[..i], k)
    {
      var c := kept[i];
      TallyStep(totals', order', met, done, kept, i, k);
      var addition := 1.0 / ((k + i + 1) as real);
      if c in totals' {
        totals' := totals'[c := totals'[c] + addition];
      } else {
        order' := order' + [c];
        totals' := totals'[c := 0.0 + addition];
      }
    }
    assert kept[..|kept|] == kept;
  }

  function Totalled(order: seq<Candidate>, totals: map<Candidate, real>): seq<Fused>
    requires forall i | 0 <= i < |order| :: order[i] in totals
  {
    seq(|order|, i requires 0 <= i < |order| => Fused(order[i], totals[order[i]]))
  }

  lemma TotalsAreScores(totals: map<Candidate, real>, order: seq<Candidate>, lists: seq<seq<Candidate>>, k: nat)
    requires k >= 1 && Tallies(totals, order, lists, [], k)
    ensures forall i | 0 <= i < |order| :: order[i] in totals
    ensures Totalled(order, totals) == Scored(order, lists, k)
  {
    forall i | 0 <= i < |order| ensures order[i] in totals && totals[order[i]] == Score(lists, order[i], k) {
      assert order[i] in order;
      assert Tally(totals, order[i]) == Earned(lists, [], order[i], k);
    }
  }

  ghost function Tally(totals: map<Candidate, real>, c: Candidate): real { if c in totals then totals[c] else 0.0 }

  /** What a candidate has earned part way through one more list, whose places in `part` are counted. */
  ghost function Earned(done: seq<seq<Candidate>>, part: seq<Candidate>, c: Candidate, k: nat): real
    requires k >= 1
  {
    Score(done, c, k) + PartContribution(part, c, k)
  }

  ghost function PartContribution(part: seq<Candidate>, c: Candidate, k: nat): real
    requires k >= 1
  {
    if c in part then 1.0 / ((k + IndexIn(part, c) + 1) as real) else 0.0
  }

  ghost predicate Tallies(totals: map<Candidate, real>, order: seq<Candidate>, done: seq<seq<Candidate>>, part: seq<Candidate>, k: nat)
    requires k >= 1
  {
    && (forall c :: c in totals <==> c in order)
    && (forall c :: Tally(totals, c) == Earned(done, part, c, k))
  }

  lemma {:induction false} IndexInPrefix(l: seq<Candidate>, i: nat, c: Candidate)
    requires i <= |l| && c in l[..i]
    ensures c in l && IndexIn(l[..i], c) == IndexIn(l, c)
  {
    if l[0] != c {
      assert l[..i][1..] == l[1..][..i - 1];
      IndexInPrefix(l[1..], i - 1, c);
    }
  }

  lemma TallyStep(totals: map<Candidate, real>, order: seq<Candidate>, met: seq<Candidate>,
                  done: seq<seq<Candidate>>, kept: seq<Candidate>, i: nat, k: nat)
    requires k >= 1 && i < |kept| && NoRepeats(kept)
    requires order == FirstOccurrences(met + kept[..i]) && Tallies(totals, order, done, kept[..i], k)
    ensures var c := kept[i]; var addition := 1.0 / ((k + i + 1) as real);
            var order' := if c in totals then order else order + [c];
            var totals' := totals[c := Tally(totals, c) + addition];
            order' == FirstOccurrences(met + kept[..i + 1]) && Tallies(totals', order', done, kept[..i + 1], k)
  {
    var c := kept[i];
    var addition := 1.0 / ((k + i + 1) as real);
    var totals' := totals[c := Tally(totals, c) + addition];
    OrderStep(met, kept, i);
    FirstOccurrencesKeep(met + kept[..i]);
    forall d ensures Tally(totals', d) == Earned(done, kept[..i + 1], d, k) {
      PartStep(kept, i, d, k);
      assert Tally(totals, d) == Earned(done, kept[..i], d, k);
    }
  }

  lemma OrderStep(met: seq<Candidate>, kept: seq<Candidate>, i: nat)
    requires i < |kept|
    ensures var order := FirstOccurrences(met + kept[..i]);
            FirstOccurrences(met + kept[..i + 1]) == if kept[i] in order then order else order + [kept[i]]
  {
    FirstOccurrencesKeep(met + kept[..i]);
    FirstOccurrencesSnoc(met + kept[..i], kept[i]);
    assert met + kept[..i + 1] == met + kept[..i] + [kept[i]];
  }

  lemma PartStep(kept: seq<Candidate>, i: nat, d: Candidate, k: nat)
    requires k >= 1 && i < |kept| && NoRepeats(kept)
    ensures PartContribution(kept[..i + 1], d, k) ==
            if d == kept[i] then 1.0 / ((k + i + 1) as real) else PartContribution(kept[..i], d, k)
    ensures PartContribution(kept[..i], kept[i], k) == 0.0
  {
    var more := kept[..i + 1];
    if d == kept[i] {
      assert more[i] == d;
      var j := IndexIn(more, d);
      assert kept[j] == more[j] == d;
      assert j == i;
    } else if d in kept[..i] {
      assert more[..i] == kept[..i];
      IndexInPrefix(more, i, d);
    } else {
      assert d !in more;
    }
  }

  lemma TallyDone(totals: map<Candidate, real>, order: seq<Candidate>, lists: seq<seq<Candidate>>, n: nat, k: nat)
    requires k >= 1 && n < |lists|
    requires order == FirstOccurrences(Flatten(lists[..n]) + FirstOccurrences(lists[n]))
    requires Tallies(totals, order, lists[..n], FirstOccurrences(lists[n]), k)
    ensures order == FirstOccurrences(Flatten(lists[..n + 1])) && Tallies(totals, order, lists[..n + 1], [], k)
  {
    var more := lists[..n + 1];
    ReduceInside(Flatten(lists[..n]), lists[n]);
    assert more[..n] == lists[..n];
    forall c ensures Earned(more, [], c, k) == Earned(lists[..n], FirstOccurrences(lists[n]), c, k) {
      EarnedWhole(lists, n, c, k);
    }
    assert forall c :: Tally(totals, c) == Earned(more, [], c, k);
  }

  lemma EarnedWhole(lists: seq<seq<Candidate>>, n: nat, c: Candidate, k: nat)
    requires k >= 1 && n < |lists|
    ensures Earned(lists[..n + 1], [], c, k) == Earned(lists[..n], FirstOccurrences(lists[n]), c, k)
  {
    assert lists[..n + 1][..n] == lists[..n];
    FirstOccurrencesKeep(lists[n]);
  }

  // ---------------------------------------------------------------- what fusion promises

  predicate Found(lists: seq<seq<Candidate>>, c: Candidate) { exists i | 0 <= i < |lists| :: c in lists[i] }

  lemma {:induction false} FlattenFinds(lists: seq<seq<Candidate>>, c: Candidate)
    ensures c in Flatten(lists) <==> Found(lists, c)
  {
    if lists != [] {
      var init := lists[..|lists| - 1];
      FlattenFinds(init, c);
      assert lists == init + [lists[|lists| - 1]];
      if Found(init, c) {
        var i :| 0 <= i < |init| && c in init[i];
        assert c in lists[i];
      }
    }
  }

  function Candidates(s: seq<Fused>): seq<Candidate> { seq(|s|, i requires 0 <= i < |s| => s[i].candidate) }

  /** The output is ordered, holds each found candidate exactly once, and scores it as the formula says. */
  lemma FuseIsComplete(lists: seq<seq<Candidate>>, k: nat)
    requires k >= 1
    ensures Ordered(Fuse(lists, k)) && NoRepeats(Candidates(Fuse(lists, k)))
    ensures forall f :: f in Fuse(lists, k) <==> Found(lists, f.candidate) && f.score == Score(lists, f.candidate, k)
  {
    var order := FirstOccurrences(Flatten(lists));
    var scored := Scored(order, lists, k);
    FirstOccurrencesKeep(Flatten(lists));
    SortKeeps(scored);
    var out := Fuse(lists, k);
    SortedStaysDistinct(scored, out);
    forall f ensures f in out <==> Found(lists, f.candidate) && f.score == Score(lists, f.candidate, k) {
      assert f in out <==> f in multiset(out);
      assert f in scored <==> f in multiset(scored);
      FlattenFinds(lists, f.candidate);
      if f.candidate in order {
        assert scored[IndexIn(order, f.candidate)].candidate == f.candidate;
      }
    }
  }

  lemma SortedStaysDistinct(s: seq<Fused>, out: seq<Fused>)
    requires NoRepeats(Candidates(s)) && multiset(out) == multiset(s)
    ensures NoRepeats(Candidates(out))
  {
    forall i, j | 0 <= i < j < |out| ensures out[i].candidate != out[j].candidate {
      assert out[i] in multiset(s) && out[j] in multiset(s);
      var a :| 0 <= a < |s| && s[a] == out[i];
      var b :| 0 <= b < |s| && s[b] == out[j];
      assert Candidates(s)[a] == out[i].candidate && Candidates(s)[b] == out[j].candidate;
      if a == b {
        TwiceMeansTwo(out, i, j);
        OnceMeansOne(s, a);
      }
    }
  }

  lemma TwiceMeansTwo(s: seq<Fused>, i: nat, j: nat)
    requires i < j < |s| && s[i] == s[j]
    ensures multiset(s)[s[i]] >= 2
  {
    assert s == s[..j] + [s[j]] + s[j + 1..];
    assert s[i] in s[..j];
  }

  lemma OnceMeansOne(s: seq<Fused>, a: nat)
    requires a < |s| && NoRepeats(Candidates(s))
    ensures multiset(s)[s[a]] == 1
  {
    assert s == s[..a] + [s[a]] + s[a + 1..];
    var cs := Candidates(s);
    assert s[a] !in s[..a] by {
      assert forall i | 0 <= i < a :: cs[i] == s[i].candidate && cs[a] == s[a].candidate;
    }
    assert s[a] !in s[a + 1..] by {
      assert forall i | a < i < |s| :: cs[i] == s[i].candidate && cs[a] == s[a].candidate;
    }
  }

  // ---------------------------------------------------------------- the order of the lists

  /** The key separates these two results. */
  predicate Separated(f: Fused, g: Fused) { f == g || Before(f, g) || Before(g, f) }

  lemma Without<T>(s: seq<T>, i: nat)
    requires i < |s|
    ensures multiset(s[..i] + s[i + 1..]) == multiset(s) - multiset{s[i]}
  {
    assert s == s[..i] + [s[i]] + s[i + 1..];
  }

  ghost predicate AllSeparated(a: seq<Fused>) { forall f, g | f in a && g in a :: Separated(f, g) }

  lemma TailKeeps(a: seq<Fused>)
    requires a != [] && Ordered(a)
    ensures Ordered(a[1..]) && (AllSeparated(a) ==> AllSeparated(a[1..]))
  {
    assert forall i | 0 <= i < |a[1..]| :: a[1..][i] == a[i + 1];
  }

  lemma SameHead(a: seq<Fused>, b: seq<Fused>)
    requires a != [] && Ordered(a) && Ordered(b) && multiset(a) == multiset(b)
    requires AllSeparated(a)
    ensures b != [] && a[0] == b[0]
  {
    assert a[0] in multiset(b);
    var j :| 0 <= j < |b| && b[j] == a[0];
    assert b[0] in multiset(a);
    var i :| 0 <= i < |a| && a[i] == b[0];
    assert Separated(a[0], a[i]);
  }

  lemma SameTails(a: seq<Fused>, b: seq<Fused>)
    requires a != [] && b != [] && a[0] == b[0] && multiset(a) == multiset(b)
    ensures multiset(a[1..]) == multiset(b[1..])
    ensures a[1..] == b[1..] ==> a == b
  {
    assert a == [a[0]] + a[1..] && b == [b[0]] + b[1..];
    assert multiset(a[1..]) == multiset(a) - multiset{a[0]};
    assert multiset(b[1..]) == multiset(b) - multiset{b[0]};
  }

  /** The key separates every two results: the order is then the only one it allows. */
  lemma {:induction false} OrderIsUnique(a: seq<Fused>, b: seq<Fused>)
    requires Ordered(a) && Ordered(b) && multiset(a) == multiset(b)
    requires AllSeparated(a)
    ensures a == b
  {
    if a == [] {
      assert |multiset(b)| == 0;
    } else {
      SameHead(a, b);
      SameTails(a, b);
      TailKeeps(a);
      TailKeeps(b);
      OrderIsUnique(a[1..], b[1..]);
    }
  }

  lemma {:induction false} ScoreWithout(lists: seq<seq<Candidate>>, i: nat, c: Candidate, k: nat)
    requires k >= 1 && i < |lists|
    ensures Score(lists, c, k) == Score(lists[..i] + lists[i + 1..], c, k) + Contribution(lists[i], c, k)
    decreases |lists|
  {
    var rest := lists[..i] + lists[i + 1..];
    if i == |lists| - 1 {
      assert rest == lists[..i];
    } else {
      var init := lists[..|lists| - 1];
      ScoreWithout(init, i, c, k);
      assert rest[..|rest| - 1] == init[..i] + init[i + 1..] && rest[|rest| - 1] == lists[|lists| - 1];
    }
  }

  /** A score does not depend on the order of the lists. */
  lemma {:induction false} ScorePermutes(a: seq<seq<Candidate>>, b: seq<seq<Candidate>>, c: Candidate, k: nat)
    requires k >= 1 && multiset(a) == multiset(b)
    ensures Score(a, c, k) == Score(b, c, k)
    decreases |a|
  {
    if a == [] {
      assert |multiset(b)| == 0;
    } else {
      var n := |a| - 1;
      assert a[n] in multiset(b);
      var i :| 0 <= i < |b| && b[i] == a[n];
      ScoreWithout(b, i, c, k);
      Without(a, n);
      Without(b, i);
      assert a[..n] + a[n + 1..] == a[..n];
      ScorePermutes(a[..n], b[..i] + b[i + 1..], c, k);
    }
  }

  lemma FoundPermutes(a: seq<seq<Candidate>>, b: seq<seq<Candidate>>, c: Candidate)
    requires multiset(a) == multiset(b) && Found(a, c)
    ensures Found(b, c)
  {
    var i :| 0 <= i < |a| && c in a[i];
    assert a[i] in multiset(b);
  }

  /** Two found candidates the key cannot tell apart: same score, same kind place, same id. */
  predicate Tie(lists: seq<seq<Candidate>>, x: Candidate, y: Candidate, k: nat)
    requires k >= 1
  {
    && x != y && Found(lists, x) && Found(lists, y) && Score(lists, x, k) == Score(lists, y, k)
    && Kind(x.recordType) == Kind(y.recordType) && x.artifactId == y.artifactId
  }

  ghost predicate TieFree(lists: seq<seq<Candidate>>, k: nat)
    requires k >= 1
  {
    forall x, y :: !Tie(lists, x, y, k)
  }

  lemma NoRepeatsIsASet(a: seq<Fused>, b: seq<Fused>)
    requires NoRepeats(Candidates(a)) && NoRepeats(Candidates(b)) && forall f :: f in a <==> f in b
    ensures multiset(a) == multiset(b)
  {
    forall f ensures multiset(a)[f] == multiset(b)[f] {
      if f in a {
        var i :| 0 <= i < |a| && a[i] == f;
        var j :| 0 <= j < |b| && b[j] == f;
        OnceMeansOne(a, i);
        OnceMeansOne(b, j);
      } else {
        assert f !in multiset(a) && f !in multiset(b);
      }
    }
  }

  /** Without ties, any permutation of the lists fuses to the same output. */
  lemma FusionIsOrderFree(a: seq<seq<Candidate>>, b: seq<seq<Candidate>>, k: nat)
    requires k >= 1 && multiset(a) == multiset(b) && TieFree(a, k)
    ensures Fuse(a, k) == Fuse(b, k)
  {
    FuseIsComplete(a, k);
    FuseIsComplete(b, k);
    var u, v := Fuse(a, k), Fuse(b, k);
    forall f ensures f in u <==> f in v {
      ScorePermutes(a, b, f.candidate, k);
      if Found(a, f.candidate) { FoundPermutes(a, b, f.candidate); }
      if Found(b, f.candidate) { FoundPermutes(b, a, f.candidate); }
    }
    NoRepeatsIsASet(u, v);
    forall f, g | f in u && g in u ensures Separated(f, g) {
      LessIsConnected(f.candidate.artifactId, g.candidate.artifactId);
      assert !Tie(a, f.candidate, g.candidate, k);
    }
    OrderIsUnique(u, v);
  }

  function Reduced(lists: seq<seq<Candidate>>): seq<seq<Candidate>> {
    seq(|lists|, i requires 0 <= i < |lists| => FirstOccurrences(lists[i]))
  }

  lemma {:induction false} ReducedFlatten(lists: seq<seq<Candidate>>)
    ensures FirstOccurrences(Flatten(Reduced(lists))) == FirstOccurrences(Flatten(lists))
  {
    if lists != [] {
      var n := |lists| - 1;
      assert Reduced(lists)[..n] == Reduced(lists[..n]);
      ReducedFlatten(lists[..n]);
      ReduceInside(Flatten(Reduced(lists[..n])), lists[n]);
      AlikeExtended(Flatten(Reduced(lists[..n])), Flatten(lists[..n]), lists[n]);
    }
  }

  lemma {:induction false} ReducedScore(lists: seq<seq<Candidate>>, c: Candidate, k: nat)
    requires k >= 1
    ensures Score(Reduced(lists), c, k) == Score(lists, c, k)
  {
    if lists != [] {
      var n := |lists| - 1;
      assert Reduced(lists)[..n] == Reduced(lists[..n]);
      ReducedScore(lists[..n], c, k);
      FirstOccurrencesKeep(lists[n]);
      FirstOccurrencesIdempotent(lists[n]);
    }
  }

  /** Repeats within a list state nothing: dropping them changes no output, tied or not. */
  lemma RepeatsCountOnce(lists: seq<seq<Candidate>>, k: nat)
    requires k >= 1
    ensures Fuse(Reduced(lists), k) == Fuse(lists, k)
  {
    ReducedFlatten(lists);
    var order := FirstOccurrences(Flatten(lists));
    forall i | 0 <= i < |order| ensures Score(Reduced(lists), order[i], k) == Score(lists, order[i], k) {
      ReducedScore(lists, order[i], k);
    }
    assert Scored(order, Reduced(lists), k) == Scored(order, lists, k);
  }

  // ---------------------------------------------------------------- ties do depend on the order

  ghost predicate Precedes(s: seq<Fused>, x: Fused, y: Fused) {
    exists i, j | 0 <= i < j < |s| :: s[i] == x && s[j] == y
  }

  lemma PrecedesCons(h: Fused, s: seq<Fused>, x: Fused, y: Fused)
    requires Precedes(s, x, y) || (h == x && y in s)
    ensures Precedes([h] + s, x, y)
  {
    var r := [h] + s;
    if Precedes(s, x, y) {
      var i, j :| 0 <= i < j < |s| && s[i] == x && s[j] == y;
      assert r[i + 1] == x && r[j + 1] == y;
    } else {
      var j :| 0 <= j < |s| && s[j] == y;
      assert r[0] == x && r[j + 1] == y;
    }
  }

  lemma {:induction false} InsertPrecedes(s: seq<Fused>, z: Fused, x: Fused, y: Fused)
    requires Precedes(s, x, y)
    ensures Precedes(Insert(s, z), x, y)
  {
    if Before(z, s[0]) {
      PrecedesCons(z, s, x, y);
    } else {
      var i, j :| 0 <= i < j < |s| && s[i] == x && s[j] == y;
      var t := s[1..];
      assert t[j - 1] == y;
      if i > 0 {
        assert t[i - 1] == x;
        InsertPrecedes(t, z, x, y);
      } else {
        InsertHolds(t, z, y);
      }
      PrecedesCons(s[0], Insert(t, z), x, y);
    }
  }

  lemma {:induction false} InsertHolds(s: seq<Fused>, z: Fused, y: Fused)
    requires y in s || y == z
    ensures y in Insert(s, z)
  {
    if s != [] && !Before(z, s[0]) && y != s[0] {
      assert s == [s[0]] + s[1..];
      InsertHolds(s[1..], z, y);
    }
  }

  lemma {:induction false} InsertAfterEquals(s: seq<Fused>, z: Fused, x: Fused)
    requires Ordered(s) && x in s && !Before(z, x)
    ensures Precedes(Insert(s, z), x, z)
  {
    var i :| 0 <= i < |s| && s[i] == x;
    if i > 0 {
      NotAfterIsTransitive(s[0], x, z);
      TailKeeps(s);
      assert s[1..][i - 1] == x;
      InsertAfterEquals(s[1..], z, x);
    } else {
      InsertHolds(s[1..], z, z);
    }
    PrecedesCons(s[0], Insert(s[1..], z), x, z);
  }

  /** The sort is stable: what may stay in place does. */
  lemma {:induction false} SortIsStable(s: seq<Fused>, x: Fused, y: Fused)
    requires Precedes(s, x, y) && !Before(y, x)
    ensures Precedes(StableSort(s), x, y)
  {
    var init := s[..|s| - 1];
    PrecedesBeforeLast(s, x, y);
    if Precedes(init, x, y) {
      SortIsStable(init, x, y);
      InsertPrecedes(StableSort(init), s[|s| - 1], x, y);
    } else {
      SortHolds(init, x);
      InsertAfterEquals(StableSort(init), y, x);
    }
  }

  lemma PrecedesBeforeLast(s: seq<Fused>, x: Fused, y: Fused)
    requires Precedes(s, x, y)
    ensures s != [] && (Precedes(s[..|s| - 1], x, y) || (x in s[..|s| - 1] && s[|s| - 1] == y))
  {
    var i, j :| 0 <= i < j < |s| && s[i] == x && s[j] == y;
    var init := s[..|s| - 1];
    assert init[i] == x;
    if j < |init| {
      assert init[j] == y;
    }
  }

  lemma SortHolds(s: seq<Fused>, x: Fused)
    requires x in s
    ensures x in StableSort(s) && Ordered(StableSort(s))
  {
    SortKeeps(s);
    assert x in multiset(s);
  }

  lemma {:induction false} FirstOccurrencesGrow(a: seq<Candidate>, b: seq<Candidate>)
    ensures FirstOccurrences(a) <= FirstOccurrences(a + b)
  {
    if b == [] {
      assert a + b == a;
    } else {
      assert (a + b)[..|a + b| - 1] == a + b[..|b| - 1];
      FirstOccurrencesGrow(a, b[..|b| - 1]);
    }
  }

  lemma {:induction false} FlattenCons(l: seq<Candidate>, rest: seq<seq<Candidate>>)
    ensures Flatten([l] + rest) == l + Flatten(rest)
  {
    var all := [l] + rest;
    if rest == [] {
      assert all[..0] == [] && Flatten([l]) == [] + l;
    } else {
      assert all[..|all| - 1] == [l] + rest[..|rest| - 1];
      FlattenCons(l, rest[..|rest| - 1]);
    }
  }

  /** The list gives `y` more than it gives `x`. */
  predicate Prefers(l: seq<Candidate>, y: Candidate, x: Candidate, k: nat)
    requires k >= 1
  {
    Contribution(l, y, k) > Contribution(l, x, k)
  }

  lemma ReciprocalShrinks(a: real, b: real)
    requires 0.0 < a <= b
    ensures 1.0 / a >= 1.0 / b > 0.0
    ensures a < b ==> 1.0 / a > 1.0 / b
  {
    assert 1.0 / a - 1.0 / b == (b - a) / (a * b);
  }

  lemma PreferredStandsFirst(l: seq<Candidate>, y: Candidate, x: Candidate, k: nat)
    requires k >= 1 && Prefers(l, y, x, k)
    ensures y in l && (x in l ==> Rank(l, y) < Rank(l, x))
  {
    if x in l {
      ReciprocalShrinks((k + Rank(l, x)) as real, (k + Rank(l, x)) as real);
      if y in l && Rank(l, y) >= Rank(l, x) {
        ReciprocalShrinks((k + Rank(l, x)) as real, (k + Rank(l, y)) as real);
      }
    }
  }

  /** A list put first decides which of two tied candidates is met, and so listed, first. */
  lemma PreferringListDecides(l: seq<Candidate>, rest: seq<seq<Candidate>>, y: Candidate, x: Candidate, k: nat)
    requires k >= 1 && Prefers(l, y, x, k) && Tie([l] + rest, x, y, k)
    ensures var lists := [l] + rest; Precedes(Fuse(lists, k), Fused(y, Score(lists, y, k)), Fused(x, Score(lists, x, k)))
  {
    var lists := [l] + rest;
    var order := FirstOccurrences(Flatten(lists));
    PreferredStandsFirst(l, y, x, k);
    FlattenCons(l, rest);
    FirstOccurrencesGrow(l, Flatten(rest));
    FirstOccurrencesKeep(l);
    FirstOccurrencesKeep(Flatten(lists));
    FlattenFinds(lists, x);
    var kept := FirstOccurrences(l);
    var i := IndexIn(kept, y);
    var j := IndexIn(order, x);
    assert order[i] == y && forall n | 0 <= n < |kept| :: order[n] == kept[n];
    assert i < j by {
      if x in l {
        var j' := IndexIn(kept, x);
        assert order[j'] == x && order[j] == x;
      }
    }
    var scored := Scored(order, lists, k);
    var fy, fx := Fused(y, Score(lists, y, k)), Fused(x, Score(lists, x, k));
    assert scored[i] == fy && scored[j] == fx;
    LessIsIrreflexive(x.artifactId);
    SortIsStable(scored, fy, fx);
  }

  lemma SameContribution(l: seq<Candidate>, x: Candidate, y: Candidate, k: nat)
    requires k >= 1 && x != y && (x in l || y in l)
    ensures Contribution(l, x, k) != Contribution(l, y, k)
  {
    FirstOccurrencesKeep(l);
    if x in l && y in l {
      var a, b := (k + Rank(l, x)) as real, (k + Rank(l, y)) as real;
      assert a != b;
      ReciprocalShrinks(if a < b then a else b, if a < b then b else a);
    } else {
      ReciprocalShrinks((k + Rank(l, if x in l then x else y)) as real, (k + Rank(l, if x in l then x else y)) as real);
    }
  }

  lemma {:induction false} NeverPreferred(lists: seq<seq<Candidate>>, y: Candidate, x: Candidate, k: nat)
    requires k >= 1 && x != y && forall i | 0 <= i < |lists| :: !Prefers(lists[i], y, x, k)
    ensures Score(lists, y, k) <= Score(lists, x, k)
    ensures Found(lists, x) ==> Score(lists, y, k) < Score(lists, x, k)
  {
    if lists != [] {
      var n := |lists| - 1;
      NeverPreferred(lists[..n], y, x, k);
      if x in lists[n] {
        SameContribution(lists[n], x, y, k);
      } else if Found(lists, x) {
        var i :| 0 <= i < |lists| && x in lists[i];
        assert x in lists[..n][i];
      }
    }
  }

  lemma PreferringListExists(lists: seq<seq<Candidate>>, y: Candidate, x: Candidate, k: nat) returns (i: nat)
    requires k >= 1 && Tie(lists, x, y, k)
    ensures i < |lists| && Prefers(lists[i], y, x, k)
  {
    if forall j | 0 <= j < |lists| :: !Prefers(lists[j], y, x, k) {
      NeverPreferred(lists, y, x, k);
      assert false;
    }
    i :| 0 <= i < |lists| && Prefers(lists[i], y, x, k);
  }

  lemma BroughtToFront(lists: seq<seq<Candidate>>, i: nat, x: Candidate, y: Candidate, k: nat)
    requires k >= 1 && i < |lists| && Tie(lists, x, y, k)
    ensures var front := [lists[i]] + (lists[..i] + lists[i + 1..]);
            multiset(front) == multiset(lists) && Tie(front, x, y, k)
  {
    var rest := lists[..i] + lists[i + 1..];
    var front := [lists[i]] + rest;
    Without(lists, i);
    assert multiset(front) == multiset{lists[i]} + multiset(rest);
    assert multiset{lists[i]} <= multiset(lists);
    ScorePermutes(lists, front, x, k);
    ScorePermutes(lists, front, y, k);
    FoundPermutes(lists, front, x);
    FoundPermutes(lists, front, y);
  }

  /** Of two tied candidates each can be brought first, by putting first a list that prefers it. */
  lemma TiesFollowTheOrder(lists: seq<seq<Candidate>>, y: Candidate, x: Candidate, k: nat) returns (front: seq<seq<Candidate>>)
    requires k >= 1 && Tie(lists, x, y, k)
    ensures multiset(front) == multiset(lists)
    ensures Precedes(Fuse(front, k), Fused(y, Score(lists, y, k)), Fused(x, Score(lists, x, k)))
  {
    var i := PreferringListExists(lists, y, x, k);
    var rest := lists[..i] + lists[i + 1..];
    front := [lists[i]] + rest;
    BroughtToFront(lists, i, x, y, k);
    PreferringListDecides(lists[i], rest, y, x, k);
    ScorePermutes(lists, front, x, k);
    ScorePermutes(lists, front, y, k);
  }

  /** Fusion ignores the order of the lists exactly when no two found candidates tie. */
  lemma OrderFreeIffTieFree(lists: seq<seq<Candidate>>, k: nat)
    requires k >= 1
    ensures TieFree(lists, k) <==> forall p | multiset(p) == multiset(lists) :: Fuse(p, k) == Fuse(lists, k)
  {
    if TieFree(lists, k) {
      forall p | multiset(p) == multiset(lists) ensures Fuse(p, k) == Fuse(lists, k) {
        FusionIsOrderFree(lists, p, k);
      }
    } else {
      var x, y :| Tie(lists, x, y, k);
      var p := TiesFollowTheOrder(lists, y, x, k);
      var q := TiesFollowTheOrder(lists, x, y, k);
      FuseIsComplete(p, k);
      NotBothWays(Fuse(p, k), Fused(x, Score(lists, x, k)), Fused(y, Score(lists, y, k)));
      assert Fuse(p, k) != Fuse(q, k);
    }
  }

  lemma NotBothWays(s: seq<Fused>, f: Fused, g: Fused)
    requires NoRepeats(Candidates(s)) && f != g
    ensures !(Precedes(s, f, g) && Precedes(s, g, f))
  {
    var cs := Candidates(s);
    forall i, j | 0 <= i < |s| && 0 <= j < |s| && s[i] == s[j] ensures i == j {
      assert cs[i] == cs[j];
    }
  }

  lemma {:induction false} KindIsPlace(t: string, i: nat, p: nat)
    requires i <= p < |RECORD_TYPE_ORDER| && RECORD_TYPE_ORDER[p] == t
    requires forall m | i <= m < p :: RECORD_TYPE_ORDER[m] != t
    ensures KindFrom(t, i) == p
    decreases p - i
  {
    if i < p {
      KindIsPlace(t, i + 1, p);
    }
  }

  lemma DeclaredTypesDiffer()
    ensures forall m, n | 0 <= m < n < |RECORD_TYPE_ORDER| :: RECORD_TYPE_ORDER[m] != RECORD_TYPE_ORDER[n]
  {
    var order := RECORD_TYPE_ORDER;
    assert |order[0]| == 6 && |order[1]| == 10 && |order[2]| == 7 && |order[3]| == 8 && |order[4]| == 10 && |order[5]| == 15;
    assert order[1][0] == 'c' && order[4][0] == 's';
  }

  lemma KindOfPlace(p: nat)
    requires p < |RECORD_TYPE_ORDER|
    ensures Kind(RECORD_TYPE_ORDER[p]) == p
  {
    DeclaredTypesDiffer();
    KindIsPlace(RECORD_TYPE_ORDER[p], 0, p);
  }

  lemma {:induction false} UndeclaredIsLast(t: string, i: nat)
    requires t !in RECORD_TYPE_ORDER && i <= |RECORD_TYPE_ORDER|
    ensures KindFrom(t, i) == |RECORD_TYPE_ORDER|
    decreases |RECORD_TYPE_ORDER| - i
  {
    if i < |RECORD_TYPE_ORDER| {
      UndeclaredIsLast(t, i + 1);
    }
  }

  lemma KindOfMember(t: string)
    requires t in RECORD_TYPE_ORDER
    ensures Kind(t) < |RECORD_TYPE_ORDER|
  {
    var p :| 0 <= p < |RECORD_TYPE_ORDER| && RECORD_TYPE_ORDER[p] == t;
    KindOfPlace(p);
  }

  /** In the output no score is below a later one; of two equal scores the type declared earlier comes
      first, and any declared one before the undeclared; of one type the smaller id comes first. */
  lemma OutputIsOrdered(lists: seq<seq<Candidate>>, k: nat, i: nat, j: nat)
    requires k >= 1 && i < j < |Fuse(lists, k)|
    ensures var a, b := Fuse(lists, k)[i], Fuse(lists, k)[j];
            && a.score >= b.score
            && (a.score == b.score ==>
                  && (forall p, q | 0 <= p < |RECORD_TYPE_ORDER| && 0 <= q < |RECORD_TYPE_ORDER| ::
                        a.candidate.recordType == RECORD_TYPE_ORDER[p] && b.candidate.recordType == RECORD_TYPE_ORDER[q] ==> p <= q)
                  && (b.candidate.recordType in RECORD_TYPE_ORDER ==> a.candidate.recordType in RECORD_TYPE_ORDER)
                  && (a.candidate.recordType == b.candidate.recordType ==> Less(a.candidate.artifactId, b.candidate.artifactId)))
  {
    var out := Fuse(lists, k);
    FuseIsComplete(lists, k);
    assert !Before(out[j], out[i]);
    assert Candidates(out)[i] != Candidates(out)[j];
    OrderedPair(out[i], out[j]);
  }

  lemma OrderedPair(a: Fused, b: Fused)
    requires !Before(b, a) && a.candidate != b.candidate
    ensures a.score >= b.score
    ensures a.score == b.score ==>
              && (forall p, q | 0 <= p < |RECORD_TYPE_ORDER| && 0 <= q < |RECORD_TYPE_ORDER| ::
                    a.candidate.recordType == RECORD_TYPE_ORDER[p] && b.candidate.recordType == RECORD_TYPE_ORDER[q] ==> p <= q)
              && (b.candidate.recordType in RECORD_TYPE_ORDER ==> a.candidate.recordType in RECORD_TYPE_ORDER)
              && (a.candidate.recordType == b.candidate.recordType ==> Less(a.candidate.artifactId, b.candidate.artifactId))
  {
    forall p, q | 0 <= p < |RECORD_TYPE_ORDER| && 0 <= q < |RECORD_TYPE_ORDER|
      && a.candidate.recordType == RECORD_TYPE_ORDER[p] && b.candidate.recordType == RECORD_TYPE_ORDER[q]
      ensures a.score == b.score ==> p <= q
    {
      KindOfPlace(p);
      KindOfPlace(q);
    }
    if b.candidate.recordType in RECORD_TYPE_ORDER {
      KindOfMember(b.candidate.recordType);
    }
    if a.candidate.recordType !in RECORD_TYPE_ORDER {
      UndeclaredIsLast(a.candidate.recordType, 0);
    }
    LessIsConnected(a.candidate.artifactId, b.candidate.artifactId);
  }

  /** Every declared record type has its own place, so candidates of declared types never tie. */
  lemma DeclaredTypesNeverTie(lists: seq<seq<Candidate>>, k: nat)
    requires k >= 1
    requires forall c | Found(lists, c) :: c.recordType in RECORD_TYPE_ORDER
    ensures TieFree(lists, k)
  {
    forall x, y ensures !Tie(lists, x, y, k) {
      if Found(lists, x) && Found(lists, y) {
        KindOfDeclared(x.recordType, 0);
        KindOfDeclared(y.recordType, 0);
      }
    }
  }

  lemma {:induction false} KindOfDeclared(t: string, i: nat)
    requires i <= |RECORD_TYPE_ORDER| && t in RECORD_TYPE_ORDER[i..]
    ensures i <= KindFrom(t, i) < |RECORD_TYPE_ORDER| && RECORD_TYPE_ORDER[KindFrom(t, i)] == t
    decreases |RECORD_TYPE_ORDER| - i
  {
    if RECORD_TYPE_ORDER[i] != t {
      assert RECORD_TYPE_ORDER[i..][1..] == RECORD_TYPE_ORDER[i + 1..];
      assert RECORD_TYPE_ORDER[i..] == [RECORD_TYPE_ORDER[i]] + RECORD_TYPE_ORDER[i + 1..];
      KindOfDeclared(t, i + 1);
    }
  }

  lemma {:induction false} DistinctStays(l: seq<Candidate>)
    requires NoRepeats(l)
    ensures FirstOccurrences(l) == l
  {
    if l != [] {
      var init := l[..|l| - 1];
      DistinctStays(init);
      assert l == init + [l[|l| - 1]];
    }
  }

  /** In a list without repeats the rank is the place. */
  lemma RankInDistinct(l: seq<Candidate>, i: nat)
    requires NoRepeats(l) && i < |l|
    ensures Rank(l, l[i]) == i + 1
  {
    DistinctStays(l);
    var j := IndexIn(l, l[i]);
    assert l[j] == l[i];
  }

  lemma PairContributions(x: Candidate, y: Candidate, k: nat)
    requires k >= 1 && x != y
    ensures Contribution([x, y], x, k) == 1.0 / ((k + 1) as real) && Contribution([x, y], y, k) == 1.0 / ((k + 2) as real)
  {
    RankInDistinct([x, y], 0);
    RankInDistinct([x, y], 1);
  }

  lemma OppositeListsTie(x: Candidate, y: Candidate, k: nat)
    requires k >= 1 && x != y && Kind(x.recordType) == Kind(y.recordType) && x.artifactId == y.artifactId
    ensures Tie([[x, y], [y, x]], x, y, k) && Prefers([x, y], x, y, k)
  {
    var lists := [[x, y], [y, x]];
    PairContributions(x, y, k);
    PairContributions(y, x, k);
    TwoListScore([x, y], [y, x], x, k);
    TwoListScore([x, y], [y, x], y, k);
    assert x in lists[0] && y in lists[0];
    ReciprocalShrinks((k + 1) as real, (k + 2) as real);
  }

  /** Two candidates of undeclared types under one id, ranked oppositely by two lists, come out in the
      order of whichever list is given first. */
  lemma OrderDecidesTies(x: Candidate, y: Candidate, k: nat)
    requires k >= 1 && x != y && Kind(x.recordType) == Kind(y.recordType) && x.artifactId == y.artifactId
    ensures var lists := [[x, y], [y, x]]; Precedes(Fuse(lists, k), Fused(x, Score(lists, x, k)), Fused(y, Score(lists, y, k)))
    ensures var lists := [[y, x], [x, y]]; Precedes(Fuse(lists, k), Fused(y, Score(lists, y, k)), Fused(x, Score(lists, x, k)))
  {
    OppositeListsTie(x, y, k);
    OppositeListsTie(y, x, k);
    assert [[x, y]] + [[y, x]] == [[x, y], [y, x]];
    assert [[y, x]] + [[x, y]] == [[y, x], [x, y]];
    PreferringListDecides([x, y], [[y, x]], x, y, k);
    PreferringListDecides([y, x], [[x, y]], y, x, k);
  }

  lemma {:induction false} KindOfUndeclared(t: string, i: nat)
    requires i <= |RECORD_TYPE_ORDER| && forall n | i <= n < |RECORD_TYPE_ORDER| :: |RECORD_TYPE_ORDER[n]| != |t|
    ensures KindFrom(t, i) == |RECORD_TYPE_ORDER|
    decreases |RECORD_TYPE_ORDER| - i
  {
    if i < |RECORD_TYPE_ORDER| {
      KindOfUndeclared(t, i + 1);
    }
  }

  /** Such a tie, so that fusion does depend on the order of these lists. */
  lemma TieExists()
    ensures var x, y := Candidate("p", "1"), Candidate("q", "1"); !TieFree([[x, y], [y, x]], 1)
  {
    KindOfUndeclared("p", 0);
    KindOfUndeclared("q", 0);
    OppositeListsTie(Candidate("p", "1"), Candidate("q", "1"), 1);
  }

  // ---------------------------------------------------------------- agreement beats prominence

  lemma StandsBefore(out: seq<Fused>, f: Fused, g: Fused, i: nat, j: nat)
    requires Ordered(out) && Before(f, g) && i < |out| && j < |out| && out[i] == f && out[j] == g
    ensures i < j
  {
    BeforeIsAsymmetric(f, g);
  }

  /** Found by both lists at rank `k + 1` or better, a candidate precedes everything found by one alone. */
  lemma BothBeatsOne(l1: seq<Candidate>, l2: seq<Candidate>, x: Candidate, y: Candidate, k: nat, i: nat, j: nat)
    requires k >= 1 && x in l1 && x in l2 && Rank(l1, x) <= k + 1 && Rank(l2, x) <= k + 1
    requires (y in l1) != (y in l2)
    requires var out := Fuse([l1, l2], k); i < |out| && j < |out| && out[i].candidate == x && out[j].candidate == y
    ensures i < j
  {
    var lists := [l1, l2];
    var out := Fuse(lists, k);
    FuseIsComplete(lists, k);
    BothOutscoresOne(l1, l2, x, y, k);
    assert out[i] in out && out[j] in out;
    StandsBefore(out, out[i], out[j], i, j);
  }

  lemma BothOutscoresOne(l1: seq<Candidate>, l2: seq<Candidate>, x: Candidate, y: Candidate, k: nat)
    requires k >= 1 && x in l1 && x in l2 && Rank(l1, x) <= k + 1 && Rank(l2, x) <= k + 1
    requires (y in l1) != (y in l2)
    ensures Score([l1, l2], x, k) > Score([l1, l2], y, k)
  {
    TwoListScore(l1, l2, x, k);
    TwoListScore(l1, l2, y, k);
    var edge := (2 * k + 1) as real;
    ReciprocalShrinks((k + Rank(l1, x)) as real, edge);
    ReciprocalShrinks((k + Rank(l2, x)) as real, edge);
    var r := if y in l1 then Rank(l1, y) else Rank(l2, y);
    ReciprocalShrinks((k + 1) as real, (k + r) as real);
    TwoHalves(k);
  }

  lemma TwoListScore(l1: seq<Candidate>, l2: seq<Candidate>, c: Candidate, k: nat)
    requires k >= 1
    ensures Score([l1, l2], c, k) == Contribution(l1, c, k) + Contribution(l2, c, k)
  {
    assert [l1, l2][..1] == [l1] && [l1][..0] == [];
    assert Score([l1], c, k) == Score([], c, k) + Contribution(l1, c, k);
  }

  /** Twice rank `k + 1` outweighs one first place; twice rank `k + 2` only equals it. */
  lemma TwoHalves(k: nat)
    requires k >= 1
    ensures 1.0 / ((2 * k + 1) as real) + 1.0 / ((2 * k + 1) as real) > 1.0 / ((k + 1) as real)
    ensures 1.0 / ((2 * k + 2) as real) + 1.0 / ((2 * k + 2) as real) == 1.0 / ((k + 1) as real)
  {
    var a, b := (k + 1) as real, (2 * k + 2) as real;
    assert b == 2.0 * a;
    assert 1.0 / b + 1.0 / b == 2.0 / b == 1.0 / a;
    ReciprocalShrinks((2 * k + 1) as real, b);
  }

  lemma BothEqualsOne(l1: seq<Candidate>, l2: seq<Candidate>, x: Candidate, y: Candidate, k: nat)
    requires k >= 1 && x in l1 && x in l2 && Rank(l1, x) == Rank(l2, x) == k + 2
    requires y in l1 && y !in l2 && Rank(l1, y) == 1
    ensures Score([l1, l2], x, k) == Score([l1, l2], y, k)
  {
    TwoListScore(l1, l2, x, k);
    TwoListScore(l1, l2, y, k);
    TwoHalves(k);
  }

  /** What the key puts first is listed first. */
  lemma KeyDecides(lists: seq<seq<Candidate>>, y: Candidate, x: Candidate, k: nat)
    requires k >= 1 && Found(lists, x) && Found(lists, y)
    requires Before(Fused(y, Score(lists, y, k)), Fused(x, Score(lists, x, k)))
    ensures Precedes(Fuse(lists, k), Fused(y, Score(lists, y, k)), Fused(x, Score(lists, x, k)))
  {
    var out := Fuse(lists, k);
    FuseIsComplete(lists, k);
    var fx, fy := Fused(x, Score(lists, x, k)), Fused(y, Score(lists, y, k));
    assert fx in out && fy in out;
    var i :| 0 <= i < |out| && out[i] == fx;
    var j :| 0 <= j < |out| && out[j] == fy;
    StandsBefore(out, fy, fx, j, i);
  }

  /** At rank `k + 2` in both lists a candidate no longer precedes: it only equals a first place in one,
      and follows it where the key prefers that one. */
  lemma BothCanFollowOne(l1: seq<Candidate>, l2: seq<Candidate>, x: Candidate, y: Candidate, k: nat)
    requires k >= 1 && x in l1 && x in l2 && Rank(l1, x) == Rank(l2, x) == k + 2
    requires y in l1 && y !in l2 && Rank(l1, y) == 1
    requires Kind(y.recordType) == Kind(x.recordType) && Less(y.artifactId, x.artifactId)
    ensures var lists := [l1, l2]; Precedes(Fuse(lists, k), Fused(y, Score(lists, y, k)), Fused(x, Score(lists, x, k)))
  {
    var lists := [l1, l2];
    BothEqualsOne(l1, l2, x, y, k);
    assert x in lists[0] && y in lists[0];
    KeyDecides(lists, y, x, k);
  }

  /** As many candidates as wanted, none of them of the type `p`. */
  function Fillers(n: nat): seq<Candidate> { seq(n, i requires 0 <= i < n => Candidate("z", seq(i, _ => 'z'))) }

  lemma FillersDiffer(n: nat)
    ensures NoRepeats(Fillers(n)) && forall c | c in Fillers(n) :: c.recordType == "z"
  {
    forall i, j | 0 <= i < j < n ensures Fillers(n)[i] != Fillers(n)[j] {
      assert |Fillers(n)[i].artifactId| == i && |Fillers(n)[j].artifactId| == j;
    }
  }

  lemma AppendedDiffers(l: seq<Candidate>, c: Candidate)
    requires NoRepeats(l) && c !in l
    ensures NoRepeats(l + [c])
  {
  }

  lemma PrependedDiffers(c: Candidate, l: seq<Candidate>)
    requires NoRepeats(l) && c !in l
    ensures NoRepeats([c] + l)
  {
  }

  const LATER := Candidate("p", "b")
  const EARLIER := Candidate("p", "a")

  function LongList(k: nat): seq<Candidate> { [EARLIER] + (Fillers(k) + [LATER]) }

  function OtherList(k: nat): seq<Candidate> { Fillers(k + 1) + [LATER] }

  lemma LongListRanks(k: nat)
    ensures LATER in LongList(k) && EARLIER in LongList(k) && Rank(LongList(k), LATER) == k + 2 && Rank(LongList(k), EARLIER) == 1
  {
    var l := LongList(k);
    FillersDiffer(k);
    AppendedDiffers(Fillers(k), LATER);
    PrependedDiffers(EARLIER, Fillers(k) + [LATER]);
    assert l[k + 1] == LATER && l[0] == EARLIER;
    RankInDistinct(l, k + 1);
    RankInDistinct(l, 0);
  }

  lemma OtherListRanks(k: nat)
    ensures LATER in OtherList(k) && EARLIER !in OtherList(k) && Rank(OtherList(k), LATER) == k + 2
  {
    var l := OtherList(k);
    FillersDiffer(k + 1);
    AppendedDiffers(Fillers(k + 1), LATER);
    assert l[k + 1] == LATER;
    RankInDistinct(l, k + 1);
  }

  /** So the bound is exact: for every `k` two lists put a candidate they both rank `k + 2` behind one
      that only one of them found. */
  lemma BoundIsExact(k: nat)
    requires k >= 1
    ensures LATER in LongList(k) && LATER in OtherList(k) && Rank(LongList(k), LATER) == Rank(OtherList(k), LATER) == k + 2
    ensures EARLIER in LongList(k) && EARLIER !in OtherList(k)
    ensures var lists := [LongList(k), OtherList(k)];
            Precedes(Fuse(lists, k), Fused(EARLIER, Score(lists, EARLIER, k)), Fused(LATER, Score(lists, LATER, k)))
  {
    LongListRanks(k);
    OtherListRanks(k);
    BothCanFollowOne(LongList(k), OtherList(k), LATER, EARLIER, k);
  }

  // ---------------------------------------------------------------- moving up never hurts

  /** The list with `c` moved up to place `b`. */
  function Promoted(l: seq<Candidate>, c: Candidate, b: nat): seq<Candidate>
    requires c in l && b <= IndexIn(l, c)
  {
    var f := IndexIn(l, c);
    l[..b] + [c] + l[b..f] + l[f + 1..]
  }

  lemma {:induction false} DistinctCount(s: seq<Candidate>)
    requires NoRepeats(s)
    ensures |set c | c in s| == |s|
  {
    if s != [] {
      var init := s[..|s| - 1];
      var last := s[|s| - 1];
      DistinctCount(init);
      assert last !in init;
      assert (set c | c in s) == (set c | c in init) + {last} by { assert s == init + [last]; }
    }
  }

  lemma DistinctSubset(s: seq<Candidate>, t: seq<Candidate>)
    requires NoRepeats(s) && NoRepeats(t) && forall c | c in s :: c in t
    ensures |s| <= |t|
  {
    DistinctCount(s);
    DistinctCount(t);
    SubsetSize(set c | c in s, set c | c in t);
  }

  lemma SubsetSize(a: set<Candidate>, b: set<Candidate>)
    requires a <= b
    ensures |a| <= |b|
  {
    assert b == a + (b - a);
  }

  lemma MoreSeen(s: seq<Candidate>, t: seq<Candidate>)
    requires forall c | c in s :: c in t
    ensures |FirstOccurrences(s)| <= |FirstOccurrences(t)|
  {
    FirstOccurrencesKeep(s);
    FirstOccurrencesKeep(t);
    DistinctSubset(FirstOccurrences(s), FirstOccurrences(t));
  }

  /** A rank counts the distinct candidates standing ahead. */
  lemma RankCounts(l: seq<Candidate>, head: seq<Candidate>, c: Candidate, tail: seq<Candidate>)
    requires l == head + [c] + tail && c !in head
    ensures Rank(l, c) == 1 + |FirstOccurrences(head)|
  {
    FirstOccurrencesSnoc(head, c);
    FirstOccurrencesGrow(head + [c], tail);
    var all := FirstOccurrences(l);
    var n := |FirstOccurrences(head)|;
    assert all[n] == c;
    FirstOccurrencesKeep(l);
    var m := IndexIn(all, c);
    assert all[m] == c;
  }

  lemma RankGrows(head: seq<Candidate>, y: Candidate, tail: seq<Candidate>, head': seq<Candidate>, tail': seq<Candidate>)
    requires y !in head && y !in head' && forall c | c in head :: c in head'
    ensures Rank(head + [y] + tail, y) <= Rank(head' + [y] + tail', y)
  {
    RankCounts(head + [y] + tail, head, y, tail);
    RankCounts(head' + [y] + tail', head', y, tail');
    MoreSeen(head, head');
  }

  lemma PromotedGains(a: seq<Candidate>, b: seq<Candidate>, x: Candidate, c: seq<Candidate>)
    requires x !in a + b
    ensures Rank(a + [x] + b + c, x) <= Rank(a + b + [x] + c, x)
  {
    assert a + [x] + b + c == a + [x] + (b + c);
    RankGrows(a, x, b + c, a + b, c);
  }

  lemma PassedLoses(a: seq<Candidate>, b: seq<Candidate>, x: Candidate, c: seq<Candidate>, y: Candidate)
    requires y != x && y in a + b + [x] + c
    ensures y in a + [x] + b + c && Rank(a + [x] + b + c, y) >= Rank(a + b + [x] + c, y)
  {
    if y in a {
      PassedAhead(a, b, x, c, y);
    } else if y in b {
      PassedWithin(a, b, x, c, y);
    } else {
      PassedBehind(a, b, x, c, y);
    }
  }

  lemma PassedAhead(a: seq<Candidate>, b: seq<Candidate>, x: Candidate, c: seq<Candidate>, y: Candidate)
    requires y in a
    ensures Rank(a + [x] + b + c, y) >= Rank(a + b + [x] + c, y)
  {
    var i := IndexIn(a, y);
    SplitAt(a, i);
    var t := a[i + 1..];
    assert a + b + [x] + c == a[..i] + [y] + (t + b + [x] + c);
    assert a + [x] + b + c == a[..i] + [y] + (t + [x] + b + c);
    RankGrows(a[..i], y, t + b + [x] + c, a[..i], t + [x] + b + c);
  }

  lemma PassedWithin(a: seq<Candidate>, b: seq<Candidate>, x: Candidate, c: seq<Candidate>, y: Candidate)
    requires y != x && y !in a && y in b
    ensures Rank(a + [x] + b + c, y) >= Rank(a + b + [x] + c, y)
  {
    var i := IndexIn(b, y);
    SplitAt(b, i);
    var h, t := b[..i], b[i + 1..];
    assert a + b + [x] + c == (a + h) + [y] + (t + [x] + c);
    assert a + [x] + b + c == (a + [x] + h) + [y] + (t + c);
    RankGrows(a + h, y, t + [x] + c, a + [x] + h, t + c);
  }

  lemma PassedBehind(a: seq<Candidate>, b: seq<Candidate>, x: Candidate, c: seq<Candidate>, y: Candidate)
    requires y != x && y !in a && y !in b && y in c
    ensures Rank(a + [x] + b + c, y) >= Rank(a + b + [x] + c, y)
  {
    var i := IndexIn(c, y);
    SplitAt(c, i);
    var h, t := c[..i], c[i + 1..];
    assert a + b + [x] + c == (a + b + [x] + h) + [y] + t;
    assert a + [x] + b + c == (a + [x] + b + h) + [y] + t;
    RankGrows(a + b + [x] + h, y, t, a + [x] + b + h, t);
  }

  lemma SplitAt(s: seq<Candidate>, i: nat)
    requires i < |s|
    ensures s == s[..i] + [s[i]] + s[i + 1..]
  {}

  /** If moving up gains no rank, only repeats were passed and nothing changes. */
  lemma PromotedInVain(a: seq<Candidate>, b: seq<Candidate>, x: Candidate, c: seq<Candidate>)
    requires x !in a + b && Rank(a + [x] + b + c, x) >= Rank(a + b + [x] + c, x)
    ensures FirstOccurrences(a + [x] + b + c) == FirstOccurrences(a + b + [x] + c)
  {
    assert a + [x] + b + c == a + [x] + (b + c);
    RankCounts(a + [x] + (b + c), a, x, b + c);
    RankCounts(a + b + [x] + c, a + b, x, c);
    FirstOccurrencesGrow(a, b);
    assert FirstOccurrences(a + b) == FirstOccurrences(a);
    FirstOccurrencesKeep(a);
    FirstOccurrencesKeep(a + b);
    AlikeExtended(a + b, a, [x]);
    assert forall i | 0 <= i < |b| :: b[i] in a + b;
    SeenMayBeDropped(a + [x], b);
    AlikeExtended(a + [x] + b, a + b + [x], c);
  }

  lemma PromotedParts(l: seq<Candidate>, x: Candidate, b: nat)
    requires x in l && b <= IndexIn(l, x)
    ensures var f := IndexIn(l, x);
            && l == l[..b] + l[b..f] + [x] + l[f + 1..] && Promoted(l, x, b) == l[..b] + [x] + l[b..f] + l[f + 1..]
            && x !in l[..b] + l[b..f]
  {
    CutInFour(l, b, IndexIn(l, x));
  }

  lemma CutInFour<T>(l: seq<T>, b: nat, f: nat)
    requires b <= f < |l|
    ensures l[..b] + l[b..f] == l[..f] && l == l[..b] + l[b..f] + [l[f]] + l[f + 1..]
  {
    assert l[..b] + l[b..f] == l[..f];
    assert l == l[..f] + [l[f]] + l[f + 1..];
  }

  /** What promotion does to one list's contributions. */
  lemma PromotedContributions(l: seq<Candidate>, x: Candidate, b: nat, y: Candidate, k: nat)
    requires k >= 1 && x in l && b <= IndexIn(l, x)
    ensures var l' := Promoted(l, x, b);
            && (y != x ==> Contribution(l', y, k) <= Contribution(l, y, k))
            && (FirstOccurrences(l') == FirstOccurrences(l) || Contribution(l', x, k) > Contribution(l, x, k))
            && (y in l' <==> y in l)
  {
    var f := IndexIn(l, x);
    PromotedParts(l, x, b);
    PartsGain(l[..b], l[b..f], x, l[f + 1..], k);
    PartsLose(l[..b], l[b..f], x, l[f + 1..], y, k);
  }

  lemma PartsGain(p: seq<Candidate>, m: seq<Candidate>, x: Candidate, s: seq<Candidate>, k: nat)
    requires k >= 1 && x !in p + m
    ensures var l, l' := p + m + [x] + s, p + [x] + m + s;
            FirstOccurrences(l') == FirstOccurrences(l) || Contribution(l', x, k) > Contribution(l, x, k)
  {
    var l, l' := p + m + [x] + s, p + [x] + m + s;
    PromotedGains(p, m, x, s);
    if Rank(l', x) >= Rank(l, x) {
      PromotedInVain(p, m, x, s);
    } else {
      ReciprocalShrinks((k + Rank(l', x)) as real, (k + Rank(l, x)) as real);
    }
  }

  lemma PartsLose(p: seq<Candidate>, m: seq<Candidate>, x: Candidate, s: seq<Candidate>, y: Candidate, k: nat)
    requires k >= 1
    ensures var l, l' := p + m + [x] + s, p + [x] + m + s;
            (y in l' <==> y in l) && (y != x ==> Contribution(l', y, k) <= Contribution(l, y, k))
  {
    var l, l' := p + m + [x] + s, p + [x] + m + s;
    SameMembers(p, m, x, s, y);
    if y != x && y in l {
      PassedLoses(p, m, x, s, y);
      ReciprocalShrinks((k + Rank(l, y)) as real, (k + Rank(l', y)) as real);
    }
  }

  lemma SameMembers(a: seq<Candidate>, b: seq<Candidate>, x: Candidate, c: seq<Candidate>, y: Candidate)
    ensures y in a + [x] + b + c <==> y in a + b + [x] + c
  {}

  function Position(out: seq<Fused>, c: Candidate): nat
    requires c in Candidates(out)
  {
    IndexIn(Candidates(out), c)
  }

  lemma OutputHolds(lists: seq<seq<Candidate>>, c: Candidate, k: nat)
    requires k >= 1
    ensures c in Candidates(Fuse(lists, k)) <==> Found(lists, c)
  {
    FuseIsComplete(lists, k);
    var out := Fuse(lists, k);
    if Found(lists, c) {
      var f := Fused(c, Score(lists, c, k));
      assert f in out;
      var i :| 0 <= i < |out| && out[i] == f;
      assert Candidates(out)[i] == c;
    }
    if c in Candidates(out) {
      var i :| 0 <= i < |out| && Candidates(out)[i] == c;
      assert out[i] in out;
    }
  }

  lemma PromotedScores(lists: seq<seq<Candidate>>, n: nat, x: Candidate, b: nat, y: Candidate, k: nat)
    requires k >= 1 && n < |lists| && x in lists[n] && b <= IndexIn(lists[n], x)
    ensures var lists' := lists[n := Promoted(lists[n], x, b)];
            && (y != x ==> Score(lists', y, k) <= Score(lists, y, k))
            && (FirstOccurrences(lists'[n]) == FirstOccurrences(lists[n]) || Score(lists', x, k) > Score(lists, x, k))
            && (Found(lists', y) <==> Found(lists, y))
  {
    var lists' := lists[n := Promoted(lists[n], x, b)];
    var rest := lists[..n] + lists[n + 1..];
    assert lists'[..n] + lists'[n + 1..] == rest;
    PromotedContributions(lists[n], x, b, y, k);
    ScoreWithout(lists, n, x, k);
    ScoreWithout(lists', n, x, k);
    ScoreWithout(lists, n, y, k);
    ScoreWithout(lists', n, y, k);
    if Found(lists, y) {
      var i :| 0 <= i < |lists| && y in lists[i];
      assert y in lists'[i];
    }
    if Found(lists', y) {
      var i :| 0 <= i < |lists| && y in lists'[i];
      assert y in lists[i];
    }
  }

  /** Moving a candidate up in one list never worsens its place in the output, ties or no ties. */
  lemma PromotionNeverHurts(lists: seq<seq<Candidate>>, n: nat, x: Candidate, b: nat, k: nat)
    requires k >= 1 && n < |lists| && x in lists[n] && b <= IndexIn(lists[n], x)
    ensures var lists' := lists[n := Promoted(lists[n], x, b)];
            && x in Candidates(Fuse(lists, k)) && x in Candidates(Fuse(lists', k))
            && Position(Fuse(lists', k), x) <= Position(Fuse(lists, k), x)
  {
    var lists' := lists[n := Promoted(lists[n], x, b)];
    assert Found(lists, x);
    PromotedScores(lists, n, x, b, x, k);
    OutputHolds(lists, x, k);
    OutputHolds(lists', x, k);
    if FirstOccurrences(lists'[n]) == FirstOccurrences(lists[n]) {
      assert Reduced(lists') == Reduced(lists);
      RepeatsCountOnce(lists, k);
      RepeatsCountOnce(lists', k);
    } else {
      AheadAfterWasAhead(lists, n, x, b, k);
    }
  }

  lemma AheadAfterWasAhead(lists: seq<seq<Candidate>>, n: nat, x: Candidate, b: nat, k: nat)
    requires k >= 1 && n < |lists| && x in lists[n] && b <= IndexIn(lists[n], x)
    requires var lists' := lists[n := Promoted(lists[n], x, b)];
             && x in Candidates(Fuse(lists, k)) && x in Candidates(Fuse(lists', k))
             && Score(lists', x, k) > Score(lists, x, k)
    ensures Position(Fuse(lists[n := Promoted(lists[n], x, b)], k), x) <= Position(Fuse(lists, k), x)
  {
    var lists' := lists[n := Promoted(lists[n], x, b)];
    var out, out' := Fuse(lists, k), Fuse(lists', k);
    FuseIsComplete(lists, k);
    FuseIsComplete(lists', k);
    var cs, cs' := Candidates(out), Candidates(out');
    var p, p' := Position(out, x), Position(out', x);
    forall y | y in cs'[..p'] ensures y in cs[..p] {
      var i :| 0 <= i < p' && cs'[i] == y;
      assert y != x;
      assert !Before(out'[p'], out'[i]) && out'[i] in out' && out'[p'] in out';
      PromotedScores(lists, n, x, b, y, k);
      OutputHolds(lists, y, k);
      var j := IndexIn(cs, y);
      assert out[j] in out && out[p] in out;
      StandsBefore(out, out[j], out[p], j, p);
      assert cs[..p][j] == y;
    }
    DistinctSubset(cs'[..p'], cs[..p]);
  }
}
