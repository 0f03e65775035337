/** What loops keep of a sequence: first occurrences, as `dict.fromkeys` does, and chosen places. */
module Sequences {

  function FirstOccurrences<T(==)>(l: seq<T>): seq<T> {
    if l == [] then []
    else
      var init := FirstOccurrences(l[..|l| - 1]);
      if l[|l| - 1] in init then init else init + [l[|l| - 1]]
  }

  predicate NoRepeats<T(==)>(l: seq<T>) { forall i, j | 0 <= i < j < |l| :: l[i] != l[j] }

  lemma {:induction false} FirstOccurrencesKeep<T(!new)>(l: seq<T>)
    ensures NoRepeats(FirstOccurrences(l))
    ensures forall c :: c in FirstOccurrences(l) <==> c in l
  {
    if l != [] {
      FirstOccurrencesKeep(l[..|l| - 1]);
      assert l == l[..|l| - 1] + [l[|l| - 1]];
    }
  }

  // ---------------------------------------------------------------- chosen places

  /** `at` is where `keep` holds, in order. */
  ghost predicate Chosen<T(!new)>(rows: seq<T>, keep: T -> bool, at: seq<nat>) {
    && (forall i | 0 <= i < |at| :: at[i] < |rows| && keep(rows[at[i]]))
    && (forall i, j | 0 <= i < j < |at| :: at[i] < at[j])
    && forall k | 0 <= k < |rows| && keep(rows[k]) :: k in at
  }

  function Shifted(at: seq<nat>, n: nat): (r: seq<nat>)
    ensures |r| == |at| && forall i | 0 <= i < |at| :: r[i] == at[i] + n
  {
    seq(|at|, i requires 0 <= i < |at| => at[i] + n)
  }

  lemma ChosenOne<T(!new)>(x: T, keep: T -> bool)
    ensures Chosen([x], keep, if keep(x) then [0] else [])
  {
  }

  lemma ChosenAppend<T(!new)>(a: seq<T>, b: seq<T>, keep: T -> bool, at: seq<nat>, bt: seq<nat>)
    requires Chosen(a, keep, at) && Chosen(b, keep, bt)
    ensures Chosen(a + b, keep, at + Shifted(bt, |a|))
  {
    var ct := at + Shifted(bt, |a|);
    forall k | 0 <= k < |a + b| && keep((a + b)[k]) ensures k in ct {
      if k < |a| {
        assert k in at;
      } else {
        InShifted(bt, |a|, k - |a|);
      }
    }
    forall i | 0 <= i < |ct| ensures ct[i] < |a + b| && keep((a + b)[ct[i]]) {
      if i >= |at| {
        assert (a + b)[ct[i]] == b[bt[i - |at|]];
      }
    }
  }

  lemma InShifted(bt: seq<nat>, n: nat, k: nat)
    requires k in bt
    ensures k + n in Shifted(bt, n)
  {
    var i :| 0 <= i < |bt| && bt[i] == k;
    assert Shifted(bt, n)[i] == k + n;
  }

  /** `made` is what is made of what stands at these places, one of each. */
  ghost predicate IsMade<A(!new), B(!new)>(rows: seq<A>, rel: (A, B) -> bool, made: seq<B>, at: seq<nat>) {
    |made| == |at| && forall i | 0 <= i < |at| :: at[i] < |rows| && rel(rows[at[i]], made[i])
  }

  /** Of `rows` those that are kept, in order, each made into one of `made`. */
  ghost predicate Selects<A(!new), B(!new)>(rows: seq<A>, keep: A -> bool, rel: (A, B) -> bool, made: seq<B>) {
    exists at :: Chosen(rows, keep, at) && IsMade(rows, rel, made, at)
  }

  lemma SelectsNothing<A(!new), B(!new)>(keep: A -> bool, rel: (A, B) -> bool)
    ensures Selects([], keep, rel, [])
  {
    assert IsMade([], rel, [], []);
  }

  lemma SelectsOne<A(!new), B(!new)>(x: A, keep: A -> bool, rel: (A, B) -> bool, made: seq<B>)
    requires if keep(x) then |made| == 1 && rel(x, made[0]) else made == []
    ensures Selects([x], keep, rel, made)
  {
    ChosenOne(x, keep);
    assert IsMade([x], rel, made, if keep(x) then [0] else []);
  }

  lemma SelectsAppend<A(!new), B(!new)>(a: seq<A>, b: seq<A>, keep: A -> bool, rel: (A, B) -> bool, x: seq<B>, y: seq<B>)
    requires Selects(a, keep, rel, x) && Selects(b, keep, rel, y)
    ensures Selects(a + b, keep, rel, x + y)
  {
    var at :| Chosen(a, keep, at) && IsMade(a, rel, x, at);
    var bt :| Chosen(b, keep, bt) && IsMade(b, rel, y, bt);
    ChosenAppend(a, b, keep, at, bt);
    MadeAppend(a, b, rel, x, y, at, bt);
  }

  lemma MadeAppend<A(!new), B(!new)>(a: seq<A>, b: seq<A>, rel: (A, B) -> bool, x: seq<B>, y: seq<B>, at: seq<nat>, bt: seq<nat>)
    requires IsMade(a, rel, x, at) && IsMade(b, rel, y, bt)
    ensures IsMade(a + b, rel, x + y, at + Shifted(bt, |a|))
  {
    var ct := at + Shifted(bt, |a|);
    forall i | 0 <= i < |ct| ensures ct[i] < |a + b| && rel((a + b)[ct[i]], (x + y)[i]) {
      if i >= |at| {
        assert (a + b)[ct[i]] == b[bt[i - |at|]];
      }
    }
  }

  /** Something is made of this row. */
  ghost predicate IsUsed<A(!new), B(!new)>(a: A, rel: (A, B) -> bool, made: seq<B>) { exists i :: 0 <= i < |made| && rel(a, made[i]) }

  /** This is made of a row that is kept. */
  ghost predicate HasSource<A(!new), B(!new)>(rows: seq<A>, keep: A -> bool, rel: (A, B) -> bool, b: B) {
    exists k :: 0 <= k < |rows| && keep(rows[k]) && rel(rows[k], b)
  }

  /** Every row that is kept is made into something, and everything is made of such a row. */
  lemma SelectsEach<A(!new), B(!new)>(rows: seq<A>, keep: A -> bool, rel: (A, B) -> bool, made: seq<B>)
    requires Selects(rows, keep, rel, made)
    ensures forall k | 0 <= k < |rows| && keep(rows[k]) :: IsUsed(rows[k], rel, made)
    ensures forall i | 0 <= i < |made| :: HasSource(rows, keep, rel, made[i])
  {
    var at :| Chosen(rows, keep, at) && IsMade(rows, rel, made, at);
    forall k | 0 <= k < |rows| && keep(rows[k]) ensures IsUsed(rows[k], rel, made) {
      var i :| 0 <= i < |at| && at[i] == k;
      assert rel(rows[k], made[i]);
    }
    forall i | 0 <= i < |made| ensures HasSource(rows, keep, rel, made[i]) {
      var k := at[i];
      assert keep(rows[k]) && rel(rows[k], made[i]);
    }
  }
}
