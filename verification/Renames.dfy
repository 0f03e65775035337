/** How a reference would be spelled now: looking slugs up by stem, and rewriting connections. */
module Renames {
  import opened Text
  import opened ArtifactIds

  // ---------------------------------------------------------------- the index

  /** `index` files every id under its stem, and nothing else. */
  ghost predicate Indexes(index: map<string, set<string>>, ids: seq<string>, stemOf: string -> string) {
    && (forall stem | stem in index :: index[stem] != {})
    && (forall id | id in ids :: stemOf(id) in index && id in index[stemOf(id)])
    && (forall stem, id | stem in index && id in index[stem] :: id in ids && stemOf(id) == stem)
  }

  method CanonicalIdsByStem(ids: seq<string>, stemOf: string -> string) returns (index: map<string, set<string>>)
    ensures Indexes(index, ids, stemOf)
  {
    index := map[];
    for n := 0 to |ids|
      invariant Indexes(index, ids[..n], stemOf)
    {
      var id := ids[n];
      var stem := stemOf(id);
      var carrying := if stem in index then index[stem] else {};
      index := index[stem := carrying + {id}];
      assert ids[..n + 1] == ids[..n] + [id];
    }
    assert ids[..|ids|] == ids;
  }

  /** An index whose every entry is a well-formed id filed under its own stem. */
  ghost predicate WellFormed(index: map<string, set<string>>) {
    forall stem, id | stem in index && id in index[stem] :: ParseExact(id).Some? && StableId(id) == stem
  }

  lemma IndexOfWellFormedIds(index: map<string, set<string>>, ids: seq<string>)
    requires Indexes(index, ids, StableId) && forall id | id in ids :: ParseExact(id).Some?
    ensures WellFormed(index)
  {}

  lemma SingletonMember(s: set<string>, x: string, y: string)
    requires |s| == 1 && x in s && y in s
    ensures x == y
  {
    assert |s - {x}| == 0;
    assert y !in s - {x};
  }

  function Only(s: set<string>): (x: string)
    requires |s| == 1
    ensures x in s
  {
    assert forall x, y | x in s && y in s :: x == y by {
      forall x, y | x in s && y in s ensures x == y { SingletonMember(s, x, y); }
    }
    var x :| x in s;
    x
  }

  function CurrentSpelling(reference: string, index: map<string, set<string>>): Option<string> {
    if SlugOf(reference).None? then None else
    var stem := StableId(reference);
    var candidates := if stem in index then index[stem] else {};
    if |candidates| != 1 then None else
    var canonical := Only(candidates);
    if canonical == reference then None else Some(canonical)
  }

  /** The endpoint as a rewrite spells it. */
  function Respelled(endpoint: string, index: map<string, set<string>>): string {
    match CurrentSpelling(endpoint, index) case None => endpoint case Some(canonical) => canonical
  }

  lemma RespellingKeepsIdentity(endpoint: string, index: map<string, set<string>>)
    requires WellFormed(index)
    ensures var r := Respelled(endpoint, index);
            && StableId(r) == StableId(endpoint) && CurrentSpelling(r, index).None?
            && (r != endpoint ==> ParseExact(r).Some? && SlugOf(endpoint).Some?)
  {}

  // ---------------------------------------------------------------- rewriting a connection

  function Rewritten(w: Written, index: map<string, set<string>>): Written {
    Written(Respelled(w.source, index), Respelled(w.target, index), w.connType)
  }

  function CurrentConnectionSpelling(reference: string, index: map<string, set<string>>): Option<string> {
    match AsWritten(reference)
    case Err(_) => None
    case Ok(w) =>
      var rewritten := Rewritten(w, index).Spelling();
      if rewritten == reference then None else Some(rewritten)
  }

  /** Only what precedes and forms the join decides whether a separator starts before it. */
  lemma SeparatorIsLocal(a: string, b: string, i: nat)
    requires i < |a|
    ensures IsSeparator(a + "---" + b, i) <==> IsSeparator(a + "---", i)
    ensures Occurs("---", a + "---" + b, i) <==> Occurs("---", a + "---", i)
  {
    var s := a + "---" + b;
    var t := a + "---";
    assert s[..|t|] == t && s[i..i + 3] == t[i..i + 3];
    var start := i + 3;
    if IdStartsAt(s, start) {
      var k :| 2 <= k <= 6 && IdStartsWithPrefixOf(s, start, k);
      assert s[|a| + 2] == '-';
      assert start + k + 1 < |t|;
      assert IdStartsWithPrefixOf(t, start, k);
    }
    if IdStartsAt(t, start) {
      var k :| 2 <= k <= 6 && IdStartsWithPrefixOf(t, start, k);
      assert IdStartsWithPrefixOf(s, start, k);
    }
  }

  lemma SeparatorShift(a: string, b: string, i: nat)
    ensures IsSeparator(a + b, |a| + i) <==> IsSeparator(b, i)
  {
    IdStartShift(a, b, i + 3);
    if i + 3 <= |b| {
      assert (a + b)[|a| + i..|a| + i + 3] == b[i..i + 3];
    }
  }

  ghost predicate NoSeparator(s: string) { forall i: nat :: !IsSeparator(s, i) }

  /** What a successful reading says of the split: an id follows it, or no separator exists at all. */
  lemma SplitCases(source: string, target: string)
    requires Split(source + "---" + target) == Some((source, target))
    ensures var s := source + "---" + target;
            if IdStartsAt(target, 0)
            then IsSeparator(s, |source|) && forall i: nat | i < |source| :: !IsSeparator(s, i)
            else NoSeparator(s) && Find("---", s) == |source|
  {
    var s := source + "---" + target;
    SeparatorAtJoin(source, target);
    var i := FindSeparatorFrom(s, 0);
    assert i >= 0 ==> |s[..i]| == i;
  }

  lemma SplitAtPlain(s: string)
    requires NoSeparator(s)
    ensures Split(s) == SplitAt(s, Find("---", s))
  {
    assert FindSeparatorFrom(s, 0) < 0;
  }

  lemma IdStartExtends(a: string, b: string)
    requires IdStartsAt(a, 0)
    ensures IdStartsAt(a + b, 0)
  {
    var k :| 2 <= k <= 6 && IdStartsWithPrefixOf(a, 0, k);
    assert IdStartsWithPrefixOf(a + b, 0, k);
  }

  /** An endpoint that carries a slug over a well-formed stem begins as an id does. */
  lemma RespelledStartsAsId(endpoint: string, index: map<string, set<string>>)
    requires WellFormed(index) && Respelled(endpoint, index) != endpoint
    ensures IdStartsAt(endpoint, 0) && IdStartsAt(Respelled(endpoint, index), 0)
  {
    RespellingKeepsIdentity(endpoint, index);
    var id := ParseExact(Respelled(endpoint, index)).value;
    IdStarts(id);
    OverStem(endpoint, id);
    IdStarts(id.Stem());
    IdStartExtends(id.Short(), ['.'] + SlugOf(endpoint).value);
  }

  lemma OverStem(endpoint: string, id: EntityId)
    requires id.Valid() && SlugOf(endpoint).Some? && StableId(endpoint) == StableId(id.Spelling())
    ensures endpoint == id.Short() + (['.'] + SlugOf(endpoint).value)
    ensures StableId(endpoint) == id.Short()
  {
    StableOfSpelling(id);
    SlugOfSound(endpoint);
  }

  predicate NoDoubleAt(s: string) { forall i | 0 <= i < |s| - 1 :: !(s[i] == '@' && s[i + 1] == '@') }

  lemma LoneAtsOfJoin(a: string, b: string)
    ensures LoneAts(a + "---" + b) <==> NoDoubleAt(a) && LoneAts(b)
  {
    var s := a + "---" + b;
    var n := |a| + 3;
    assert forall i | 0 <= i < |a| :: s[i] == a[i];
    assert s[|a|] == s[|a| + 1] == s[|a| + 2] == '-';
    assert forall i | n <= i < |s| :: s[i] == b[i - n];
    if LoneAts(s) {
      forall i | 0 <= i < |b| && b[i] == '@' ensures i + 1 < |b| && b[i + 1] != '@' {
        assert s[i + n] == '@';
        assert s[i + n + 1] == b[i + 1];
      }
    }
  }

  lemma ReadMeansLoneAts(s: string)
    requires AsWritten(s).Ok?
    ensures var w := AsWritten(s).value;
            && w.source != [] && w.target != [] && w.connType != []
            && LoneAts(w.source + "---" + w.target)
            && Split(w.source + "---" + w.target) == Some((w.source, w.target))
  {
    var at := Find("@@", s);
    SplitRestores(s[..at]);
    LoneAtsBefore(s, at);
  }

  lemma LoneAtsBefore(s: string, at: int)
    requires Occurs("@@", s, at) && forall i | 0 <= i < at :: !Occurs("@@", s, i)
    ensures LoneAts(s[..at])
  {
    var e := s[..at];
    assert s[at..at + 2] == "@@" && s[at] == s[at..at + 2][0];
    forall i | 0 <= i < |e| && e[i] == '@' ensures i + 1 < |e| && e[i + 1] != '@' {
      assert !Occurs("@@", s, i);
      var u := s[i..i + 2];
      assert u[0] == s[i] && u[1] == s[i + 1] && u == [s[i], s[i + 1]];
    }
  }

  lemma RespelledAts(w: Written, index: map<string, set<string>>)
    requires WellFormed(index) && LoneAts(w.source + "---" + w.target)
    ensures LoneAts(Respelled(w.source, index) + "---" + Respelled(w.target, index))
  {
    LoneAtsOfJoin(w.source, w.target);
    var w' := Rewritten(w, index);
    RespellingKeepsIdentity(w.source, index);
    RespellingKeepsIdentity(w.target, index);
    if w'.source != w.source {
      LoneAtsInId(ParseExact(w'.source).value);
    }
    if w'.target != w.target {
      LoneAtsInId(ParseExact(w'.target).value);
    }
    LoneAtsOfJoin(w'.source, w'.target);
  }

  /** When an id follows the join, the rewritten connection is split where the original was. */
  lemma SplitOfIdAware(w: Written, index: map<string, set<string>>)
    requires WellFormed(index) && IdStartsAt(w.target, 0)
    requires Split(w.source + "---" + w.target) == Some((w.source, w.target))
    ensures var w' := Rewritten(w, index);
            Split(w'.source + "---" + w'.target) == Some((w'.source, w'.target))
  {
    var w' := Rewritten(w, index);
    if w'.target != w.target {
      RespelledStartsAsId(w.target, index);
    }
    RespellingKeepsIdentity(w.source, index);
    if w'.source != w.source {
      SplitAfterId(ParseExact(w'.source).value, w'.target);
    } else {
      SplitWithSameSource(w.source, w.target, w'.target);
    }
  }

  lemma SplitWithSameSource(source: string, target: string, target': string)
    requires IdStartsAt(target, 0) && IdStartsAt(target', 0)
    requires Split(source + "---" + target) == Some((source, target))
    ensures Split(source + "---" + target') == Some((source, target'))
  {
    SplitCases(source, target);
    SeparatorAtJoin(source, target');
    var s' := source + "---" + target';
    forall i: nat | i < |source| ensures !IsSeparator(s', i) {
      SeparatorIsLocal(source, target, i);
      SeparatorIsLocal(source, target', i);
    }
    SplitAtFirst(s', |source|);
    assert s'[..|source|] == source && s'[|source| + 3..] == target';
  }

  /** With no id behind the join, respelling the source by an id leaves no id-aware separator. */
  lemma StillNoSeparator(source: string, id: EntityId, target: string)
    requires id.Valid() && NoSeparator(source + "---" + target)
    ensures NoSeparator(id.Spelling() + "---" + target)
  {
    var c := id.Spelling();
    var s := c + "---" + target;
    forall i: nat ensures !IsSeparator(s, i) {
      if i < |c| {
        NoSeparatorWithin(id, target, i);
      } else {
        var tail := "---" + target;
        SeparatorShift(c, tail, i - |c|);
        SeparatorShift(source, tail, i - |c|);
        assert s == c + tail && source + "---" + target == source + tail;
      }
    }
  }

  lemma FindAtJoin(a: string, b: string)
    ensures Find("---", a + "---" + b) == Find("---", a + "---") <= |a|
  {
    var s := a + "---" + b;
    var t := a + "---";
    assert t[|a|..|a| + 3] == "---" && s[|a|..|a| + 3] == "---";
    assert Occurs("---", t, |a|) && Occurs("---", s, |a|);
    forall i: nat | i < |a| ensures Occurs("---", s, i) <==> Occurs("---", t, i) { SeparatorIsLocal(a, b, i); }
  }

  /** Whether a current spelling can stand before a join that no id follows: it must carry no slug
      whose hyphens run into the join or imitate it. */
  predicate StandsBeforeJoin(current: string) {
    SlugOf(current).None? || Find("---", current + "---") == |current|
  }

  /** The condition under which a rewrite is sound, on what the caller has in hand. */
  predicate SafeToRewrite(w: Written, index: map<string, set<string>>) {
    || IdStartsAt(w.target, 0)
    || Respelled(w.source, index) == w.source
    || StandsBeforeJoin(Respelled(w.source, index))
  }

  /** A rewrite that is read back as it was written keeps the identity and has nothing left to say. */
  lemma ReadBackSettles(s: string, index: map<string, set<string>>)
    requires WellFormed(index) && AsWritten(s).Ok?
    requires var w' := Rewritten(AsWritten(s).value, index); AsWritten(w'.Spelling()) == Ok(w')
    ensures var r := Rewritten(AsWritten(s).value, index).Spelling();
            StableConnId(r) == StableConnId(s) && CurrentConnectionSpelling(r, index).None?
  {
    var w := AsWritten(s).value;
    RespellingKeepsIdentity(w.source, index);
    RespellingKeepsIdentity(w.target, index);
  }

  lemma StableOfPrefixed(y: string, target: string)
    requires '.' !in y
    ensures StableId(y + target) == y + StableId(target)
  {
    CountAppend(y, target, '.');
    CountAbsent(y, '.');
    CountAbsent(target, '.');
    CountAbsent(y + target, '.');
    if Count(target, '.') >= 2 {
      LastIndexOfPrefixed(y, target);
    }
  }

  lemma LastIndexOfPrefixed(y: string, target: string)
    requires '.' in target
    ensures LastIndexOf(target, '.') >= 0 && LastIndexOf(y + target, '.') == |y| + LastIndexOf(target, '.')
  {
    var s := y + target;
    var n := LastIndexOf(target, '.');
    assert s[|y| + n] == '.' && forall i | |y| + n < i < |s| :: s[i] == target[i - |y|];
  }

  /** An endpoint opening with text that ends in a hyphen and holds no `@` is never respelled. */
  lemma PrefixedNotRespelled(y: string, target: string, index: map<string, set<string>>)
    requires WellFormed(index) && y != [] && y[|y| - 1] == '-' && '@' !in y
    ensures Respelled(y + target, index) == y + target
  {
    var s := y + target;
    assert s[|y| - 1] == '-' && forall i | 0 <= i < |y| :: s[i] in y;
    assert !IdStartsAt(s, 0);
    if Respelled(s, index) != s {
      RespelledStartsAsId(s, index);
    }
  }

  /** How a plain join reads after its source is respelled to an id whose hyphens come first. */
  lemma EarlyJoin(source: string, target: string, connType: string, id: EntityId, p: int)
    requires id.Valid() && target != [] && connType != [] && LoneAts(id.Spelling() + "---" + target)
    requires NoSeparator(source + "---" + target)
    requires p == Find("---", id.Spelling() + "---") < |id.Spelling()|
    ensures 0 < p
    ensures var c := id.Spelling(); var y := (c + "---")[p + 3..];
            && y != [] && y[|y| - 1] == '-'
            && AsWritten(Written(c, target, connType).Spelling()) == Ok(Written(c[..p], y + target, connType))
  {
    var c := id.Spelling();
    var y := (c + "---")[p + 3..];
    StillNoSeparator(source, id, target);
    FindAtJoin(c, target);
    SplitAtPlain(c + "---" + target);
    SpellingShape(id);
    CutEarly(c, target, p);
    AsWrittenIs(Written(c[..p], y + target, connType));
  }

  lemma CutEarly(c: string, target: string, p: int)
    requires c != [] && IsUpper(c[0]) && p == Find("---", c + "---") < |c|
    ensures 0 < p && Occurs("---", c + "---" + target, p)
    ensures var s := c + "---" + target; var y := (c + "---")[p + 3..];
            && y != [] && y[|y| - 1] == '-'
            && s == c[..p] + "---" + (y + target) && s[..p] == c[..p] && s[p + 3..] == y + target
  {
    var t := c + "---";
    var s := t + target;
    FindAtJoin(c, target);
    assert Occurs("---", t, p) by {
      assert t[|c|..|c| + 3] == "---";
      assert Occurs("---", t, |c|);
    }
    assert t[p] == t[p..p + 3][0] == '-' && t[0] == c[0];
    assert t == t[..p] + t[p..p + 3] + t[p + 3..];
    assert t[..p] == c[..p];
  }

  lemma EarlyHyphens(c: string, p: int)
    requires p == Find("---", c + "---") < |c|
    ensures 0 <= p && var t := c + "---"; t[p] == t[p + 1] == t[p + 2] == '-'
  {
    Hyphens(c + "---", |c|);
    Hyphens(c + "---", p);
  }

  /** The stem shared by the old and the current spelling holds no `---` of its own. */
  lemma EarlyJoinIsPastTheStem(source: string, target: string, id: EntityId, p: int)
    requires id.Valid() && SlugOf(source).Some? && StableId(source) == StableId(id.Spelling())
    requires Find("---", source + "---" + target) == |source|
    requires p == Find("---", id.Spelling() + "---") < |id.Spelling()|
    ensures 0 <= p && if id.slug.Some? then p > |id.Short()| else p > |id.Short()| - 3
  {
    OverStem(source, id);
    SpellingOverStem(id);
    EarlyHyphens(id.Spelling(), p);
    PastStem(id.Short(), id.SlugTail(), ['.'] + SlugOf(source).value, target, p);
  }

  lemma PastStem(stem: string, tail: string, rest: string, target: string, p: nat)
    requires rest != [] && Find("---", stem + rest + "---" + target) == |stem + rest|
    requires tail != [] ==> tail[0] == '.'
    requires var t := stem + tail + "---"; p + 2 < |t| && t[p] == t[p + 1] == t[p + 2] == '-'
    ensures if tail != [] then p > |stem| else p > |stem| - 3
  {
    var t := stem + tail + "---";
    assert forall i | 0 <= i < |stem| :: t[i] == stem[i];
    assert tail != [] ==> t[|stem|] == '.';
    if p + 3 <= |stem| {
      NoHyphensInHead(stem, rest, target, p);
    }
  }

  lemma NoHyphensInHead(head: string, rest: string, target: string, p: nat)
    requires Find("---", head + rest + "---" + target) == |head + rest| && p + 3 <= |head| && rest != []
    ensures !(head[p] == head[p + 1] == head[p + 2] == '-')
  {
    var s := head + rest + "---" + target;
    Hyphens(s, p);
    assert s[p] == head[p] && s[p + 1] == head[p + 1] && s[p + 2] == head[p + 2];
  }

  lemma EarlyJoinRest(id: EntityId, p: int)
    requires id.Valid() && |id.Short()| - 3 < p < |id.Spelling()| && p >= 0
    requires id.slug.Some? ==> p > |id.Short()|
    ensures '.' !in (id.Spelling() + "---")[p + 3..] && '@' !in (id.Spelling() + "---")[p + 3..]
  {
    var c := id.Spelling();
    var t := c + "---";
    DotsAfterStem(id);
    SpellingShape(id);
    ShortReachesPastAt(id);
    assert forall i | p + 3 <= i < |t| :: t[i] == '-' || (i < |c| && t[i] == c[i]);
    var y := t[p + 3..];
    assert forall i | 0 <= i < |y| :: y[i] == t[p + 3 + i];
  }

  lemma ShortReachesPastAt(id: EntityId)
    requires id.Valid()
    ensures |id.Short()| > |id.prefix| + 3
  {
    SpellingShape(id.Stem());
  }

  lemma DotsAfterStem(id: EntityId)
    requires id.Valid()
    ensures var c := id.Spelling(); var n := |id.Short()|;
            && (if id.slug.Some? then c == id.Short() + ['.'] + id.slug.value && '.' !in id.slug.value
                else c == id.Short())
            && forall i | n < i < |c| :: c[i] != '.'
  {
    if id.slug.None? {
      assert id.Stem() == id;
    } else {
      var c := id.Spelling();
      SpellingOverStem(id);
      assert forall i | |id.Short()| < i < |c| :: c[i] in id.slug.value;
    }
  }

  /** Where the current spelling is the bare stem, its closing hyphens merely move across the join. */
  lemma SlugFreeSettles(w: Written, index: map<string, set<string>>, id: EntityId, p: int)
    requires WellFormed(index) && id.Valid() && id.slug.None? && w.target != [] && w.connType != []
    requires LoneAts(id.Spelling() + "---" + w.target) && NoSeparator(w.source + "---" + w.target)
    requires Find("---", w.source + "---" + w.target) == |w.source|
    requires SlugOf(w.source).Some? && StableId(w.source) == StableId(id.Spelling())
    requires p == Find("---", id.Spelling() + "---") < |id.Spelling()|
    ensures var r := Written(id.Spelling(), w.target, w.connType).Spelling();
            && StableConnId(r) == StableId(w.source) + "---" + StableId(w.target) + "@@" + w.connType
            && CurrentConnectionSpelling(r, index).None?
  {
    var c := id.Spelling();
    var y := (c + "---")[p + 3..];
    EarlyJoin(w.source, w.target, w.connType, id, p);
    EarlyJoinIsPastTheStem(w.source, w.target, id, p);
    EarlyJoinRest(id, p);
    StableOfSpelling(id);
    EarlyHyphens(c, p);
    HyphensMove(c, p);
    BareHead(id, p);
    StableOfPrefixed(y, w.target);
    PrefixedNotRespelled(y, w.target, index);
    MoveAcross(c[..p], y, c, StableId(w.target), w.connType);
    MoveAcross(c[..p], y, c, w.target, w.connType);
  }

  lemma MoveAcross(head: string, y: string, c: string, target: string, connType: string)
    requires head + "---" + y == c + "---"
    ensures Written(head, y + target, connType).Spelling() == Written(c, target, connType).Spelling()
  {
    assert head + "---" + (y + target) == head + "---" + y + target;
  }

  lemma BareHead(id: EntityId, p: int)
    requires id.Valid() && id.slug.None? && 0 <= p < |id.Spelling()| && '.' !in id.Spelling()[p..]
    ensures var head := id.Spelling()[..p]; StableId(head) == head && SlugOf(head).None?
  {
    var c := id.Spelling();
    DotsInStem(id);
    DotsAfterStem(id);
    CountAppend(c[..p], c[p..], '.');
    CountAbsent(c[p..], '.');
    assert c == c[..p] + c[p..];
  }

  lemma HyphensMove(c: string, p: int)
    requires 0 <= p && |c| - 3 < p < |c|
    requires var t := c + "---"; t[p] == t[p + 1] == t[p + 2] == '-'
    ensures var y := (c + "---")[p + 3..]; c[p..] == y && c[..p] + "---" + y == c + "---"
  {
    var t := c + "---";
    var y := t[p + 3..];
    assert forall i | p <= i < |t| :: t[i] == '-';
    assert |y| == |c[p..]| && forall i | 0 <= i < |y| :: y[i] == t[p + 3 + i] && c[p..][i] == t[p + i];
    var m := c[..p] + "---" + y;
    assert |m| == |t| && forall i | 0 <= i < |t| :: m[i] == t[i];
  }

  /** Where the slug's hyphens imitate the join, part of the slug is read as target, and each
      further rewrite moves another part of it across. */
  lemma SluggedDrifts(w: Written, index: map<string, set<string>>, id: EntityId, c: string, p: int)
    requires WellFormed(index) && id.Valid() && id.slug.Some? && c == id.Spelling() && w.target != [] && w.connType != []
    requires LoneAts(c + "---" + w.target) && NoSeparator(w.source + "---" + w.target)
    requires Find("---", w.source + "---" + w.target) == |w.source|
    requires CurrentSpelling(w.source, index) == Some(c)
    requires p == Find("---", c + "---") < |c|
    ensures var r := Written(c, w.target, w.connType).Spelling();
            && StableConnId(r) != StableId(w.source) + "---" + StableId(w.target) + "@@" + w.connType
            && CurrentConnectionSpelling(r, index).Some?
  {
    SpellsTheSameStem(w.source, id, index);
    EarlyJoinIsPastTheStem(w.source, w.target, id, p);
    DriftingParts(w, id, c, StableId(w.source), p);
    DriftsFromHead(w, c, StableId(w.source), c[..p], (c + "---")[p + 3..], index);
  }

  lemma SpellsTheSameStem(reference: string, id: EntityId, index: map<string, set<string>>)
    requires WellFormed(index) && id.Valid() && CurrentSpelling(reference, index) == Some(id.Spelling())
    ensures SlugOf(reference).Some? && StableId(reference) == StableId(id.Spelling()) == id.Short()
  {
    RespellingKeepsIdentity(reference, index);
    StableOfSpelling(id);
  }

  /** What is read as the source, and what is moved into the target. */
  lemma DriftingParts(w: Written, id: EntityId, c: string, stem: string, p: int)
    requires id.Valid() && id.slug.Some? && c == id.Spelling() && stem == id.Short()
    requires w.target != [] && w.connType != [] && LoneAts(c + "---" + w.target) && NoSeparator(w.source + "---" + w.target)
    requires p == Find("---", c + "---") && |stem| < p < |c|
    ensures var y := (c + "---")[p + 3..];
            && StableId(c[..p]) == stem && SlugOf(c[..p]).Some? && c[..p] != c
            && y != [] && y[|y| - 1] == '-' && '@' !in y && '.' !in y
            && AsWritten(Written(c, w.target, w.connType).Spelling()) == Ok(Written(c[..p], y + w.target, w.connType))
  {
    EarlyJoin(w.source, w.target, w.connType, id, p);
    EarlyJoinRest(id, p);
    SluggedHead(id, p);
  }

  lemma DriftsFromHead(w: Written, c: string, stem: string, head: string, y: string, index: map<string, set<string>>)
    requires WellFormed(index) && CurrentSpelling(w.source, index) == Some(c) && StableId(w.source) == stem
    requires StableId(head) == stem && SlugOf(head).Some? && head != c
    requires y != [] && y[|y| - 1] == '-' && '@' !in y && '.' !in y
    requires AsWritten(Written(c, w.target, w.connType).Spelling()) == Ok(Written(head, y + w.target, w.connType))
    ensures var r := Written(c, w.target, w.connType).Spelling();
            && StableConnId(r) != stem + "---" + StableId(w.target) + "@@" + w.connType
            && CurrentConnectionSpelling(r, index).Some?
  {
    SameStemSameSpelling(w.source, head, index);
    TargetOfDrift(y, w.target, index);
    Drift(Written(c, w.target, w.connType), Written(head, y + w.target, w.connType), y, stem, index);
  }

  lemma TargetOfDrift(y: string, target: string, index: map<string, set<string>>)
    requires WellFormed(index) && y != [] && y[|y| - 1] == '-' && '@' !in y && '.' !in y
    ensures StableId(y + target) == y + StableId(target) && Respelled(y + target, index) == y + target
  {
    StableOfPrefixed(y, target);
    PrefixedNotRespelled(y, target, index);
  }

  lemma SameStemSameSpelling(a: string, b: string, index: map<string, set<string>>)
    requires CurrentSpelling(a, index).Some? && SlugOf(b).Some? && StableId(a) == StableId(b)
    requires CurrentSpelling(a, index).value != b
    ensures CurrentSpelling(b, index) == CurrentSpelling(a, index)
  {}

  lemma Drift(r: Written, w2: Written, y: string, stem: string, index: map<string, set<string>>)
    requires AsWritten(r.Spelling()) == Ok(w2) && y != [] && w2.target == y + r.target && w2.connType == r.connType
    requires StableId(w2.source) == stem && StableId(w2.target) == y + StableId(r.target)
    requires Respelled(w2.source, index) == r.source && Respelled(w2.target, index) == w2.target
    ensures StableConnId(r.Spelling()) != stem + "---" + StableId(r.target) + "@@" + r.connType
    ensures CurrentConnectionSpelling(r.Spelling(), index).Some?
  {
    var again := Rewritten(w2, index);
    assert |again.Spelling()| == |r.Spelling()| + |y|;
  }

  lemma SluggedHead(id: EntityId, p: int)
    requires id.Valid() && id.slug.Some? && |id.Short()| < p < |id.Spelling()|
    ensures var head := id.Spelling()[..p]; StableId(head) == id.Short() && SlugOf(head).Some?
  {
    var c := id.Spelling();
    var stem := id.Short();
    DotsAfterStem(id);
    DotsInStem(id);
    var kept := id.slug.value[..p - |stem| - 1];
    assert c[..p] == stem + ['.'] + kept;
    StableOfDotted(stem, kept);
  }

  /** Rewriting a connection to current slugs keeps its stable id exactly when the rewrite is safe,
      and exactly then a second call has nothing to say. */
  lemma RewriteIsSoundIffSafe(s: string, index: map<string, set<string>>)
    requires WellFormed(index) && CurrentConnectionSpelling(s, index).Some?
    ensures var r := CurrentConnectionSpelling(s, index).value; var safe := SafeToRewrite(AsWritten(s).value, index);
            && (StableConnId(r) == StableConnId(s) <==> safe)
            && (CurrentConnectionSpelling(r, index).None? <==> safe)
  {
    var w := AsWritten(s).value;
    var w' := Rewritten(w, index);
    ReadMeansLoneAts(s);
    RespelledAts(w, index);
    RespellingKeepsIdentity(w.source, index);
    if IdStartsAt(w.target, 0) {
      SplitOfIdAware(w, index);
      RewrittenIsFull(w, index);
      AsWrittenIs(w');
      ReadBackSettles(s, index);
    } else {
      SplitCases(w.source, w.target);
      if w'.target != w.target {
        RespelledStartsAsId(w.target, index);
      }
      if w'.source == w.source {
        AsWrittenRestores(s);
      } else {
        PlainRewrite(s, index);
      }
    }
  }

  lemma RewrittenIsFull(w: Written, index: map<string, set<string>>)
    requires WellFormed(index) && w.source != [] && w.target != []
    ensures Rewritten(w, index).source != [] && Rewritten(w, index).target != []
  {
    RespellingKeepsIdentity(w.source, index);
    RespellingKeepsIdentity(w.target, index);
  }

  lemma PlainRewrite(s: string, index: map<string, set<string>>)
    requires WellFormed(index) && AsWritten(s).Ok?
    requires var w := AsWritten(s).value;
             && !IdStartsAt(w.target, 0) && Respelled(w.target, index) == w.target
             && Respelled(w.source, index) != w.source
    ensures var w := AsWritten(s).value; var r := Rewritten(w, index).Spelling();
            var safe := StandsBeforeJoin(Respelled(w.source, index));
            && (StableConnId(r) == StableConnId(s) <==> safe)
            && (CurrentConnectionSpelling(r, index).None? <==> safe)
  {
    var w := AsWritten(s).value;
    var c := Respelled(w.source, index);
    RespellingKeepsIdentity(w.source, index);
    var id := ParseExact(c).value;
    ReadMeansLoneAts(s);
    RespelledAts(w, index);
    SplitCases(w.source, w.target);
    StableOfSpelling(id);
    FindAtJoin(c, w.target);
    var p := Find("---", c + "---");
    if p == |c| {
      StillNoSeparator(w.source, id, w.target);
      SplitAtPlain(c + "---" + w.target);
      ReadsBackAtJoin(c, w.target, w.connType);
      ReadBackSettles(s, index);
    } else if id.slug.None? {
      SlugFreeSettles(w, index, id, p);
    } else {
      SluggedDrifts(w, index, id, c, p);
    }
  }

  lemma ReadsBackAtJoin(c: string, target: string, connType: string)
    requires c != [] && target != [] && connType != [] && LoneAts(c + "---" + target)
    requires Split(c + "---" + target) == SplitAt(c + "---" + target, |c|)
    ensures AsWritten(Written(c, target, connType).Spelling()) == Ok(Written(c, target, connType))
  {
    var s := c + "---" + target;
    assert s[..|c|] == c && s[|c|..|c| + 3] == "---" && s[|c| + 3..] == target;
    AsWrittenIs(Written(c, target, connType));
  }

  /** For well-formed endpoints there is no condition: identity is kept and the rewrite is a fixpoint. */
  lemma RewriteOfIdsSettles(source: EntityId, target: EntityId, connType: string, index: map<string, set<string>>)
    requires source.Valid() && target.Valid() && connType != [] && WellFormed(index)
    ensures var s := Written(source.Spelling(), target.Spelling(), connType).Spelling();
            match CurrentConnectionSpelling(s, index)
            case None => true
            case Some(r) => StableConnId(r) == StableConnId(s) && CurrentConnectionSpelling(r, index).None?
  {
    ConnectionRoundTrip(source, target, connType);
    IdStarts(target);
    var s := Written(source.Spelling(), target.Spelling(), connType).Spelling();
    if CurrentConnectionSpelling(s, index).Some? {
      RewriteIsSoundIffSafe(s, index);
    }
  }

  /** How a reference under a stem would be spelled now, as the index tells: one with a slug as the only
      id filed under the stem; any other, and one whose stem is unknown or ambiguous, as it is. */
  ghost predicate NowFiled(reference: string, stem: string, slugged: bool, index: map<string, set<string>>, now: string) {
    if slugged && stem in index && |index[stem]| == 1 then index[stem] == {now} else now == reference
  }

  ghost predicate SpelledNow(id: EntityId, index: map<string, set<string>>, now: string) {
    NowFiled(id.Spelling(), id.Short(), id.slug.Some?, index, now)
  }

  lemma OnlyMember(s: set<string>, x: string)
    requires |s| == 1 && x in s
    ensures s == {x}
  {
    forall y | y in s ensures y == x {
      SingletonMember(s, x, y);
    }
  }

  lemma FiledAlone(reference: string, stem: string, index: map<string, set<string>>, now: string)
    requires SlugOf(reference).Some? && StableId(reference) == stem && stem in index && index[stem] == {now}
    ensures Respelled(reference, index) == now
  {
    OnlyOfSingleton(now);
  }

  lemma NotFiledAlone(reference: string, stem: string, index: map<string, set<string>>)
    requires StableId(reference) == stem && (SlugOf(reference).None? || stem !in index || |index[stem]| != 1)
    ensures Respelled(reference, index) == reference
  {
  }

  lemma NowFiledIs(reference: string, stem: string, slugged: bool, index: map<string, set<string>>, now: string)
    requires StableId(reference) == stem && SlugOf(reference).Some? == slugged
    requires NowFiled(reference, stem, slugged, index, now)
    ensures Respelled(reference, index) == now
  {
    if slugged && stem in index && |index[stem]| == 1 {
      FiledAlone(reference, stem, index, now);
    } else {
      NotFiledAlone(reference, stem, index);
    }
  }

  lemma FiledIsWellFormed(index: map<string, set<string>>, stem: string, id: string)
    requires WellFormed(index) && stem in index && id in index[stem]
    ensures ParseExact(id).Some?
  {
  }

  lemma NowFiledIsWellFormed(reference: string, stem: string, slugged: bool, index: map<string, set<string>>, now: string)
    requires ParseExact(reference).Some? && WellFormed(index) && NowFiled(reference, stem, slugged, index, now)
    ensures ParseExact(now).Some?
  {
    if slugged && stem in index && |index[stem]| == 1 {
      assert now in {now};
      FiledIsWellFormed(index, stem, now);
    }
  }

  lemma SpelledNowIs(id: EntityId, index: map<string, set<string>>, now: string)
    requires id.Valid() && WellFormed(index) && SpelledNow(id, index, now)
    ensures Respelled(id.Spelling(), index) == now && ParseExact(now).Some?
  {
    StableOfSpelling(id);
    ParseSpelling(id);
    NowFiledIs(id.Spelling(), id.Short(), id.slug.Some?, index, now);
    NowFiledIsWellFormed(id.Spelling(), id.Short(), id.slug.Some?, index, now);
  }

  /** Every id has such a spelling. */
  lemma SpelledNowExists(id: EntityId, index: map<string, set<string>>) returns (now: string)
    ensures SpelledNow(id, index, now)
  {
    var stem := id.Short();
    if id.slug.Some? && stem in index && |index[stem]| == 1 {
      now := Only(index[stem]);
      OnlyMember(index[stem], now);
    } else {
      now := id.Spelling();
    }
  }

  lemma PrintedReads(source: string, target: string, connType: string)
    requires ParseExact(source).Some? && ParseExact(target).Some? && connType != []
    ensures AsWritten(Written(source, target, connType).Spelling()) == Ok(Written(source, target, connType))
  {
    ConnectionRoundTrip(ParseExact(source).value, ParseExact(target).value, connType);
  }

  lemma AnswerReads(w: Written, w': Written, index: map<string, set<string>>)
    requires AsWritten(w.Spelling()) == Ok(w) && AsWritten(w'.Spelling()) == Ok(w')
    requires Respelled(w.source, index) == w'.source && Respelled(w.target, index) == w'.target && w.connType == w'.connType
    ensures match CurrentConnectionSpelling(w.Spelling(), index)
            case None => w' == w
            case Some(r) => AsWritten(r) == Ok(w') && w' != w
  {
    assert Rewritten(w, index) == w';
  }

  /** Between well-formed ids the answer reads back as each end spelled as it would be now, source and
      target each on its own, and there is an answer exactly if that changes one of them. */
  lemma BothEndsAreSpelledNow(source: EntityId, target: EntityId, connType: string, index: map<string, set<string>>,
                              u: string, v: string)
    requires source.Valid() && target.Valid() && connType != [] && WellFormed(index)
    requires SpelledNow(source, index, u) && SpelledNow(target, index, v)
    ensures var w := Written(source.Spelling(), target.Spelling(), connType); var now := Written(u, v, connType);
            match CurrentConnectionSpelling(w.Spelling(), index)
            case None => now == w
            case Some(r) => AsWritten(r) == Ok(now) && now != w
  {
    ConnectionRoundTrip(source, target, connType);
    SpelledNowIs(source, index, u);
    SpelledNowIs(target, index, v);
    PrintedReads(u, v, connType);
    AnswerReads(Written(source.Spelling(), target.Spelling(), connType), Written(u, v, connType), index);
  }

  /** What is no id and offers no ambiguity: a placeholder target. */
  predicate Plain(s: string) { s != [] && '.' !in s && '-' !in s && '@' !in s }

  /** The unsafe case, over a placeholder target: the current slug's hyphens imitate the join. */
  lemma RewriteCanDrift(before: EntityId, now: EntityId, target: string, connType: string)
    requires before.Valid() && now.Valid() && before.Stem() == now.Stem() && before.slug.Some? && now.slug.Some?
    requires '-' !in before.Spelling() && Find("---", now.Spelling() + "---") < |now.Spelling()|
    requires Plain(target) && connType != []
    ensures var s := Written(before.Spelling(), target, connType).Spelling();
            var index := map[now.Short() := {now.Spelling()}];
            && WellFormed(index) && CurrentConnectionSpelling(s, index).Some?
            && StableConnId(CurrentConnectionSpelling(s, index).value) != StableConnId(s)
  {
    var index := map[now.Short() := {now.Spelling()}];
    LookupFinds(before, now, index);
    PlaceholderReads(before, target, connType);
    PlainTarget(target);
    PlaceholderDrifts(Written(before.Spelling(), target, connType), now.Spelling(), index);
  }

  lemma PlainTarget(target: string)
    requires Plain(target)
    ensures SlugOf(target).None? && forall i: nat :: !IdStartsAt(target, i)
  {
    CountAbsent(target, '.');
  }

  lemma PlaceholderDrifts(w: Written, current: string, index: map<string, set<string>>)
    requires WellFormed(index) && CurrentSpelling(w.source, index) == Some(current)
    requires w.source != current && !StandsBeforeJoin(current)
    requires SlugOf(w.target).None? && !IdStartsAt(w.target, 0) && AsWritten(w.Spelling()) == Ok(w)
    ensures var s := w.Spelling();
            && CurrentConnectionSpelling(s, index).Some?
            && StableConnId(CurrentConnectionSpelling(s, index).value) != StableConnId(s)
  {
    OtherSourceOtherSpelling(w, w.(source := current));
    RewriteIsSoundIffSafe(w.Spelling(), index);
  }

  lemma LookupFinds(before: EntityId, now: EntityId, index: map<string, set<string>>)
    requires before.Valid() && now.Valid() && before.Stem() == now.Stem() && before.slug.Some? && now.slug.Some?
    requires '-' !in before.Spelling() && Find("---", now.Spelling() + "---") < |now.Spelling()|
    requires index == map[now.Short() := {now.Spelling()}]
    ensures WellFormed(index) && CurrentSpelling(before.Spelling(), index) == Some(now.Spelling())
    ensures before.Spelling() != now.Spelling() && !StandsBeforeJoin(now.Spelling())
  {
    ParseSpelling(now);
    StableOfSpelling(now);
    StableOfSpelling(before);
    EarlyHyphenIn(now.Spelling());
    SingletonLookup(before.Spelling(), now.Short(), now.Spelling());
  }

  lemma SingletonLookup(reference: string, stem: string, c: string)
    requires StableId(reference) == stem && SlugOf(reference).Some? && reference != c
    requires ParseExact(c).Some? && StableId(c) == stem
    ensures CurrentSpelling(reference, map[stem := {c}]) == Some(c) && WellFormed(map[stem := {c}])
  {
    OnlyOfSingleton(c);
  }

  lemma EarlyHyphenIn(c: string)
    requires Find("---", c + "---") < |c|
    ensures '-' in c
  {
    var p := Find("---", c + "---");
    EarlyHyphens(c, p);
    assert (c + "---")[p] == c[p];
  }

  lemma OnlyOfSingleton(x: string)
    ensures |{x}| == 1 && Only({x}) == x
  {}

  lemma OtherSourceOtherSpelling(w: Written, w': Written)
    requires w.source != w'.source && w.target == w'.target && w.connType == w'.connType
    ensures w.Spelling() != w'.Spelling()
  {
    assert w.Spelling()[..|w.source|] == w.source && w'.Spelling()[..|w'.source|] == w'.source;
  }

  /** `GO@1.a.b`, since renamed to `GO@1.a.x---y`, is such a pair. */
  lemma DriftingPairExists()
    ensures var before := EntityId("GO", "1", "a", Some("b")); var now := EntityId("GO", "1", "a", Some("x---y"));
            && before.Valid() && now.Valid() && before.Stem() == now.Stem()
            && '-' !in before.Spelling() && Find("---", now.Spelling() + "---") < |now.Spelling()|
  {
    var c := "GO@1.a.x---y";
    assert EntityId("GO", "1", "a", Some("x---y")).Spelling() == c;
    assert EntityId("GO", "1", "a", Some("b")).Spelling() == "GO@1.a.b";
    Hyphens(c + "---", 8);
  }

  lemma PlaceholderReads(id: EntityId, target: string, connType: string)
    requires id.Valid() && '-' !in id.Spelling() && Plain(target) && connType != []
    ensures var w := Written(id.Spelling(), target, connType); AsWritten(w.Spelling()) == Ok(w)
  {
    var c := id.Spelling();
    var s := c + "---" + target;
    PlainTarget(target);
    forall i: nat ensures !IsSeparator(s, i) {
      if i < |c| {
        NoSeparatorWithin(id, target, i);
      } else {
        IdStartShift(c + "---", target, i - |c|);
      }
    }
    forall i: nat | i < |c| ensures !Occurs("---", s, i) { Hyphens(s, i); }
    Hyphens(s, |c|);
    SplitAtPlain(s);
    LoneAtsInId(id);
    LoneAtsJoin(c, target);
    ReadsBackAtJoin(c, target, connType);
  }
}
