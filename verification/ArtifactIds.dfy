/** The identity grammar: `PREFIX@epoch.random[.slug]` and `{source}---{target}@@{type}`. */
module ArtifactIds {
  import opened Text

  // ---------------------------------------------------------------- entity ids

  predicate IsKeyChar(c: char) { IsAsciiAlnum(c) || c == '_' || c == '-' }

  predicate IsSlugChar(c: char) { IsAsciiAlnum(c) || c == '-' }

  datatype EntityId = EntityId(prefix: string, epoch: string, random: string, slug: Option<string>) {

    /** The grammar the pattern states, part by part. */
    predicate Valid() {
      IsPrefix(prefix) && IsEpoch(epoch) && IsKey(random) && (slug.Some? ==> IsSlug(slug.value))
    }

    function SlugTail(): string { match slug case None => "" case Some(text) => ['.'] + text }

    function KeyAndSlug(): string {
      match slug case None => random case Some(text) => random + ['.'] + text
    }

    /** What follows the `@`. */
    function Tail(): string { epoch + ['.'] + KeyAndSlug() }

    function Spelling(): string { prefix + ['@'] + Tail() }

    /** The rename-stable identity: the id without its slug. */
    function Stem(): EntityId { this.(slug := None) }

    function Short(): string { Stem().Spelling() }
  }

  predicate IsPrefix(s: string) { 2 <= |s| <= 6 && forall c | c in s :: IsUpper(c) }

  predicate IsEpoch(s: string) { s != [] && forall c | c in s :: IsDigit(c) }

  predicate IsKey(s: string) { s != [] && forall c | c in s :: IsKeyChar(c) }

  predicate IsSlug(s: string) { s != [] && IsAsciiAlnum(s[0]) && forall c | c in s :: IsSlugChar(c) }

  function ParseExact(s: string): (r: Option<EntityId>)
    ensures r.Some? ==> r.value.Valid() && r.value.Spelling() == s
  {
    var (prefix, tail) := Cut(s, '@');
    if tail.None? then None else
    var (epoch, rest) := Cut(tail.value, '.');
    if rest.None? then None else
    var (random, slug) := Cut(rest.value, '.');
    var id := EntityId(prefix, epoch, random, slug);
    if id.Valid() then Some(id) else None
  }

  /** The pattern ends in `$`, which also matches before one closing newline. */
  function ParseEntityId(s: string): Option<EntityId> {
    if s != [] && s[|s| - 1] == '\n' then ParseExact(s[..|s| - 1]) else ParseExact(s)
  }

  predicate IsEntityId(s: string) { ParseEntityId(s).Some? }

  lemma CutKeyAndSlug(id: EntityId)
    requires IsKey(id.random)
    ensures Cut(id.KeyAndSlug(), '.') == (id.random, id.slug)
  {
    CutIs(id.random, '.', id.slug);
  }

  lemma ParseSpelling(id: EntityId)
    requires id.Valid()
    ensures ParseExact(id.Spelling()) == Some(id)
  {
    CutIs(id.prefix, '@', Some(id.Tail()));
    CutIs(id.epoch, '.', Some(id.KeyAndSlug()));
    CutKeyAndSlug(id);
  }

  /** The scanner accepts exactly the strings the grammar derives, and reads back their parts. */
  lemma ParseIsTheGrammar(s: string, id: EntityId)
    ensures ParseEntityId(s) == Some(id) <==>
            id.Valid() && (s == id.Spelling() || s == id.Spelling() + "\n")
  {
    var w := id.Spelling();
    if s != [] && s[|s| - 1] == '\n' {
      assert s == s[..|s| - 1] + "\n";
    }
    if id.Valid() {
      ParseSpelling(id);
      SpellingShape(id);
      assert (w + "\n")[..|w|] == w;
    }
  }

  /** What every spelling looks like: trimmed, one `@` right after the prefix, a digit behind it. */
  lemma SpellingShape(id: EntityId)
    requires id.Valid()
    ensures var w := id.Spelling(); var p := |id.prefix|;
            && Trimmed(w) && p + 3 < |w| && w[p] == '@' && IsDigit(w[p + 1])
            && (forall i | 0 <= i < |w| :: w[i] == '@' <==> i == p)
            && (forall i | 0 <= i < p :: IsUpper(w[i]))
            && (forall i | 0 <= i < |w| :: !IsSpace(w[i]))
            && IsKeyChar(w[|w| - 1])
  {
    var w := id.Spelling();
    var p := |id.prefix|;
    var t := id.Tail();
    TailShape(id);
    assert forall i | 0 <= i < p :: w[i] in id.prefix;
    assert forall i | p < i < |w| :: w[i] == t[i - p - 1];
  }

  lemma TailShape(id: EntityId)
    requires id.Valid()
    ensures var t := id.Tail();
            && |t| >= 3 && IsDigit(t[0]) && IsKeyChar(t[|t| - 1])
            && (forall i | 0 <= i < |t| :: t[i] != '@' && !IsSpace(t[i]))
  {
    var t := id.Tail();
    var k := id.KeyAndSlug();
    assert forall i | 0 <= i < |k| :: k[i] in id.random || k[i] == '.' || (id.slug.Some? && k[i] in id.slug.value);
    assert t[0] in id.epoch;
    assert t[|t| - 1] == k[|k| - 1] && k[|k| - 1] in (if id.slug.None? then id.random else id.slug.value);
    assert forall i | 0 <= i < |t| :: t[i] in id.epoch || t[i] == '.' || t[i] in k;
  }

  // ---------------------------------------------------------------- the stable form

  function StableId(s: string): string {
    if Count(s, '.') == 1 || '.' !in s then s else s[..LastIndexOf(s, '.')]
  }

  function SlugOf(s: string): Option<string> {
    if Count(s, '.') < 2 then None else Some(s[LastIndexOf(s, '.') + 1..])
  }

  function CanonicalEntityKey(s: string): string {
    var candidate := Strip(s);
    if IsEntityId(candidate) then StableId(candidate) else candidate
  }

  /** A slug is what follows a second dot: strings are determined by their stable form and slug. */
  lemma StableOfDotted(stem: string, slug: string)
    requires Count(stem, '.') >= 1 && '.' !in slug
    ensures StableId(stem + ['.'] + slug) == stem && SlugOf(stem + ['.'] + slug) == Some(slug)
  {
    var s := stem + ['.'] + slug;
    assert Count(s, '.') == Count(stem, '.') + 1 by {
      CountAppend(stem + ['.'], slug, '.');
      CountAppend(stem, ['.'], '.');
      CountAbsent(slug, '.');
    }
    LastDot(stem, slug);
  }

  lemma LastDot(stem: string, slug: string)
    requires '.' !in slug
    ensures var s := stem + ['.'] + slug;
            LastIndexOf(s, '.') == |stem| && s[..|stem|] == stem && s[|stem| + 1..] == slug && '.' in s
  {
    var s := stem + ['.'] + slug;
    assert s[|stem|] == '.' && forall i | |stem| < i < |s| :: s[i] == slug[i - |stem| - 1];
  }

  lemma SlugOfSound(s: string)
    ensures SlugOf(s).None? <==> Count(s, '.') < 2
    ensures SlugOf(s).Some? ==> s == StableId(s) + ['.'] + SlugOf(s).value && '.' !in SlugOf(s).value
    ensures SlugOf(s).Some? ==> Count(StableId(s), '.') == Count(s, '.') - 1
    ensures SlugOf(s).None? ==> StableId(s) == s
  {
    CountAbsent(s, '.');
    if Count(s, '.') >= 2 {
      CutAtLastDot(s, LastIndexOf(s, '.'));
    }
  }

  lemma CutAtLastDot(s: string, n: int)
    requires '.' in s && n == LastIndexOf(s, '.')
    ensures n >= 0 && s == s[..n] + ['.'] + s[n + 1..] && '.' !in s[n + 1..]
    ensures Count(s[..n], '.') == Count(s, '.') - 1
  {
    var slug := s[n + 1..];
    assert forall i | 0 <= i < |slug| :: slug[i] == s[n + 1 + i];
    assert s == s[..n] + ['.'] + slug;
    CountAppend(s[..n] + ['.'], slug, '.');
    CountAppend(s[..n], ['.'], '.');
    CountAbsent(slug, '.');
    OneDot();
  }

  lemma OneDot()
    ensures Count(['.'], '.') == 1
  {
    assert ['.'][1..] == [];
  }

  lemma DotsInStem(id: EntityId)
    requires id.Valid()
    ensures Count(id.Short(), '.') == 1
  {
    CountAbsent(id.prefix, '.');
    CountAbsent(id.epoch, '.');
    CountAbsent(id.random, '.');
    CountAppend(id.prefix + ['@'], id.epoch + ['.'] + id.random, '.');
    CountAppend(id.prefix, ['@'], '.');
    CountAppend(id.epoch + ['.'], id.random, '.');
    CountAppend(id.epoch, ['.'], '.');
  }

  /** On well-formed ids the textual operations are the structural ones. */
  lemma StableOfSpelling(id: EntityId)
    requires id.Valid()
    ensures StableId(id.Spelling()) == id.Short() && SlugOf(id.Spelling()) == id.slug
    ensures StableId(id.Short()) == id.Short()
  {
    DotsInStem(id);
    if id.slug.Some? {
      SpellingOverStem(id);
      StableOfDotted(id.Short(), id.slug.value);
    } else {
      assert id.Stem() == id;
    }
  }

  lemma SpellingOverStem(id: EntityId)
    ensures id.Spelling() == id.Short() + id.SlugTail()
    ensures id.slug.Some? ==> id.Spelling() == id.Short() + ['.'] + id.slug.value
  {
    assert id.KeyAndSlug() == id.random + id.SlugTail();
    assert id.Tail() == id.Stem().Tail() + id.SlugTail();
  }

  lemma ShortIsInjective(a: EntityId, b: EntityId)
    requires a.Valid() && b.Valid()
    ensures a.Short() == b.Short() <==> a.Stem() == b.Stem()
  {
    ParseSpelling(a.Stem());
    ParseSpelling(b.Stem());
  }

  /** A stripped string never ends in the newline `$` would forgive. */
  lemma EntityKeyCases(s: string)
    ensures var c := Strip(s);
            match ParseExact(c)
            case Some(id) => CanonicalEntityKey(s) == id.Short()
            case None => CanonicalEntityKey(s) == c
  {
    StripTrims(s);
    TrimmedParsesExactly(Strip(s));
    if ParseExact(Strip(s)).Some? {
      ParsedIsSpelling(Strip(s));
    }
  }

  lemma TrimmedParsesExactly(c: string)
    requires Trimmed(c)
    ensures ParseEntityId(c) == ParseExact(c)
  {
    assert IsSpace('\n');
  }

  lemma ParsedIsSpelling(c: string)
    requires ParseExact(c).Some?
    ensures StableId(c) == ParseExact(c).value.Short()
  {
    StableOfSpelling(ParseExact(c).value);
  }

  lemma EntityKeyIdempotent(s: string)
    ensures CanonicalEntityKey(CanonicalEntityKey(s)) == CanonicalEntityKey(s)
  {
    EntityKeyCases(s);
    var c := Strip(s);
    StripIdempotent(s);
    match ParseExact(c)
    case None =>
      EntityKeyCases(c);
    case Some(id) =>
      var k := id.Short();
      SpellingShape(id.Stem());
      TrimmedIsStripped(k);
      ParseSpelling(id.Stem());
      EntityKeyCases(k);
  }

  // ---------------------------------------------------------------- connection ids

  /** `[A-Z]{2,6}@\d` matches at `i`. */
  predicate IdStartsAt(s: string, i: nat) {
    exists k | 2 <= k <= 6 :: IdStartsWithPrefixOf(s, i, k)
  }

  predicate IdStartsWithPrefixOf(s: string, i: nat, k: nat) {
    && i + k + 1 < |s| && s[i + k] == '@' && IsDigit(s[i + k + 1])
    && forall j | i <= j < i + k :: IsUpper(s[j])
  }

  /** A prefix, an `@` and a digit start an id wherever they stand. */
  lemma IdStartReads(a: string, prefix: string, d: char, rest: string)
    requires IsPrefix(prefix) && IsDigit(d)
    ensures IdStartsAt(a + (prefix + (['@', d] + rest)), |a|)
  {
    var s := a + (prefix + (['@', d] + rest));
    var k := |prefix|;
    assert forall j | |a| <= j < |a| + k :: s[j] == prefix[j - |a|] && prefix[j - |a|] in prefix;
    assert s[|a| + k] == '@' && s[|a| + k + 1] == d;
    assert IdStartsWithPrefixOf(s, |a|, k);
  }

  /** And nothing else does. */
  lemma IdStartSpells(s: string, i: nat) returns (prefix: string, d: char)
    requires IdStartsAt(s, i)
    ensures IsPrefix(prefix) && IsDigit(d) && prefix + ['@', d] <= s[i..]
  {
    var k :| 2 <= k <= 6 && IdStartsWithPrefixOf(s, i, k);
    prefix, d := s[i..i + k], s[i + k + 1];
    assert forall c | c in prefix :: IsUpper(c);
    assert s[i..][..k + 2] == prefix + ['@', d];
  }

  /** A `---` that an id follows. */
  predicate IsSeparator(s: string, i: nat) { Occurs("---", s, i) && IdStartsAt(s, i + 3) }

  function FindSeparatorFrom(s: string, start: nat): (r: int)
    ensures r == -1 || (start <= r && IsSeparator(s, r))
    ensures forall i | start <= i && (r < 0 || i < r) :: !IsSeparator(s, i)
    decreases |s| - start
  {
    if IsSeparator(s, start) then start
    else if start >= |s| then -1
    else FindSeparatorFrom(s, start + 1)
  }

  function SplitAt(s: string, i: int): Option<(string, string)> {
    if Occurs("---", s, i) then Some((s[..i], s[i + 3..])) else None
  }

  /** The first separator an id follows; failing any, the first three hyphens. */
  function Split(s: string): Option<(string, string)> {
    var i := FindSeparatorFrom(s, 0);
    if i >= 0 then SplitAt(s, i) else SplitAt(s, Find("---", s))
  }

  method EndpointSplit(s: string) returns (r: Option<(string, string)>)
    ensures r == Split(s)
    ensures r.Some? <==> exists i :: Occurs("---", s, i)
    ensures r.Some? ==> s == r.value.0 + "---" + r.value.1
  {
    var start := 0;
    while start < |s|
      invariant 0 <= start <= |s|
      invariant forall i | 0 <= i < start :: !IsSeparator(s, i)
    {
      if Occurs("---", s, start) && IdStartsAt(s, start + 3) {
        assert IsSeparator(s, start);
        return Some((s[..start], s[start + 3..]));
      }
      start := start + 1;
    }
    start := Find("---", s);
    if start < 0 {
      return None;
    }
    return Some((s[..start], s[start + 3..]));
  }

  lemma SplitRestores(s: string)
    ensures Split(s).Some? <==> exists i :: Occurs("---", s, i)
    ensures Split(s).Some? ==> s == Split(s).value.0 + "---" + Split(s).value.1
  {}

  datatype Malformed = MissingTypeMarker | MissingSeparator | EmptySegment

  datatype Result<+T> = Ok(value: T) | Err(error: Malformed)

  datatype Written = Written(source: string, target: string, connType: string) {
    function Spelling(): string { source + "---" + target + "@@" + connType }
  }

  function AsWritten(s: string): Result<Written> {
    var at := Find("@@", s);
    if at < 0 then Err(MissingTypeMarker) else
    var connType := s[at + 2..];
    match Split(s[..at])
    case None => Err(MissingSeparator)
    case Some((source, target)) =>
      if source == [] || target == [] || connType == [] then Err(EmptySegment)
      else Ok(Written(source, target, connType))
  }

  /** Whatever is read prints back as the string it was read from. */
  lemma AsWrittenRestores(s: string)
    requires AsWritten(s).Ok?
    ensures AsWritten(s).value.Spelling() == s
  {
    var at := Find("@@", s);
    SplitRestores(s[..at]);
    assert s == s[..at] + "@@" + s[at + 2..];
  }

  lemma Hyphens(t: string, p: int)
    ensures Occurs("---", t, p) <==> 0 <= p <= |t| - 3 && t[p] == t[p + 1] == t[p + 2] == '-'
  {
    if 0 <= p <= |t| - 3 {
      var u := t[p..p + 3];
      assert u[0] == t[p] && u[1] == t[p + 1] && u[2] == t[p + 2];
      assert u == [t[p], t[p + 1], t[p + 2]];
    }
  }

  /** No separator lies inside a well-formed id, nor straddles its end, whatever follows the join. */
  lemma NoSeparatorWithin(id: EntityId, rest: string, i: nat)
    requires id.Valid() && i < |id.Spelling()|
    ensures !IsSeparator(id.Spelling() + "---" + rest, i)
  {
    SpellingShape(id);
    var w := id.Spelling();
    var s := w + "---" + rest;
    assert forall j | 0 <= j < |w| :: s[j] == w[j];
    assert s[|w|] == s[|w| + 1] == s[|w| + 2] == '-';
    Hyphens(s, i);
    if Occurs("---", s, i) {
      var start := i + 3;
      forall k {:trigger IdStartsWithPrefixOf(s, start, k)} | 2 <= k <= 6 ensures !IdStartsWithPrefixOf(s, start, k) {
        var at := start + k;
        assert at < |s| && s[at] == '@' && at > |w| ==> start <= |w| + 2 < at;
      }
    }
  }

  lemma IdStartShift(a: string, b: string, i: nat)
    ensures IdStartsAt(a + b, |a| + i) <==> IdStartsAt(b, i)
  {
    assert forall j | |a| <= j < |a + b| :: (a + b)[j] == b[j - |a|];
    var n := |a| + i;
    if IdStartsAt(a + b, n) {
      var k :| 2 <= k <= 6 && IdStartsWithPrefixOf(a + b, n, k);
      forall j | i <= j < i + k ensures IsUpper(b[j]) { assert IsUpper((a + b)[|a| + j]); }
      assert IdStartsWithPrefixOf(b, i, k);
    }
    if IdStartsAt(b, i) {
      var k :| 2 <= k <= 6 && IdStartsWithPrefixOf(b, i, k);
      assert IdStartsWithPrefixOf(a + b, n, k);
    }
  }

  lemma IdStarts(id: EntityId)
    requires id.Valid()
    ensures IdStartsAt(id.Spelling(), 0)
  {
    SpellingShape(id);
    assert IdStartsWithPrefixOf(id.Spelling(), 0, |id.prefix|);
  }

  /** The join after a well-formed id is the one the reader finds, if anything like an id follows. */
  lemma SplitAfterId(id: EntityId, rest: string)
    requires id.Valid() && IdStartsAt(rest, 0)
    ensures Split(id.Spelling() + "---" + rest) == Some((id.Spelling(), rest))
  {
    var w := id.Spelling();
    SeparatorAtJoin(w, rest);
    forall i: nat | i < |w| ensures !IsSeparator(w + "---" + rest, i) { NoSeparatorWithin(id, rest, i); }
    SplitAtFirst(w + "---" + rest, |w|);
    JoinParts(w, "---", rest);
  }

  lemma JoinParts(w: string, m: string, rest: string)
    ensures (w + m + rest)[..|w|] == w && (w + m + rest)[|w| + |m|..] == rest
  {
  }

  lemma SeparatorAtJoin(w: string, rest: string)
    ensures IsSeparator(w + "---" + rest, |w|) <==> IdStartsAt(rest, 0)
  {
    var s := w + "---" + rest;
    IdStartShift(w + "---", rest, 0);
    assert s[|w|..|w| + 3] == "---";
  }

  lemma SplitAtFirst(s: string, n: nat)
    requires IsSeparator(s, n) && forall i: nat | i < n :: !IsSeparator(s, i)
    ensures Split(s) == Some((s[..n], s[n + 3..]))
  {}

  lemma NoSeparatorAfter(w: string, id: EntityId, i: nat)
    requires id.Valid() && i > |w|
    ensures !IsSeparator(w + "---" + id.Spelling(), i)
  {
    SpellingShape(id);
    var v := id.Spelling();
    var s := w + "---" + v;
    var n := |w| + 3;
    assert forall j | n <= j < |s| :: s[j] == v[j - n];
    Hyphens(s, i);
    if Occurs("---", s, i) {
      assert i >= n;
      var start := i + 3;
      forall k {:trigger IdStartsWithPrefixOf(s, start, k)} | 2 <= k <= 6 ensures !IdStartsWithPrefixOf(s, start, k) {
        var at := start + k;
        assert at < |s| && s[at] == '@' ==> i - n < |id.prefix|;
      }
    }
  }

  /** Exactly one `---` in a composite id is followed by an id, whatever hyphens its ids hold. */
  lemma SeparatorIsUnique(source: EntityId, target: EntityId, i: nat)
    requires source.Valid() && target.Valid()
    ensures IsSeparator(source.Spelling() + "---" + target.Spelling(), i) <==> i == |source.Spelling()|
  {
    var w := source.Spelling();
    var s := w + "---" + target.Spelling();
    if i < |w| {
      NoSeparatorWithin(source, target.Spelling(), i);
    } else if i > |w| {
      NoSeparatorAfter(w, target, i);
    } else {
      IdStarts(target);
      SeparatorAtJoin(w, target.Spelling());
    }
  }

  /** No `@` here is followed by another, nor stands last. */
  predicate LoneAts(s: string) {
    forall i | 0 <= i < |s| && s[i] == '@' :: i + 1 < |s| && s[i + 1] != '@'
  }

  lemma TypeMarkerFound(endpoints: string, connType: string)
    requires LoneAts(endpoints)
    ensures Find("@@", endpoints + "@@" + connType) == |endpoints|
  {
    var s := endpoints + "@@" + connType;
    assert s[|endpoints|..|endpoints| + 2] == "@@";
    assert Occurs("@@", s, |endpoints|);
    forall i | 0 <= i < |endpoints| ensures !Occurs("@@", s, i) {
      assert s[i] == endpoints[i];
      if s[i] == '@' {
        assert s[i + 1] == endpoints[i + 1];
        assert s[i..i + 2][1] == s[i + 1];
      } else {
        assert |s[i..i + 2]| == 2 && s[i..i + 2][0] == s[i];
      }
    }
  }

  /** What `AsWritten` does once the type marker and the split are known. */
  lemma AsWrittenIs(w: Written)
    requires w.source != [] && w.target != [] && w.connType != []
    requires LoneAts(w.source + "---" + w.target)
    requires Split(w.source + "---" + w.target) == Some((w.source, w.target))
    ensures AsWritten(w.Spelling()) == Ok(w)
  {
    var endpoints := w.source + "---" + w.target;
    TypeMarkerFound(endpoints, w.connType);
    var s := w.Spelling();
    assert s[..|endpoints|] == endpoints && s[|endpoints| + 2..] == w.connType;
  }

  lemma LoneAtsJoin(a: string, b: string)
    requires LoneAts(a) && LoneAts(b)
    ensures LoneAts(a + "---" + b)
  {
    var s := a + "---" + b;
    forall i | 0 <= i < |s| && s[i] == '@' ensures i + 1 < |s| && s[i + 1] != '@' {
      if i < |a| {
        assert a[i] == '@';
      } else {
        assert b[i - |a| - 3] == '@';
      }
    }
  }

  lemma LoneAtsInId(id: EntityId)
    requires id.Valid()
    ensures LoneAts(id.Spelling())
  {
    SpellingShape(id);
  }

  /** Printing and reading a connection id are inverse, for every pair of ids and non-empty type. */
  lemma ConnectionRoundTrip(source: EntityId, target: EntityId, connType: string)
    requires source.Valid() && target.Valid() && connType != []
    ensures var w := Written(source.Spelling(), target.Spelling(), connType);
            AsWritten(w.Spelling()) == Ok(w)
  {
    LoneAtsInId(source);
    LoneAtsInId(target);
    LoneAtsJoin(source.Spelling(), target.Spelling());
    IdStarts(target);
    SplitAfterId(source, target.Spelling());
    AsWrittenIs(Written(source.Spelling(), target.Spelling(), connType));
  }

  lemma ConnectionIdsInjective(a: EntityId, b: EntityId, t: string, a': EntityId, b': EntityId, t': string)
    requires a.Valid() && b.Valid() && t != [] && a'.Valid() && b'.Valid() && t' != []
    requires Written(a.Spelling(), b.Spelling(), t).Spelling()
          == Written(a'.Spelling(), b'.Spelling(), t').Spelling()
    ensures a == a' && b == b' && t == t'
  {
    ConnectionRoundTrip(a, b, t);
    ConnectionRoundTrip(a', b', t');
    ParseSpelling(a);
    ParseSpelling(a');
    ParseSpelling(b);
    ParseSpelling(b');
  }

  // ---------------------------------------------------------------- canonical keys

  datatype ConnectionKey = ConnectionKey(srcShort: string, connType: string, tgtShort: string)

  function ParseConnectionId(s: string): Result<ConnectionKey> {
    match AsWritten(s)
    case Err(e) => Err(e)
    case Ok(w) => Ok(ConnectionKey(StableId(w.source), w.connType, StableId(w.target)))
  }

  function StableConnId(s: string): string {
    match ParseConnectionId(s)
    case Err(_) => s
    case Ok(key) => key.srcShort + "---" + key.tgtShort + "@@" + key.connType
  }

  function CanonicalReferenceKey(s: string): string { CanonicalEntityKey(StableConnId(Strip(s))) }

  /** A reference to an entity or to a connection, as structure. */
  datatype Reference =
    | ToEntity(id: EntityId)
    | ToConnection(source: EntityId, target: EntityId, connType: string)
  {
    /** The type closes the spelling, so a blank at its end would be stripped with the margin. */
    predicate Valid() {
      match this
      case ToEntity(id) => id.Valid()
      case ToConnection(s, t, connType) =>
        s.Valid() && t.Valid() && connType != [] && !IsSpace(connType[|connType| - 1])
    }

    function Spelling(): string {
      match this
      case ToEntity(id) => id.Spelling()
      case ToConnection(s, t, connType) => Written(s.Spelling(), t.Spelling(), connType).Spelling()
    }

    function Stem(): Reference {
      match this
      case ToEntity(id) => ToEntity(id.Stem())
      case ToConnection(s, t, connType) => ToConnection(s.Stem(), t.Stem(), connType)
    }
  }

  lemma StableConnOfSpelling(source: EntityId, target: EntityId, connType: string)
    requires source.Valid() && target.Valid() && connType != []
    ensures StableConnId(ToConnection(source, target, connType).Spelling())
         == ToConnection(source, target, connType).Stem().Spelling()
  {
    ConnectionRoundTrip(source, target, connType);
    StableOfSpelling(source);
    StableOfSpelling(target);
  }

  /** An entity id holds a single `@`, so it is never read as a connection, nor the reverse. */
  lemma EntityIsNotConnection(id: EntityId)
    requires id.Valid()
    ensures AsWritten(id.Spelling()).Err?
  {
    SpellingShape(id);
    var w := id.Spelling();
    forall i | 0 <= i ensures !Occurs("@@", w, i) {
      assert i + 2 <= |w| ==> w[i] == w[i..i + 2][0] && w[i + 1] == w[i..i + 2][1];
    }
  }

  lemma ConnectionIsNotEntity(r: Reference)
    requires r.Valid() && r.ToConnection?
    ensures ParseExact(r.Spelling()).None?
  {
    ConnectionRoundTrip(r.source, r.target, r.connType);
    if ParseExact(r.Spelling()).Some? {
      EntityIsNotConnection(ParseExact(r.Spelling()).value);
    }
  }

  lemma ReferenceIsTrimmed(r: Reference)
    requires r.Valid()
    ensures Trimmed(r.Spelling()) && r.Spelling() != []
  {
    match r
    case ToEntity(id) => SpellingShape(id);
    case ToConnection(s, t, connType) =>
      SpellingShape(s);
      var w := r.Spelling();
      assert w[0] == s.Spelling()[0] && w[|w| - 1] == connType[|connType| - 1];
  }

  /** The canonical key of a well-formed reference, however it is padded, is its stem's spelling. */
  lemma ReferenceKeyIsStem(left: string, r: Reference, right: string)
    requires r.Valid() && AllSpace(left) && AllSpace(right)
    ensures CanonicalReferenceKey(left + r.Spelling() + right) == r.Stem().Spelling()
  {
    ReferenceIsTrimmed(r);
    StripUnique(left, r.Spelling(), right);
    TrimmedIsStripped(r.Spelling());
    UnpaddedKey(r);
  }

  lemma UnpaddedKey(r: Reference)
    requires r.Valid()
    ensures CanonicalReferenceKey(r.Spelling()) == r.Stem().Spelling()
    ensures r.Stem().Valid() && r.Stem().Stem() == r.Stem()
  {
    ReferenceIsTrimmed(r);
    TrimmedIsStripped(r.Spelling());
    StableOfReference(r);
    KeyOfStem(r.Stem());
    if r.ToEntity? {
      KeyOfEntity(r.id);
    }
  }

  lemma StableOfReference(r: Reference)
    requires r.Valid()
    ensures StableConnId(r.Spelling()) == if r.ToEntity? then r.Spelling() else r.Stem().Spelling()
    ensures r.Stem().Valid() && r.Stem().Stem() == r.Stem()
  {
    match r
    case ToEntity(id) => EntityIsNotConnection(id);
    case ToConnection(s, t, connType) => StableConnOfSpelling(s, t, connType);
  }

  lemma KeyOfEntity(id: EntityId)
    requires id.Valid()
    ensures CanonicalEntityKey(id.Spelling()) == id.Short()
  {
    SpellingShape(id);
    TrimmedIsStripped(id.Spelling());
    EntityKeyCases(id.Spelling());
    ParseSpelling(id);
  }

  lemma KeyOfStem(r: Reference)
    requires r.Valid() && r.Stem() == r
    ensures CanonicalEntityKey(r.Spelling()) == r.Spelling()
  {
    match r
    case ToEntity(id) => KeyOfEntity(id);
    case ToConnection(_, _, _) =>
      ReferenceIsTrimmed(r);
      TrimmedIsStripped(r.Spelling());
      ConnectionIsNotEntity(r);
      EntityKeyCases(r.Spelling());
  }

  /** The key of a reference is its own key. */
  lemma ReferenceKeyIsAFixpoint(r: Reference)
    requires r.Valid()
    ensures CanonicalReferenceKey(CanonicalReferenceKey(r.Spelling())) == CanonicalReferenceKey(r.Spelling())
  {
    UnpaddedKey(r);
    UnpaddedKey(r.Stem());
  }

  /** Two references share a key exactly when they share stems and type. */
  lemma ReferenceKeysAgree(a: Reference, b: Reference)
    requires a.Valid() && b.Valid()
    ensures CanonicalReferenceKey(a.Spelling()) == CanonicalReferenceKey(b.Spelling()) <==> a.Stem() == b.Stem()
  {
    UnpaddedKey(a);
    UnpaddedKey(b);
    SpellingIsInjective(a.Stem(), b.Stem());
  }

  lemma SpellingIsInjective(a: Reference, b: Reference)
    requires a.Valid() && b.Valid()
    ensures a.Spelling() == b.Spelling() <==> a == b
  {
    if a.Spelling() == b.Spelling() {
      if a.ToConnection? && b.ToConnection? {
        ConnectionIdsInjective(a.source, a.target, a.connType, b.source, b.target, b.connType);
      } else if a.ToConnection? {
        ConnectionIsNotEntity(a);
        ParseSpelling(b.id);
      } else {
        ParseSpelling(a.id);
        if b.ToConnection? {
          ConnectionIsNotEntity(b);
        } else {
          ParseSpelling(b.id);
        }
      }
    }
  }
}
