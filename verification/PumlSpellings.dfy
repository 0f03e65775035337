/** A labelled declaration is read under the alias it is spelled with. */
module PumlSpellings {
  import opened Text
  import opened PumlQuotations
  import opened PumlDeclarations
  import opened PumlAliases
  import opened PumlRestyle

  predicate IsNameChar(c: char) { 'A' <= c <= 'Z' || 'a' <= c <= 'z' || '0' <= c <= '9' || c == '_' || c == '-' }

  /** A name the pattern takes whole: hyphens may stand anywhere in it but last. */
  predicate IsAlias(alias: string) {
    alias != [] && alias[|alias| - 1] != '-' && forall i | 0 <= i < |alias| :: IsNameChar(alias[i])
  }

  /** What may follow an alias without being read as more of it. */
  predicate Ends(rest: string) { rest == [] || (!IsWord(rest[0]) && !IsNameChar(rest[0])) }

  /** ` as alias`, with blanks as they come. */
  function Naming(gap: string, gap': string, alias: string): string { gap + (['a', 's'] + (gap' + alias)) }

  predicate IsGap(gap: string) { gap != [] && AllSpace(gap) }

  lemma {:induction false} AliasCharsAre(alias: string, rest: string, i: nat)
    requires (forall k | 0 <= k < |alias| :: IsAliasChar(alias[k])) && (rest == [] || !IsAliasChar(rest[0])) && i <= |alias|
    ensures AliasCharsFrom(alias + rest, i) == |alias| - i
    decreases |alias| - i
  {
    if i < |alias| {
      assert (alias + rest)[i] == alias[i];
      AliasCharsAre(alias, rest, i + 1);
    } else if rest != [] {
      assert (alias + rest)[i] == rest[0];
    }
  }

  lemma EndIsABoundary(alias: string, rest: string)
    requires IsAlias(alias) && Ends(rest)
    ensures BoundaryAt(alias + rest, |alias|)
  {
    assert (alias + rest)[|alias| - 1] == alias[|alias| - 1];
    assert rest != [] ==> (alias + rest)[|alias|] == rest[0];
  }

  lemma AliasTextIs(alias: string, rest: string)
    requires IsAlias(alias) && Ends(rest)
    ensures AliasText(alias + rest, 0) == Some(alias)
  {
    AliasCharsAre(alias, rest, 0);
    EndIsABoundary(alias, rest);
    assert (alias + rest)[0..|alias|] == alias;
  }

  lemma GapEndsWord(x: string, gap: string)
    requires IsGap(gap)
    ensures EndsWord(x + gap)
  {
    assert (x + gap)[|x + gap| - 1] == gap[|gap| - 1];
  }

  lemma AliasAfterIs(gap: string, alias: string, rest: string)
    requires IsGap(gap) && IsAlias(alias) && Ends(rest)
    ensures AliasAfter(gap + (alias + rest), 0) == Some(alias)
  {
    assert (alias + rest)[0] == alias[0];
    SpacesOver(gap, alias + rest);
    GapEndsWord([], gap);
    assert [] + gap == gap;
    AliasTextShift(gap, alias + rest, 0);
    AliasTextIs(alias, rest);
  }

  lemma NamedHere(gap': string, alias: string, rest: string)
    requires IsGap(gap') && IsAlias(alias) && Ends(rest)
    ensures AliasAt(['a', 's'] + (gap' + (alias + rest)), 0) == Some(alias)
  {
    var tail := gap' + (alias + rest);
    var w := ['a', 's'] + tail;
    assert BoundaryAt(w, 0) && WordAsAt(w, 0);
    assert tail[0] == gap'[0];
    AsIsFollowed(tail);
    AliasAfterIs(gap', alias, rest);
  }

  /** Behind `as` the alias is read as behind nothing, a blank following. */
  lemma AsIsFollowed(tail: string)
    requires tail != [] && IsSpace(tail[0])
    ensures AliasAfter(['a', 's'] + tail, 2) == AliasAfter(tail, 0)
  {
    var n := SpacesFrom(tail, 0);
    SpacesShift(['a', 's'], tail, 0);
    FirstBlank(tail);
    assert tail == [tail[0]] + tail[1..];
    BlankParts(tail[0], tail[1..], n);
  }

  lemma BlankParts(c: char, y: string, n: nat)
    requires IsSpace(c) && 1 <= n <= 1 + |y|
    ensures AliasText(['a', 's'] + ([c] + y), 2 + n) == AliasText([c] + y, n)
  {
    GapEndsWord(['a', 's'], [c]);
    GapEndsWord([], [c]);
    assert ['a', 's'] + ([c] + y) == (['a', 's'] + [c]) + y && [] + [c] == [c];
    AliasTextShift(['a', 's'] + [c], y, n - 1);
    AliasTextShift([c], y, n - 1);
  }

  lemma FirstBlank(tail: string)
    requires tail != [] && IsSpace(tail[0])
    ensures SpacesFrom(tail, 0) >= 1
  {
  }

  lemma {:induction false} NothingInGap(gap: string, w: string, i: nat)
    requires AllSpace(gap) && i <= |gap|
    ensures AliasFrom(gap + w, i) == AliasFrom(gap + w, |gap|)
    decreases |gap| - i
  {
    if i < |gap| {
      assert (gap + w)[i] == gap[i];
      assert AliasAt(gap + w, i).None?;
      NothingInGap(gap, w, i + 1);
    }
  }

  lemma FirstIsRead(w: string, alias: string)
    requires w != [] && AliasAt(w, 0) == Some(alias)
    ensures AliasFrom(w, 0) == Some(alias)
  {
  }

  /** The naming is read, wherever blanks stand in it. */
  lemma NamingReads(gap: string, gap': string, alias: string, rest: string)
    requires IsGap(gap) && IsGap(gap') && IsAlias(alias) && Ends(rest)
    ensures AliasFrom(Naming(gap, gap', alias) + rest, 0) == Some(alias)
  {
    var w := ['a', 's'] + (gap' + (alias + rest));
    NamingRegrouped(gap, gap', alias, rest);
    NamedHere(gap', alias, rest);
    FirstIsRead(w, alias);
    GapEndsWord([], gap);
    assert [] + gap == gap;
    NothingInGap(gap, w, 0);
    AliasFromShift(gap, w, 0);
  }

  lemma NamingRegrouped(gap: string, gap': string, alias: string, rest: string)
    ensures Naming(gap, gap', alias) + rest == gap + (['a', 's'] + (gap' + (alias + rest)))
  {
  }

  lemma AliasHasNoQuote(alias: string)
    requires IsAlias(alias)
    ensures QuoteFree(alias)
  {
  }

  lemma NamingIsQuoteFree(gap: string, gap': string, alias: string)
    requires AllSpace(gap) && AllSpace(gap') && IsAlias(alias)
    ensures QuoteFree(Naming(gap, gap', alias))
  {
    BlanksAreQuoteFree(gap);
    BlanksAreQuoteFree(gap');
    AliasHasNoQuote(alias);
  }

  lemma StaysEnd(rest: string)
    requires Ends(rest)
    ensures Ends(Unquoted(rest))
  {
  }

  /** `keyword "label" as alias …`: whatever the label says. */
  function Spelled(lead: string, caption: string, gap: string, gap': string, alias: string, rest: string): string {
    Around(lead, caption, Naming(gap, gap', alias) + rest)
  }

  lemma SpelledNames(lead: string, caption: string, gap: string, gap': string, alias: string, rest: string)
    requires QuoteFree(lead) && AliasFrom(lead, 0).None? && QuoteFree(caption)
    requires IsGap(gap) && IsGap(gap') && IsAlias(alias) && Ends(rest)
    ensures AliasFrom(Unquoted(Spelled(lead, caption, gap, gap', alias, rest)), 0) == Some(alias)
  {
    var after := Naming(gap, gap', alias) + rest;
    ReadAround(lead, caption, after);
    ReadBehindPlain(caption, after);
    NamingIsQuoteFree(gap, gap', alias);
    UnquotedPast(Naming(gap, gap', alias), rest);
    StaysEnd(rest);
    NamingReads(gap, gap', alias, Unquoted(rest));
  }

  lemma ReadsStripped(s: string, alias: string, left: string, right: string)
    requires s != [] && s[0] != '\'' && Trimmed(s) && AliasFrom(Unquoted(s), 0) == Some(alias)
    requires AllSpace(left) && AllSpace(right)
    ensures AliasDeclaredOn(left + s + right) == Some(AliasDeclaration(alias, EndsWith(s, '{')))
  {
    StripUnique(left, s, right);
    UnquotedLast(s, '{');
  }

  /** A labelled declaration is read whole: under its alias, hyphens and all, whatever its label says and
      whatever follows the alias, and as opening a block exactly when it ends in a brace. */
  lemma DeclarationReads(left: string, lead: string, caption: string, gap: string, gap': string, alias: string, rest: string, right: string)
    requires AllSpace(left) && AllSpace(right)
    requires QuoteFree(lead) && AliasFrom(lead, 0).None? && QuoteFree(caption)
    requires lead != [] ==> !IsSpace(lead[0]) && lead[0] != '\''
    requires IsGap(gap) && IsGap(gap') && IsAlias(alias) && Ends(rest) && (rest != [] ==> !IsSpace(rest[|rest| - 1]))
    ensures AliasDeclaredOn(left + Spelled(lead, caption, gap, gap', alias, rest) + right)
         == Some(AliasDeclaration(alias, EndsWith(rest, '{')))
  {
    var s := Spelled(lead, caption, gap, gap', alias, rest);
    SpelledNames(lead, caption, gap, gap', alias, rest);
    SpelledIsTrimmed(lead, caption, gap, gap', alias, rest);
    ReadsStripped(s, alias, left, right);
  }

  lemma SpelledIsTrimmed(lead: string, caption: string, gap: string, gap': string, alias: string, rest: string)
    requires lead != [] ==> !IsSpace(lead[0]) && lead[0] != '\''
    requires IsAlias(alias) && (rest != [] ==> !IsSpace(rest[|rest| - 1]))
    ensures var s := Spelled(lead, caption, gap, gap', alias, rest);
            s != [] && Trimmed(s) && s[0] != '\'' && EndsWith(s, '{') == EndsWith(rest, '{')
  {
    var s := Spelled(lead, caption, gap, gap', alias, rest);
    QuoteIsNotBlank();
    assert s[0] == if lead == [] then '"' else lead[0];
    if rest == [] {
      LastOfNaming(gap, gap', alias);
      assert Naming(gap, gap', alias) + rest == Naming(gap, gap', alias);
      assert s[|s| - 1] == alias[|alias| - 1];
    } else {
      assert s[|s| - 1] == rest[|rest| - 1];
    }
  }

  lemma LastOfNaming(gap: string, gap': string, alias: string)
    requires IsAlias(alias)
    ensures var s := Naming(gap, gap', alias); s != [] && s[|s| - 1] == alias[|alias| - 1]
    ensures !IsSpace(alias[|alias| - 1]) && alias[|alias| - 1] != '{'
  {
  }
}
