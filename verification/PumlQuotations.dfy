/** Quotations in a line: emptying them, and finding the first. */
module PumlQuotations {
  import opened Text

  /** The text with every closed quotation emptied, so that its prose cannot look like code. */
  function Unquoted(s: string): string
    decreases |s|
  {
    if s == [] then []
    else if s[0] != '"' then [s[0]] + Unquoted(s[1..])
    else
      var close := IndexOf(s[1..], '"');
      if close == |s| - 1 then s else ['"', '"'] + Unquoted(s[close + 2..])
  }

  predicate QuoteFree(s: string) { forall i | 0 <= i < |s| :: s[i] != '"' }

  lemma {:induction false} IndexOfAppend(u: string, t: string, c: char)
    ensures IndexOf(u, c) < |u| ==> IndexOf(u + t, c) == IndexOf(u, c)
    ensures IndexOf(u, c) == |u| ==> IndexOf(u + t, c) == |u| + IndexOf(t, c)
  {
    if u == [] {
      assert u + t == t;
    } else {
      assert (u + t)[1..] == u[1..] + t;
      IndexOfAppend(u[1..], t, c);
    }
  }

  lemma {:induction false} UnquotedPlain(s: string)
    requires QuoteFree(s)
    ensures Unquoted(s) == s
  {
    if s != [] {
      UnquotedPlain(s[1..]);
    }
  }

  lemma {:induction false} UnquotedAppend(u: string, t: string)
    requires QuoteFree(t)
    ensures Unquoted(u + t) == Unquoted(u) + t
    decreases |u|
  {
    if u == [] {
      assert u + t == t;
      UnquotedPlain(t);
    } else {
      assert (u + t)[1..] == u[1..] + t;
      if u[0] != '"' {
        UnquotedAppend(u[1..], t);
      } else {
        IndexOfAppend(u[1..], t, '"');
        var close := IndexOf(u[1..], '"');
        if close < |u| - 1 {
          assert (u + t)[close + 2..] == u[close + 2..] + t;
          UnquotedAppend(u[close + 2..], t);
        } else {
          assert IndexOf(t, '"') == |t|;
        }
      }
    }
  }

  lemma {:induction false} UnquotedLast(s: string, c: char)
    requires c != '"'
    ensures EndsWith(Unquoted(s), c) == EndsWith(s, c) && (Unquoted(s) == [] <==> s == [])
    decreases |s|
  {
    if s != [] {
      if s[0] != '"' {
        UnquotedLast(s[1..], c);
        EndsAfter([s[0]], s[1..], c);
        EndsAfter([s[0]], Unquoted(s[1..]), c);
        assert s == [s[0]] + s[1..];
      } else {
        var close := IndexOf(s[1..], '"');
        if close < |s| - 1 {
          UnquotedLast(s[close + 2..], c);
          assert s[..close + 2][close + 1] == '"' && s == s[..close + 2] + s[close + 2..];
          EndsAfter(s[..close + 2], s[close + 2..], c);
          EndsAfter(['"', '"'], Unquoted(s[close + 2..]), c);
        }
      }
    }
  }

  lemma EndsAfter(p: string, u: string, c: char)
    ensures EndsWith(p + u, c) == if u == [] then EndsWith(p, c) else EndsWith(u, c)
  {
    assert u == [] ==> p + u == p;
  }

  lemma QuoteFreeEnd(a: string, b: string)
    requires QuoteFree(a + b)
    ensures QuoteFree(b)
  {
    assert forall i | 0 <= i < |b| :: b[i] == (a + b)[|a| + i];
  }

  lemma QuoteFreeIndex(s: string)
    ensures QuoteFree(s[..IndexOf(s, '"')])
  {
  }

  datatype Quote = Quote(before: string, text: string, after: string)

  function Quotation(s: string): Option<Quote>
    decreases |s|
  {
    if s == [] then None
    else if s[0] != '"' then
      match Quotation(s[1..]) case None => None case Some(q) => Some(q.(before := [s[0]] + q.before))
    else
      var close := IndexOf(s[1..], '"');
      if close == |s| - 1 then None else Some(Quote([], s[1..close + 1], s[close + 2..]))
  }

  /** A text about a quotation. */
  function Around(before: string, text: string, after: string): string { before + (['"'] + (text + (['"'] + after))) }

  lemma QuotesHere(text: string, after: string)
    requires QuoteFree(text)
    ensures Quotation(['"'] + (text + (['"'] + after))) == Some(Quote([], text, after))
  {
    var s := ['"'] + (text + (['"'] + after));
    assert s[1..] == text + (['"'] + after);
    IndexOfAppend(text, ['"'] + after, '"');
    assert IndexOf(text, '"') == |text| && IndexOf(['"'] + after, '"') == 0;
    assert s[1..|text| + 1] == text && s[|text| + 2..] == after;
  }

  /** The quotation a text was put about is found in it. */
  lemma {:induction false} QuotationIs(before: string, text: string, after: string)
    requires QuoteFree(before) && QuoteFree(text)
    ensures Quotation(Around(before, text, after)) == Some(Quote(before, text, after))
    decreases |before|
  {
    var s := Around(before, text, after);
    if before == [] {
      assert s == ['"'] + (text + (['"'] + after));
      QuotesHere(text, after);
    } else {
      assert s[0] == before[0] && s[1..] == Around(before[1..], text, after);
      QuotationIs(before[1..], text, after);
      assert [before[0]] + before[1..] == before;
    }
  }

  lemma QuotedHere(s: string)
    requires s != [] && s[0] == '"' && Quotation(s).Some?
    ensures QuoteFree(Quotation(s).value.text) && Quotation(s).value.before == []
    ensures s == ['"'] + (Quotation(s).value.text + (['"'] + Quotation(s).value.after))
  {
    var close := IndexOf(s[1..], '"');
    assert s[1..close + 1] == s[1..][..close];
    QuoteFreeIndex(s[1..]);
    assert s[close + 1] == '"';
  }

  /** And what is found stands in the text as found. */
  lemma {:induction false} QuotationStands(s: string)
    requires Quotation(s).Some?
    ensures var q := Quotation(s).value; QuoteFree(q.before) && QuoteFree(q.text) && s == Around(q.before, q.text, q.after)
    decreases |s|
  {
    if s[0] == '"' {
      QuotedHere(s);
    } else {
      QuotationStands(s[1..]);
      var q := Quotation(s[1..]).value;
      AroundPast(s[0], q.before, q.text, q.after);
      assert s == [s[0]] + s[1..];
    }
  }

  lemma AroundPast(c: char, before: string, text: string, after: string)
    ensures [c] + Around(before, text, after) == Around([c] + before, text, after)
  {
  }

  lemma {:induction false} LStripAt(a: string, s: string)
    requires s != [] && !IsSpace(s[0])
    ensures LStrip(a + s) == LStrip(a) + s
  {
    if a == [] {
      assert a + s == s;
    } else {
      assert (a + s)[0] == a[0] && (a + s)[1..] == a[1..] + s;
      LStripAt(a[1..], s);
    }
  }

  lemma {:induction false} RStripAt(s: string, b: string)
    requires s != [] && !IsSpace(s[|s| - 1])
    ensures RStrip(s + b) == s + RStrip(b)
  {
    if b == [] {
      assert s + b == s;
    } else {
      var n := |b| - 1;
      assert (s + b)[|s + b| - 1] == b[n] && (s + b)[..|s + b| - 1] == s + b[..n];
      RStripAt(s, b[..n]);
    }
  }

  lemma QuoteIsNotBlank()
    ensures !IsSpace('"')
  {
  }

  lemma AroundCloses(before: string, text: string, after: string)
    ensures Around(before, text, after) == (before + (['"'] + (text + ['"']))) + after
  {
  }

  /** Stripping a text about a quotation strips what is around it. */
  lemma StripAround(before: string, text: string, after: string)
    ensures Strip(Around(before, text, after)) == Around(LStrip(before), text, RStrip(after))
  {
    QuoteIsNotBlank();
    var closed := before + (['"'] + (text + ['"']));
    AroundCloses(before, text, after);
    assert closed[|closed| - 1] == '"';
    RStripAt(closed, after);
    AroundCloses(before, text, RStrip(after));
    LStripAt(before, ['"'] + (text + (['"'] + RStrip(after))));
  }

  lemma LStripKeepsQuoteFree(s: string)
    requires QuoteFree(s)
    ensures QuoteFree(LStrip(s))
  {
  }

  lemma UnquotedHere(text: string, after: string)
    requires QuoteFree(text)
    ensures Unquoted(['"'] + (text + (['"'] + after))) == ['"', '"'] + Unquoted(after)
  {
    var s := ['"'] + (text + (['"'] + after));
    assert s[1..] == text + (['"'] + after);
    IndexOfAppend(text, ['"'] + after, '"');
    assert IndexOf(text, '"') == |text| && IndexOf(['"'] + after, '"') == 0;
    assert s[|text| + 2..] == after;
  }

  /** What precedes every quotation is read as it stands. */
  lemma {:induction false} UnquotedPast(before: string, s: string)
    requires QuoteFree(before)
    ensures Unquoted(before + s) == before + Unquoted(s)
  {
    if before == [] {
      assert before + s == s;
    } else {
      assert (before + s)[1..] == before[1..] + s;
      UnquotedPast(before[1..], s);
      FirstBack(before, Unquoted(s));
    }
  }

  lemma FirstBack(a: string, b: string)
    requires a != []
    ensures [a[0]] + (a[1..] + b) == a + b
  {
  }

  /** Whatever is quoted reads the same. */
  lemma UnquotedAround(before: string, text: string, after: string)
    requires QuoteFree(before) && QuoteFree(text)
    ensures Unquoted(Around(before, text, after)) == before + (['"', '"'] + Unquoted(after))
  {
    UnquotedPast(before, ['"'] + (text + (['"'] + after)));
    UnquotedHere(text, after);
  }

  lemma SameStart(before: string, text: string, text': string, after: string)
    ensures Around(before, text, after)[0] == Around(before, text', after)[0]
  {
  }

  // ---------------------------------------------------------------- counting quotation marks

  function Quotes(s: string): nat { Count(s, '"') }

  lemma QuotesAppend(a: string, b: string)
    ensures Quotes(a + b) == Quotes(a) + Quotes(b)
  {
    CountAppend(a, b, '"');
  }

  lemma QuoteFreeIff(s: string)
    ensures QuoteFree(s) <==> Quotes(s) == 0
  {
    CountAbsent(s, '"');
  }

  lemma QuotesAround(before: string, text: string, after: string)
    ensures Quotes(Around(before, text, after)) == Quotes(before) + Quotes(text) + Quotes(after) + 2
  {
    QuotesAppend(before, ['"'] + (text + (['"'] + after)));
    QuotesAppend(['"'], text + (['"'] + after));
    QuotesAppend(text, ['"'] + after);
    QuotesAppend(['"'], after);
    OneQuote();
  }

  lemma OneQuote()
    ensures Quotes(['"']) == 1
  {
    assert ['"'][1..] == [];
  }

  /** A text has a quotation exactly when it has two quotation marks. */
  lemma {:induction false} QuotationIff(s: string)
    ensures Quotation(s).Some? <==> Quotes(s) >= 2
  {
    if s != [] {
      if s[0] != '"' {
        QuotationIff(s[1..]);
      } else {
        ClosesIff(s[1..]);
      }
    }
  }

  lemma ClosesIff(s: string)
    ensures IndexOf(s, '"') < |s| <==> Quotes(s) >= 1
  {
    QuoteFreeIff(s);
  }

  lemma AroundBehind(p: string, before: string, text: string, after: string)
    ensures p + Around(before, text, after) == Around(p + before, text, after)
  {
  }

  lemma QuotedPast(before: string, s: string)
    requires QuoteFree(before) && Quotation(s).Some?
    ensures Quotation(before + s) == Some(Quotation(s).value.(before := before + Quotation(s).value.before))
  {
    var q := Quotation(s).value;
    QuotationStands(s);
    AroundBehind(before, q.before, q.text, q.after);
    QuotationIs(before + q.before, q.text, q.after);
  }

  /** Nor has a text a quotation because of what stands ahead without one. */
  lemma UnquotedAhead(before: string, s: string)
    requires QuoteFree(before)
    ensures Quotation(before + s).Some? == Quotation(s).Some?
  {
    QuotationIff(s);
    QuotationIff(before + s);
    QuotesAppend(before, s);
    QuoteFreeIff(before);
  }
}
