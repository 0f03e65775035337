/** Strings as Python treats them: character classes, stripping, searching, counting. */
module Text {

  datatype Option<+T> = None | Some(value: T)

  // Which characters beyond ASCII are blanks, digits or letters is Unicode's table, not this
  // program's: the sets are left unspecified and every theorem holds whatever they are.
  const OTHER_SPACES: set<char>
  const OTHER_DIGITS: set<char>
  const OTHER_WORD_CHARACTERS: set<char>

  predicate IsUpper(c: char) { 'A' <= c <= 'Z' }

  predicate IsAsciiAlnum(c: char) { 'A' <= c <= 'Z' || 'a' <= c <= 'z' || '0' <= c <= '9' }

  /** The regular expression class `\d`. */
  predicate IsDigit(c: char) { '0' <= c <= '9' || (c as int >= 128 && !IsSpace(c) && c in OTHER_DIGITS) }

  /** The regular expression class `\w`. */
  predicate IsWord(c: char) {
    IsAsciiAlnum(c) || c == '_' || (c as int >= 128 && !IsSpace(c) && c in OTHER_WORD_CHARACTERS)
  }

  /** `str.isspace`, which is also the class `\s`. */
  predicate IsSpace(c: char) {
    '\t' <= c <= '\r' || '\U{1C}' <= c <= ' ' || (c as int >= 128 && c in OTHER_SPACES)
  }

  /** The characters `str.splitlines` ends a line at. */
  predicate IsLineBreak(c: char) {
    var n := c as int;
    0x0A <= n <= 0x0D || 0x1C <= n <= 0x1E || n == 0x85 || n == 0x2028 || n == 0x2029
  }

  // ---------------------------------------------------------------- stripping

  function LStrip(s: string): (r: string)
    ensures |r| <= |s| && r == s[|s| - |r|..]
    ensures r == [] || !IsSpace(r[0])
  {
    if s != [] && IsSpace(s[0]) then LStrip(s[1..]) else s
  }

  function RStrip(s: string): (r: string)
    ensures |r| <= |s| && r == s[..|r|]
    ensures r == [] || !IsSpace(r[|r| - 1])
  {
    if s != [] && IsSpace(s[|s| - 1]) then RStrip(s[..|s| - 1]) else s
  }

  lemma {:induction false} LStripDropsBlanks(s: string)
    ensures forall i | 0 <= i < |s| - |LStrip(s)| :: IsSpace(s[i])
  {
    if s != [] && IsSpace(s[0]) {
      LStripDropsBlanks(s[1..]);
      assert forall i | 1 <= i < |s| - |LStrip(s)| :: s[i] == s[1..][i - 1];
    }
  }

  lemma {:induction false} RStripDropsBlanks(s: string)
    ensures forall i | |RStrip(s)| <= i < |s| :: IsSpace(s[i])
  {
    if s != [] && IsSpace(s[|s| - 1]) {
      RStripDropsBlanks(s[..|s| - 1]);
    }
  }

  function Strip(s: string): string { LStrip(RStrip(s)) }

  predicate AllSpace(s: string) { forall i | 0 <= i < |s| :: IsSpace(s[i]) }

  predicate Trimmed(s: string) { s == [] || (!IsSpace(s[0]) && !IsSpace(s[|s| - 1])) }

  lemma StripTrims(s: string)
    ensures Trimmed(Strip(s))
  {}

  lemma {:induction false} LStripPast(ws: string, s: string)
    requires AllSpace(ws)
    ensures LStrip(ws + s) == LStrip(s)
  {
    if ws == [] {
      assert ws + s == s;
    } else {
      assert (ws + s)[0] == ws[0] && (ws + s)[1..] == ws[1..] + s;
      LStripPast(ws[1..], s);
    }
  }

  lemma {:induction false} RStripPast(s: string, ws: string)
    requires AllSpace(ws)
    ensures RStrip(s + ws) == RStrip(s)
  {
    if ws == [] {
      assert s + ws == s;
    } else {
      var n := |s + ws| - 1;
      assert (s + ws)[n] == ws[|ws| - 1] && (s + ws)[..n] == s + ws[..|ws| - 1];
      RStripPast(s, ws[..|ws| - 1]);
    }
  }

  /** Stripping is determined by what it must leave: the trimmed core between blank margins. */
  lemma StripUnique(left: string, core: string, right: string)
    requires AllSpace(left) && AllSpace(right) && Trimmed(core) && core != []
    ensures Strip(left + core + right) == core
    ensures RStrip(left + core + right) == left + core
    ensures LStrip(left + core) == core
  {
    RStripPast(left + core, right);
    RStripOfEnd(left, core);
    LStripPast(left, core);
  }

  lemma RStripOfEnd(left: string, core: string)
    requires core != [] && !IsSpace(core[|core| - 1])
    ensures RStrip(left + core) == left + core
  {
    assert (left + core)[|left + core| - 1] == core[|core| - 1];
  }

  lemma StripIdempotent(s: string)
    ensures Strip(Strip(s)) == Strip(s)
  {
    StripTrims(s);
    TrimmedIsStripped(Strip(s));
  }

  lemma TrimmedIsStripped(s: string)
    requires Trimmed(s)
    ensures Strip(s) == s
  {}

  predicate EndsWith(s: string, c: char) { s != [] && s[|s| - 1] == c }

  // ---------------------------------------------------------------- searching

  predicate Occurs(pattern: string, s: string, i: int)
  {
    0 <= i <= |s| - |pattern| && s[i..i + |pattern|] == pattern
  }

  /** `s.find(pattern, start)`: the first occurrence at or after `start`, or -1. */
  function FindFrom(pattern: string, s: string, start: nat): (r: int)
    ensures r == -1 || (start <= r && Occurs(pattern, s, r))
    ensures forall i | start <= i && (r < 0 || i < r) :: !Occurs(pattern, s, i)
    decreases |s| - start
  {
    if Occurs(pattern, s, start) then start
    else if start >= |s| then -1
    else FindFrom(pattern, s, start + 1)
  }

  function Find(pattern: string, s: string): (r: int)
    ensures r == -1 || Occurs(pattern, s, r)
    ensures forall i | 0 <= i && (r < 0 || i < r) :: !Occurs(pattern, s, i)
  {
    FindFrom(pattern, s, 0)
  }

  /** The first index holding `c`, or the length when there is none. */
  function IndexOf(s: string, c: char): (r: nat)
    ensures r <= |s| && (r < |s| ==> s[r] == c)
    ensures forall i | 0 <= i < r :: s[i] != c
  {
    if s == [] || s[0] == c then 0 else 1 + IndexOf(s[1..], c)
  }

  /** `s.partition(c)` for a single character: what precedes its first occurrence, and what follows. */
  function Cut(s: string, c: char): (r: (string, Option<string>))
    ensures c !in r.0
    ensures s == match r.1 case None => r.0 case Some(rest) => r.0 + [c] + rest
  {
    var i := IndexOf(s, c);
    if i == |s| then (s, None) else (s[..i], Some(s[i + 1..]))
  }

  lemma CutIs(a: string, c: char, b: Option<string>)
    requires c !in a
    ensures b.None? ==> Cut(a, c) == (a, None)
    ensures b.Some? ==> Cut(a + [c] + b.value, c) == (a, b)
  {
    if b.Some? {
      var s := a + [c] + b.value;
      assert s[|a|] == c && forall i | 0 <= i < |a| :: s[i] == a[i];
      assert IndexOf(s, c) == |a|;
      assert s[..|a|] == a && s[|a| + 1..] == b.value;
    }
  }

  function LastIndexOf(s: string, c: char): (r: int)
    ensures -1 <= r < |s| && (r >= 0 ==> s[r] == c)
    ensures forall i | r < i < |s| :: s[i] != c
  {
    if s == [] then -1
    else if s[|s| - 1] == c then |s| - 1
    else LastIndexOf(s[..|s| - 1], c)
  }

  /** `s.count(c)` for a single character. */
  function Count(s: string, c: char): nat {
    if s == [] then 0 else (if s[0] == c then 1 else 0) + Count(s[1..], c)
  }

  lemma {:induction false} CountAppend(a: string, b: string, c: char)
    ensures Count(a + b, c) == Count(a, c) + Count(b, c)
  {
    if a == [] {
      assert a + b == b;
    } else {
      assert (a + b)[1..] == a[1..] + b;
      CountAppend(a[1..], b, c);
    }
  }

  lemma {:induction false} CountAbsent(s: string, c: char)
    ensures Count(s, c) == 0 <==> c !in s
  {
    if s != [] {
      CountAbsent(s[1..], c);
    }
  }
}
