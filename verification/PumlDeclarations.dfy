/** What a line of a PlantUML body declares, and rewriting a declaration's colour and label. */
module PumlDeclarations {
  import opened Text
  import opened PumlQuotations

  // ---------------------------------------------------------------- reading an alias

  predicate IsAliasChar(c: char) { IsAsciiAlnum(c) || c == '_' || c == '-' }

  /** `\b` at position `j`. */
  predicate BoundaryAt(w: string, j: nat)
    requires j <= |w|
  {
    (j > 0 && IsWord(w[j - 1])) != (j < |w| && IsWord(w[j]))
  }

  function SpacesFrom(w: string, i: nat): (n: nat)
    requires i <= |w|
    ensures i + n <= |w| && (i + n < |w| ==> !IsSpace(w[i + n]))
    decreases |w| - i
  {
    if i < |w| && IsSpace(w[i]) then 1 + SpacesFrom(w, i + 1) else 0
  }

  function AliasCharsFrom(w: string, i: nat): (n: nat)
    requires i <= |w|
    ensures i + n <= |w|
    decreases |w| - i
  {
    if i < |w| && IsAliasChar(w[i]) then 1 + AliasCharsFrom(w, i + 1) else 0
  }

  /** The last boundary in `(lo, hi]`, or `lo`: where a greedy run backs up to meet `\b`. */
  function LastBoundary(w: string, lo: nat, hi: nat): (j: nat)
    requires lo <= hi <= |w|
    ensures lo <= j <= hi
    decreases hi
  {
    if hi == lo || BoundaryAt(w, hi) then hi else LastBoundary(w, lo, hi - 1)
  }

  /** `[A-Za-z0-9_-]+\b` matched at `start`. */
  function AliasText(w: string, start: nat): Option<string>
    requires start <= |w|
  {
    var end := LastBoundary(w, start, start + AliasCharsFrom(w, start));
    if end == start then None else Some(w[start..end])
  }

  /** `\s+[A-Za-z0-9_-]+\b` matched at `p`. */
  function AliasAfter(w: string, p: nat): Option<string>
    requires p <= |w|
  {
    var blanks := SpacesFrom(w, p);
    if blanks == 0 then None else AliasText(w, p + blanks)
  }

  predicate WordAsAt(w: string, i: nat) { i + 2 <= |w| && w[i] == 'a' && w[i + 1] == 's' && BoundaryAt(w, i) }

  /** `\bas\s+[A-Za-z0-9_-]+\b` matched at `i`: the alias. */
  function AliasAt(w: string, i: nat): Option<string> {
    if WordAsAt(w, i) then AliasAfter(w, i + 2) else None
  }

  /** The leftmost match at or after `i`. */
  function AliasFrom(w: string, i: nat): Option<string>
    decreases |w| - i
  {
    if i >= |w| then None
    else if AliasAt(w, i).Some? then AliasAt(w, i)
    else AliasFrom(w, i + 1)
  }

  datatype AliasDeclaration = AliasDeclaration(alias: string, opensBlock: bool)

  function AliasDeclaredOn(line: string): Option<AliasDeclaration> {
    var stripped := Strip(line);
    if stripped == [] || stripped[0] == '\'' then None else
    var w := Unquoted(stripped);
    match AliasFrom(w, 0)
    case None => None
    case Some(alias) => Some(AliasDeclaration(alias, EndsWith(w, '{')))
  }

  // ---------------------------------------------------------------- writing a style

  datatype Style = Style(fill: Option<string>, border: Option<string>, ink: Option<string>, labelLines: seq<string>)

  predicate IsColourChar(c: char) {
    IsAsciiAlnum(c) || c == '_' || c == ':' || c == ';' || c == '#' || c == ',' || c == '-'
  }

  /** `#` and at least one more colour character. */
  predicate IsColourToken(t: string) {
    |t| >= 2 && t[0] == '#' && forall i | 1 <= i < |t| :: IsColourChar(t[i])
  }

  /** Where the last blank-free stretch of `s` begins. */
  function TokenStart(s: string): (n: nat)
    ensures n <= |s| && (n > 0 ==> IsSpace(s[n - 1]))
  {
    if s == [] || IsSpace(s[|s| - 1]) then |s| else TokenStart(s[..|s| - 1])
  }

  /** Dropping `\s+#[A-Za-z0-9_:;#,-]+\s*$` from a text with no trailing blank. */
  function WithoutColour(stem: string): string {
    var n := TokenStart(stem);
    if n > 0 && IsColourToken(stem[n..]) then RStrip(stem[..n]) else stem
  }

  const APPENDED := "\\n<size:10>"

  function LabelBase(text: string): string {
    var at := Find(APPENDED, text);
    if at < 0 then text else text[..at]
  }

  function LineBreakJoin(ls: seq<string>): string {
    if ls == [] then "" else if |ls| == 1 then ls[0] else ls[0] + "\\n" + LineBreakJoin(ls[1..])
  }

  function Tinted(line: string, ink: Option<string>): string {
    if ink.None? || ink.value == [] then line else "<color:#" + ink.value + ">" + line + "</color>"
  }

  function TintedAll(ls: seq<string>, ink: Option<string>): seq<string> {
    seq(|ls|, i requires 0 <= i < |ls| => Tinted(ls[i], ink))
  }

  function Appendix(labelLines: seq<string>, ink: Option<string>): string {
    LineBreakJoin(TintedAll(labelLines, ink)) + "</size>"
  }

  function RestyledLabel(text: string, labelLines: seq<string>, ink: Option<string>): string {
    if labelLines == [] then LabelBase(text)
    else LabelBase(text) + APPENDED + Appendix(labelLines, ink)
  }

  function Optional(lead: string, part: Option<string>): string {
    match part case None => "" case Some(text) => lead + text
  }

  function ColourToken(fill: string, border: Option<string>, ink: Option<string>): string {
    ['#'] + "back:" + fill + Optional(";line:", border) + Optional(";text:", ink)
  }

  function ColourSuffix(style: Style): string {
    match style.fill
    case None => ""
    case Some(fill) => [' '] + ColourToken(fill, style.border, style.ink)
  }

  /** The text with its first quotation restyled, or none if it has no closed quotation. */
  function WithRestyledLabel(s: string, style: Style): Option<string> {
    match Quotation(s)
    case None => None
    case Some(q) => Some(Around(q.before, RestyledLabel(q.text, style.labelLines, style.ink), q.after))
  }

  /** The text with the label lines asked for, if any are. */
  function Labelled(s: string, style: Style): Option<string> {
    if style.labelLines == [] then Some(s) else WithRestyledLabel(s, style)
  }

  function Stem(line: string): string {
    var r := RStrip(line);
    if EndsWith(r, '{') then RStrip(r[..|r| - 1]) else r
  }

  function Trailer(line: string): string { if EndsWith(RStrip(line), '{') then [' ', '{'] else "" }

  function Indent(line: string): string { line[..|line| - |LStrip(line)|] }

  function Restyled(line: string, style: Style): string {
    if AliasDeclaredOn(line).None? || (style.fill.None? && style.labelLines == []) then line else
    var bare := WithoutColour(Stem(line));
    var labelled := Labelled(bare, style);
    if labelled.None? then line
    else Indent(line) + (LStrip(labelled.value) + (ColourSuffix(style) + Trailer(line)))
  }

  /** The line up to its closing brace, if it has one, and how that brace is written again. */
  method TakeApart(line: string) returns (stem: string, trailer: string)
    ensures stem == Stem(line) && trailer == Trailer(line)
  {
    stem, trailer := RStrip(line), [];
    if EndsWith(stem, '{') {
      stem, trailer := RStrip(stem[..|stem| - 1]), [' ', '{'];
    }
  }
}
