/** How build-blog.js reads one line: its tests and regular expressions, as direct scanners. */
module MarkdownLines {
  import opened Text
  import Slug

  datatype ListKind = Ul | Ol

  /** What a line means outside a tabs region and outside a fence, in the order the loop asks. */
  datatype LineKind =
    | TabsOpenLine
    | TabsEndLine
    | FenceLine
    | RowLine
    | HeadingLine(level: nat, rawText: string)
    | ItemLine(kind: ListKind, text: string)
    | AlertLine(alertType: string)
    | QuoteLine
    | RuleLine
    | BlankLine
    | ParagraphLine

  predicate IsTabsOpen(line: string) {
    Trim(line) == ":::tabs"
  }

  predicate IsTabsEnd(line: string) {
    Trim(line) == ":::"
  }

  predicate IsTabStart(line: string) {
    "::tab" <= Trim(line)
  }

  predicate IsFence(line: string) {
    "```" <= Trim(line)
  }

  predicate IsRow(line: string) {
    "|" <= Trim(line) && EndsWith(Trim(line), "|")
  }

  predicate IsQuote(line: string) {
    ">" <= Trim(line)
  }

  predicate IsRule(line: string) {
    Trim(line) == "---" || Trim(line) == "***" || Trim(line) == "___"
  }

  predicate IsHash(c: char) {
    c == '#'
  }

  predicate IsBulletMark(c: char) {
    c == '-' || c == '*' || c == '+'
  }

  predicate NoTerminator(s: string) {
    forall i :: 0 <= i < |s| ==> !IsLineTerminator(s[i])
  }

  /** `\s+(.*)$`: the captured text, the white space taken greedily. */
  function MatchRest(s: string): Option<string> {
    var w := Span(s, IsSpace);
    if w >= 1 && NoTerminator(s[w..]) then Some(s[w..]) else None
  }

  /** `^(#{1,6})\s+(.*)$` */
  function MatchHeading(line: string): Option<(nat, string)> {
    var level := Span(line, IsHash);
    if 1 <= level <= 6 then
      match MatchRest(line[level..])
      case Some(text) => Some((level, text))
      case None => None
    else None
  }

  /** `^(\s*)[-*+]\s+(.*)$` */
  function MatchBullet(line: string): Option<string> {
    var w := Span(line, IsSpace);
    if w < |line| && IsBulletMark(line[w]) then MatchRest(line[w + 1..]) else None
  }

  /** `^(\s*)\d+\.\s+(.*)$` */
  function MatchNumber(line: string): Option<string> {
    var w := Span(line, IsSpace);
    var d := Span(line[w..], IsDigit);
    if d >= 1 && w + d < |line| && line[w + d] == '.' then MatchRest(line[w + d + 1..]) else None
  }

  const ALERT_TYPES: seq<string> := ["NOTE", "TIP", "IMPORTANT", "WARNING", "CAUTION"]

  /** `name\]` at the front of `s`, without regard to case. */
  predicate NamesAlert(s: string, name: string) {
    |name| < |s| && Upper(s[..|name|]) == name && s[|name|] == ']'
  }

  /** `^>\s+\[!`: the text after it. */
  function MatchAlertStart(line: string): Option<string> {
    var t := Trim(line);
    if t != "" && t[0] == '>' then
      var w := Span(t[1..], IsSpace);
      if w >= 1 && "[!" <= t[1 + w..] then Some(t[w + 3..]) else None
    else None
  }

  /** `^>\s+\[!(NOTE|TIP|IMPORTANT|WARNING|CAUTION)\]`, case-insensitive: the upper-cased name. */
  function MatchAlert(line: string): Option<string> {
    match MatchAlertStart(line)
    case None => None
    case Some(s) => FirstName(s, ALERT_TYPES)
  }

  function FirstName(s: string, names: seq<string>): Option<string> {
    if names == [] then None
    else if NamesAlert(s, names[0]) then Some(names[0])
    else FirstName(s, names[1..])
  }

  function Classify(line: string): LineKind {
    if IsTabsOpen(line) then TabsOpenLine
    else if IsTabsEnd(line) then TabsEndLine
    else if IsFence(line) then FenceLine
    else if IsRow(line) then RowLine
    else if "#" <= Trim(line) && MatchHeading(line).Some? then
      HeadingLine(MatchHeading(line).value.0, MatchHeading(line).value.1)
    else if MatchBullet(line).Some? then ItemLine(Ul, MatchBullet(line).value)
    else if MatchNumber(line).Some? then ItemLine(Ol, MatchNumber(line).value)
    else if MatchAlert(line).Some? then AlertLine(MatchAlert(line).value)
    else if IsQuote(line) then QuoteLine
    else if IsRule(line) then RuleLine
    else if Trim(line) == "" then BlankLine
    else ParagraphLine
  }

  /** `line.trim().slice(1).trim()` */
  function QuoteText(line: string): string {
    var t := Trim(line);
    if t == "" then "" else Trim(t[1..])
  }

  /** `line.trim().slice(3).trim()` */
  function FenceLang(line: string): string {
    var t := Trim(line);
    if |t| < 3 then "" else Trim(t[3..])
  }

  /** `line.trim().split("|").slice(1, -1)` */
  function RowCells(line: string): seq<string> {
    var parts := Split(Trim(line), '|');
    if |parts| < 2 then [] else parts[1..|parts| - 1]
  }

  predicate NotQuoteMark(c: char) {
    c != '"'
  }

  /** `/title="([^"]+)"/`, first match from `from` on. */
  function MatchTitle(line: string, from: nat): Option<string>
    decreases |line| - from
  {
    match IndexOf(line, "title=\"", from)
    case None => None
    case Some(i) =>
      var n := Span(line[i + 7..], NotQuoteMark);
      if n >= 1 && i + 7 + n < |line| then Some(line[i + 7..i + 7 + n])
      else MatchTitle(line, i + 1)
  }

  function TabTitle(line: string): string {
    match MatchTitle(line, 0)
    case Some(title) => title
    case None => "Tab"
  }

  predicate IsTocMark(c: char) {
    !(c == '`' || c == '*' || c == '_' || c == '\\')
  }

  lemma TabsOpenIsNoEnd(line: string)
    requires IsTabsOpen(line)
    ensures !IsTabsEnd(line) && Classify(line) == TabsOpenLine && |line| >= 7
  {
    TrimEdges(line);
  }

  lemma ClassifyFence(line: string)
    requires IsFence(line) && !IsTabsOpen(line) && !IsTabsEnd(line)
    ensures Classify(line) == FenceLine
  {
  }

  lemma {:induction false} TrimStartIsSpan(s: string)
    ensures TrimStart(s) == s[Span(s, IsSpace)..]
  {
    if s != "" && IsSpace(s[0]) {
      TrimStartIsSpan(s[1..]);
    }
  }

  /** A line that starts with a hash is no list item, so closing the list early for it is safe. */
  lemma HashIsNoItem(line: string)
    requires "#" <= Trim(line)
    ensures !Classify(line).ItemLine?
  {
    hide Trim, MatchRest, MatchHeading, MatchAlert, IsTabsOpen, IsTabsEnd, IsFence, IsRow, IsQuote, IsRule, IsSpace,
         Span;
    HashComesFirst(line);
  }

  lemma HashComesFirst(line: string)
    requires "#" <= Trim(line)
    ensures MatchBullet(line).None? && MatchNumber(line).None?
  {
    hide MatchRest, TrimStart, TrimEnd, IsSpace;
    var w := Span(line, IsSpace);
    TrimStartIsSpan(line);
    TrimEndDrops(TrimStart(line));
    assert line[w] == TrimStart(line)[0] == Trim(line)[0] == '#';
    assert line[w..][0] == '#';
  }

  // ---------------------------------------------------------------- what the patterns mean

  /** `w` is a non-empty run of white space and `text`, without a line terminator, all that follows it on the line. */
  ghost predicate GapThenText(s: string, w: string, text: string) {
    && s == w + text && w != "" && AllSpace(w) && (text != "" ==> !IsSpace(text[0]))
    && forall c :: c in text ==> c !in {'\n', '\r', '\U{2028}', '\U{2029}'}
  }

  lemma TerminatorsMean(s: string)
    ensures NoTerminator(s) <==> forall c :: c in s ==> c !in {'\n', '\r', '\U{2028}', '\U{2029}'}
  {
    if forall c :: c in s ==> c !in {'\n', '\r', '\U{2028}', '\U{2029}'} {
      assert forall i :: 0 <= i < |s| ==> s[i] in s;
    }
  }

  lemma RestMeaning(s: string, text: string)
    ensures MatchRest(s) == Some(text) <==> exists w :: GapThenText(s, w, text)
  {
    hide NoTerminator, IsSpace;
    TerminatorsMean(text);
    var n := Span(s, IsSpace);
    if MatchRest(s) == Some(text) {
      assert s == s[..n] + text;
      assert GapThenText(s, s[..n], text);
    }
    if w :| GapThenText(s, w, text) {
      assert forall i :: 0 <= i < |w| ==> s[i] == w[i];
      SpanIs(s, IsSpace, |w|);
      assert s[|w|..] == text;
    }
  }

  lemma SpanIs<T>(s: seq<T>, p: T -> bool, n: nat)
    requires n <= |s| && (forall i :: 0 <= i < n ==> p(s[i])) && (n < |s| ==> !p(s[n]))
    ensures Span(s, p) == n
  {
  }

  ghost predicate Hashes(s: string) {
    1 <= |s| <= 6 && forall i :: 0 <= i < |s| ==> s[i] == '#'
  }

  /** A heading is one to six hashes, a gap, and the text up to the end of the line. */
  lemma HeadingMeaning(line: string, level: nat, text: string)
    ensures MatchHeading(line) == Some((level, text)) <==>
            exists h, w :: Hashes(h) && |h| == level && |h| <= |line| && line[..|h|] == h
                && GapThenText(line[|h|..], w, text)
  {
    hide MatchRest, GapThenText, IsSpace;
    var n := Span(line, IsHash);
    if MatchHeading(line) == Some((level, text)) {
      RestMeaning(line[n..], text);
      var w :| GapThenText(line[n..], w, text);
      assert Hashes(line[..n]);
    }
    if h, w :| Hashes(h) && |h| == level && |h| <= |line| && line[..|h|] == h && GapThenText(line[|h|..], w, text) {
      HashesEnd(line, h, w, text);
      RestMeaning(line[|h|..], text);
    }
  }

  lemma HashesEnd(line: string, h: string, w: string, text: string)
    requires Hashes(h) && |h| <= |line| && line[..|h|] == h && GapThenText(line[|h|..], w, text)
    ensures Span(line, IsHash) == |h|
  {
    assert forall i :: 0 <= i < |h| ==> line[i] == h[i];
    assert line[|h|] == w[0];
    SpanIs(line, IsHash, |h|);
  }

  ghost predicate BulletSplit(line: string, indent: string, mark: char, w: string, text: string) {
    && indent + [mark] <= line && AllSpace(indent) && (mark == '-' || mark == '*' || mark == '+')
    && GapThenText(line[|indent| + 1..], w, text)
  }

  /** A bullet is any indent, one of `-*+`, a gap, and the text up to the end of the line. */
  lemma BulletMeaning(line: string, text: string)
    ensures MatchBullet(line) == Some(text) <==>
            exists indent, mark, w :: BulletSplit(line, indent, mark, w, text)
  {
    hide MatchBullet, BulletSplit;
    if MatchBullet(line) == Some(text) {
      var indent, mark, w := SplitOfBullet(line, text);
    }
    if indent, mark, w :| BulletSplit(line, indent, mark, w, text) {
      BulletOfSplit(line, indent, mark, w, text);
    }
  }

  lemma SplitOfBullet(line: string, text: string) returns (indent: string, mark: char, w: string)
    requires MatchBullet(line) == Some(text)
    ensures BulletSplit(line, indent, mark, w, text)
  {
    hide MatchRest, GapThenText, IsSpace;
    var n := Span(line, IsSpace);
    RestMeaning(line[n + 1..], text);
    indent, mark := line[..n], line[n];
    w :| GapThenText(line[n + 1..], w, text);
    assert indent + [mark] == line[..n + 1];
  }

  lemma BulletOfSplit(line: string, indent: string, mark: char, w: string, text: string)
    requires BulletSplit(line, indent, mark, w, text)
    ensures MatchBullet(line) == Some(text)
  {
    hide MatchRest, GapThenText, Span;
    var k := |indent|;
    assert line[k] == (indent + [mark])[k];
    assert forall i :: 0 <= i < k ==> line[i] == (indent + [mark])[i] == indent[i];
    SpanIs(line, IsSpace, k);
    RestMeaning(line[k + 1..], text);
  }

  ghost predicate IsNumeral(s: string) {
    s != "" && forall i :: 0 <= i < |s| ==> IsDigit(s[i])
  }

  ghost predicate NumberSplit(line: string, k: nat, m: nat, w: string, text: string) {
    && k + m < |line| && AllSpace(line[..k]) && IsNumeral(line[k..][..m]) && line[k + m] == '.'
    && GapThenText(line[k + m + 1..], w, text)
  }

  /** A numbered item is any indent, digits, a full stop, a gap, and the text up to the end of the line. */
  lemma NumberMeaning(line: string, text: string)
    ensures MatchNumber(line) == Some(text) <==> exists k, m, w :: NumberSplit(line, k, m, w, text)
  {
    if MatchNumber(line) == Some(text) {
      var k, m, w := SplitOfNumber(line, text);
    }
    if k, m, w :| NumberSplit(line, k, m, w, text) {
      NumberOfSplit(line, k, m, w, text);
    }
  }

  lemma SplitOfNumber(line: string, text: string) returns (k: nat, m: nat, w: string)
    requires MatchNumber(line) == Some(text)
    ensures NumberSplit(line, k, m, w, text)
  {
    hide MatchRest, GapThenText, IsSpace, IsDigit;
    k := Span(line, IsSpace);
    var tail := line[k..];
    m := Span(tail, IsDigit);
    RestMeaning(line[k + m + 1..], text);
    w :| GapThenText(line[k + m + 1..], w, text);
    assert AllSpace(line[..k]);
    assert IsNumeral(tail[..m]);
  }

  lemma NumberOfSplit(line: string, k: nat, m: nat, w: string, text: string)
    requires NumberSplit(line, k, m, w, text)
    ensures MatchNumber(line) == Some(text)
  {
    hide MatchRest, GapThenText, Span;
    var tail := line[k..];
    assert forall i :: 0 <= i < k ==> line[i] == line[..k][i];
    assert forall i :: 0 <= i < m ==> tail[i] == tail[..m][i];
    assert tail[0] == line[k] && tail[m] == line[k + m];
    SpanIs(line, IsSpace, k);
    SpanIs(tail, IsDigit, m);
    RestMeaning(line[k + m + 1..], text);
  }
}
