/** How link-adr.ts finds the title of a record in its text. */
module AdrHeading {
  import opened Text

  const PREFIX := "MEOW-"

  predicate NotBreak(c: char) {
    c != '\n'
  }

  /** `^` with the `m` flag. */
  predicate StartsLine(s: string, i: nat)
    requires i <= |s|
  {
    i == 0 || IsLineTerminator(s[i - 1])
  }

  /** The last place from `from` to `last` where a title can start, as giving back white space finds it. */
  function LastInk(s: string, from: nat, last: nat): (r: Option<nat>)
    requires from <= last <= |s|
    ensures r.Some? ==> from <= r.value <= last && r.value < |s| && NotBreak(s[r.value])
    ensures r.Some? ==> forall p :: r.value < p <= last && p < |s| ==> !NotBreak(s[p])
    ensures r.None? ==> (forall p :: from <= p <= last && p < |s| ==> !NotBreak(s[p]))
    decreases last
  {
    if last < |s| && NotBreak(s[last]) then Some(last)
    else if last == from then None
    else LastInk(s, from, last - 1)
  }

  /** Where `MEOW-\d+:` ends that starts at `j`. */
  function LabelEnd(s: string, j: nat): (r: Option<nat>)
    requires j <= |s|
    ensures r.Some? ==> j < r.value <= |s|
  {
    if PREFIX <= s[j..] then
      var d := Span(s[j + 5..], IsDigit);
      if d >= 1 && j + 5 + d < |s| && s[j + 5 + d] == ':' then Some(j + 6 + d) else None
    else None
  }

  /** `#\s+(MEOW-\d+:\s*)?([^\n]+)` at `i`: where the second group starts. */
  function TitleAt(s: string, i: nat): (r: Option<nat>)
    requires i <= |s|
    ensures r.Some? ==> i + 1 < r.value < |s| && NotBreak(s[r.value])
  {
    if i < |s| && s[i] == '#' then
      var n := Span(s[i + 1..], IsSpace);
      var j := i + 1 + n;
      if n == 0 then None
      else if j == |s| then LastInk(s, i + 2, j)
      else
        assert s[j] == s[i + 1..][n];
        match LabelEnd(s, j)
        case None => Some(j)
        case Some(e) =>
          match LastInk(s, e, e + Span(s[e..], IsSpace))
          case Some(p) => Some(p)
          case None => Some(j)
    else None
  }

  /** The title: the first match's second group, trimmed; it ends with its line. */
  function HeadingFrom(s: string, i: nat): Option<string>
    requires i <= |s|
    decreases |s| - i
  {
    if StartsLine(s, i) && TitleAt(s, i).Some? then
      var p := TitleAt(s, i).value;
      Some(Trim(s[p..][..Span(s[p..], NotBreak)]))
    else if i == |s| then None
    else HeadingFrom(s, i + 1)
  }

  function Heading(content: string): Option<string> {
    HeadingFrom(content, 0)
  }

  // ---------------------------------------------------------------- what the pattern means

  /** What `(MEOW-\d+:\s*)?` may match. */
  ghost predicate IsLabel(g: string) {
    g == "" || exists d, w ::
        g == "MEOW-" + d + ":" + w && IsDigits(d) && AllSpace(w)
  }

  ghost predicate IsDigits(d: string) {
    d != "" && forall i :: 0 <= i < |d| ==> '0' <= d[i] <= '9'
  }

  lemma DigitsMean(d: string)
    ensures IsDigits(d) <==> d != "" && forall i :: 0 <= i < |d| ==> IsDigit(d[i])
  {
  }

  /** `text` is a match of the pattern up to its second group, which starts at `p`. */
  ghost predicate Leads(s: string, i: nat, p: nat, w: string, g: string) {
    i < p < |s| && s[i..p] == "#" + w + g && w != "" && AllSpace(w) && IsLabel(g) && s[p] != '\n'
  }

  lemma SpacesBehind(s: string, i: nat, n: nat)
    requires i <= |s| && n <= Span(s[i..], IsSpace)
    ensures i + n <= |s| && AllSpace(s[i..i + n])
  {
    hide IsSpace;
    assert forall k :: 0 <= k < n ==> s[i..i + n][k] == s[i..][k];
  }

  lemma LabelStands(s: string, j: nat, p: nat)
    requires j <= |s| && LabelEnd(s, j).Some? && LabelEnd(s, j).value <= p <= |s|
    requires p - LabelEnd(s, j).value <= Span(s[LabelEnd(s, j).value..], IsSpace)
    ensures IsLabel(s[j..p])
  {
    hide IsSpace, IsDigit, IsLabel;
    var e := LabelEnd(s, j).value;
    var w := s[e..p];
    var d := LabelDigits(s, j);
    SpacesBehind(s, e, p - e);
    assert s[j..p] == s[j..e] + w;
    LabelOf(d, w);
  }

  lemma LabelOf(d: string, w: string)
    requires d != "" && (forall i :: 0 <= i < |d| ==> IsDigit(d[i])) && AllSpace(w)
    ensures IsLabel(PREFIX + d + ":" + w)
  {
    hide IsSpace, IsDigit, IsDigits;
    DigitsMean(d);
    assert PREFIX + d + ":" + w == "MEOW-" + d + ":" + w;
  }

  lemma LabelDigits(s: string, j: nat) returns (d: string)
    requires j <= |s| && LabelEnd(s, j).Some?
    ensures d != "" && (forall i :: 0 <= i < |d| ==> IsDigit(d[i])) && s[j..LabelEnd(s, j).value] == PREFIX + d + ":"
  {
    hide IsDigit;
    var e, tail := LabelEnd(s, j).value, s[j + 5..];
    d := tail[..Span(tail, IsDigit)];
    assert s[j..][..5] == PREFIX && s[j..j + 5] == s[j..][..5];
    assert s[j..e] == s[j..j + 5] + d + [s[e - 1]];
  }

  /** How the scanner's match divides: all the white space, if anything but white space follows it. */
  lemma TitleParts(s: string, i: nat) returns (w: string, g: string)
    requires i <= |s| && TitleAt(s, i).Some?
    ensures Leads(s, i, TitleAt(s, i).value, w, g)
    ensures var n := Span(s[i + 1..], IsSpace);
            && |w| == (if TitleAt(s, i).value <= i + 1 + n then TitleAt(s, i).value - i - 1 else n)
            && TitleAt(s, i).value == i + 1 + |w| + |g|
  {
    hide IsSpace, LabelEnd, LastInk, IsLabel, AllSpace, Span;
    var n, p := Span(s[i + 1..], IsSpace), TitleAt(s, i).value;
    var j := i + 1 + n;
    EmptyLabel();
    if p <= j {
      SpacesBehind(s, i + 1, p - i - 1);
      w, g := s[i + 1..p], "";
    } else {
      SpacesBehind(s, i + 1, n);
      LabelStands(s, j, p);
      w, g := s[i + 1..j], s[j..p];
    }
    assert s[i..p] == "#" + w + g;
  }

  /** Where a title is found, the pattern matches. */
  lemma TitleLeads(s: string, i: nat)
    requires i <= |s| && TitleAt(s, i).Some?
    ensures exists w, g :: Leads(s, i, TitleAt(s, i).value, w, g)
  {
    hide Leads, TitleAt;
    var w, g := TitleParts(s, i);
  }

  lemma EmptyLabel()
    ensures IsLabel("")
  {
  }

  /** Where the pattern matches, a title is found. */
  lemma LeadsTitle(s: string, i: nat, p: nat, w: string, g: string)
    requires Leads(s, i, p, w, g)
    ensures TitleAt(s, i).Some?
  {
    hide IsSpace, LabelEnd, IsLabel, Span;
    GapThere(s, i, p, w, g);
    assert s[i] == s[i..p][0] == '#';
    if g == "" {
      assert p == i + 1 + |w|;
    }
  }

  lemma GapThere(s: string, i: nat, p: nat, w: string, g: string)
    requires Leads(s, i, p, w, g)
    ensures Span(s[i + 1..], IsSpace) >= |w| && (g != "" ==> Span(s[i + 1..], IsSpace) == |w|)
  {
    hide IsSpace, IsLabel;
    var tail, text := s[i + 1..], s[i..p];
    forall k | 0 <= k < |w|
      ensures IsSpace(tail[k])
    {
      assert tail[k] == text[k + 1] == w[k];
    }
    if g != "" {
      LabelIsInk(g);
      assert tail[|w|] == text[1 + |w|] == g[0];
    }
  }

  lemma LabelIsInk(g: string)
    requires IsLabel(g) && g != ""
    ensures !IsSpace(g[0])
  {
  }

  /** The scanner sees a label at `j`, and only white space from its end up to `p`. */
  ghost predicate LabelReaches(s: string, j: nat, p: nat)
    requires j <= |s|
  {
    LabelEnd(s, j).Some? && var e := LabelEnd(s, j).value; e <= p && p - e <= Span(s[e..], IsSpace)
  }

  lemma SliceOfSlice(s: string, j: nat, p: nat, a: nat, b: nat)
    requires j <= p <= |s| && a <= b <= p - j
    ensures s[j..p][a..b] == s[j + a..j + b]
  {
    forall i | 0 <= i < b - a
      ensures s[j..p][a..b][i] == s[j + a..j + b][i]
    {
      assert s[j..p][a + i] == s[j + (a + i)];
    }
  }

  lemma LabelSlices(s: string, j: nat, p: nat, d: string, w: string)
    requires j <= p <= |s| && s[j..p] == PREFIX + d + ":" + w
    ensures p == j + 6 + |d| + |w|
    ensures s[j..j + 5] == PREFIX && s[j + 5..j + 5 + |d|] == d && s[j + 5 + |d|] == ':' && s[j + 6 + |d|..p] == w
  {
    var g := PREFIX + d + ":" + w;
    assert |g| == p - j;
    assert g == PREFIX + (d + ([':'] + w));
    assert g[..5] == PREFIX && g[5..] == d + ([':'] + w);
    assert g[5..5 + |d|] == d by { assert g[5..][..|d|] == g[5..5 + |d|]; }
    assert g[6 + |d|..|g|] == w && g[5 + |d|] == ':';
    assert s[j..p][5 + |d|] == s[j + (5 + |d|)];
    SliceOfSlice(s, j, p, 0, 5);
    SliceOfSlice(s, j, p, 5, 5 + |d|);
    SliceOfSlice(s, j, p, 6 + |d|, |g|);
  }

  lemma LabelScanned(s: string, j: nat, d: string)
    requires j + 6 + |d| <= |s| && d != "" && forall i :: 0 <= i < |d| ==> IsDigit(d[i])
    requires s[j..j + 5] == PREFIX && s[j + 5..j + 5 + |d|] == d && s[j + 5 + |d|] == ':'
    ensures LabelEnd(s, j) == Some(j + 6 + |d|)
  {
    hide IsDigit, Span;
    var tail := s[j + 5..];
    assert s[j..][..5] == s[j..j + 5];
    forall i | 0 <= i < |d|
      ensures IsDigit(tail[i])
    {
      assert s[j + 5..j + 5 + |d|][i] == tail[i];
    }
    ColonIsNoDigit();
    SpanTo(tail, IsDigit, |d|);
  }

  /** A label that stands in the text is the one the scanner sees. */
  lemma LabelThere(s: string, j: nat, p: nat, g: string)
    requires j <= p < |s| && s[j..p] == g && g != "" && IsLabel(g)
    ensures LabelReaches(s, j, p)
    ensures !IsSpace(s[p]) ==> p - LabelEnd(s, j).value == Span(s[LabelEnd(s, j).value..], IsSpace)
  {
    hide IsSpace, IsDigit, IsDigits, Span, LabelEnd;
    var d, w :| g == "MEOW-" + d + ":" + w && IsDigits(d) && AllSpace(w);
    DigitsMean(d);
    LabelSlices(s, j, p, d, w);
    LabelScanned(s, j, d);
    var tail := s[p - |w|..];
    assert tail[..|w|] == w;
    assert forall i :: 0 <= i < |w| ==> tail[i] == w[i];
    SpanAtLeast(tail, IsSpace, |w|);
    if !IsSpace(s[p]) {
      SpanTo(tail, IsSpace, |w|);
    }
  }

  lemma ColonIsNoDigit()
    ensures !IsDigit(':')
  {
  }

  lemma SpanTo(s: string, p: char -> bool, n: nat)
    requires n < |s| && (forall i :: 0 <= i < n ==> p(s[i])) && !p(s[n])
    ensures Span(s, p) == n
  {
  }

  lemma SpanAtLeast(s: string, p: char -> bool, n: nat)
    requires n <= |s| && forall i :: 0 <= i < n ==> p(s[i])
    ensures Span(s, p) >= n
  {
  }

  /** The match the pattern prefers: as much white space as possible, and then as long a label. */
  ghost predicate Preferred(s: string, i: nat, p: nat, w: string, g: string) {
    && Leads(s, i, p, w, g)
    && forall q: nat, v, h :: Leads(s, i, q, v, h) ==> |v| < |w| || (|v| == |w| && |h| <= |g|)
  }

  /** No match has more white space than there is, and one with all of it has its label where the scanner looks. */
  lemma LeadsWithin(s: string, i: nat, q: nat, v: string, h: string)
    requires i < |s| && Leads(s, i, q, v, h)
    ensures var n := Span(s[i + 1..], IsSpace);
            && |v| <= n && q == i + 1 + |v| + |h|
            && (h != "" ==> |v| == n && LabelReaches(s, i + 1 + n, q))
  {
    hide IsSpace, IsLabel, LabelReaches, Span;
    GapThere(s, i, q, v, h);
    if h != "" {
      LeadsEnd(s, i, q, v, h);
      LabelThere(s, i + 1 + |v|, q, h);
    }
  }

  lemma LeadsEnd(s: string, i: nat, q: nat, v: string, h: string)
    requires Leads(s, i, q, v, h)
    ensures q == i + 1 + |v| + |h| && s[i + 1 + |v|..q] == h
  {
    hide IsSpace, IsLabel, AllSpace;
    assert s[i..q][1 + |v|..] == s[i + 1 + |v|..q];
    assert ("#" + v + h)[1 + |v|..] == h;
  }

  /** Where a title is found, it is the one the pattern prefers. */
  lemma TitleIsPreferred(s: string, i: nat)
    requires i <= |s| && TitleAt(s, i).Some?
    ensures exists w, g :: Preferred(s, i, TitleAt(s, i).value, w, g)
  {
    hide IsSpace, LabelEnd, LastInk, IsLabel, AllSpace, Span, Leads, TitleAt;
    var w, g := TitleParts(s, i);
    forall q: nat, v, h | Leads(s, i, q, v, h)
      ensures |v| < |w| || (|v| == |w| && |h| <= |g|)
    {
      TitleBeats(s, i, w, g, q, v, h);
    }
    assert Preferred(s, i, TitleAt(s, i).value, w, g);
  }

  lemma TitleBeats(s: string, i: nat, w: string, g: string, q: nat, v: string, h: string)
    requires i <= |s| && TitleAt(s, i).Some? && Leads(s, i, q, v, h)
    requires var n, p := Span(s[i + 1..], IsSpace), TitleAt(s, i).value;
             |w| == (if p <= i + 1 + n then p - i - 1 else n) && p == i + 1 + |w| + |g|
    ensures |v| < |w| || (|v| == |w| && |h| <= |g|)
  {
    hide IsSpace, LabelEnd, IsLabel, AllSpace, Span;
    LeadsWithin(s, i, q, v, h);
  }

  /** A label with text behind it on its line is no part of the title. */
  lemma LabelIsDropped(s: string, i: nat, p: nat, w: string, g: string)
    requires Leads(s, i, p, w, g) && g != "" && !IsSpace(s[p])
    ensures TitleAt(s, i) == Some(p)
    ensures StartsLine(s, i) ==> HeadingFrom(s, i) == Some(Trim(s[p..][..Span(s[p..], NotBreak)]))
  {
    hide IsSpace, LabelEnd, IsLabel, Span, Trim;
    LeadsTitle(s, i, p, w, g);
    LeadsWithin(s, i, p, w, g);
    LeadsEnd(s, i, p, w, g);
    LabelThere(s, i + 1 + |w|, p, g);
  }

  /** A record has no title exactly when the pattern matches at the start of no line; the title comes from the first
      line where it does, and is what the preferred match there leaves of that line. */
  lemma {:induction false} HeadingMeans(s: string, i: nat)
    requires i <= |s|
    ensures match HeadingFrom(s, i)
            case None => forall k: nat, p: nat, w, g :: i <= k <= |s| && StartsLine(s, k) ==> !Leads(s, k, p, w, g)
            case Some(title) => exists k: nat, p: nat, w, g ::
              && i <= k < p < |s| && StartsLine(s, k) && Preferred(s, k, p, w, g)
              && title == Trim(s[p..][..Span(s[p..], NotBreak)])
              && forall l: nat, q: nat, v, h :: i <= l < k && StartsLine(s, l) ==> !Leads(s, l, q, v, h)
    decreases |s| - i
  {
    hide Leads, Preferred, StartsLine, TitleAt, Trim, Span;
    if StartsLine(s, i) && TitleAt(s, i).Some? {
      TitleIsPreferred(s, i);
    } else {
      forall p: nat, w: string, g: string
        ensures StartsLine(s, i) ==> !Leads(s, i, p, w, g)
      {
        if StartsLine(s, i) && Leads(s, i, p, w, g) {
          LeadsTitle(s, i, p, w, g);
        }
      }
      if i < |s| {
        HeadingMeans(s, i + 1);
      }
    }
  }

  // ---------------------------------------------------------------- the title, and only it

  /** A line starts at `k`. */
  predicate LineStarts(s: string, k: nat) {
    k <= |s| && (k == 0 || s[k - 1] in {'\n', '\r', '\U{2028}', '\U{2029}'})
  }

  ghost predicate LeadsAtLine(s: string, k: nat) {
    LineStarts(s, k) && exists p: nat, w, g :: Leads(s, k, p, w, g)
  }

  /** The pattern's preferred match on the first line where it matches has its second group at `p`. */
  ghost predicate IsTitleStart(s: string, p: nat) {
    exists k: nat, w, g ::
      LineStarts(s, k) && Preferred(s, k, p, w, g) && forall l: nat :: l < k ==> !LeadsAtLine(s, l)
  }

  /** The title is the rest of the line from `p` on, trimmed. */
  ghost predicate IsHeading(s: string, title: string) {
    exists p: nat, q: nat ::
      && IsTitleStart(s, p) && p <= q <= |s| && '\n' !in s[p..q] && (q < |s| ==> s[q] == '\n')
      && title == Trim(s[p..q])
  }

  lemma LineStartsMeans(s: string, k: nat)
    requires k <= |s|
    ensures StartsLine(s, k) <==> LineStarts(s, k)
  {
  }

  lemma RestOfLine(s: string, p: nat, q: nat)
    requires p <= q <= |s| && '\n' !in s[p..q] && (q < |s| ==> s[q] == '\n')
    ensures s[p..][..Span(s[p..], NotBreak)] == s[p..q]
  {
    var tail := s[p..];
    assert forall i :: 0 <= i < q - p ==> tail[i] == s[p..q][i];
    BreakIs(tail, q - p);
    assert tail[..q - p] == s[p..q];
  }

  lemma BreakIs(s: string, n: nat)
    requires n <= |s| && (forall i :: 0 <= i < n ==> s[i] != '\n') && (n < |s| ==> s[n] == '\n')
    ensures Span(s, NotBreak) == n
  {
  }

  lemma LineEnd(s: string, p: nat) returns (q: nat)
    requires p <= |s|
    ensures p <= q <= |s| && '\n' !in s[p..q] && (q < |s| ==> s[q] == '\n') && q == p + Span(s[p..], NotBreak)
  {
    var tail := s[p..];
    var n := Span(tail, NotBreak);
    q := p + n;
    assert forall i :: 0 <= i < n ==> s[p..q][i] == tail[i];
    assert n < |tail| ==> s[q] == tail[n];
  }

  lemma StartIsOne(s: string, p: nat, q: nat)
    requires IsTitleStart(s, p) && IsTitleStart(s, q)
    ensures p == q
  {
    hide Leads, LineStarts;
    var k: nat, w, g :|
      LineStarts(s, k) && Preferred(s, k, p, w, g) && forall l: nat :: l < k ==> !LeadsAtLine(s, l);
    var m: nat, v, h :|
      LineStarts(s, m) && Preferred(s, m, q, v, h) && forall l: nat :: l < m ==> !LeadsAtLine(s, l);
    assert LeadsAtLine(s, k) && LeadsAtLine(s, m);
    assert k == m;
    LeadsEnd(s, k, p, w, g);
    LeadsEnd(s, k, q, v, h);
  }

  /** A record's title, and exactly when it has none. */
  lemma HeadingExactly(s: string, title: string)
    ensures Heading(s) == Some(title) <==> IsHeading(s, title)
    ensures Heading(s) == None <==> forall k: nat :: !LeadsAtLine(s, k)
  {
    hide Leads, StartsLine, Trim, Span, Preferred, HeadingFrom;
    HeadingMeans(s, 0);
    forall k: nat | k <= |s|
      ensures StartsLine(s, k) <==> LineStarts(s, k)
    {
      LineStartsMeans(s, k);
    }
    if Heading(s).Some? {
      FoundHeading(s, Heading(s).value);
    }
    if IsHeading(s, title) {
      HeadingFound(s, title);
    }
  }

  lemma FoundHeading(s: string, title: string)
    requires Heading(s) == Some(title)
    ensures IsHeading(s, title) && exists k: nat :: LeadsAtLine(s, k)
  {
    hide Leads, Trim, Span, HeadingFrom;
    HeadingMeans(s, 0);
    var k: nat, p: nat, w, g :|
      && 0 <= k < p < |s| && StartsLine(s, k) && Preferred(s, k, p, w, g)
      && title == Trim(s[p..][..Span(s[p..], NotBreak)])
      && forall l: nat, q: nat, v, h :: 0 <= l < k && StartsLine(s, l) ==> !Leads(s, l, q, v, h);
    assert LeadsAtLine(s, k);
    assert IsTitleStart(s, p);
    var q := LineEnd(s, p);
    RestOfLine(s, p, q);
  }

  lemma HeadingFound(s: string, title: string)
    requires IsHeading(s, title)
    ensures Heading(s) == Some(title)
  {
    hide Leads, Trim, Span, HeadingFrom, IsTitleStart, LeadsAtLine;
    var p: nat, q: nat :|
      && IsTitleStart(s, p) && p <= q <= |s| && '\n' !in s[p..q] && (q < |s| ==> s[q] == '\n')
      && title == Trim(s[p..q]);
    SomeHeading(s, p);
    FoundHeading(s, Heading(s).value);
    var p2: nat, q2: nat :|
      && IsTitleStart(s, p2) && p2 <= q2 <= |s| && '\n' !in s[p2..q2] && (q2 < |s| ==> s[q2] == '\n')
      && Heading(s).value == Trim(s[p2..q2]);
    StartIsOne(s, p, p2);
    RestOfLine(s, p, q);
    RestOfLine(s, p, q2);
  }

  lemma SomeHeading(s: string, p: nat)
    requires IsTitleStart(s, p)
    ensures Heading(s).Some?
  {
    hide Leads, Trim, Span, HeadingFrom;
    HeadingMeans(s, 0);
    var k: nat, w, g :|
      LineStarts(s, k) && Preferred(s, k, p, w, g) && forall l: nat :: l < k ==> !LeadsAtLine(s, l);
    assert Leads(s, k, p, w, g);
  }

  /** A title holds no line break. */
  lemma HeadingIsOneLine(s: string)
    ensures Heading(s).Some? ==> '\n' !in Heading(s).value
  {
    hide IsTitleStart, Heading, Trim;
    if Heading(s).Some? {
      HeadingExactly(s, Heading(s).value);
      var p: nat, q: nat :|
        && IsTitleStart(s, p) && p <= q <= |s| && '\n' !in s[p..q] && (q < |s| ==> s[q] == '\n')
        && Heading(s).value == Trim(s[p..q]);
      var a, b := TrimParts(s[p..q]);
      assert forall c :: c in Trim(s[p..q]) ==> c in s[p..q];
    }
  }
}
