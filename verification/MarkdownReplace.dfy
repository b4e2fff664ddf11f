/** What replacing one line of a text does to the lines of its page. */
module MarkdownReplace {
  import opened Text
  import opened MarkdownCut
  import opened MarkdownEdges
  import opened MarkdownPage
  import Frontmatter

  // ---------------------------------------------------------------- what the trim leaves

  function Trimmings(parts: seq<string>): (r: seq<string>)
    requires parts != []
    ensures 1 <= |r| <= |parts|
  {
    DropBack(DropFront(parts))
  }

  /** A line of a page of `l` lines, trimmed where it is the first or the last. */
  function Edged(line: string, j: nat, l: nat): string {
    var s := if j == 0 then TrimStart(line) else line;
    if j + 1 == l then TrimEnd(s) else s
  }

  /** The `l` lines from line `n` on are those from the first to the last that is not blank, or the last line of all
      when all are blank. */
  ghost predicate IsCore(parts: seq<string>, n: nat, l: nat) {
    && 1 <= l && n + l <= |parts|
    && (forall i :: 0 <= i < n || n + l <= i < |parts| ==> Trim(parts[i]) == "")
    && (Trim(parts[n]) != "" || n + 1 == |parts|)
    && (l == 1 || Trim(parts[n + l - 1]) != "")
  }

  lemma {:induction false} FrontIs(parts: seq<string>, n: nat)
    requires n < |parts| && (forall i :: 0 <= i < n ==> Trim(parts[i]) == "")
    requires Trim(parts[n]) != "" || n + 1 == |parts|
    ensures FrontBlanks(parts) == n && DropFront(parts) == [TrimStart(parts[n])] + parts[n + 1..]
    decreases n
  {
    hide Trim, TrimStart;
    BlankForms(parts[0]);
    if n > 0 {
      assert parts[1..][n - 1] == parts[n] && parts[1..][n..] == parts[n + 1..];
      FrontIs(parts[1..], n - 1);
    }
  }

  lemma {:induction false} FrontOf(parts: seq<string>)
    requires parts != []
    ensures var n := FrontBlanks(parts);
            && (forall i :: 0 <= i < n ==> Trim(parts[i]) == "")
            && (Trim(parts[n]) != "" || n + 1 == |parts|)
    decreases |parts|
  {
    hide Trim, TrimStart;
    BlankForms(parts[0]);
    if |parts| > 1 && TrimStart(parts[0]) == "" {
      FrontOf(parts[1..]);
      var n := FrontBlanks(parts);
      assert parts[1..][n - 1] == parts[n];
      forall i | 0 <= i < n
        ensures Trim(parts[i]) == ""
      {
        if i > 0 {
          assert parts[1..][i - 1] == parts[i];
        }
      }
    }
  }

  lemma {:induction false} BackIs(parts: seq<string>, r: nat)
    requires 1 <= r <= |parts| && (forall i :: r <= i < |parts| ==> Trim(parts[i]) == "")
    requires r == 1 || Trim(parts[r - 1]) != ""
    ensures DropBack(parts) == parts[..r - 1] + [TrimEnd(parts[r - 1])]
    decreases |parts|
  {
    hide Trim, TrimEnd;
    var last := |parts| - 1;
    BlankForms(parts[last]);
    if r < |parts| {
      BackIs(parts[..last], r);
      assert parts[..last][..r - 1] == parts[..r - 1];
    }
  }

  lemma {:induction false} BackOf(parts: seq<string>)
    requires parts != []
    ensures var r := |DropBack(parts)|;
            && (forall i :: r <= i < |parts| ==> Trim(parts[i]) == "")
            && (r == 1 || Trim(parts[r - 1]) != "")
    decreases |parts|
  {
    hide Trim, TrimEnd;
    var last := |parts| - 1;
    BlankForms(parts[last]);
    if |parts| > 1 && TrimEnd(parts[last]) == "" {
      BackOf(parts[..last]);
    }
  }

  lemma CoreIs(parts: seq<string>, n: nat, l: nat)
    requires IsCore(parts, n, l)
    ensures FrontBlanks(parts) == n && |Trimmings(parts)| == l
    ensures forall j :: 0 <= j < l ==> Trimmings(parts)[j] == Edged(parts[n + j], j, l)
  {
    hide Trim, TrimStart, TrimEnd, DropFront, DropBack, FrontBlanks;
    FrontIs(parts, n);
    var front := DropFront(parts);
    TrimOfTrimStart(parts[n]);
    forall i | 1 <= i < |front|
      ensures front[i] == parts[n + i]
    {
    }
    BackIs(front, l);
  }

  lemma CoreOf(parts: seq<string>)
    requires parts != []
    ensures IsCore(parts, FrontBlanks(parts), |Trimmings(parts)|)
  {
    hide Trim, TrimStart, TrimEnd, DropFront, DropBack, FrontBlanks;
    FrontOf(parts);
    var n := FrontBlanks(parts);
    FrontIs(parts, n);
    var front := DropFront(parts);
    TrimOfTrimStart(parts[n]);
    BackOf(front);
    var l := |Trimmings(parts)|;
    forall i | n + l <= i < |parts|
      ensures Trim(parts[i]) == ""
    {
      assert front[i - n] == parts[i];
    }
    if l > 1 {
      assert front[l - 1] == parts[n + l - 1];
    }
  }

  lemma TrimOfEdged(line: string, j: nat, l: nat)
    ensures Trim(Edged(line, j, l)) == Trim(line)
    ensures Trim(line) == "" && (j == 0 || j + 1 == l) ==> Edged(line, j, l) == ""
  {
    hide Trim, TrimStart, TrimEnd;
    var s := if j == 0 then TrimStart(line) else line;
    TrimOfTrimStart(line);
    TrimOfTrimEnd(s);
    BlankForms(line);
    BlankForms(s);
    EmptyTrim();
  }

  /** A page is one empty line, or neither begins nor ends with a blank one. */
  lemma PageEdges(content: string)
    ensures var page := LinesOf(content);
            page == [""] || (page != [] && Trim(page[0]) != "" && Trim(page[|page| - 1]) != "")
  {
    hide Trim, LinesOf, Split, Frontmatter.Body, FrontBlanks, Trimmings, Edged;
    LinesOfBody(content);
    var body := Split(Frontmatter.Body(content), '\n');
    assert LinesOf(content) == Trimmings(body) by { TrimmingsAre(body); }
    CoreOf(body);
    var n, l := FrontBlanks(body), |Trimmings(body)|;
    CoreIs(body, n, l);
    assert n + 0 == n && n + (l - 1) == n + l - 1;
    TrimOfEdged(body[n], 0, l);
    TrimOfEdged(body[n + l - 1], l - 1, l);
  }

  lemma TrimmingsAre(parts: seq<string>)
    requires parts != []
    ensures Trimmings(parts) == DropBack(DropFront(parts))
  {
  }

  // ---------------------------------------------------------------- replacing a line of the body

  lemma BlankStays(parts: seq<string>, i: nat, y: string)
    requires i < |parts| && Trim(y) == ""
    requires i < FrontBlanks(parts) || FrontBlanks(parts) + |Trimmings(parts)| <= i
    ensures Trimmings(parts[i := y]) == Trimmings(parts)
  {
    hide Trim, FrontBlanks, Trimmings, Edged;
    CoreOf(parts);
    var n, l := FrontBlanks(parts), |Trimmings(parts)|;
    CoreIs(parts, n, l);
    CoreIs(parts[i := y], n, l);
  }

  lemma LineFollows(parts: seq<string>, j: nat, y: string)
    requires parts != [] && j < |Trimmings(parts)|
    requires Trim(y) != "" || 0 < j < |Trimmings(parts)| - 1 || Trimmings(parts) == [""]
    ensures FrontBlanks(parts) + j < |parts|
    ensures Trimmings(parts[FrontBlanks(parts) + j := y]) == Trimmings(parts)[j := Edged(y, j, |Trimmings(parts)|)]
  {
    hide Trim, FrontBlanks, Trimmings, TrimStart, TrimEnd;
    CoreOf(parts);
    var n, l := FrontBlanks(parts), |Trimmings(parts)|;
    CoreIs(parts, n, l);
    var parts' := parts[n + j := y];
    if Trimmings(parts) == [""] {
      OnlyBlank(parts[n]);
      assert Trimmings(parts)[0] == "" && n + 0 == n;
    }
    CoreIs(parts', n, l);
    forall i | 0 <= i < l
      ensures Trimmings(parts')[i] == Trimmings(parts)[j := Edged(y, j, l)][i]
    {
      assert parts'[n + i] == if i == j then y else parts[n + i];
    }
  }

  lemma OnlyBlank(s: string)
    ensures Edged(s, 0, 1) == Trim(s)
  {
  }

  /** A blank line at the back takes the blank lines in front of it with it. */
  lemma LastBlank(parts: seq<string>, y: string)
    requires parts != [] && |Trimmings(parts)| > 1 && Trim(y) == ""
    ensures var n, l := FrontBlanks(parts), |Trimmings(parts)|;
            n + l <= |parts| && Trimmings(parts[n + l - 1 := y]) == DropBack(Trimmings(parts)[..l - 1])
  {
    hide Trim, FrontBlanks, DropFront, DropBack, TrimStart, TrimEnd;
    CoreOf(parts);
    var n, l := FrontBlanks(parts), |Trimmings(parts)|;
    CoreIs(parts, n, l);
    var parts' := parts[n + l - 1 := y];
    FrontIs(parts', n);
    var front := DropFront(parts');
    forall i | l - 1 <= i < |front|
      ensures Trim(front[i]) == ""
    {
      assert front[i] == parts'[n + i];
    }
    DropsBlanks(front, l - 1);
    assert front[..l - 1] == Trimmings(parts)[..l - 1];
  }

  lemma {:induction false} DropsBlanks(parts: seq<string>, r: nat)
    requires 1 <= r <= |parts| && forall i :: r <= i < |parts| ==> Trim(parts[i]) == ""
    ensures DropBack(parts) == DropBack(parts[..r])
    decreases |parts|
  {
    hide Trim, TrimEnd;
    if r < |parts| {
      var last := |parts| - 1;
      BlankForms(parts[last]);
      DropsBlanks(parts[..last], r);
      assert parts[..last][..r] == parts[..r];
    } else {
      assert parts[..r] == parts;
    }
  }

  // ---------------------------------------------------------------- replacing a line of a text

  lemma BodyOfReplaced(a: string, k: nat, x: string)
    requires k < |Split(a, '\n')| && '\n' !in x && KeepsCut(Split(a, '\n'), k, x)
    ensures var body, body', m := Split(Frontmatter.Body(a), '\n'), Split(Frontmatter.Body(WithLine(a, k, x)), '\n'),
            MetaLines(a);
            if k < m then body' == body else k - m < |body| && body' == body[k - m := Tail(Split(a, '\n'), k, x)]
  {
    hide Split, Frontmatter.Body, KeepsCut, Tail, WithLine, BodyLines, MetaLines, HasBlock;
    WithLineSplits(a, k, x);
    CutByLines(a);
    CutByLines(WithLine(a, k, x));
    MetaIsBlock(a);
    BodyFollows(Split(a, '\n'), k, x);
  }

  /** What becomes of the page's lines when a line with this spot is replaced and `tail` is its part of the body:
      nothing when it is metadata, nothing when it stays blank at an edge, else the line of the page changes, trimmed at
      the edge of the page. Only a last line that turns blank goes, and the blank lines in front of it with it. */
  ghost predicate Follows(page: seq<string>, spot: Spot, tail: string, page': seq<string>) {
    match spot
    case Metadata => page' == page
    case Edge => Trim(tail) == "" ==> page' == page
    case At(j) =>
      && j < |page|
      && if Trim(tail) != "" || 0 < j < |page| - 1 || page == [""] then page' == page[j := Edged(tail, j, |page|)]
         else j > 0 ==> page' == DropBack(page[..j])
  }

  /** The lines of the page after a line of the text is replaced in a way that keeps the cut. */
  lemma LinesFollow(a: string, k: nat, x: string)
    requires k < |Split(a, '\n')| && '\n' !in x && KeepsCut(Split(a, '\n'), k, x)
    ensures Follows(LinesOf(a), SpotOf(a, k), Tail(Split(a, '\n'), k, x), LinesOf(WithLine(a, k, x)))
  {
    hide Split, Frontmatter.Body, KeepsCut, Tail, WithLine, MetaLines, LinesOf, Trim, FrontBlanks, Edged, DropBack,
         DropFront;
    BodyOfReplaced(a, k, x);
    LinesOfBody(a);
    LinesOfBody(WithLine(a, k, x));
    var body, m, y := Split(Frontmatter.Body(a), '\n'), MetaLines(a), Tail(Split(a, '\n'), k, x);
    match SpotOf(a, k)
    case Metadata =>
    case Edge =>
      if Trim(y) == "" {
        BlankStays(body, k - m, y);
      }
    case At(j) =>
      assert k - m == FrontBlanks(body) + j;
      if Trim(y) != "" || 0 < j < |Trimmings(body)| - 1 || Trimmings(body) == [""] {
        LineFollows(body, j, y);
      } else if j > 0 {
        LastBlank(body, y);
      }
  }

  /** Two texts with the same page lines are the same page. */
  lemma LinesDecidePage(a: string, b: string)
    requires LinesOf(a) == LinesOf(b)
    ensures Page(a) == Page(b)
  {
    hide Page, LinesOf;
    PageUnfolds(a);
    PageUnfolds(b);
  }
}
