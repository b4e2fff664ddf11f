/** Which lines of a text the metadata cut and the trim leave to the page, and where they end up. */
module MarkdownEdges {
  import opened Text
  import opened MarkdownCut
  import opened MarkdownLines
  import opened MarkdownPage
  import Frontmatter

  // ---------------------------------------------------------------- trimming, line by line

  /** Blank lines in front go, and the first line that stays is trimmed at its front. */
  function DropFront(parts: seq<string>): (r: seq<string>)
    requires parts != []
    ensures 1 <= |r| <= |parts|
  {
    if |parts| > 1 && TrimStart(parts[0]) == "" then DropFront(parts[1..]) else [TrimStart(parts[0])] + parts[1..]
  }

  function DropBack(parts: seq<string>): (r: seq<string>)
    requires parts != []
    ensures 1 <= |r| <= |parts|
  {
    var last := |parts| - 1;
    if |parts| > 1 && TrimEnd(parts[last]) == "" then DropBack(parts[..last])
    else parts[..last] + [TrimEnd(parts[last])]
  }

  lemma {:induction false} SplitTrimStart(s: string)
    ensures Split(TrimStart(s), '\n') == DropFront(Split(s, '\n'))
  {
    if s == "" {
    } else {
      var c, rest := s[0], Split(s[1..], '\n');
      if IsSpace(c) {
        SplitTrimStart(s[1..]);
        if c == '\n' {
          assert ([""] + rest)[1..] == rest;
        } else {
          assert ([c] + rest[0])[1..] == rest[0];
          assert ([[c] + rest[0]] + rest[1..])[1..] == rest[1..];
        }
      } else {
        assert Split(s, '\n') == [[c] + rest[0]] + rest[1..];
        assert ([[c] + rest[0]] + rest[1..])[1..] == rest[1..];
      }
    }
  }

  function SnocPart(parts: seq<string>, c: char): (r: seq<string>)
    requires parts != []
    ensures r != []
  {
    var last := |parts| - 1;
    if c == '\n' then parts + [""] else parts[..last] + [parts[last] + [c]]
  }

  lemma SnocPartCons(x: char, parts: seq<string>, c: char)
    requires parts != []
    ensures SnocPart([""] + parts, c) == [""] + SnocPart(parts, c)
    ensures var more := SnocPart(parts, c);
            SnocPart([[x] + parts[0]] + parts[1..], c) == [[x] + more[0]] + more[1..]
  {
    var last, whole := |parts| - 1, [[x] + parts[0]] + parts[1..];
    if c != '\n' {
      assert ([""] + parts)[..last + 1] == [""] + parts[..last];
      if last == 0 {
        assert [x] + (parts[0] + [c]) == ([x] + parts[0]) + [c];
        assert whole == [[x] + parts[0]];
      } else {
        assert whole[..last] == [[x] + parts[0]] + parts[..last][1..];
        assert whole[last] == parts[last];
      }
    }
  }

  /** One more character at the end touches the last line only. */
  lemma {:induction false} SplitSnoc(s: string, c: char)
    ensures Split(s + [c], '\n') == SnocPart(Split(s, '\n'), c)
  {
    hide SnocPart;
    if s == "" {
      SplitChar(c);
    } else {
      assert (s + [c])[1..] == s[1..] + [c];
      SplitSnoc(s[1..], c);
      SnocPartCons(s[0], Split(s[1..], '\n'), c);
    }
  }

  lemma SplitChar(c: char)
    ensures Split("" + [c], '\n') == SnocPart(Split("", '\n'), c)
  {
    assert "" + [c] == [c] && [c] + "" == [c] && [c][1..] == "";
    assert Split("", '\n') == [""];
    if c != '\n' {
      assert Split([c], '\n') == [[c]];
    }
  }

  lemma TrimEndSnoc(s: string, c: char)
    ensures TrimEnd(s + [c]) == if IsSpace(c) then TrimEnd(s) else s + [c]
  {
    hide IsSpace;
    assert (s + [c])[..|s|] == s;
  }

  lemma DropBackSnoc(parts: seq<string>, c: char)
    requires parts != []
    ensures DropBack(SnocPart(parts, c)) == if IsSpace(c) then DropBack(parts) else SnocPart(parts, c)
  {
    hide IsSpace, TrimEnd;
    var last, more := |parts| - 1, SnocPart(parts, c);
    if c == '\n' {
      assert more[..last + 1] == parts;
      assert TrimEnd("") == "" && IsSpace('\n') by { EmptyTrim(); }
    } else {
      assert more[..last] == parts[..last];
      TrimEndSnoc(parts[last], c);
    }
  }

  lemma {:induction false} SplitTrimEnd(s: string)
    ensures Split(TrimEnd(s), '\n') == DropBack(Split(s, '\n'))
  {
    hide IsSpace, DropBack, Split, SnocPart;
    if s == "" {
      SplitEmpty();
    } else {
      var front, c := s[..|s| - 1], s[|s| - 1];
      assert s == front + [c];
      SplitTrimEnd(front);
      SplitSnoc(front, c);
      DropBackSnoc(Split(front, '\n'), c);
    }
  }

  lemma SplitEmpty()
    ensures Split("", '\n') == [""] && DropBack([""]) == [""]
  {
  }

  /** The lines of a page are those of its body, trimmed as a whole. */
  lemma LinesOfBody(content: string)
    ensures LinesOf(content) == DropBack(DropFront(Split(Frontmatter.Body(content), '\n')))
  {
    hide Frontmatter.Body, DropBack, DropFront, Split, TrimStart, TrimEnd;
    var body := Frontmatter.Body(content);
    SplitTrimStart(body);
    SplitTrimEnd(TrimStart(body));
  }

  // ---------------------------------------------------------------- where the lines that stay come from

  /** How many lines the trim takes away in front. */
  function FrontBlanks(parts: seq<string>): (n: nat)
    requires parts != []
    ensures n < |parts|
  {
    if |parts| > 1 && TrimStart(parts[0]) == "" then 1 + FrontBlanks(parts[1..]) else 0
  }

  /** `page` is what the trim leaves of `line`. */
  ghost predicate Trimmed(line: string, page: string) {
    && Trim(page) == Trim(line)
    && exists before, after :: line == before + page + after && AllSpace(before) && AllSpace(after)
  }

  lemma TrimmedBy(line: string, before: string, page: string, after: string)
    requires line == before + page + after && AllSpace(before) && AllSpace(after) && Trim(page) == Trim(line)
    ensures Trimmed(line, page)
  {
  }

  lemma TrimmedStart(line: string)
    ensures Trimmed(line, TrimStart(line))
  {
    hide Trim, TrimStart;
    var before := TrimStartPart(line);
    TrimOfTrimStart(line);
    assert line == before + TrimStart(line) + "";
    TrimmedBy(line, before, TrimStart(line), "");
  }

  lemma TrimmedEnd(line: string, page: string)
    requires Trimmed(line, page)
    ensures Trimmed(line, TrimEnd(page))
  {
    hide Trim, TrimEnd, IsSpace;
    var before, after :| line == before + page + after && AllSpace(before) && AllSpace(after);
    var more := TrimEndPart(page);
    TrimOfTrimEnd(page);
    assert line == before + TrimEnd(page) + (more + after);
    TrimmedBy(line, before, TrimEnd(page), more + after);
  }

  lemma TrimmedSelf(line: string)
    ensures Trimmed(line, line)
  {
    hide Trim;
    assert line == "" + line + "";
    TrimmedBy(line, "", line, "");
  }

  /** The lines that stay, one for one; the ones that go are blank. */
  lemma {:induction false} FrontStays(parts: seq<string>)
    requires parts != []
    ensures var n, r := FrontBlanks(parts), DropFront(parts);
            && |r| == |parts| - n && (forall i :: 0 <= i < |r| ==> Trimmed(parts[n + i], r[i]))
            && (forall i :: 0 <= i < n ==> Trim(parts[i]) == "")
  {
    hide Trimmed, TrimStart, TrimEnd;
    if |parts| > 1 && TrimStart(parts[0]) == "" {
      FrontStays(parts[1..]);
      EmptyTrim();
      assert Trim(parts[0]) == "";
      var n, r := FrontBlanks(parts), DropFront(parts);
      forall i | 0 <= i < |r|
        ensures Trimmed(parts[n + i], r[i])
      {
        assert parts[1..][n - 1 + i] == parts[n + i];
      }
      forall i | 0 <= i < n
        ensures Trim(parts[i]) == ""
      {
        if i > 0 {
          assert parts[1..][i - 1] == parts[i];
        }
      }
    } else {
      TrimmedStart(parts[0]);
      forall i | 1 <= i < |parts|
        ensures Trimmed(parts[i], DropFront(parts)[i])
      {
        TrimmedSelf(parts[i]);
      }
    }
  }

  lemma {:induction false} BackStays(parts: seq<string>, from: seq<string>)
    requires parts != [] && |from| == |parts| && forall i :: 0 <= i < |parts| ==> Trimmed(from[i], parts[i])
    ensures var r := DropBack(parts);
            && (forall i :: 0 <= i < |r| ==> Trimmed(from[i], r[i]))
            && (forall i :: |r| <= i < |parts| ==> Trim(from[i]) == "")
  {
    hide TrimEnd, Trim;
    var last := |parts| - 1;
    if |parts| > 1 && TrimEnd(parts[last]) == "" {
      BackStays(parts[..last], from[..last]);
      TrimOfTrimEnd(parts[last]);
      TrimNothing();
    } else {
      TrimmedEnd(from[last], parts[last]);
    }
  }

  /** The page's lines are the body's lines from the first to the last that is not blank, the outer ones trimmed. */
  lemma BodyLinesStay(content: string)
    ensures var body, page := Split(Frontmatter.Body(content), '\n'), LinesOf(content);
            var n := FrontBlanks(body);
            && n + |page| <= |body| && 1 <= |page|
            && (forall i :: 0 <= i < |page| ==> Trimmed(body[n + i], page[i]))
            && (forall i :: 0 <= i < n || n + |page| <= i < |body| ==> Trim(body[i]) == "")
  {
    hide Frontmatter.Body, Trimmed, Trim, DropFront, DropBack, LinesOf, FrontBlanks;
    LinesOfBody(content);
    var body := Split(Frontmatter.Body(content), '\n');
    var n, front := FrontBlanks(body), DropFront(body);
    FrontStays(body);
    BackStays(front, body[n..]);
    var page := LinesOf(content);
    forall i | 0 <= i < n || n + |page| <= i < |body|
      ensures Trim(body[i]) == ""
    {
      if i >= n {
        assert body[n..][i - n] == body[i];
      }
    }
    forall i | 0 <= i < |page|
      ensures Trimmed(body[n + i], page[i])
    {
      assert body[n..][i] == body[n + i];
    }
  }

  // ---------------------------------------------------------------- the spot of a line

  /** Where a line of a text goes: into the metadata block, nowhere because it is blank at an edge, or to the page. */
  datatype Spot = Metadata | Edge | At(j: nat)

  function SpotOf(content: string, k: nat): Spot {
    var m, n := MetaLines(content), FrontBlanks(Split(Frontmatter.Body(content), '\n'));
    if k < m then Metadata
    else if m + n <= k < m + n + |LinesOf(content)| then At(k - m - n)
    else Edge
  }

  /** A metadata line stands in a block, before any fence but the opening one. A text line that reaches the page is
      there up to white space at its ends, and up to the metadata fence when it holds that. A line at the edge has
      nothing but white space behind the fence. */
  lemma SpotMeans(content: string, k: nat)
    requires k < |Split(content, '\n')|
    ensures var line, cut := Split(content, '\n')[k], Split(CutAway(content), '\n')[MetaLines(content)];
            match SpotOf(content, k)
            case Metadata =>
              Frontmatter.Cut(content).Some? && forall i :: 0 <= i <= k ==> !HasFence(Part(i, Split(content, '\n')[i]))
            case Edge =>
              if k == MetaLines(content) then exists tail :: line == cut + tail && Trim(tail) == ""
              else Trim(line) == ""
            case At(j) =>
              && j < |LinesOf(content)|
              && if k == MetaLines(content) then exists tail :: line == cut + tail && Trimmed(tail, LinesOf(content)[j])
                 else Trimmed(line, LinesOf(content)[j])
  {
    hide Frontmatter.Body, Frontmatter.Cut, CutAway, LinesOf, Trim, Trimmed, FrontBlanks, Split, MetaLines, HasFence,
         Part;
    var m, n := MetaLines(content), FrontBlanks(Split(Frontmatter.Body(content), '\n'));
    MetadataExactly(content, k);
    if k >= m {
      var tail := BodyLineOf(content, k);
      if SpotOf(content, k).At? {
        assert Trimmed(tail, LinesOf(content)[k - m - n]);
      } else {
        assert Trim(tail) == "";
      }
    }
  }

  /** The part of a line that belongs to the body, and what the trim does to it. */
  lemma BodyLineOf(content: string, k: nat) returns (tail: string)
    requires MetaLines(content) <= k < |Split(content, '\n')|
    ensures var m, n := MetaLines(content), FrontBlanks(Split(Frontmatter.Body(content), '\n'));
            && Split(content, '\n')[k] == (if k == m then Split(CutAway(content), '\n')[m] + tail else tail)
            && (if m + n <= k < m + n + |LinesOf(content)| then Trimmed(tail, LinesOf(content)[k - m - n])
                else Trim(tail) == "")
  {
    hide Frontmatter.Body, Frontmatter.Cut, CutAway, LinesOf, Trim, Trimmed, FrontBlanks, Split, MetaLines;
    tail := BodyPartOf(content, k);
    BodyPartStays(content, k - MetaLines(content));
  }

  lemma BodyPartOf(content: string, k: nat) returns (tail: string)
    requires MetaLines(content) <= k < |Split(content, '\n')|
    ensures var m, body := MetaLines(content), Split(Frontmatter.Body(content), '\n');
            && k - m < |body| && tail == body[k - m]
            && Split(content, '\n')[k] == if k == m then Split(CutAway(content), '\n')[m] + tail else tail
  {
    hide Frontmatter.Body, Frontmatter.Cut, CutAway, Split, MetaLines;
    BodyLinesAre(content);
    var m, body := MetaLines(content), Split(Frontmatter.Body(content), '\n');
    var i := k - m;
    tail := body[i];
    if i > 0 {
      assert body[i] == Split(content, '\n')[m + i];
    }
  }

  lemma BodyPartStays(content: string, i: nat)
    requires i < |Split(Frontmatter.Body(content), '\n')|
    ensures var body, page := Split(Frontmatter.Body(content), '\n'), LinesOf(content);
            var n := FrontBlanks(body);
            if n <= i < n + |page| then Trimmed(body[i], page[i - n]) else Trim(body[i]) == ""
  {
    hide Frontmatter.Body, LinesOf, Trim, Trimmed, FrontBlanks, Split;
    BodyLinesStay(content);
    StaysAt(Split(Frontmatter.Body(content), '\n'), LinesOf(content),
        FrontBlanks(Split(Frontmatter.Body(content), '\n')), i);
  }

  lemma StaysAt(body: seq<string>, page: seq<string>, n: nat, i: nat)
    requires i < |body| && n + |page| <= |body|
    requires forall j :: 0 <= j < |page| ==> Trimmed(body[n + j], page[j])
    requires forall j :: 0 <= j < n || n + |page| <= j < |body| ==> Trim(body[j]) == ""
    ensures if n <= i < n + |page| then Trimmed(body[i], page[i - n]) else Trim(body[i]) == ""
  {
    hide Trimmed, Trim;
    if n <= i < n + |page| {
      var j := i - n;
      assert Trimmed(body[n + j], page[j]);
    }
  }

  /** Every line of the page is the spot of exactly one line of the text. */
  lemma SpotsCoverThePage(content: string, j: nat)
    requires j < |LinesOf(content)|
    ensures exists k: nat :: k < |Split(content, '\n')| && SpotOf(content, k) == At(j)
    ensures forall k: nat, l: nat :: SpotOf(content, k) == At(j) && SpotOf(content, l) == At(j) ==> k == l
  {
    hide Frontmatter.Body, Frontmatter.Cut, CutAway, LinesOf, Trim, Trimmed, FrontBlanks, Split;
    BodyLinesAre(content);
    BodyLinesStay(content);
    var k := MetaLines(content) + FrontBlanks(Split(Frontmatter.Body(content), '\n')) + j;
    assert SpotOf(content, k) == At(j);
  }
}
