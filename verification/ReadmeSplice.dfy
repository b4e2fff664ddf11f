/** How link-adr.ts puts the dependency graph into the README. */
module ReadmeSplice {
  import opened Text

  const GRAPH_HEADER := "## Architectural Decision Dependency Graph"
  const MARK := "##"

  /** The replacement text of `String.prototype.replace` for a pattern without groups: `$$`, `$&`, the text before
      the match and the text after it; every other dollar stands for itself. */
  function Expand(template: string, matched: string, before: string, after: string): string {
    if |template| < 2 then template
    else if template[0] == '$' && template[1] == '$' then "$" + Expand(template[2..], matched, before, after)
    else if template[0] == '$' && template[1] == '&' then matched + Expand(template[2..], matched, before, after)
    else if template[0] == '$' && template[1] == '`' then before + Expand(template[2..], matched, before, after)
    else if template[0] == '$' && template[1] == '\'' then after + Expand(template[2..], matched, before, after)
    else [template[0]] + Expand(template[1..], matched, before, after)
  }

  /** Where the lazy match that starts behind the header stops: the next `##`, or the end. */
  function SectionEnd(readme: string, from: nat): (end: nat)
    requires from <= |readme|
    ensures from <= end <= |readme|
  {
    match IndexOf(readme, MARK, from)
    case Some(i) => i
    case None => |readme|
  }

  function GraphBlock(mermaid: string): string {
    GRAPH_HEADER + "\n\n" + mermaid
  }

  function Splice(readme: string, mermaid: string): string {
    match IndexOf(readme, GRAPH_HEADER, 0)
    case Some(at) =>
      var end := SectionEnd(readme, at + |GRAPH_HEADER|);
      var before, matched, after := readme[..at], readme[at..end], readme[end..];
      before + Expand(GraphBlock(mermaid) + "\n", matched, before, after) + after
    case None => readme + ("\n\n" + GraphBlock(mermaid))
  }

  /** The branch on `includes`, then one reassignment of the text. */
  method UpdateReadme(text: string, mermaid: string) returns (readme: string)
    ensures readme == Splice(text, mermaid)
  {
    readme := text;
    var found := IndexOf(readme, GRAPH_HEADER, 0);
    if found.Some? {
      var at := found.value;
      var end := SectionEnd(readme, at + |GRAPH_HEADER|);
      readme := readme[..at] + Expand(GraphBlock(mermaid) + "\n", readme[at..end], readme[..at], readme[end..]) +
          readme[end..];
    } else {
      readme := readme + ("\n\n" + GraphBlock(mermaid));
    }
  }

  // ---------------------------------------------------------------- the pieces of a README with a section

  predicate HasSection(readme: string) {
    IndexOf(readme, GRAPH_HEADER, 0).Some?
  }

  function Before(readme: string): string
    requires HasSection(readme)
  {
    readme[..IndexOf(readme, GRAPH_HEADER, 0).value]
  }

  /** Where the text behind the header starts, and where the section stops. */
  function Start(readme: string): (n: nat)
    requires HasSection(readme)
    ensures n <= |readme|
  {
    IndexOf(readme, GRAPH_HEADER, 0).value + |GRAPH_HEADER|
  }

  function Section(readme: string): string
    requires HasSection(readme)
  {
    readme[Start(readme)..SectionEnd(readme, Start(readme))]
  }

  function After(readme: string): string
    requires HasSection(readme)
  {
    readme[SectionEnd(readme, Start(readme))..]
  }

  function Template(mermaid: string): string {
    "\n\n" + mermaid + "\n"
  }

  /** The text the next update will put behind the header. */
  function Inserted(readme: string, mermaid: string): string
    requires HasSection(readme)
  {
    Expand(Template(mermaid), GRAPH_HEADER + Section(readme), Before(readme), After(readme))
  }

  lemma Pieces(readme: string)
    requires HasSection(readme)
    ensures readme == Before(readme) + GRAPH_HEADER + Section(readme) + After(readme)
    ensures After(readme) == "" || MARK <= After(readme)
  {
    hide IndexOf, SectionEnd;
    HeaderAndSection(readme);
    var at, end := |Before(readme)|, SectionEnd(readme, Start(readme));
    assert readme == readme[..at] + readme[at..end] + readme[end..];
    Around(Before(readme), GRAPH_HEADER, Section(readme), After(readme));
    MarkBehind(readme, Start(readme));
  }

  lemma MarkBehind(readme: string, from: nat)
    requires from <= |readme|
    ensures var tail := readme[SectionEnd(readme, from)..]; tail == "" || MARK <= tail
  {
    var end := SectionEnd(readme, from);
    if end < |readme| {
      assert readme[end..end + 2] == MARK;
      assert readme[end..][..2] == MARK;
    }
  }

  /** One step of the expansion. */
  lemma ExpandHead(t: string, m: string, b: string, a: string) returns (head: string, n: nat)
    requires |t| >= 2
    ensures 1 <= n <= 2 && Expand(t, m, b, a) == head + Expand(t[n..], m, b, a)
    ensures n == 1 ==> head == [t[0]]
    ensures n == 2 ==> t[0] == '$' && t[1] != '\n'
  {
    n := if t[0] == '$' && (t[1] == '$' || t[1] == '&' || t[1] == '`' || t[1] == '\'') then 2 else 1;
    head := if n == 1 then [t[0]] else if t[1] == '$' then "$"
            else if t[1] == '&' then m else if t[1] == '`' then b else a;
  }

  lemma ExpandChar(c: char, t: string, m: string, b: string, a: string)
    requires c != '$'
    ensures Expand([c] + t, m, b, a) == [c] + Expand(t, m, b, a)
  {
    hide Expand;
    assert ([c] + t)[1..] == t;
    if t == "" {
      ExpandShort([c], m, b, a);
      ExpandShort("", m, b, a);
      assert [c] + t == [c];
    } else {
      var head, n := ExpandHead([c] + t, m, b, a);
    }
  }

  lemma ExpandShort(t: string, m: string, b: string, a: string)
    requires |t| < 2
    ensures Expand(t, m, b, a) == t
  {
  }

  lemma {:induction false} ExpandPlain(plain: string, template: string, m: string, b: string, a: string)
    requires '$' !in plain
    ensures Expand(plain + template, m, b, a) == plain + Expand(template, m, b, a)
  {
    hide Expand;
    if plain == "" {
      assert plain + template == template;
    } else {
      var tail := plain[1..];
      ExpandPlain(tail, template, m, b, a);
      ExpandChar(plain[0], tail + template, m, b, a);
      assert plain + template == [plain[0]] + (tail + template);
      assert plain + Expand(template, m, b, a) == [plain[0]] + (tail + Expand(template, m, b, a));
    }
  }

  lemma ExpandNoDollar(plain: string, m: string, b: string, a: string)
    requires '$' !in plain
    ensures Expand(plain, m, b, a) == plain
  {
    ExpandPlain(plain, "", m, b, a);
    assert plain + "" == plain;
  }

  /** The update, piece by piece. */
  lemma SplicePieces(readme: string, mermaid: string)
    requires HasSection(readme)
    ensures Splice(readme, mermaid) == Before(readme) + GRAPH_HEADER + Inserted(readme, mermaid) + After(readme)
  {
    hide Expand, IndexOf, SectionEnd, Template, GraphBlock;
    var at, end := |Before(readme)|, SectionEnd(readme, Start(readme));
    var before, matched, after := Before(readme), readme[at..end], After(readme);
    HeaderAndSection(readme);
    BlockIsTemplate(mermaid);
    ExpandPlain(GRAPH_HEADER, Template(mermaid), matched, before, after);
    assert Splice(readme, mermaid) == before + Expand(GraphBlock(mermaid) + "\n", matched, before, after) + after;
    Around(before, GRAPH_HEADER, Inserted(readme, mermaid), after);
  }

  lemma Around(before: string, header: string, inserted: string, after: string)
    ensures before + (header + inserted) + after == before + header + inserted + after
  {
  }

  lemma BlockIsTemplate(mermaid: string)
    ensures GraphBlock(mermaid) + "\n" == GRAPH_HEADER + Template(mermaid)
  {
  }

  lemma HeaderAndSection(readme: string)
    requires HasSection(readme)
    ensures var at, end := |Before(readme)|, SectionEnd(readme, Start(readme));
            at + |GRAPH_HEADER| <= end <= |readme| && readme[at..end] == GRAPH_HEADER + Section(readme)
  {
    hide SectionEnd;
    var at, start, end := |Before(readme)|, Start(readme), SectionEnd(readme, Start(readme));
    assert readme[at..start] == GRAPH_HEADER;
    assert readme[at..end] == readme[at..start] + readme[start..end];
  }

  // ---------------------------------------------------------------- finding the pieces again

  lemma FirstAt(s: string, pattern: string, from: nat, i: nat)
    requires from <= i && OccursAt(s, pattern, i) && forall j :: from <= j < i ==> !OccursAt(s, pattern, j)
    ensures IndexOf(s, pattern, from) == Some(i)
  {
  }

  lemma OccursInPrefix(s: string, t: string, pattern: string, j: nat, n: nat)
    requires n <= |s| && n <= |t| && s[..n] == t[..n] && j + |pattern| <= n
    ensures OccursAt(s, pattern, j) <==> OccursAt(t, pattern, j)
  {
    assert s[j..j + |pattern|] == s[..n][j..j + |pattern|];
    assert t[j..j + |pattern|] == t[..n][j..j + |pattern|];
  }

  /** Changing what follows the header does not move it. */
  lemma HeaderStays(readme: string, tail: string)
    requires HasSection(readme)
    ensures var r := Before(readme) + GRAPH_HEADER + tail;
            HasSection(r) && Before(r) == Before(readme) && Start(r) == Start(readme)
  {
    var r := Before(readme) + GRAPH_HEADER + tail;
    var at, start := |Before(readme)|, Start(readme);
    assert readme[at..start] == GRAPH_HEADER;
    assert readme[..start] == readme[..at] + readme[at..start] == Before(readme) + GRAPH_HEADER == r[..start];
    forall j | 0 <= j <= at
      ensures OccursAt(r, GRAPH_HEADER, j) <==> OccursAt(readme, GRAPH_HEADER, j)
    {
      OccursInPrefix(r, readme, GRAPH_HEADER, j, start);
    }
    FirstAt(r, GRAPH_HEADER, 0, at);
  }

  lemma MarkAt(s: string, j: nat)
    ensures OccursAt(s, MARK, j) <==> j + 2 <= |s| && s[j] == '#' && s[j + 1] == '#'
  {
    if j + 2 <= |s| {
      assert s[j..j + 2] == [s[j], s[j + 1]];
    }
  }

  /** The first mark of `front + back`, read from behind a prefix. */
  lemma SectionEndIs(prefix: string, front: string, back: string)
    requires !Contains(front, MARK)
    requires back == "" || MARK <= back
    requires front == "" || front[|front| - 1] != '#'
    ensures SectionEnd(prefix + (front + back), |prefix|) == |prefix| + |front|
  {
    var s := prefix + (front + back);
    var p, e := |prefix|, |prefix| + |front|;
    forall j | p <= j < e
      ensures !OccursAt(s, MARK, j)
    {
      MarkAt(s, j);
      MarkAt(front, j - p);
      assert s[j] == front[j - p];
      if j + 1 < e {
        assert s[j + 1] == front[j - p + 1];
        assert !OccursAt(front, MARK, j - p);
      }
    }
    if back == "" {
      forall j | p <= j
        ensures !OccursAt(s, MARK, j)
      {
      }
    } else {
      MarkAt(s, e);
      MarkAt(back, 0);
      assert s[e] == back[0] && s[e + 1] == back[1];
      FirstAt(s, MARK, p, e);
    }
  }

  // ---------------------------------------------------------------- what the expansion depends on

  lemma {:induction false} ExpandEnds(t: string, m: string, b: string, a: string)
    ensures var x := Expand(t + "\n", m, b, a); x != "" && x[|x| - 1] == '\n'
    decreases |t|
  {
    hide Expand;
    if t == "" {
      ExpandShort("\n", m, b, a);
      assert t + "\n" == "\n";
    } else {
      var head, n := ExpandHead(t + "\n", m, b, a);
      assert (t + "\n")[|t|] == '\n';
      assert (t + "\n")[n..] == t[n..] + "\n";
      ExpandEnds(t[n..], m, b, a);
    }
  }

  lemma ContainsPart(whole: string, left: string, part: string, right: string)
    requires whole == left + part + right && Contains(part, MARK)
    ensures Contains(whole, MARK)
  {
    var i: nat :| OccursAt(part, MARK, i);
    assert whole[|left| + i..|left| + i + 2] == part[i..i + 2];
    assert OccursAt(whole, MARK, |left| + i);
  }

  /** An expansion without a mark has not used a match that holds one, so the match does not matter. */
  lemma {:induction false} ExpandIgnoresMatch(t: string, m1: string, m2: string, b: string, a: string)
    requires Contains(m1, MARK) && !Contains(Expand(t, m1, b, a), MARK)
    ensures Expand(t, m2, b, a) == Expand(t, m1, b, a)
  {
    hide Contains;
    var x := Expand(t, m1, b, a);
    if |t| >= 2 {
      var tail2, tail1 := Expand(t[2..], m1, b, a), Expand(t[1..], m1, b, a);
      if t[0] == '$' && t[1] == '&' {
        ContainsPart(x, "", m1, tail2);
      } else if t[0] == '$' && (t[1] == '$' || t[1] == '`' || t[1] == '\'') {
        var head := if t[1] == '$' then "$" else if t[1] == '`' then b else a;
        assert x == head + tail2 + "";
        if Contains(tail2, MARK) {
          ContainsPart(x, head, tail2, "");
        }
        ExpandIgnoresMatch(t[2..], m1, m2, b, a);
      } else {
        assert x == [t[0]] + tail1 + "";
        if Contains(tail1, MARK) {
          ContainsPart(x, [t[0]], tail1, "");
        }
        ExpandIgnoresMatch(t[1..], m1, m2, b, a);
      }
    }
  }

  /** With a longer text behind the match an expansion is at least as long as before, or holds the new match whole. */
  lemma {:induction false} ExpandGrows(t: string, m1: string, m2: string, b: string, a1: string, a2: string)
    requires |a1| <= |a2|
    ensures |Expand(t, m2, b, a2)| >= |m2| || |Expand(t, m2, b, a2)| >= |Expand(t, m1, b, a1)|
  {
    if |t| >= 2 {
      ExpandGrows(t[2..], m1, m2, b, a1, a2);
      ExpandGrows(t[1..], m1, m2, b, a1, a2);
    }
  }

  // ---------------------------------------------------------------- idempotence, exactly

  lemma HeaderHasMark(rest: string)
    ensures Contains(GRAPH_HEADER + rest, MARK)
  {
    hide OccursAt;
    HeaderStart();
    MarkAt(GRAPH_HEADER + rest, 0);
    assert OccursAt(GRAPH_HEADER + rest, MARK, 0);
  }

  lemma HeaderStart()
    ensures |GRAPH_HEADER| >= 2 && GRAPH_HEADER[0] == '#' && GRAPH_HEADER[1] == '#'
  {
  }

  lemma InsertedEnds(readme: string, mermaid: string)
    requires HasSection(readme)
    ensures var x := Inserted(readme, mermaid); x != "" && x[|x| - 1] == '\n'
  {
    hide Expand, IndexOf, SectionEnd;
    ExpandEnds("\n\n" + mermaid, GRAPH_HEADER + Section(readme), Before(readme), After(readme));
    assert ("\n\n" + mermaid) + "\n" == Template(mermaid);
  }

  /** Putting the same graph in again changes nothing when the text just inserted holds no `##`. */
  lemma StableWithoutMark(readme: string, mermaid: string)
    requires HasSection(readme) && !Contains(Inserted(readme, mermaid), MARK)
    ensures Splice(Splice(readme, mermaid), mermaid) == Splice(readme, mermaid)
  {
    hide Expand, IndexOf, SectionEnd, Contains;
    var x, after := Inserted(readme, mermaid), After(readme);
    var r := Splice(readme, mermaid);
    SplicePieces(readme, mermaid);
    Pieces(readme);
    assert r == Before(readme) + GRAPH_HEADER + (x + after);
    HeaderStays(readme, x + after);
    InsertedEnds(readme, mermaid);
    SectionEndIs(Before(readme) + GRAPH_HEADER, x, after);
    assert Start(r) == |Before(readme) + GRAPH_HEADER|;
    assert Section(r) == x && After(r) == after;
    HeaderHasMark(Section(readme));
    ExpandIgnoresMatch(Template(mermaid), GRAPH_HEADER + Section(readme), GRAPH_HEADER + x, Before(readme), after);
    SplicePieces(r, mermaid);
  }

  /** When the text just inserted holds a `##`, the next update cuts there and leaves the tail behind: the README
      grows. */
  lemma GrowsWithMark(readme: string, mermaid: string)
    requires HasSection(readme) && Contains(Inserted(readme, mermaid), MARK)
    ensures |Splice(Splice(readme, mermaid), mermaid)| > |Splice(readme, mermaid)|
  {
    hide Expand, IndexOf, SectionEnd, Splice, Contains, Template;
    var x, after := Inserted(readme, mermaid), After(readme);
    var r, prefix := Splice(readme, mermaid), Before(readme) + GRAPH_HEADER;
    var j := MarkIndex(x);
    SplicePieces(readme, mermaid);
    assert r == prefix + (x + after);
    HeaderStays(readme, x + after);
    CutAtFirst(prefix, x, after, j);
    StartIs(r, prefix);
    CutSection(r, prefix, x, after, j);
    SplicePieces(r, mermaid);
    ExpandGrows(Template(mermaid), GRAPH_HEADER + Section(readme), GRAPH_HEADER + x[..j], Before(readme), after,
        x[j..] + after);
  }

  lemma MarkIndex(x: string) returns (j: nat)
    requires Contains(x, MARK)
    ensures IndexOf(x, MARK, 0) == Some(j)
  {
    j := IndexOf(x, MARK, 0).value;
  }

  lemma CutSection(readme: string, prefix: string, x: string, after: string, j: nat)
    requires HasSection(readme) && readme == prefix + (x + after) && Start(readme) == |prefix|
    requires j <= |x| && SectionEnd(readme, |prefix|) == |prefix| + j
    ensures Section(readme) == x[..j] && After(readme) == x[j..] + after
  {
    hide IndexOf, SectionEnd, Start, HasSection;
  }

  lemma SameMark(prefix: string, x: string, after: string, k: nat)
    requires k + 2 <= |x|
    ensures OccursAt(prefix + (x + after), MARK, |prefix| + k) <==> OccursAt(x, MARK, k)
  {
    var s := prefix + (x + after);
    MarkAt(s, |prefix| + k);
    MarkAt(x, k);
    assert s[|prefix| + k] == x[k] && s[|prefix| + k + 1] == x[k + 1];
  }

  lemma CutAtFirst(prefix: string, x: string, after: string, j: nat)
    requires IndexOf(x, MARK, 0) == Some(j)
    ensures SectionEnd(prefix + (x + after), |prefix|) == |prefix| + j < |prefix| + |x|
  {
    hide IndexOf, OccursAt;
    var s, p := prefix + (x + after), |prefix|;
    MarkFits(x, j);
    forall i | p <= i < p + j
      ensures !OccursAt(s, MARK, i)
    {
      SameMark(prefix, x, after, i - p);
      assert p + (i - p) == i;
    }
    SameMark(prefix, x, after, j);
    FirstAt(s, MARK, p, p + j);
  }

  lemma MarkFits(x: string, j: nat)
    requires OccursAt(x, MARK, j)
    ensures j + 2 <= |x|
  {
  }

  /** The exact condition, readable before the second update: updating a README that has the section is
      idempotent if and only if the text the first update inserts holds no `##`. */
  lemma SpliceIdempotentExactly(readme: string, mermaid: string)
    requires HasSection(readme)
    ensures Splice(Splice(readme, mermaid), mermaid) == Splice(readme, mermaid) <==>
            !Contains(Inserted(readme, mermaid), MARK)
  {
    hide Splice, Inserted, Contains;
    if Contains(Inserted(readme, mermaid), MARK) {
      GrowsWithMark(readme, mermaid);
    } else {
      StableWithoutMark(readme, mermaid);
    }
  }

  /** A graph that holds neither `##` nor a dollar. */
  ghost predicate Clean(mermaid: string) {
    '$' !in mermaid && !Contains(mermaid, MARK)
  }

  lemma CleanInsert(readme: string, mermaid: string)
    requires HasSection(readme) && Clean(mermaid)
    ensures Inserted(readme, mermaid) == Template(mermaid) && !Contains(Template(mermaid), MARK)
  {
    hide Expand, IndexOf, SectionEnd;
    ExpandNoDollar(Template(mermaid), GRAPH_HEADER + Section(readme), Before(readme), After(readme));
    var t := Template(mermaid);
    forall i: nat
      ensures !OccursAt(t, MARK, i)
    {
      MarkAt(t, i);
      if 2 <= i && i + 2 <= 2 + |mermaid| {
        MarkAt(mermaid, i - 2);
        assert !OccursAt(mermaid, MARK, i - 2);
      }
    }
  }

  /** With a clean graph: the text around the section stays, the section is the new graph, and a second update
      changes nothing. */
  lemma CleanSplice(readme: string, mermaid: string)
    requires HasSection(readme) && Clean(mermaid)
    ensures Splice(readme, mermaid) == Before(readme) + GraphBlock(mermaid) + "\n" + After(readme)
    ensures Splice(Splice(readme, mermaid), mermaid) == Splice(readme, mermaid)
  {
    hide Expand, IndexOf, SectionEnd, Contains;
    CleanInsert(readme, mermaid);
    SplicePieces(readme, mermaid);
    assert GRAPH_HEADER + Template(mermaid) == GraphBlock(mermaid) + "\n";
    StableWithoutMark(readme, mermaid);
  }

  /** From a README without the section the graph is appended; the second run adds one line break, and from then on
      nothing changes. */
  lemma CleanAppend(readme: string, mermaid: string)
    requires !HasSection(readme) && Clean(mermaid)
    ensures var r1 := Splice(readme, mermaid); var r2 := Splice(r1, mermaid);
            && readme <= r1 && r2 == r1 + "\n" && Splice(r2, mermaid) == r2
  {
    var r1 := Splice(readme, mermaid);
    var at := |readme| + 2;
    AppendedHeader(readme, mermaid);
    hide Expand, IndexOf, Contains;
    CleanInsert(r1, mermaid);
    CleanSplice(r1, mermaid);
    CleanSection(readme, mermaid);
  }

  lemma AppendedHeader(readme: string, mermaid: string)
    requires !HasSection(readme)
    ensures var r1 := Splice(readme, mermaid); HasSection(r1) && Before(r1) == readme + "\n\n"
  {
    hide Expand, SectionEnd, Splice;
    var r1, at := Splice(readme, mermaid), |readme| + 2;
    AppendedText(readme, mermaid);
    assert r1[at..at + |GRAPH_HEADER|] == GRAPH_HEADER;
    forall j | 0 <= j < at
      ensures !OccursAt(r1, GRAPH_HEADER, j)
    {
      NoHeaderBefore(readme, mermaid, j);
    }
    FirstAt(r1, GRAPH_HEADER, 0, at);
    assert r1[..at] == readme + "\n\n";
  }

  lemma NoHeaderBefore(readme: string, mermaid: string, j: nat)
    requires !HasSection(readme) && j < |readme| + 2
    ensures !OccursAt((readme + "\n\n" + GRAPH_HEADER) + ("\n\n" + mermaid), GRAPH_HEADER, j)
  {
    var r1, n := (readme + "\n\n" + GRAPH_HEADER) + ("\n\n" + mermaid), |GRAPH_HEADER|;
    if j + n <= |readme| {
      assert r1[j..j + n] == readme[j..j + n];
      assert !OccursAt(readme, GRAPH_HEADER, j);
    } else {
      var k := if j <= |readme| then |readme| else |readme| + 1;
      assert r1[k] == '\n' && r1[k] == r1[j..j + n][k - j];
      NoBreakInHeader(k - j);
    }
  }

  lemma NoBreakInHeader(i: nat)
    requires i < |GRAPH_HEADER|
    ensures GRAPH_HEADER[i] != '\n'
  {
  }

  lemma CleanSection(readme: string, mermaid: string)
    requires !HasSection(readme) && Clean(mermaid)
    ensures var r1 := Splice(readme, mermaid); HasSection(r1) && After(r1) == "" && Splice(r1, mermaid) == r1 + "\n"
  {
    hide Expand, IndexOf, SectionEnd, Splice, Contains, HasSection, Before, After, Start;
    AppendedHeader(readme, mermaid);
    AppendedText(readme, mermaid);
    var r1, prefix := Splice(readme, mermaid), readme + "\n\n" + GRAPH_HEADER;
    StartIs(r1, prefix);
    NoMarkBehind(prefix, mermaid);
    AfterNothing(r1);
    CleanSplice(r1, mermaid);
    assert r1 == Before(r1) + GraphBlock(mermaid);
    assert Before(r1) + GraphBlock(mermaid) + "\n" + "" == r1 + "\n";
  }

  lemma StartIs(readme: string, prefix: string)
    requires HasSection(readme) && prefix == Before(readme) + GRAPH_HEADER
    ensures Start(readme) == |prefix|
  {
    hide IndexOf;
  }

  lemma AfterNothing(readme: string)
    requires HasSection(readme) && SectionEnd(readme, Start(readme)) == |readme|
    ensures After(readme) == ""
  {
    hide IndexOf, SectionEnd, Start, HasSection;
  }

  lemma AppendedText(readme: string, mermaid: string)
    requires !HasSection(readme)
    ensures Splice(readme, mermaid) == (readme + "\n\n" + GRAPH_HEADER) + ("\n\n" + mermaid)
  {
    hide IndexOf;
  }

  lemma NoMarkBehind(prefix: string, mermaid: string)
    requires Clean(mermaid)
    ensures SectionEnd(prefix + ("\n\n" + mermaid), |prefix|) == |prefix| + 2 + |mermaid|
  {
    var s, p := prefix + ("\n\n" + mermaid), |prefix|;
    forall j | p <= j
      ensures !OccursAt(s, MARK, j)
    {
      MarkAt(s, j);
      if p + 2 <= j && j + 2 <= |s| {
        MarkAt(mermaid, j - p - 2);
        assert s[j] == mermaid[j - p - 2] && s[j + 1] == mermaid[j - p - 1];
        assert !OccursAt(mermaid, MARK, j - p - 2);
      }
    }
  }

  // ---------------------------------------------------------------- the update, on the text

  /** The README cut at its first graph header and at the next `##` behind it, if there is one. */
  ghost predicate IsCut(readme: string, before: string, section: string, after: string) {
    && readme == before + "## Architectural Decision Dependency Graph" + section + after
    && (forall j: nat :: j < |before| ==> !OccursAt(readme, "## Architectural Decision Dependency Graph", j))
    && (forall j: nat :: |readme| - |section + after| <= j < |readme| - |after| ==> !OccursAt(readme, "##", j))
    && (after == "" || "##" <= after)
  }

  lemma CutIs(readme: string, before: string, section: string, after: string)
    requires IsCut(readme, before, section, after)
    ensures HasSection(readme) && before == Before(readme) && section == Section(readme) && after == After(readme)
  {
    hide IndexOf, SectionEnd;
    var at, start := |before|, |before| + |GRAPH_HEADER|;
    assert readme[at..start] == GRAPH_HEADER;
    FirstAt(readme, GRAPH_HEADER, 0, at);
    EndIs(readme, start, start + |section|);
    assert readme[..at] == before && readme[start..start + |section|] == section;
    assert readme[start + |section|..] == after;
  }

  lemma EndIs(readme: string, from: nat, end: nat)
    requires from <= end <= |readme| && forall j: nat :: from <= j < end ==> !OccursAt(readme, MARK, j)
    requires end == |readme| || MARK <= readme[end..]
    ensures SectionEnd(readme, from) == end
  {
    if end < |readme| {
      assert readme[end..end + 2] == readme[end..][..2];
      FirstAt(readme, MARK, from, end);
    }
  }

  lemma SectionIsCut(readme: string)
    requires HasSection(readme)
    ensures IsCut(readme, Before(readme), Section(readme), After(readme))
  {
    hide IndexOf, SectionEnd;
    Pieces(readme);
    SectionHasNoMark(readme);
  }

  lemma SectionHasNoMark(readme: string)
    requires HasSection(readme)
    ensures forall j :: Start(readme) <= j < SectionEnd(readme, Start(readme)) ==> !OccursAt(readme, MARK, j)
  {
  }

  /** The update in words of the text: at the cut, if there is the header, the section goes and the new block comes,
      its dollar patterns replaced; else the block is appended. */
  lemma SpliceMeans(readme: string, mermaid: string)
    ensures forall before, section, after :: IsCut(readme, before, section, after) ==>
              Splice(readme, mermaid) ==
              before + Expand("## Architectural Decision Dependency Graph" + "\n\n" + mermaid + "\n",
                              "## Architectural Decision Dependency Graph" + section, before, after) + after
    ensures (exists before, section, after :: IsCut(readme, before, section, after)) <==>
            Contains(readme, "## Architectural Decision Dependency Graph")
    ensures !Contains(readme, "## Architectural Decision Dependency Graph") ==>
              Splice(readme, mermaid) ==
              readme + "\n\n" + "## Architectural Decision Dependency Graph" + "\n\n" + mermaid
  {
    hide Expand, IndexOf, SectionEnd, IsCut, Splice;
    assert HasSection(readme) <==> Contains(readme, GRAPH_HEADER) by { SectionMeans(readme); }
    if HasSection(readme) {
      SectionIsCut(readme);
    } else {
      AppendedText(readme, mermaid);
      AppendedIs(readme, mermaid);
    }
    forall before, section, after | IsCut(readme, before, section, after)
      ensures HasSection(readme)
      ensures Splice(readme, mermaid) ==
              before + Expand("## Architectural Decision Dependency Graph" + "\n\n" + mermaid + "\n",
                              "## Architectural Decision Dependency Graph" + section, before, after) + after
    {
      CutIs(readme, before, section, after);
      SpliceWhole(readme, mermaid);
    }
  }

  lemma AppendedIs(readme: string, mermaid: string)
    ensures (readme + "\n\n" + GRAPH_HEADER) + ("\n\n" + mermaid) ==
            readme + "\n\n" + "## Architectural Decision Dependency Graph" + "\n\n" + mermaid
  {
  }

  lemma SectionMeans(readme: string)
    ensures HasSection(readme) <==> Contains(readme, GRAPH_HEADER)
  {
    hide OccursAt;
  }

  lemma SpliceWhole(readme: string, mermaid: string)
    requires HasSection(readme)
    ensures Splice(readme, mermaid) ==
            Before(readme) + Expand("## Architectural Decision Dependency Graph" + "\n\n" + mermaid + "\n",
                                    GRAPH_HEADER + Section(readme), Before(readme), After(readme)) + After(readme)
  {
    hide Expand, IndexOf, SectionEnd;
    HeaderAndSection(readme);
    BlockIs(mermaid);
  }

  lemma BlockIs(mermaid: string)
    ensures GraphBlock(mermaid) + "\n" == "## Architectural Decision Dependency Graph" + "\n\n" + mermaid + "\n"
  {
  }

  /** The dollar patterns, where each comes: a dollar, the match, the text before it, the text behind it; a dollar
      before anything else stays. */
  lemma ExpandMeans(t: string, m: string, b: string, a: string)
    ensures Expand("$$" + t, m, b, a) == "$" + Expand(t, m, b, a)
    ensures Expand("$&" + t, m, b, a) == m + Expand(t, m, b, a)
    ensures Expand("$`" + t, m, b, a) == b + Expand(t, m, b, a)
    ensures Expand("$'" + t, m, b, a) == a + Expand(t, m, b, a)
    ensures forall c :: c !in "$&`'" ==> Expand("$" + [c] + t, m, b, a) == "$" + Expand([c] + t, m, b, a)
    ensures Expand("$", m, b, a) == "$"
  {
    DollarThen('$', t, m, b, a);
    DollarThen('&', t, m, b, a);
    DollarThen('`', t, m, b, a);
    DollarThen('\'', t, m, b, a);
    forall c | c !in "$&`'"
      ensures Expand("$" + [c] + t, m, b, a) == "$" + Expand([c] + t, m, b, a)
    {
      DollarThen(c, t, m, b, a);
    }
    assert "$$" + t == "$" + ['$'] + t && "$&" + t == "$" + ['&'] + t;
    assert "$`" + t == "$" + ['`'] + t && "$'" + t == "$" + ['\''] + t;
  }

  lemma DollarThen(c: char, t: string, m: string, b: string, a: string)
    ensures Expand("$" + [c] + t, m, b, a) ==
            if c == '$' then "$" + Expand(t, m, b, a)
            else if c == '&' then m + Expand(t, m, b, a)
            else if c == '`' then b + Expand(t, m, b, a)
            else if c == '\'' then a + Expand(t, m, b, a)
            else "$" + Expand([c] + t, m, b, a)
  {
    var s := "$" + [c] + t;
    assert s[2..] == t && s[1..] == [c] + t;
  }

  // ---------------------------------------------------------------- graphs that settle

  lemma CleanMeans(mermaid: string)
    ensures Clean(mermaid) <==>
            && (forall i :: 0 <= i < |mermaid| ==> mermaid[i] != '$')
            && (forall i :: 0 <= i < |mermaid| - 1 ==> mermaid[i] != '#' || mermaid[i + 1] != '#')
  {
    if i: nat :| OccursAt(mermaid, MARK, i) {
      MarkAt(mermaid, i);
      assert 0 <= i < |mermaid| - 1;
    }
    if i :| 0 <= i < |mermaid| - 1 && mermaid[i] == '#' && mermaid[i + 1] == '#' {
      MarkAt(mermaid, i);
    }
  }

  /** A graph with a `##` in it, say from a title, makes every further update longer. */
  lemma MarkedGraphGrows(readme: string, mermaid: string)
    requires HasSection(readme) && '$' !in mermaid && Contains(mermaid, MARK)
    ensures |Splice(Splice(readme, mermaid), mermaid)| > |Splice(readme, mermaid)|
  {
    hide Expand, IndexOf, SectionEnd, Contains;
    ExpandNoDollar(Template(mermaid), GRAPH_HEADER + Section(readme), Before(readme), After(readme));
    ContainsPart(Template(mermaid), "\n\n", mermaid, "\n");
    GrowsWithMark(readme, mermaid);
  }

  /** For a graph without a dollar, the condition on the graph itself: a second update changes nothing if and only if
      the graph holds no `##`. */
  lemma SettlesExactly(readme: string, mermaid: string)
    requires HasSection(readme) && '$' !in mermaid
    ensures Splice(Splice(readme, mermaid), mermaid) == Splice(readme, mermaid) <==> !Contains(mermaid, MARK)
  {
    hide Splice, Contains, HasSection;
    if Contains(mermaid, MARK) {
      MarkedGraphGrows(readme, mermaid);
    } else {
      CleanSplice(readme, mermaid);
    }
  }

  /** After a run there is a section. */
  lemma SectionAfter(readme: string, mermaid: string)
    ensures HasSection(Splice(readme, mermaid))
  {
    hide Expand, IndexOf, SectionEnd, Splice;
    if HasSection(readme) {
      SplicePieces(readme, mermaid);
      var tail := Inserted(readme, mermaid) + After(readme);
      assert Splice(readme, mermaid) == Before(readme) + GRAPH_HEADER + tail;
      HeaderStays(readme, tail);
    } else {
      AppendedHeader(readme, mermaid);
    }
  }
}
