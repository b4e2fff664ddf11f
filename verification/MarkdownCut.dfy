/** The metadata block, line by line: which lines it takes, and what replacing a line does to it. */
module MarkdownCut {
  import opened Text
  import opened Frontmatter

  // ---------------------------------------------------------------- the cut goes through one line

  lemma NothingSplits()
    ensures Split("", '\n') == [""]
  {
  }

  /** Cutting a text in two cuts one line in two. */
  lemma {:induction false} SplitTail(a: string, b: string)
    ensures var left, right := Split(a, '\n'), Split(b, '\n');
            Split(a + b, '\n') == left[..|left| - 1] + [left[|left| - 1] + right[0]] + right[1..]
    decreases |a|
  {
    if a == "" {
      assert a + b == b;
      NothingSplits();
      NothingLeft(Split(b, '\n'));
    } else {
      assert (a + b)[1..] == a[1..] + b;
      SplitTail(a[1..], b);
      TailStep(a[0], Split(a[1..], '\n'), Split(b, '\n'));
    }
  }

  lemma NothingLeft(right: seq<string>)
    requires right != []
    ensures var left := [""]; left[..|left| - 1] + [left[|left| - 1] + right[0]] + right[1..] == right
  {
    assert "" + right[0] == right[0];
  }

  lemma TailStep(c: char, left: seq<string>, right: seq<string>)
    requires left != [] && right != []
    ensures var whole := left[..|left| - 1] + [left[|left| - 1] + right[0]] + right[1..];
            && (var more := [""] + left;
                [""] + whole == more[..|more| - 1] + [more[|more| - 1] + right[0]] + right[1..])
            && (var more := [[c] + left[0]] + left[1..];
                [[c] + whole[0]] + whole[1..] == more[..|more| - 1] + [more[|more| - 1] + right[0]] + right[1..])
  {
    if |left| == 1 {
      assert [c] + (left[0] + right[0]) == ([c] + left[0]) + right[0];
    }
  }

  /** What the cut takes away in front of the body. */
  function CutAway(content: string): string {
    match Cut(content)
    case Some((text, _)) => FENCE + text + FENCE
    case None => ""
  }

  lemma CutParts(content: string)
    ensures content == CutAway(content) + Body(content)
  {
    match Cut(content)
    case None =>
    case Some((text, body)) =>
      var end := IndexOf(content, FENCE, 3).value;
      assert content[..3] == FENCE == content[end..end + 3];
      assert content == content[..3] + content[3..end] + content[end..end + 3] + content[end + 3..];
  }

  /** How many whole lines belong to the metadata block; the next one may belong to it in part. */
  function MetaLines(content: string): nat {
    |Split(CutAway(content), '\n')| - 1
  }

  lemma BodyLinesAre(content: string)
    ensures var all, body, m := Split(content, '\n'), Split(Body(content), '\n'), MetaLines(content);
            && |all| == m + |body|
            && (forall i :: 1 <= i < |body| ==> body[i] == all[m + i])
            && all[m] == Split(CutAway(content), '\n')[m] + body[0]
            && (Cut(content).None? ==> m == 0 && body == all)
  {
    hide Body, Split, Cut;
    CutParts(content);
    SplitTail(CutAway(content), Body(content));
    if Cut(content).None? {
      assert "" + Body(content) == Body(content);
      NothingSplits();
    }
  }

  // ---------------------------------------------------------------- the cut, by lines alone

  predicate HasFence(s: string) {
    IndexOf(s, FENCE, 0).Some?
  }

  function BehindFence(s: string): string
    requires HasFence(s)
  {
    s[IndexOf(s, FENCE, 0).value + 3..]
  }

  /** The lines behind the first fence, starting with the rest of its own line. */
  function Behind(lines: seq<string>): (r: Option<seq<string>>)
    ensures r.Some? ==> 1 <= |r.value| <= |lines|
  {
    if lines == [] then None
    else if HasFence(lines[0]) then Some([BehindFence(lines[0])] + lines[1..])
    else Behind(lines[1..])
  }

  /** What line `k` holds besides the opening fence. */
  function Part(k: nat, line: string): string {
    if k == 0 && FENCE <= line then line[3..] else line
  }

  function Opened(lines: seq<string>): seq<string>
    requires lines != []
  {
    [Part(0, lines[0])] + lines[1..]
  }

  predicate HasBlock(lines: seq<string>) {
    lines != [] && FENCE <= lines[0] && Behind(Opened(lines)).Some?
  }

  /** The lines of the body. */
  function BodyLines(lines: seq<string>): (r: seq<string>)
    requires lines != []
    ensures 1 <= |r| <= |lines|
  {
    if HasBlock(lines) then Behind(Opened(lines)).value else lines
  }

  lemma IndexIs(s: string, pattern: string, from: nat, i: nat)
    requires from <= i && OccursAt(s, pattern, i)
    requires forall j :: from <= j < i ==> !OccursAt(s, pattern, j)
    ensures IndexOf(s, pattern, from) == Some(i)
  {
    hide OccursAt, IndexOf;
  }

  /** A fence lies within one line. */
  lemma FenceInLines(line: string, rest: string, i: nat)
    ensures OccursAt(line + ['\n'] + rest, FENCE, i) <==>
            if i <= |line| then OccursAt(line, FENCE, i) else OccursAt(rest, FENCE, i - |line| - 1)
  {
    var s := line + ['\n'] + rest;
    if i + 3 <= |line| {
      assert s[i..i + 3] == line[i..i + 3];
    } else if i <= |line| {
      if i + 3 <= |s| {
        assert s[i..i + 3][|line| - i] == '\n';
      }
    } else if i + 3 <= |s| {
      assert s[i..i + 3] == rest[i - |line| - 1..i - |line| + 2];
    }
  }

  /** Where a text of more than one line has its first fence: in its first line, or else where the others have it. */
  lemma FenceInFirst(line: string, rest: string)
    requires IndexOf(line, FENCE, 0).Some?
    ensures IndexOf(line + ['\n'] + rest, FENCE, 0) == IndexOf(line, FENCE, 0)
  {
    hide *;
    InFirstLine(line, rest);
    FirstAt(line, rest, IndexOf(line, FENCE, 0).value);
  }

  lemma FenceInRest(line: string, rest: string)
    requires IndexOf(line, FENCE, 0).None? && IndexOf(rest, FENCE, 0).Some?
    ensures IndexOf(line + ['\n'] + rest, FENCE, 0) == Some(|line| + 1 + IndexOf(rest, FENCE, 0).value)
  {
    hide *;
    BehindFirstLine(line, rest);
    FirstAt(line, rest, |line| + 1 + IndexOf(rest, FENCE, 0).value);
  }

  lemma InFirstLine(line: string, rest: string)
    requires IndexOf(line, FENCE, 0).Some?
    ensures IsFirstFence(line, rest, IndexOf(line, FENCE, 0).value)
  {
    hide OccursAt, IndexOf;
  }

  lemma BehindFirstLine(line: string, rest: string)
    requires IndexOf(line, FENCE, 0).None? && IndexOf(rest, FENCE, 0).Some?
    ensures IsFirstFence(line, rest, |line| + 1 + IndexOf(rest, FENCE, 0).value)
  {
    hide OccursAt, IndexOf;
  }

  lemma NoneAnywhere(line: string, rest: string)
    requires !HasFence(line) && !HasFence(rest)
    ensures !HasFence(line + ['\n'] + rest)
  {
    hide OccursAt, IndexOf;
    var s := line + ['\n'] + rest;
    if HasFence(s) {
      FenceInLines(line, rest, IndexOf(s, FENCE, 0).value);
    }
  }

  ghost predicate IsFirstFence(line: string, rest: string, at: nat) {
    var i, j := IndexOf(line, FENCE, 0), IndexOf(rest, FENCE, 0);
    i == Some(at) || (i.None? && at > |line| && j == Some(at - |line| - 1))
  }

  lemma FirstAt(line: string, rest: string, at: nat)
    requires IsFirstFence(line, rest, at)
    ensures IndexOf(line + ['\n'] + rest, FENCE, 0) == Some(at)
  {
    hide OccursAt, IndexOf, IsFirstFence;
    FenceThere(line, rest, at);
    var s := line + ['\n'] + rest;
    forall k | 0 <= k < at
      ensures !OccursAt(s, FENCE, k)
    {
      NoneBefore(line, rest, at, k);
    }
    IndexIs(s, FENCE, 0, at);
  }

  lemma FenceThere(line: string, rest: string, at: nat)
    requires IsFirstFence(line, rest, at)
    ensures OccursAt(line + ['\n'] + rest, FENCE, at)
  {
    hide OccursAt, IndexOf;
    if at <= |line| {
    } else if IndexOf(line, FENCE, 0).Some? {
      OccursWithin(line, at);
    }
    FenceInLines(line, rest, at);
  }

  lemma NoneBefore(line: string, rest: string, at: nat, k: nat)
    requires IsFirstFence(line, rest, at) && k < at
    ensures !OccursAt(line + ['\n'] + rest, FENCE, k)
  {
    hide OccursAt, IndexOf;
    if IndexOf(line, FENCE, 0).Some? {
      OccursWithin(line, at);
    }
    FenceInLines(line, rest, k);
  }

  lemma OccursWithin(s: string, i: nat)
    requires OccursAt(s, FENCE, i)
    ensures i + 3 <= |s|
  {
  }

  /** Splitting off the first line. */
  lemma FirstLine(s: string) returns (line: string, rest: string)
    requires |Split(s, '\n')| > 1
    ensures s == line + ['\n'] + rest && '\n' !in line && Split(s, '\n') == [line] + Split(rest, '\n')
  {
    hide Split, Join;
    JoinSplit(s, '\n');
    var lines := Split(s, '\n');
    line, rest := lines[0], Join(lines[1..], "\n");
    SplitJoin(lines[1..], '\n');
    JoinFirst(lines);
  }

  lemma JoinFirst(lines: seq<string>)
    requires |lines| > 1
    ensures Join(lines, "\n") == lines[0] + ['\n'] + Join(lines[1..], "\n")
  {
  }

  /** Cutting a text behind its first fence, and cutting its lines. */
  lemma {:induction false} BehindFirstFence(s: string)
    ensures var e := IndexOf(s, FENCE, 0);
            Behind(Split(s, '\n')) == if e.Some? then Some(Split(s[e.value + 3..], '\n')) else None
    decreases |s|
  {
    hide IndexOf, Split, Join, OccursAt;
    var lines, e := Split(s, '\n'), IndexOf(s, FENCE, 0);
    if |lines| == 1 {
      OneLine(s);
    } else {
      var line, rest := FirstLine(s);
      assert lines[1..] == Split(rest, '\n');
      BehindFirstFence(rest);
      if HasFence(line) {
        FenceInFirst(line, rest);
        OccursWithin(line, e.value);
        assert s[e.value + 3..] == line[e.value + 3..] + ['\n'] + rest;
        SplitAtSep(line[e.value + 3..], rest, '\n');
      } else if HasFence(rest) {
        FenceInRest(line, rest);
        var j := e.value - |line| - 1;
        OccursWithin(rest, j);
        assert s[e.value + 3..] == rest[j + 3..];
      } else {
        NoneAnywhere(line, rest);
      }
    }
  }

  lemma Single(s: string)
    requires |Split(s, '\n')| == 1
    ensures Split(s, '\n') == [s] && '\n' !in s
  {
    hide Split;
    JoinSplit(s, '\n');
  }

  lemma OneLine(s: string)
    requires |Split(s, '\n')| == 1
    ensures var e := IndexOf(s, FENCE, 0);
            Behind(Split(s, '\n')) == if e.Some? then Some(Split(s[e.value + 3..], '\n')) else None
  {
    hide IndexOf, Split, OccursAt;
    Single(s);
    var e := IndexOf(s, FENCE, 0);
    assert [s][1..] == [] && Behind([]) == None;
    if e.Some? {
      OccursWithin(s, e.value);
      SplitPlain(s[e.value + 3..], '\n');
      assert BehindFence(s) == s[e.value + 3..] && [BehindFence(s)] + [] == [BehindFence(s)];
    }
  }

  lemma IndexFrom(s: string)
    requires FENCE <= s
    ensures var i, j := IndexOf(s, FENCE, 3), IndexOf(s[3..], FENCE, 0);
            i == if j.Some? then Some(3 + j.value) else None
  {
    hide OccursAt, IndexOf;
    var i, j := IndexOf(s, FENCE, 3), IndexOf(s[3..], FENCE, 0);
    if j.Some? {
      OccursLater(s, j.value);
      forall k | 3 <= k < 3 + j.value
        ensures !OccursAt(s, FENCE, k)
      {
        OccursLater(s, k - 3);
      }
      IndexIs(s, FENCE, 3, 3 + j.value);
    } else if i.Some? {
      OccursLater(s, i.value - 3);
    }
  }

  lemma OccursLater(s: string, k: nat)
    requires 3 <= |s|
    ensures OccursAt(s, FENCE, 3 + k) <==> OccursAt(s[3..], FENCE, k)
  {
    if 6 + k <= |s| {
      assert s[3 + k..6 + k] == s[3..][k..k + 3];
    }
  }

  /** The cut and the body can be told from the lines alone. */
  lemma CutByLines(content: string)
    ensures Cut(content).Some? <==> HasBlock(Split(content, '\n'))
    ensures Split(Body(content), '\n') == BodyLines(Split(content, '\n'))
  {
    hide IndexOf, Split, Behind;
    OpensByLine(content);
    if FENCE <= content {
      IndexFrom(content);
      BehindFirstFence(content[3..]);
      var j := IndexOf(content[3..], FENCE, 0);
      if j.Some? {
        OccursWithin(content[3..], j.value);
        assert content[3..][j.value + 3..] == content[3 + j.value + 3..];
      }
    }
  }

  lemma OpensByLine(content: string)
    ensures var lines := Split(content, '\n');
            && (FENCE <= content <==> FENCE <= lines[0])
            && (FENCE <= content ==> Split(content[3..], '\n') == Opened(lines))
  {
    hide Split, Join;
    var lines := Split(content, '\n');
    if |lines| == 1 {
      Single(content);
      if FENCE <= content {
        SplitPlain(content[3..], '\n');
      }
    } else {
      var line, rest := FirstLine(content);
      FenceInFront(line, rest);
      if FENCE <= content {
        assert content[3..] == line[3..] + ['\n'] + rest;
        SplitAtSep(line[3..], rest, '\n');
      }
    }
  }

  lemma FenceInFront(line: string, rest: string)
    ensures FENCE <= line + ['\n'] + rest <==> FENCE <= line
  {
    var s := line + ['\n'] + rest;
    FenceInLines(line, rest, 0);
    assert FENCE <= s <==> OccursAt(s, FENCE, 0) by { assert 3 <= |s| ==> s[0..3] == s[..3]; }
    assert FENCE <= line <==> OccursAt(line, FENCE, 0) by { assert 3 <= |line| ==> line[0..3] == line[..3]; }
  }

  // ---------------------------------------------------------------- replacing a line

  /** The text with `x` for its line `k`. */
  function WithLine(content: string, k: nat, x: string): string
    requires k < |Split(content, '\n')|
  {
    Join(Split(content, '\n')[k := x], "\n")
  }

  lemma WithLineSplits(content: string, k: nat, x: string)
    requires k < |Split(content, '\n')| && '\n' !in x
    ensures Split(WithLine(content, k, x), '\n') == Split(content, '\n')[k := x]
  {
    hide Split, Join;
    JoinSplit(content, '\n');
    SplitJoin(Split(content, '\n')[k := x], '\n');
  }

  /** Where the block ends: with a fence in this line, or before the first line when there is no block. */
  function BlockLines(lines: seq<string>): nat
    requires lines != []
  {
    |lines| - |BodyLines(lines)|
  }

  /** With `x` for line `k` the block ends in the line where it ended before: the opening fence stays, no fence comes in
      before that line, and that line keeps one. Without a block, none comes about. */
  predicate KeepsCut(lines: seq<string>, k: nat, x: string)
    requires k < |lines|
  {
    if HasBlock(lines) then
      && (k == 0 ==> FENCE <= x)
      && (k < BlockLines(lines) ==> !HasFence(Part(k, x)))
      && (k == BlockLines(lines) ==> HasFence(Part(k, x)))
    else !HasBlock(lines[k := x])
  }

  /** What of `x` goes to the body. */
  function Tail(lines: seq<string>, k: nat, x: string): string
    requires k < |lines| && KeepsCut(lines, k, x)
  {
    if HasBlock(lines) && k == BlockLines(lines) then BehindFence(Part(k, x)) else x
  }

  lemma {:induction false} BehindReplaced(lines: seq<string>, k: nat, x: string)
    requires k < |lines| && Behind(lines).Some?
    ensures var m, r := |lines| - |Behind(lines).value|, Behind(lines[k := x]);
            if k < m then if HasFence(x) then r.Some? && |r.value| == |lines| - k else r == Behind(lines)
            else if k > m then r == Some(Behind(lines).value[k - m := x])
            else if HasFence(x) then r == Some(Behind(lines).value[0 := BehindFence(x)])
            else r.Some? ==> |r.value| < |lines| - m
    decreases |lines|
  {
    hide HasFence;
    var lines' := lines[k := x];
    if k == 0 {
      assert lines'[1..] == lines[1..];
      if HasFence(x) && HasFence(lines[0]) {
        assert [BehindFence(x)] + lines[1..] == ([BehindFence(lines[0])] + lines[1..])[0 := BehindFence(x)];
      }
    } else {
      assert lines'[1..] == lines[1..][k - 1 := x];
      if HasFence(lines[0]) {
        assert [BehindFence(lines[0])] + lines'[1..] == ([BehindFence(lines[0])] + lines[1..])[k := x];
      } else {
        BehindReplaced(lines[1..], k - 1, x);
      }
    }
  }

  lemma OpenedReplaced(lines: seq<string>, k: nat, x: string)
    requires k < |lines|
    ensures Opened(lines[k := x]) == Opened(lines)[k := Part(k, x)]
  {
  }

  /** Exactly when the block, or its absence, is kept. */
  lemma KeepsCutExactly(lines: seq<string>, k: nat, x: string)
    requires k < |lines|
    ensures var lines' := lines[k := x];
            KeepsCut(lines, k, x) <==> HasBlock(lines') == HasBlock(lines) && BlockLines(lines') == BlockLines(lines)
  {
    hide Behind, HasFence, Part;
    if HasBlock(lines) {
      OpenedReplaced(lines, k, x);
      BehindReplaced(Opened(lines), k, Part(k, x));
    }
  }

  /** What then becomes of the body: a line of the block leaves no trace in it, any other line changes in place. */
  lemma BodyFollows(lines: seq<string>, k: nat, x: string)
    requires k < |lines| && KeepsCut(lines, k, x)
    ensures var m, body := BlockLines(lines), BodyLines(lines);
            BodyLines(lines[k := x]) == if k < m then body else body[k - m := Tail(lines, k, x)]
  {
    hide Behind, HasFence, Part, BehindFence;
    KeepsCutExactly(lines, k, x);
    if HasBlock(lines) {
      OpenedReplaced(lines, k, x);
      PartLater(k, x);
      BehindReplaced(Opened(lines), k, Part(k, x));
    }
  }

  lemma PartLater(k: nat, x: string)
    ensures k > 0 ==> Part(k, x) == x
  {
  }

  /** The lines of the block are those before the first fence behind the opening one. */
  lemma {:induction false} BehindMeans(lines: seq<string>, k: nat)
    requires k < |lines| && Behind(lines).Some?
    ensures k < |lines| - |Behind(lines).value| <==> forall i :: 0 <= i <= k ==> !HasFence(lines[i])
    ensures k == |lines| - |Behind(lines).value| ==>
            HasFence(lines[k]) && Behind(lines).value[0] == BehindFence(lines[k])
    decreases |lines|
  {
    hide HasFence;
    if !HasFence(lines[0]) && k > 0 {
      BehindMeans(lines[1..], k - 1);
      assert forall i :: 1 <= i <= k ==> lines[1..][i - 1] == lines[i];
      if forall i :: 0 <= i <= k - 1 ==> !HasFence(lines[1..][i]) {
        forall i | 0 <= i <= k
          ensures !HasFence(lines[i])
        {
          if i > 0 {
            assert !HasFence(lines[1..][i - 1]);
          }
        }
      }
      if forall i :: 0 <= i <= k ==> !HasFence(lines[i]) {
        forall i | 0 <= i <= k - 1
          ensures !HasFence(lines[1..][i])
        {
          assert lines[1..][i] == lines[i + 1];
        }
      }
    }
  }

  lemma MetaIsBlock(content: string)
    ensures MetaLines(content) == BlockLines(Split(content, '\n'))
  {
    hide Body, Cut, Split, Behind, CutAway, BodyLines;
    BodyLinesAre(content);
    CutByLines(content);
  }

  /** Which lines belong to the metadata block: when there is one, those in front of the first line with a fence other
      than the opening one. The body begins behind that fence. */
  lemma MetadataExactly(content: string, k: nat)
    requires k < |Split(content, '\n')|
    ensures var lines := Split(content, '\n');
            k < MetaLines(content) <==> Cut(content).Some? && forall i :: 0 <= i <= k ==> !HasFence(Part(i, lines[i]))
    ensures var line := Part(k, Split(content, '\n')[k]);
            k == MetaLines(content) && Cut(content).Some? ==>
              HasFence(line) && Split(Body(content), '\n')[0] == BehindFence(line)
  {
    hide Body, Cut, Split, Behind, CutAway, HasFence, MetaLines, Part, BehindFence;
    MetaIsBlock(content);
    CutByLines(content);
    var lines := Split(content, '\n');
    if HasBlock(lines) {
      BehindMeans(Opened(lines), k);
      forall i | 0 <= i <= k
        ensures Opened(lines)[i] == Part(i, lines[i])
      {
        PartLater(i, lines[i]);
      }
    }
  }
}
