/** The two slug pipelines: heading anchors of build-blog.js and file slugs of scaffold-adr.ts. */
module Slug {
  import opened Text

  /** `toLowerCase`, exact for every character whose lower case contains an ASCII character;
      the other non-ASCII capitals are left alone, and both pipelines drop them either way. */
  function LowerChar(c: char): string {
    if 'A' <= c <= 'Z' then [(c as int + 32) as char]
    else if c == '\U{212A}' then "k"
    else if c == '\U{130}' then "i\U{307}"
    else [c]
  }

  function Lower(s: string): string {
    if s == "" then "" else LowerChar(s[0]) + Lower(s[1..])
  }

  predicate IsLowerAlnum(c: char) {
    'a' <= c <= 'z' || IsDigit(c)
  }

  predicate IsOther(c: char) {
    !IsLowerAlnum(c)
  }

  /** `[\w\s-]`: what the heading pipeline keeps. */
  predicate IsAnchorChar(c: char) {
    'a' <= c <= 'z' || 'A' <= c <= 'Z' || IsDigit(c) || c == '_' || IsSpace(c) || c == '-'
  }

  predicate IsDash(c: char) {
    c == '-'
  }

  predicate IsSpaceOrDash(c: char) {
    IsSpace(c) || IsDash(c)
  }

  /** `replace(/p+/g, "-")` */
  function DashRuns(s: string, p: char -> bool): string
    decreases |s|
  {
    if s == "" then ""
    else if p(s[0]) then
      var n := Span(s, p);
      "-" + DashRuns(s[n..], p)
    else [s[0]] + DashRuns(s[1..], p)
  }

  /** build-blog.js: lower, drop, dash the white space, squeeze the dashes, trim. */
  function Anchor(rawText: string): string {
    Trim(DashRuns(DashRuns(Filter(Lower(rawText), IsAnchorChar), IsSpace), IsDash))
  }

  /** `replace(/(^-|-$)/g, "")` */
  function StripDashes(s: string): string {
    var t := if s != "" && s[0] == '-' then s[1..] else s;
    if t != "" && t[|t| - 1] == '-' then t[..|t| - 1] else t
  }

  /** scaffold-adr.ts */
  function Slugify(text: string): string {
    StripDashes(DashRuns(Lower(text), IsOther))
  }

  // ---------------------------------------------------------------- reference forms

  /** A character at a time: a dash only where a run begins. */
  function Squeeze(s: string, p: char -> bool, inRun: bool): string {
    if s == "" then ""
    else if p(s[0]) then (if inRun then "" else "-") + Squeeze(s[1..], p, true)
    else [s[0]] + Squeeze(s[1..], p, false)
  }

  /** The maximal runs of `[a-z0-9]`. */
  function Words(s: string): (ws: seq<string>)
    ensures PlainWords(ws)
    decreases |s|
  {
    if s == "" then []
    else if IsLowerAlnum(s[0]) then
      var n := Span(s, IsLowerAlnum);
      assert IsWord(s[..n]);
      [s[..n]] + Words(s[n..])
    else Words(s[1..])
  }

  predicate IsWord(w: string) {
    w != "" && forall c :: c in w ==> IsLowerAlnum(c)
  }

  predicate PlainWords(ws: seq<string>) {
    forall i :: 0 <= i < |ws| ==> IsWord(ws[i])
  }

  ghost predicate NoDoubleDash(s: string) {
    forall i :: 0 <= i < |s| - 1 ==> !(s[i] == '-' && s[i + 1] == '-')
  }

  // ---------------------------------------------------------------- heading anchors

  lemma {:induction false} SqueezeSkips(s: string, p: char -> bool, n: nat)
    requires n <= |s| && forall i :: 0 <= i < n ==> p(s[i])
    ensures Squeeze(s, p, true) == Squeeze(s[n..], p, true)
  {
    if n > 0 {
      SqueezeSkips(s[1..], p, n - 1);
      assert s[1..][n - 1..] == s[n..];
    }
  }

  lemma {:induction false} DashRunsIsSqueeze(s: string, p: char -> bool)
    ensures DashRuns(s, p) == Squeeze(s, p, false)
    decreases |s|
  {
    if s != "" {
      if p(s[0]) {
        var n := Span(s, p);
        DashRunsIsSqueeze(s[n..], p);
        SqueezeSkips(s[1..], p, n - 1);
        assert s[1..][n - 1..] == s[n..];
        if n < |s| {
          assert !p(s[n..][0]);
        }
      } else {
        DashRunsIsSqueeze(s[1..], p);
      }
    }
  }

  /** Dashing white space and then squeezing dashes is one squeeze of both. */
  lemma {:induction false} SqueezeCompose(s: string, spaced: bool, dashed: bool)
    requires spaced ==> dashed
    ensures Squeeze(Squeeze(s, IsSpace, spaced), IsDash, dashed) == Squeeze(s, IsSpaceOrDash, dashed)
  {
    if s != "" {
      var rest := s[1..];
      if IsSpace(s[0]) {
        SqueezeCompose(rest, true, true);
        var inner := Squeeze(rest, IsSpace, true);
        assert "" + inner == inner;
        assert ("-" + inner)[1..] == inner;
      } else {
        SqueezeCompose(rest, false, IsDash(s[0]));
        var inner := Squeeze(rest, IsSpace, false);
        assert ([s[0]] + inner)[1..] == inner;
        if IsDash(s[0]) {
          SqueezeCompose(rest, false, true);
        }
      }
    }
  }

  lemma {:induction false} SqueezeShape(s: string, dashed: bool)
    requires forall c :: c in s ==> IsAnchorChar(c)
    ensures var r := Squeeze(s, IsSpaceOrDash, dashed);
            && (forall c :: c in r ==> IsAnchorChar(c) && !IsSpace(c) && (c == '-' || c in s))
            && NoDoubleDash(r) && (dashed && r != "" ==> r[0] != '-')
  {
    if s != "" {
      SqueezeShape(s[1..], IsSpaceOrDash(s[0]));
    }
  }

  lemma {:induction false} SqueezeFixed(s: string, dashed: bool)
    requires NoDoubleDash(s) && (dashed && s != "" ==> s[0] != '-')
    requires forall c :: c in s ==> !IsSpace(c)
    ensures Squeeze(s, IsSpaceOrDash, dashed) == s
  {
    if s != "" {
      assert s[0] in s;
      forall i | 0 <= i < |s[1..]| - 1
        ensures !(s[1..][i] == '-' && s[1..][i + 1] == '-')
      {
        assert !(s[i + 1] == '-' && s[i + 1 + 1] == '-');
      }
      if |s| > 1 {
        assert !(s[0] == '-' && s[0 + 1] == '-');
      }
      SqueezeFixed(s[1..], s[0] == '-');
    }
  }

  /** The whole anchor pipeline is one filter and one squeeze; the final trim never finds anything. */
  lemma AnchorIsSinglePass(rawText: string)
    ensures Anchor(rawText) == Squeeze(Filter(Lower(rawText), IsAnchorChar), IsSpaceOrDash, false)
  {
    var kept := Filter(Lower(rawText), IsAnchorChar);
    DashRunsIsSqueeze(kept, IsSpace);
    DashRunsIsSqueeze(Squeeze(kept, IsSpace, false), IsDash);
    SqueezeCompose(kept, false, false);
    var r := Squeeze(kept, IsSpaceOrDash, false);
    SqueezeShape(kept, false);
    if r != "" {
      assert r[0] in r && r[|r| - 1] in r;
    }
    TrimFixed(r);
  }

  predicate IsLowered(c: char) {
    !('A' <= c <= 'Z')
  }

  lemma {:induction false} LowerLowers(s: string)
    ensures forall c :: c in Lower(s) ==> IsLowered(c)
  {
    if s != "" {
      LowerLowers(s[1..]);
    }
  }

  lemma {:induction false} LowerFixed(s: string)
    requires forall c :: c in s ==> c < '\U{80}' && IsLowered(c)
    ensures Lower(s) == s
  {
    if s != "" {
      assert s[0] in s;
      forall c | c in s[1..]
        ensures c in s
      {
      }
      LowerFixed(s[1..]);
    }
  }

  /** Anchors use only `[a-z0-9_-]` and never double a dash. */
  lemma AnchorNormalForm(rawText: string)
    ensures forall c :: c in Anchor(rawText) ==> 'a' <= c <= 'z' || IsDigit(c) || c == '_' || c == '-'
    ensures NoDoubleDash(Anchor(rawText))
  {
    AnchorIsSinglePass(rawText);
    var kept := Filter(Lower(rawText), IsAnchorChar);
    LowerLowers(rawText);
    SqueezeShape(kept, false);
  }

  /** An anchor is its own anchor. */
  lemma AnchorIdempotent(rawText: string)
    ensures Anchor(Anchor(rawText)) == Anchor(rawText)
  {
    hide Anchor, Squeeze, Lower, Filter;
    var a := Anchor(rawText);
    AnchorNormalForm(rawText);
    LowerFixed(a);
    FilterKeeps(a, IsAnchorChar);
    SqueezeFixed(a, false);
    AnchorIsSinglePass(a);
  }

  // ---------------------------------------------------------------- file slugs

  function TailDash(s: string): string {
    if s != "" && IsOther(s[|s| - 1]) then "-" else ""
  }

  /** After the first word of `s` and the run behind it. */
  function AfterWord(s: string): (rest: string)
    ensures rest != "" ==> |rest| <= |s| && rest[|rest| - 1] == s[|s| - 1]
    ensures s != "" && IsLowerAlnum(s[0]) ==> |rest| < |s|
    ensures s != "" && IsLowerAlnum(s[0]) && rest != "" ==> IsLowerAlnum(rest[0])
  {
    var tail := s[Span(s, IsLowerAlnum)..];
    tail[Span(tail, IsOther)..]
  }

  lemma FirstWord(s: string)
    requires s != "" && IsLowerAlnum(s[0])
    ensures var w := s[..Span(s, IsLowerAlnum)];
            && Words(s) == [w] + Words(AfterWord(s))
            && DashRuns(s, IsOther) == w + if w == s then "" else "-" + DashRuns(AfterWord(s), IsOther)
  {
    var n := Span(s, IsLowerAlnum);
    DashRunsCopies(s, n);
    var tail := s[n..];
    WordsSkip(tail, Span(tail, IsOther));
  }

  /** What the runs turn into when the text starts with a word. */
  lemma {:induction false} DashRunsWords(s: string)
    requires s != "" ==> IsLowerAlnum(s[0])
    ensures DashRuns(s, IsOther) == Join(Words(s), "-") + TailDash(s)
    decreases |s|
  {
    hide Words, DashRuns, Span, AfterWord, IsLowerAlnum, Join;
    NoWords();
    if s != "" {
      FirstWord(s);
      var w, rest := s[..Span(s, IsLowerAlnum)], AfterWord(s);
      JoinCons(w, Words(rest), "-");
      if w == s {
        WholeWord(s);
      } else if rest == "" {
        LastIsOther(s);
      } else {
        DashRunsWords(rest);
        SomeWord(rest);
        MoveBrackets(w, "-", Join(Words(rest), "-"), TailDash(rest));
      }
    }
  }

  lemma NoWords()
    ensures Words("") == [] && DashRuns("", IsOther) == "" && Join([], "-") == ""
  {
  }

  lemma SomeWord(s: string)
    requires s != "" && IsLowerAlnum(s[0])
    ensures Words(s) != []
  {
  }

  lemma JoinCons(w: string, ws: seq<string>, sep: string)
    ensures Join([w] + ws, sep) == if ws == [] then w else w + sep + Join(ws, sep)
  {
    assert ([w] + ws)[1..] == ws;
  }

  lemma MoveBrackets(a: string, b: string, c: string, d: string)
    ensures a + (b + (c + d)) == (a + b + c) + d
  {
  }

  lemma WholeWord(s: string)
    requires s != "" && IsLowerAlnum(s[0]) && s[..Span(s, IsLowerAlnum)] == s
    ensures AfterWord(s) == "" && TailDash(s) == ""
  {
  }

  lemma LastIsOther(s: string)
    requires s != "" && IsLowerAlnum(s[0]) && AfterWord(s) == "" && s[..Span(s, IsLowerAlnum)] != s
    ensures IsOther(s[|s| - 1])
  {
    var n := Span(s, IsLowerAlnum);
    var tail := s[n..];
    assert s[..|s|] == s;
    assert Span(tail, IsOther) == |tail|;
    assert tail[|tail| - 1] == s[|s| - 1];
  }

  lemma {:induction false} WordsSkip(s: string, n: nat)
    requires n <= |s| && forall i :: 0 <= i < n ==> IsOther(s[i])
    ensures Words(s) == Words(s[n..])
  {
    if n > 0 {
      WordsSkip(s[1..], n - 1);
      assert s[1..][n - 1..] == s[n..];
    }
  }

  lemma {:induction false} DashRunsCopies(s: string, n: nat)
    requires n <= |s| && forall i :: 0 <= i < n ==> IsLowerAlnum(s[i])
    ensures DashRuns(s, IsOther) == s[..n] + DashRuns(s[n..], IsOther)
  {
    if n > 0 {
      DashRunsCopies(s[1..], n - 1);
      assert s[1..][n - 1..] == s[n..];
      assert s[..n] == [s[0]] + s[1..][..n - 1];
    }
  }

  lemma {:induction false} JoinEdges(ws: seq<string>)
    requires PlainWords(ws) && ws != []
    ensures Join(ws, "-") != "" && IsLowerAlnum(Join(ws, "-")[0]) && IsLowerAlnum(Join(ws, "-")[|Join(ws, "-")| - 1])
  {
    assert IsWord(ws[0]);
    assert ws[0][0] in ws[0] && ws[0][|ws[0]| - 1] in ws[0];
    if |ws| > 1 {
      JoinEdges(ws[1..]);
    }
  }

  /** `slugify` is exactly the words of the lowered text, joined by single dashes. */
  lemma SlugifyIsWords(text: string)
    ensures Slugify(text) == Join(Words(Lower(text)), "-")
  {
    hide Words, DashRuns, Span, IsOther, StripDashes, Join, Lower;
    var s := Lower(text);
    var n := LeadingOthers(s);
    var rest := s[n..];
    if rest == "" {
      NoWords();
      StripNothing();
      assert (if n > 0 then "-" else "") + "" == if n > 0 then "-" else "";
    } else {
      DashRunsWords(rest);
      SomeWord(rest);
      JoinEdges(Words(rest));
      StripEdges(Join(Words(rest), "-"), n > 0, TailDash(rest));
    }
  }

  lemma StripNothing()
    ensures StripDashes("") == "" && StripDashes("-") == ""
  {
  }

  /** What comes before the first word turns into one dash, if there is anything. */
  lemma LeadingOthers(s: string) returns (n: nat)
    ensures n <= |s| && Words(s) == Words(s[n..])
    ensures DashRuns(s, IsOther) == (if n > 0 then "-" else "") + DashRuns(s[n..], IsOther)
    ensures s[n..] != "" ==> IsLowerAlnum(s[n..][0])
  {
    hide Words;
    n := Span(s, IsOther);
    WordsSkip(s, n);
    if n == 0 {
      assert s[n..] == s;
    }
  }

  lemma StripEdges(middle: string, dashed: bool, tail: string)
    requires middle != "" && middle[0] != '-' && middle[|middle| - 1] != '-'
    requires tail == "" || tail == "-"
    ensures StripDashes((if dashed then "-" else "") + (middle + tail)) == middle
  {
    var whole := (if dashed then "-" else "") + (middle + tail);
    assert whole[if dashed then 1 else 0..] == middle + tail;
    assert (middle + tail)[..|middle|] == middle;
  }

  lemma {:induction false} WordsOfJoin(ws: seq<string>)
    requires PlainWords(ws)
    ensures Words(Join(ws, "-")) == ws
  {
    hide Words, Join, IsWord;
    if ws == [] {
      NoWords();
    } else {
      var w, rest := ws[0], ws[1..];
      assert ws == [w] + rest;
      JoinCons(w, rest, "-");
      WordsOfJoin(rest);
      if rest == [] {
        NoWords();
        WordThenRest(w, "");
        assert w + "" == w;
      } else {
        WordThenRest(w, "-" + Join(rest, "-"));
        DashThenWords(Join(rest, "-"));
        assert w + "-" + Join(rest, "-") == w + ("-" + Join(rest, "-"));
      }
    }
  }

  lemma WordThenRest(w: string, tail: string)
    requires IsWord(w) && (tail == "" || tail[0] == '-')
    ensures Words(w + tail) == [w] + Words(tail)
  {
    var s := w + tail;
    forall i | 0 <= i < |w|
      ensures IsLowerAlnum(s[i])
    {
      assert s[i] == w[i] && w[i] in w;
    }
    SpanOf(s, IsLowerAlnum, |w|);
    assert s[..|w|] == w && s[|w|..] == tail;
  }

  lemma SpanOf(s: string, p: char -> bool, n: nat)
    requires n <= |s| && (forall i :: 0 <= i < n ==> p(s[i])) && (n < |s| ==> !p(s[n]))
    ensures Span(s, p) == n
  {
  }

  lemma DashThenWords(s: string)
    ensures Words("-" + s) == Words(s)
  {
    assert ("-" + s)[1..] == s;
  }

  /** A slug uses only `[a-z0-9-]`, doubles no dash and has none at its edges. */
  lemma {:induction false} JoinShape(ws: seq<string>)
    requires PlainWords(ws)
    ensures var r := Join(ws, "-");
            && (forall c :: c in r ==> IsLowerAlnum(c) || c == '-') && NoDoubleDash(r)
            && (r != "" ==> r[0] != '-' && r[|r| - 1] != '-')
  {
    if ws != [] {
      assert IsWord(ws[0]);
      assert ws[0][0] in ws[0] && ws[0][|ws[0]| - 1] in ws[0];
      if |ws| > 1 {
        JoinShape(ws[1..]);
        JoinEdges(ws[1..]);
        var r, w, rest := Join(ws, "-"), ws[0], Join(ws[1..], "-");
        forall i | 0 <= i < |r| - 1
          ensures !(r[i] == '-' && r[i + 1] == '-')
        {
          if i < |w| {
            assert r[i] == w[i] && w[i] in w;
          } else if i > |w| {
            assert r[i] == rest[i - |w| - 1] && r[i + 1] == rest[i - |w| - 1 + 1];
          }
        }
      } else {
        forall i | 0 <= i < |ws[0]|
          ensures ws[0][i] != '-'
        {
          assert ws[0][i] in ws[0];
        }
      }
    }
  }

  lemma SlugifyNormalForm(text: string)
    ensures var r := Slugify(text);
            && (forall c :: c in r ==> IsLowerAlnum(c) || c == '-') && NoDoubleDash(r)
            && (r != "" ==> r[0] != '-' && r[|r| - 1] != '-')
  {
    SlugifyIsWords(text);
    JoinShape(Words(Lower(text)));
  }

  /** A slug is its own slug. */
  lemma SlugifyIdempotent(text: string)
    ensures Slugify(Slugify(text)) == Slugify(text)
  {
    SlugifyNormalForm(text);
    SlugifyIsWords(text);
    var r := Slugify(text);
    LowerFixed(r);
    WordsOfJoin(Words(Lower(text)));
    SlugifyIsWords(r);
  }
}
