/** Strings as the scripts use them: white space, trimming, splitting, joining, searching. */
module Text {

  datatype Option<+T> = None | Some(value: T)

  /** White space as `\s` and `String.prototype.trim` understand it (ECMA-262, WhiteSpace and LineTerminator). */
  predicate IsSpace(c: char) {
    || c == ' ' || '\t' <= c <= '\r' || c == '\U{A0}' || c == '\U{1680}' || '\U{2000}' <= c <= '\U{200A}'
    || IsLineTerminator(c) || c == '\U{202F}' || c == '\U{205F}' || c == '\U{3000}' || c == '\U{FEFF}'
  }

  /** The characters `.` does not match. */
  predicate IsLineTerminator(c: char) {
    c == '\n' || c == '\r' || c == '\U{2028}' || c == '\U{2029}'
  }

  ghost predicate AllSpace(s: string) {
    forall i :: 0 <= i < |s| ==> IsSpace(s[i])
  }

  predicate IsDigit(c: char) {
    '0' <= c <= '9'
  }

  function TrimStart(s: string): string {
    if s != "" && IsSpace(s[0]) then TrimStart(s[1..]) else s
  }

  function TrimEnd(s: string): string {
    if s != "" && IsSpace(s[|s| - 1]) then TrimEnd(s[..|s| - 1]) else s
  }

  function Trim(s: string): string {
    TrimEnd(TrimStart(s))
  }

  /** `toUpperCase`, for text whose letters are ASCII. */
  function Upper(s: string): string {
    if s == "" then ""
    else [if 'a' <= s[0] <= 'z' then (s[0] as int - 32) as char else s[0]] + Upper(s[1..])
  }

  predicate EndsWith(s: string, suffix: string) {
    |suffix| <= |s| && s[|s| - |suffix|..] == suffix
  }

  /** The length of the longest prefix all of whose elements satisfy `p`. */
  function Span<T>(s: seq<T>, p: T -> bool): (n: nat)
    ensures n <= |s|
    ensures forall i :: 0 <= i < n ==> p(s[i])
    ensures n < |s| ==> !p(s[n])
  {
    if s != [] && p(s[0]) then 1 + Span(s[1..], p) else 0
  }

  function Filter<T(!new)>(s: seq<T>, p: T -> bool): (r: seq<T>)
    ensures forall x :: x in r <==> x in s && p(x)
  {
    if s == [] then [] else (if p(s[0]) then [s[0]] else []) + Filter(s[1..], p)
  }

  function Split(s: string, sep: char): (parts: seq<string>)
    ensures |parts| >= 1
  {
    if s == "" then [""]
    else
      var rest := Split(s[1..], sep);
      if s[0] == sep then [""] + rest else [[s[0]] + rest[0]] + rest[1..]
  }

  function Join(parts: seq<string>, sep: string): string {
    if |parts| == 0 then ""
    else if |parts| == 1 then parts[0]
    else parts[0] + sep + Join(parts[1..], sep)
  }

  /** The first index at or after `from` where `pattern` occurs. */
  function IndexOf(s: string, pattern: string, from: nat): (r: Option<nat>)
    ensures r.Some? ==> from <= r.value && OccursAt(s, pattern, r.value)
    ensures r.Some? ==> forall j :: from <= j < r.value ==> !OccursAt(s, pattern, j)
    ensures r.None? ==> forall j :: from <= j ==> !OccursAt(s, pattern, j)
    decreases |s| - from
  {
    if from + |pattern| > |s| then None
    else if OccursAt(s, pattern, from) then Some(from)
    else if from == |s| then None
    else IndexOf(s, pattern, from + 1)
  }

  predicate OccursAt(s: string, pattern: string, i: nat) {
    i + |pattern| <= |s| && s[i..i + |pattern|] == pattern
  }

  ghost predicate Contains(s: string, pattern: string) {
    exists i: nat :: OccursAt(s, pattern, i)
  }

  /** The characters of the lines, a separator after each one counted. */
  function Size(lines: seq<string>): nat {
    if lines == [] then 0 else |lines[0]| + 1 + Size(lines[1..])
  }

  /** A sequence all of whose elements pass stays as it is. */
  lemma {:induction false} FilterKeeps<T(!new)>(s: seq<T>, p: T -> bool)
    requires forall x :: x in s ==> p(x)
    ensures Filter(s, p) == s
  {
    if s != [] {
      assert s[0] in s;
      FilterKeeps(s[1..], p);
    }
  }

  /** An element that does not pass goes, wherever it stands. */
  lemma {:induction false} FilterDrops<T(!new)>(a: seq<T>, x: T, b: seq<T>, p: T -> bool)
    requires !p(x)
    ensures Filter(a + [x] + b, p) == Filter(a + b, p)
  {
    if a == [] {
      assert a + [x] + b == [x] + b && a + b == b && ([x] + b)[1..] == b;
      assert [] + Filter(b, p) == Filter(b, p);
    } else {
      assert (a + [x] + b)[1..] == a[1..] + [x] + b && (a + b)[1..] == a[1..] + b;
      FilterDrops(a[1..], x, b, p);
    }
  }

  lemma {:induction false} FilterAppend<T(!new)>(a: seq<T>, b: seq<T>, p: T -> bool)
    ensures Filter(a + b, p) == Filter(a, p) + Filter(b, p)
  {
    if a == [] {
      assert a + b == b;
    } else {
      assert (a + b)[1..] == a[1..] + b;
      FilterAppend(a[1..], b, p);
    }
  }

  lemma {:induction false} JoinSplit(s: string, sep: char)
    ensures Join(Split(s, sep), [sep]) == s
    ensures forall i :: 0 <= i < |Split(s, sep)| ==> sep !in Split(s, sep)[i]
  {
    if s != "" {
      JoinSplit(s[1..], sep);
      var rest := Split(s[1..], sep);
      if s[0] == sep {
        assert ([""] + rest)[1..] == rest;
      } else {
        var parts := Split(s, sep);
        assert parts[1..] == rest[1..];
      }
    }
  }

  lemma {:induction false} SplitPlain(s: string, sep: char)
    requires sep !in s
    ensures Split(s, sep) == [s]
  {
    if s != "" {
      SplitPlain(s[1..], sep);
      assert [s[0]] + s[1..] == s;
    }
  }

  lemma {:induction false} SplitAtSep(a: string, b: string, sep: char)
    requires sep !in a
    ensures Split(a + [sep] + b, sep) == [a] + Split(b, sep)
  {
    if a == "" {
      assert (a + [sep] + b)[1..] == b;
    } else {
      assert (a + [sep] + b)[1..] == a[1..] + [sep] + b;
      SplitAtSep(a[1..], b, sep);
      var rest := [a[1..]] + Split(b, sep);
      assert [a[0]] + rest[0] == a && rest[1..] == Split(b, sep);
    }
  }

  lemma {:induction false} SplitJoin(parts: seq<string>, sep: char)
    requires parts != []
    requires forall i :: 0 <= i < |parts| ==> sep !in parts[i]
    ensures Split(Join(parts, [sep]), sep) == parts
  {
    hide Split;
    if |parts| == 1 {
      SplitPlain(parts[0], sep);
    } else {
      SplitJoin(parts[1..], sep);
      SplitAtSep(parts[0], Join(parts[1..], [sep]), sep);
    }
  }

  lemma {:induction false} SizeAppend(a: seq<string>, b: seq<string>)
    ensures Size(a + b) == Size(a) + Size(b)
  {
    if a == [] {
      assert a + b == b;
    } else {
      assert (a + b)[1..] == a[1..] + b;
      SizeAppend(a[1..], b);
    }
  }

  lemma SizeCons(lines: seq<string>)
    requires lines != []
    ensures Size(lines) == |lines[0]| + 1 + Size(lines[1..])
  {
  }

  lemma SizeNothing()
    ensures Size([]) == 0
  {
  }

  lemma {:induction false} JoinSize(lines: seq<string>, sep: char)
    ensures |Join(lines, [sep])| <= Size(lines)
    ensures lines != [] ==> |Join(lines, [sep])| + 1 == Size(lines)
  {
    if |lines| > 1 {
      JoinSize(lines[1..], sep);
    }
  }

  lemma {:induction false} TrimEndDrops(s: string)
    ensures TrimEnd(s) <= s
  {
    if s != "" && IsSpace(s[|s| - 1]) {
      TrimEndDrops(s[..|s| - 1]);
    }
  }

  lemma {:induction false} TrimStartDrops(s: string)
    ensures |TrimStart(s)| <= |s| && TrimStart(s) == s[|s| - |TrimStart(s)|..]
  {
    if s != "" && IsSpace(s[0]) {
      TrimStartDrops(s[1..]);
    }
  }

  /** What `trim` returns neither starts nor ends with white space. */
  lemma {:induction false} TrimEdges(s: string)
    ensures Trim(s) != "" ==> !IsSpace(Trim(s)[0]) && !IsSpace(Trim(s)[|Trim(s)| - 1])
    ensures |Trim(s)| <= |s|
  {
    TrimStartDrops(s);
    TrimStartEdge(s);
    TrimEndDrops(TrimStart(s));
    TrimEndEdge(TrimStart(s));
  }

  lemma {:induction false} TrimStartEdge(s: string)
    ensures TrimStart(s) != "" ==> !IsSpace(TrimStart(s)[0])
  {
    if s != "" && IsSpace(s[0]) {
      TrimStartEdge(s[1..]);
    }
  }

  lemma {:induction false} TrimEndEdge(s: string)
    ensures TrimEnd(s) != "" ==> !IsSpace(TrimEnd(s)[|TrimEnd(s)| - 1])
  {
    if s != "" && IsSpace(s[|s| - 1]) {
      TrimEndEdge(s[..|s| - 1]);
    }
  }

  /** Trimming ignores a white space character at the end. */
  lemma {:induction false} TrimSnocSpace(s: string, c: char)
    requires IsSpace(c)
    ensures Trim(s + [c]) == Trim(s)
  {
    if s == "" {
      assert TrimStart([c]) == "";
    } else if IsSpace(s[0]) {
      assert (s + [c])[1..] == s[1..] + [c];
      TrimSnocSpace(s[1..], c);
    } else {
      assert (s + [c])[..|s|] == s;
    }
  }

  /** A text that already has clean edges is its own trim. */
  lemma TrimFixed(s: string)
    requires s != "" ==> !IsSpace(s[0]) && !IsSpace(s[|s| - 1])
    ensures Trim(s) == s
  {
  }

  lemma EmptyTrim()
    ensures TrimStart("") == "" && TrimEnd("") == "" && IsSpace('\n')
  {
  }

  lemma TrimNothing()
    ensures Trim("") == ""
  {
  }

  lemma {:induction false} TrimStartPart(s: string) returns (before: string)
    ensures s == before + TrimStart(s) && AllSpace(before)
  {
    hide IsSpace;
    if s != "" && IsSpace(s[0]) {
      var more := TrimStartPart(s[1..]);
      before := [s[0]] + more;
    } else {
      before := "";
    }
  }

  lemma {:induction false} TrimEndPart(s: string) returns (after: string)
    ensures s == TrimEnd(s) + after && AllSpace(after)
  {
    hide IsSpace;
    if s != "" && IsSpace(s[|s| - 1]) {
      var more := TrimEndPart(s[..|s| - 1]);
      after := more + [s[|s| - 1]];
    } else {
      after := "";
    }
  }

  lemma {:induction false} TrimOfTrimEnd(s: string)
    ensures Trim(TrimEnd(s)) == Trim(s)
  {
    hide IsSpace, Trim;
    if s != "" && IsSpace(s[|s| - 1]) {
      assert s == s[..|s| - 1] + [s[|s| - 1]];
      TrimSnocSpace(s[..|s| - 1], s[|s| - 1]);
      TrimOfTrimEnd(s[..|s| - 1]);
    }
  }

  lemma {:induction false} TrimOfTrimStart(s: string)
    ensures Trim(TrimStart(s)) == Trim(s)
  {
    hide IsSpace, TrimEnd;
    if s != "" && IsSpace(s[0]) {
      TrimOfTrimStart(s[1..]);
    }
  }

  lemma {:induction false} SpaceTrims(s: string)
    requires AllSpace(s)
    ensures TrimEnd(s) == ""
  {
    hide IsSpace;
    if s != "" {
      SpaceTrims(s[..|s| - 1]);
    }
  }

  lemma {:induction false} EndKeepsInk(s: string)
    requires s != "" && !IsSpace(s[0])
    ensures TrimEnd(s) != ""
  {
    hide IsSpace;
    if IsSpace(s[|s| - 1]) {
      EndKeepsInk(s[..|s| - 1]);
    }
  }

  /** A text that one of the trims empties is emptied by the others. */
  lemma BlankForms(s: string)
    ensures Trim(s) == "" <==> TrimStart(s) == ""
    ensures Trim(s) == "" <==> TrimEnd(s) == ""
  {
    hide IsSpace, TrimStart, TrimEnd;
    EmptyTrim();
    TrimOfTrimEnd(s);
    TrimStartEdge(s);
    if TrimStart(s) == "" {
      var before := TrimStartPart(s);
      assert s == before;
      SpaceTrims(s);
    } else {
      EndKeepsInk(TrimStart(s));
    }
  }

  // ---------------------------------------------------------------- what trimming means

  /** `core` with white space around it. */
  ghost predicate IsAround(s: string, core: string) {
    exists a, b :: s == a + core + b && AllSpace(a) && AllSpace(b)
  }

  /** `mark` is the first thing on the line but for white space, and `text` is what follows it up to white space. */
  ghost predicate IsBehind(s: string, mark: string, text: string) {
    exists a, w, b :: s == a + mark + w + text + b && AllSpace(a) && AllSpace(w) && AllSpace(b)
  }

  /** Not empty, and without white space at its ends. */
  predicate IsInk(s: string) {
    s != "" && !IsSpace(s[0]) && !IsSpace(s[|s| - 1])
  }

  lemma TrimParts(s: string) returns (a: string, b: string)
    ensures s == a + Trim(s) + b && AllSpace(a) && AllSpace(b)
    ensures Trim(s) == "" || IsInk(Trim(s))
  {
    hide IsSpace, TrimStart, TrimEnd;
    TrimEdges(s);
    a := TrimStartPart(s);
    b := TrimEndPart(TrimStart(s));
  }

  lemma {:induction false} TrimStartSkips(a: string, s: string)
    requires AllSpace(a)
    ensures TrimStart(a + s) == TrimStart(s)
  {
    hide IsSpace;
    if a == "" {
      assert a + s == s;
    } else {
      assert (a + s)[1..] == a[1..] + s;
      TrimStartSkips(a[1..], s);
    }
  }

  lemma {:induction false} TrimEndSkips(s: string, b: string)
    requires AllSpace(b)
    ensures TrimEnd(s + b) == TrimEnd(s)
  {
    hide IsSpace;
    if b == "" {
      assert s + b == s;
    } else {
      assert (s + b)[..|s + b| - 1] == s + b[..|b| - 1];
      TrimEndSkips(s, b[..|b| - 1]);
    }
  }

  lemma {:induction false} TrimEndStops(ink: string, s: string)
    requires ink != "" && !IsSpace(ink[|ink| - 1])
    ensures TrimEnd(ink + s) == ink + TrimEnd(s)
  {
    hide IsSpace;
    if s == "" {
      assert ink + s == ink;
    } else {
      assert (ink + s)[..|ink + s| - 1] == ink + s[..|s| - 1];
      if IsSpace(s[|s| - 1]) {
        TrimEndStops(ink, s[..|s| - 1]);
      }
    }
  }

  /** Trimming what stands between white space. */
  lemma TrimBetween(a: string, core: string, b: string)
    requires AllSpace(a) && AllSpace(b)
    ensures Trim(a + core + b) == Trim(core)
  {
    hide IsSpace, TrimStart, TrimEnd;
    assert a + core + b == a + (core + b);
    TrimStartSkips(a, core + b);
    TrimOfTrimStart(core + b);
    TrimOfTrimStart(a + (core + b));
    TrimEndSkips(core, b);
    TrimOfTrimEnd(core + b);
    TrimOfTrimEnd(core);
  }

  /** Exactly when a text trims to a given core. */
  lemma TrimMeans(s: string, core: string)
    ensures Trim(s) == core <==> (core == "" || IsInk(core)) && IsAround(s, core)
  {
    hide IsSpace, Trim;
    if Trim(s) == core {
      var a, b := TrimParts(s);
    }
    if (core == "" || IsInk(core)) && IsAround(s, core) {
      var a, b :| s == a + core + b && AllSpace(a) && AllSpace(b);
      TrimBetween(a, core, b);
      assert Trim(core) == core by { TrimFixed(core); }
    }
  }

  /** The trimmed text starts with a mark exactly when the mark is the first thing there but for white space. */
  lemma TrimStartsWith(s: string, mark: string)
    requires IsInk(mark)
    ensures mark <= Trim(s) <==> exists a, rest :: s == a + mark + rest && AllSpace(a)
  {
    hide IsSpace, Trim;
    if mark <= Trim(s) {
      var a, b := TrimParts(s);
      assert s == a + mark + (Trim(s)[|mark|..] + b);
    }
    if a, rest :| s == a + mark + rest && AllSpace(a) {
      TrimOfMarked(a, mark, rest);
    }
  }

  lemma TrimOfMarked(a: string, mark: string, rest: string)
    requires IsInk(mark) && AllSpace(a)
    ensures Trim(a + mark + rest) == mark + TrimEnd(rest)
  {
    hide IsSpace, TrimEnd;
    assert a + mark + rest == a + (mark + rest);
    TrimStartSkips(a, mark + rest);
    assert TrimStart(mark + rest) == mark + rest;
    TrimEndStops(mark, rest);
  }

  /** What stands behind a mark: `s.trim().slice(mark.length).trim()`. */
  lemma TrimBehind(s: string, mark: string, text: string)
    requires IsInk(mark) && mark <= Trim(s)
    ensures Trim(Trim(s)[|mark|..]) == text <==> (text == "" || IsInk(text)) && IsBehind(s, mark, text)
  {
    hide IsSpace, Trim, IsBehind, IsInk;
    if Trim(Trim(s)[|mark|..]) == text {
      BehindParts(s, mark);
    }
    if (text == "" || IsInk(text)) && IsBehind(s, mark, text) {
      BehindText(s, mark, text);
    }
  }

  lemma BehindParts(s: string, mark: string)
    requires mark <= Trim(s)
    ensures var text := Trim(Trim(s)[|mark|..]); (text == "" || IsInk(text)) && IsBehind(s, mark, text)
  {
    hide IsSpace, Trim, IsInk;
    var a, b := TrimParts(s);
    var tail := Trim(s)[|mark|..];
    var w, v := TrimParts(tail);
    var text := Trim(tail);
    assert Trim(s) == mark + (w + text + v);
    assert s == a + mark + w + text + (v + b);
    SpacesJoin(v, b);
  }

  lemma SpacesJoin(a: string, b: string)
    requires AllSpace(a) && AllSpace(b)
    ensures AllSpace(a + b)
  {
  }

  lemma BehindText(s: string, mark: string, text: string)
    requires IsInk(mark) && (text == "" || IsInk(text)) && IsBehind(s, mark, text)
    ensures mark <= Trim(s) && Trim(Trim(s)[|mark|..]) == text
  {
    hide IsSpace, Trim, TrimEnd, IsInk, AllSpace;
    var a, w, b :| s == a + mark + w + text + b && AllSpace(a) && AllSpace(w) && AllSpace(b);
    TailTogether(a, mark, w, text, b);
    BehindTrims(a, mark, w, text, b);
  }

  lemma TailTogether(a: string, mark: string, w: string, text: string, b: string)
    ensures a + mark + w + text + b == a + mark + (w + text + b)
  {
  }

  lemma BehindTrims(a: string, mark: string, w: string, text: string, b: string)
    requires IsInk(mark) && (text == "" || IsInk(text)) && AllSpace(a) && AllSpace(w) && AllSpace(b)
    ensures var s := a + mark + (w + text + b); mark <= Trim(s) && Trim(Trim(s)[|mark|..]) == text
  {
    hide IsSpace, Trim, TrimEnd, IsInk, AllSpace;
    var tail := w + text + b;
    TrimOfMarked(a, mark, tail);
    assert (mark + TrimEnd(tail))[|mark|..] == TrimEnd(tail);
    TrimOfTrimEnd(tail);
    TrimBetween(w, text, b);
    InkIsFixed(text);
  }

  lemma InkIsFixed(text: string)
    requires text == "" || IsInk(text)
    ensures Trim(text) == text
  {
    hide IsSpace, Trim;
    TrimFixed(text);
  }

  lemma {:induction false} UpperEach(s: string)
    ensures |Upper(s)| == |s|
    ensures forall i :: 0 <= i < |s| ==> Upper(s)[i] == if 'a' <= s[i] <= 'z' then (s[i] as int - 32) as char else s[i]
  {
    if s != "" {
      UpperEach(s[1..]);
    }
  }

  lemma EndsWithMeans(s: string, suffix: string)
    ensures EndsWith(s, suffix) <==> exists front :: s == front + suffix
  {
    if EndsWith(s, suffix) {
      assert s == s[..|s| - |suffix|] + suffix;
    }
  }

  /** The characters of ECMA-262 that white space is made of, by number. */
  const WHITE_SPACE: seq<int> := [
    0x9, 0xA, 0xB, 0xC, 0xD, 0x20, 0xA0, 0x1680, 0x2000, 0x2001, 0x2002, 0x2003, 0x2004, 0x2005, 0x2006, 0x2007,
    0x2008, 0x2009, 0x200A, 0x2028, 0x2029, 0x202F, 0x205F, 0x3000, 0xFEFF]

  lemma SpaceMeans(c: char)
    ensures IsSpace(c) <==> c as int in WHITE_SPACE
    ensures IsLineTerminator(c) <==> c as int in [0xA, 0xD, 0x2028, 0x2029]
  {
    assert WHITE_SPACE == WHITE_SPACE[..8] + WHITE_SPACE[8..16] + WHITE_SPACE[16..];
  }
}
