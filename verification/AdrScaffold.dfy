/** The file name scaffold-adr.ts picks for a new record. */
module AdrScaffold {
  import opened Text
  import opened Digits
  import opened Doubles
  import AdrGraph
  import Slug

  // ---------------------------------------------------------------- choosing the number

  /** The number in `/^MEOW-(\d+)/i`, as `parseInt` returns it. */
  function FileNumber(name: string): Option<nat> {
    var n := AdrGraph.MatchLength(name, 0);
    if n > 0 then
      DigitsOfMatch(name);
      Some(Round(Value(name[5..n])))
    else None
  }

  lemma DigitsOfMatch(name: string)
    requires AdrGraph.MatchLength(name, 0) > 0
    ensures AllDigits(name[5..AdrGraph.MatchLength(name, 0)])
  {
    var n := AdrGraph.MatchLength(name, 0);
    forall i | 0 <= i < n - 5
      ensures IsDigit(name[5..n][i])
    {
      assert name[5..n][i] == name[5..][i];
    }
  }

  function MaxNumber(files: seq<string>): (m: nat)
    ensures m >= 14
  {
    if files == [] then 14
    else
      var m := MaxNumber(files[..|files| - 1]);
      match FileNumber(files[|files| - 1])
      case Some(num) => if num > m then num else m
      case None => m
  }

  /** The number chosen for a directory. */
  function NextNumber(files: seq<string>): nat {
    Round(MaxNumber(files) + 1)
  }

  /** `getNextAdrNumber`; None stands for a directory that does not exist yet. */
  method GetNextAdrNumber(files: Option<seq<string>>) returns (num: nat)
    ensures num == NextNumber(if files.Some? then files.value else [])
  {
    if files.None? {
      RoundSmall(15);
      return 15;
    }
    hide FileNumber, Round;
    var maxNum := 14;
    for k := 0 to |files.value|
      invariant maxNum == MaxNumber(files.value[..k])
    {
      var f := files.value[k];
      assert files.value[..k + 1][..k] == files.value[..k];
      var n := FileNumber(f);
      if n.Some? {
        if n.value > maxNum {
          maxNum := n.value;
        }
      }
    }
    assert files.value[..|files.value|] == files.value;
    num := Round(maxNum + 1);
  }

  function FileName(num: nat, title: string): string {
    "MEOW-" + Pad(Decimal(num), 3) + "-" + Slug.Slugify(title) + ".md"
  }

  method ScaffoldName(files: Option<seq<string>>, title: string) returns (name: string)
    ensures name == FileName(NextNumber(if files.Some? then files.value else []), title)
  {
    var num := GetNextAdrNumber(files);
    name := FileName(num, title);
  }

  lemma {:induction false} MaxIsMax(files: seq<string>)
    ensures forall f :: f in files && FileNumber(f).Some? ==> FileNumber(f).value <= MaxNumber(files)
    ensures MaxNumber(files) == 14 || exists f :: f in files && FileNumber(f) == Some(MaxNumber(files))
  {
    hide FileNumber;
    if files != [] {
      var front := files[..|files| - 1];
      MaxIsMax(front);
      assert files == front + [files[|files| - 1]];
      if MaxNumber(files) == MaxNumber(front) && MaxNumber(front) != 14 {
        var f :| f in front && FileNumber(f) == Some(MaxNumber(front));
        assert f in files;
      }
    }
  }

  // ---------------------------------------------------------------- the name says its number

  lemma {:induction false} UpperDigits(s: string)
    requires AllDigits(s)
    ensures Upper(s) == s
  {
    if s != "" {
      UpperDigits(s[1..]);
    }
  }

  /** Parsing the zero-padded prefix of a file name gives the number it was made with. */
  lemma NameParsesBack(num: nat, title: string)
    requires Round(num) == num
    ensures FileNumber(FileName(num, title)) == Some(num)
  {
    hide Pad, Decimal, Slug.Slugify, Round, Value;
    DecimalValue(num);
    PadValue(Decimal(num), 3);
    var pad, name := Pad(Decimal(num), 3), FileName(num, title);
    DecimalNonempty(num);
    assert name[..5] == "MEOW-";
    StemIsUpper();
    var tail := name[5..];
    assert forall i :: 0 <= i < |pad| ==> tail[i] == pad[i];
    assert tail[|pad|] == '-';
    SpanDigits(tail, |pad|);
    assert name[0..0 + 5] == name[..5] && name[0 + 5..] == tail;
    assert AdrGraph.MatchLength(name, 0) == 5 + |pad|;
    assert name[5..5 + |pad|] == pad;
  }

  lemma StemIsUpper()
    ensures Upper("MEOW-") == "MEOW-" && AdrGraph.STEM == "MEOW-"
  {
  }

  lemma DecimalNonempty(num: nat)
    ensures |Decimal(num)| >= 1
  {
  }

  lemma SpanDigits(s: string, n: nat)
    requires n < |s| && (forall i :: 0 <= i < n ==> IsDigit(s[i])) && s[n] == '-'
    ensures Span(s, IsDigit) == n
  {
  }

  /** A file has a number when its name begins with `MEOW-`, in any case, and digits: what these say, as a double. */
  lemma FileNumberMeans(name: string)
    ensures FileNumber(name).Some? <==> exists n: nat :: AdrGraph.IsMention(name, 0, n)
    ensures forall n: nat :: AdrGraph.IsMention(name, 0, n) ==>
              AllDigits(name[5..n]) && FileNumber(name) == Some(Round(Value(name[5..n])))
  {
    hide Round, Value, AdrGraph.MatchLength;
    var n := AdrGraph.MatchLength(name, 0);
    AdrGraph.MatchMeaning(name, 0, n);
    forall k: nat | AdrGraph.IsMention(name, 0, k)
      ensures AllDigits(name[5..k]) && FileNumber(name) == Some(Round(Value(name[5..k])))
    {
      AdrGraph.MatchMeaning(name, 0, k);
      DigitsOfMatch(name);
    }
  }

  /** The name: the number with at least three digits and zeros in front for no more than that, and the slug. */
  lemma FileNameMeans(num: nat, title: string) returns (digits: string)
    ensures FileName(num, title) == "MEOW-" + digits + "-" + Slug.Slugify(title) + ".md"
    ensures AllDigits(digits) && Value(digits) == num && |digits| >= 3 && (|digits| > 3 ==> digits[0] != '0')
  {
    hide Pad, Decimal, Slug.Slugify, Value;
    DecimalValue(num);
    DecimalStarts(num);
    PadValue(Decimal(num), 3);
    var zeros := PadMeans(Decimal(num), 3);
    digits := Pad(Decimal(num), 3);
  }

  // ---------------------------------------------------------------- freshness

  /** The number chosen is greater than every number in the directory, for ids below 2^53. */
  lemma NumberExceedsAll(files: seq<string>)
    requires forall f :: f in files && FileNumber(f).Some? ==> FileNumber(f).value < LIMIT
    ensures var num := NextNumber(files);
            num == MaxNumber(files) + 1 <= LIMIT && forall f :: f in files && FileNumber(f).Some? ==>
                FileNumber(f).value < num
  {
    hide FileNumber, Round, MaxNumber;
    MaxIsMax(files);
    RoundSmall(MaxNumber(files) + 1);
  }

  /** The scaffolder never picks the name of a file that is already there, whatever the title. */
  lemma NeverOverwrites(files: seq<string>, title: string)
    requires forall f :: f in files && FileNumber(f).Some? ==> FileNumber(f).value < LIMIT
    ensures FileName(NextNumber(files), title) !in files
  {
    hide FileNumber, Round, MaxNumber, FileName;
    NumberExceedsAll(files);
    NameParsesBack(MaxNumber(files) + 1, title);
  }

  /** Adding one to a double gives a greater one below 2^53, and between 2^53 and 2^54, where doubles are the even
      numbers, at every other one. */
  lemma NextDouble(m: nat)
    requires Round(m) == m
    ensures Round(m + 1) > m <==> m < LIMIT || (m < 2 * LIMIT && m / 2 % 2 == 1)
  {
    hide Round, Ulp;
    if m < LIMIT {
      RoundSmall(m + 1);
    } else if m < 2 * LIMIT {
      DoubleUlp(m);
      RoundedIsMultiple(m);
      SameUlp(m);
      RoundAtSpacing(m + 1, 2, m / 2, 1);
    } else {
      WideUlp(m);
      RoundedIsMultiple(m);
      SameUlp(m);
      NextQuotient(m, Ulp(m));
      RoundAtSpacing(m + 1, Ulp(m), m / Ulp(m), 1);
    }
  }

  lemma {:induction false} MaxIsRounded(files: seq<string>)
    ensures Round(MaxNumber(files)) == MaxNumber(files)
  {
    hide Round, FileNumber;
    if files == [] {
      RoundSmall(14);
    } else {
      MaxIsRounded(files[..|files| - 1]);
      NumberIsRounded(files[|files| - 1]);
    }
  }

  lemma NumberIsRounded(name: string)
    ensures FileNumber(name).Some? ==> Round(FileNumber(name).value) == FileNumber(name).value
  {
    hide Round, Value;
    var n := AdrGraph.MatchLength(name, 0);
    if n > 0 {
      DigitsOfMatch(name);
      RoundIdempotent(Value(name[5..n]));
    }
  }

  /** Exactly for which directories the number chosen exceeds every number in them: those whose largest is below 2^53,
      or below 2^54 and an odd multiple of two. */
  lemma NextIsGreaterExactly(files: seq<string>)
    ensures var m := MaxNumber(files);
            (forall f :: f in files && FileNumber(f).Some? ==> FileNumber(f).value < NextNumber(files))
            <==> m < LIMIT || (m < 2 * LIMIT && m / 2 % 2 == 1)
  {
    hide Round, FileNumber, MaxNumber;
    MaxIsRounded(files);
    MaxIsMax(files);
    NextDouble(MaxNumber(files));
  }

  /** Up to 2^54, exactly when the scaffolder picks the name of a file that is already there: when the largest number is
      at least 2^53 and no odd multiple of two, and a file bears the name made with that number and the same title. */
  lemma OverwritesExactly(files: seq<string>, title: string)
    requires MaxNumber(files) < 2 * LIMIT
    ensures var m := MaxNumber(files);
            FileName(NextNumber(files), title) in files <==> m >= LIMIT && m / 2 % 2 == 0 && FileName(m, title) in files
  {
    hide Round, FileNumber, FileName, MaxNumber;
    var m := MaxNumber(files);
    MaxIsRounded(files);
    NextDouble(m);
    if Round(m + 1) > m {
      RoundIdempotent(m + 1);
      FreshName(files, NextNumber(files), title);
    } else {
      NextStays(m);
    }
  }

  lemma FreshName(files: seq<string>, num: nat, title: string)
    requires MaxNumber(files) < num && Round(num) == num
    ensures FileName(num, title) !in files
  {
    hide FileNumber, FileName, MaxNumber, Round;
    MaxIsMax(files);
    NameParsesBack(num, title);
  }

  lemma NextStays(m: nat)
    requires LIMIT <= m < 2 * LIMIT && Round(m) == m && m / 2 % 2 == 0
    ensures Round(m + 1) == m
  {
    hide Round, Ulp;
    DoubleUlp(m);
    RoundedIsMultiple(m);
    SameUlp(m);
    RoundAtSpacing(m + 1, 2, m / 2, 1);
  }

  /** At 2^53 the sum rounds back: next to a record made with that number, the same title overwrites it. */
  lemma OverwritesAtLimit(title: string)
    ensures var files := [FileName(LIMIT, title)];
            MaxNumber(files) == LIMIT && FileName(NextNumber(files), title) in files
  {
    hide FileNumber, FileName;
    var files := [FileName(LIMIT, title)];
    RoundSmall(LIMIT);
    NameParsesBack(LIMIT, title);
    assert files[..0] == [];
    assert MaxNumber([]) == 14;
    assert Round(LIMIT + 1) == LIMIT by {
      assert Ulp((LIMIT + 1) / 2) == 1;
    }
  }
}
