/** Decimal numerals: `String(n)`, `padStart` and `parseInt` on digits. */
module Digits {
  import opened Text

  function DigitChar(d: nat): (c: char)
    requires d < 10
    ensures IsDigit(c) && c as int == '0' as int + d
  {
    ('0' as int + d) as char
  }

  function Decimal(n: nat): string {
    if n < 10 then [DigitChar(n)] else Decimal(n / 10) + [DigitChar(n % 10)]
  }

  ghost predicate AllDigits(s: string) {
    forall i :: 0 <= i < |s| ==> IsDigit(s[i])
  }

  /** `parseInt(s, 10)` of a run of digits, before rounding to a double. */
  function Value(s: string): nat
    requires AllDigits(s)
  {
    if s == "" then 0 else 10 * Value(s[..|s| - 1]) + (s[|s| - 1] as int - '0' as int)
  }

  /** `padStart(width, "0")` */
  function Pad(s: string, width: nat): string
    decreases width - |s|
  {
    if |s| >= width then s else Pad("0" + s, width)
  }

  lemma {:induction false} DecimalValue(n: nat)
    ensures AllDigits(Decimal(n)) && Decimal(n) != "" && Value(Decimal(n)) == n
  {
    if n >= 10 {
      DecimalValue(n / 10);
      var s := Decimal(n);
      assert s[..|s| - 1] == Decimal(n / 10);
    } else {
      assert Decimal(n)[..0] == "";
    }
  }

  lemma {:induction false} LeadingZero(s: string)
    requires AllDigits(s)
    ensures AllDigits("0" + s) && Value("0" + s) == Value(s)
  {
    var t := "0" + s;
    if s == "" {
      assert t[..0] == "";
    } else {
      assert t[..|t| - 1] == "0" + s[..|s| - 1];
      LeadingZero(s[..|s| - 1]);
    }
  }

  /** A numeral has no zero in front, but for zero itself. */
  lemma {:induction false} DecimalStarts(n: nat)
    ensures Decimal(n) != "" && (Decimal(n)[0] == '0' ==> n == 0 && Decimal(n) == "0")
  {
    if n >= 10 {
      DecimalStarts(n / 10);
    }
  }

  /** As many zeros in front as the width asks for. */
  lemma {:induction false} PadMeans(s: string, width: nat) returns (zeros: string)
    ensures Pad(s, width) == zeros + s && |zeros| == (if |s| < width then width - |s| else 0)
    ensures forall i :: 0 <= i < |zeros| ==> zeros[i] == '0'
    decreases width - |s|
  {
    if |s| < width {
      zeros := PadMeans("0" + s, width);
      assert zeros + ("0" + s) == (zeros + "0") + s;
      zeros := zeros + "0";
    } else {
      zeros := "";
    }
  }

  lemma {:induction false} PadValue(s: string, width: nat)
    requires AllDigits(s)
    ensures AllDigits(Pad(s, width)) && Value(Pad(s, width)) == Value(s) && |Pad(s, width)| >= |s|
    decreases width - |s|
  {
    if |s| < width {
      LeadingZero(s);
      PadValue("0" + s, width);
    }
  }
}
