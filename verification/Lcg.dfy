/** The seeded generator of validate-context-management.ts: arithmetic, period, and the history it builds. */
module Lcg {
  import opened Text
  import Digits
  import opened Doubles

  const A := 1664525
  const C := 1013904223
  const M := 0x1_0000_0000

  type Word = s: int | 0 <= s < M witness 0

  /** `(state * 1664525 + 1013904223) >>> 0`, in doubles. */
  function DoubleStep(s: Word): Word {
    Round(Round(s * A) + C) % M
  }

  /** The same over the integers. */
  function Step(s: Word): Word {
    (s * A + C) % M
  }

  /** The state after `n` draws. */
  function Iterate(s: Word, n: nat): Word {
    if n == 0 then s else Step(Iterate(s, n - 1))
  }

  /** The product and the sum stay below 2^53, so neither is rounded and the step is the one over the integers. */
  lemma StepIsExact(s: Word)
    ensures s * A + C < LIMIT && DoubleStep(s) == Step(s)
  {
    hide Round;
    RoundSmall(s * A);
    RoundSmall(s * A + C);
  }

  // ---------------------------------------------------------------- the closed form

  function Power(b: nat, n: nat): nat {
    if n == 0 then 1 else b * Power(b, n - 1)
  }

  /** 1 + A + ... + A^(n-1) */
  function Series(n: nat): nat {
    if n == 0 then 0 else A * Series(n - 1) + 1
  }

  /** The generator without truncation. */
  function Free(s: int, n: nat): int {
    if n == 0 then s else Free(s, n - 1) * A + C
  }

  lemma ModStep(x: int, y: int)
    requires x % M == y % M
    ensures (x * A + C) % M == (y * A + C) % M
  {
    var q := x / M - y / M;
    assert x - y == q * M;
    assert (x * A + C) - (y * A + C) == (q * A) * M;
    ModShift(y * A + C, q * A);
  }

  lemma ModShift(x: int, k: int)
    ensures (x + k * M) % M == x % M
  {
  }

  lemma {:induction false} IterateIsFree(s: Word, n: nat)
    ensures Iterate(s, n) == Free(s, n) % M
  {
    if n > 0 {
      IterateIsFree(s, n - 1);
      ModStep(Iterate(s, n - 1), Free(s, n - 1));
    }
  }

  /** How far `n` draws move the state: the series, times an odd number. */
  lemma {:induction false} FreeClosed(s: int, n: nat)
    ensures Free(s, n) == s + Series(n) * ((A - 1) * s + C)
  {
    if n > 0 {
      FreeClosed(s, n - 1);
      FreeStep(s, Series(n - 1), (A - 1) * s + C);
    }
  }

  lemma FreeStep(s: int, z: int, d: int)
    requires d == (A - 1) * s + C
    ensures (s + z * d) * A + C == s + (A * z + 1) * d
  {
    var p := z * d;
    assert (A * z + 1) * d == A * p + d by {
      Associate(A, z, d);
    }
  }

  lemma Associate(a: int, z: int, d: int)
    ensures (a * z + 1) * d == a * (z * d) + d
  {
  }

  // ---------------------------------------------------------------- powers of two

  function Two(k: nat): (r: nat)
    ensures r >= 1
  {
    if k == 0 then 1 else 2 * Two(k - 1)
  }

  ghost predicate Divides(d: int, x: int) {
    exists q: int :: x == q * d
  }

  /** The series doubles like this. */
  lemma {:induction false} SeriesAdd(n: nat, m: nat)
    ensures Series(n + m) == Series(n) + Power(A, n) * Series(m)
  {
    if n == 0 {
    } else {
      SeriesAdd(n - 1, m);
      var p, t := Power(A, n - 1), Series(m);
      assert A * (p * t) == (A * p) * t;
    }
  }

  lemma {:induction false} PowerIsOneModFour(n: nat)
    ensures Power(A, n) % 4 == 1
  {
    if n > 0 {
      PowerIsOneModFour(n - 1);
      TimesA(Power(A, n - 1));
    }
  }

  lemma TimesA(p: int)
    requires p % 4 == 1
    ensures A * p % 4 == 1
  {
    var q := p / 4;
    assert p == 4 * q + 1;
    FourTimes(A * q + 416131, A * p);
  }

  lemma FourTimes(r: int, x: int)
    requires x == 4 * r + 1
    ensures x % 4 == 1
  {
  }

  lemma {:induction false} SeriesParity(n: nat)
    ensures Series(n) % 2 == n % 2
  {
    if n > 0 {
      SeriesParity(n - 1);
      var z := Series(n - 1);
      ParityStep(A * z, z, 832262 * z);
      ParityNext(A * z + 1, n, z);
    }
  }

  lemma ParityStep(x: int, z: int, h: int)
    requires x == 2 * h + z
    ensures x % 2 == z % 2
  {
  }

  lemma ParityNext(x: int, n: int, z: int)
    requires (x - 1) % 2 == z % 2 == (n - 1) % 2
    ensures x % 2 == n % 2
  {
  }

  /** An odd factor does not help a power of two to divide. */
  lemma {:induction false} OddFactor(k: nat, x: int, odd: int)
    requires odd % 2 == 1
    ensures Divides(Two(k), x * odd) <==> Divides(Two(k), x)
  {
    if Divides(Two(k), x) {
      var q :| x == q * Two(k);
      assert x * odd == (q * odd) * Two(k);
    }
    if Divides(Two(k), x * odd) {
      OddFactorDown(k, x, odd);
    }
  }

  lemma {:induction false} OddFactorDown(k: nat, x: int, odd: int)
    requires odd % 2 == 1 && Divides(Two(k), x * odd)
    ensures Divides(Two(k), x)
  {
    if k == 0 {
      assert x == x * Two(0);
    } else {
      var q :| x * odd == q * Two(k);
      var t := q * Two(k - 1);
      DoubleProduct(q, Two(k - 1));
      EvenFactor(x, odd, t);
      var y := x / 2;
      assert x == 2 * y;
      DoubleProduct(odd, y);
      assert y * odd == t;
      OddFactorDown(k - 1, y, odd);
      HalveDivision(k, y);
    }
  }

  lemma DoubleProduct(a: int, b: int)
    ensures a * (2 * b) == 2 * (a * b)
  {
  }

  lemma EvenFactor(x: int, odd: int, half: int)
    requires odd % 2 == 1 && x * odd == 2 * half
    ensures x % 2 == 0
  {
    var m := odd / 2;
    assert odd == 2 * m + 1;
    assert x == 2 * (half - x * m);
  }

  /** A power of two divides the series exactly when it divides the number of terms. */
  lemma {:induction false} SeriesDivisibility(k: nat, n: nat)
    ensures Divides(Two(k), Series(n)) <==> Divides(Two(k), n)
    decreases k
  {
    hide Series, Divides;
    if k == 0 {
      OneDivides(Series(n));
      OneDivides(n);
    } else if n % 2 == 1 {
      SeriesParity(n);
      OddNotDivided(k, Series(n));
      OddNotDivided(k, n);
    } else {
      var m := n / 2;
      var odd := SeriesDouble(m);
      HalveDivision(k, Series(m) * odd);
      HalveDivision(k, m);
      OddFactor(k - 1, Series(m), odd);
      SeriesDivisibility(k - 1, m);
    }
  }

  lemma SeriesDouble(m: nat) returns (odd: int)
    ensures odd % 2 == 1 && Series(2 * m) == 2 * (Series(m) * odd)
  {
    hide Series, Power;
    SeriesAdd(m, m);
    PowerIsOneModFour(m);
    var s, p := Series(m), Power(A, m);
    odd := (1 + p) / 2;
    assert p == 2 * odd - 1;
    TwiceOdd(s, odd);
  }

  lemma TwiceOdd(s: int, odd: int)
    ensures s + (2 * odd - 1) * s == 2 * (s * odd)
  {
  }

  lemma OneDivides(x: int)
    ensures Divides(Two(0), x)
  {
    assert x == x * Two(0);
  }

  lemma OddNotDivided(k: nat, x: int)
    requires k > 0 && x % 2 == 1
    ensures !Divides(Two(k), x)
  {
    if Divides(Two(k), x) {
      var q :| x == q * Two(k);
      DoubleProduct(q, Two(k - 1));
    }
  }

  lemma HalveDivision(k: nat, x: int)
    requires k > 0
    ensures Divides(Two(k), 2 * x) <==> Divides(Two(k - 1), x)
  {
    if Divides(Two(k), 2 * x) {
      var q :| 2 * x == q * Two(k);
      assert q * Two(k) == 2 * (q * Two(k - 1));
      assert x == q * Two(k - 1);
    }
    if Divides(Two(k - 1), x) {
      var q :| x == q * Two(k - 1);
      assert 2 * x == q * Two(k);
    }
  }

  lemma TwoIs32()
    ensures Two(32) == M
  {
    assert Two(8) == 256;
    assert Two(16) == 256 * 256 by { TwoAdd(8, 8); }
    TwoAdd(16, 16);
  }

  lemma {:induction false} TwoAdd(a: nat, b: nat)
    ensures Two(a + b) == Two(a) * Two(b)
  {
    if a > 0 {
      TwoAdd(a - 1, b);
    }
  }

  // ---------------------------------------------------------------- the period

  lemma DividesIsMod(x: int)
    ensures Divides(M, x) <==> x % M == 0
  {
    if Divides(M, x) {
      var q :| x == q * M;
      ModShift(0, q);
    }
    if x % M == 0 {
      assert x == (x / M) * M;
    }
  }

  /** How `n` draws look modulo 2^32. */
  lemma IterateClosed(s: Word, n: nat)
    ensures Iterate(s, n) == (s + Series(n) * ((A - 1) * s + C)) % M
  {
    IterateIsFree(s, n);
    FreeClosed(s, n);
  }

  lemma ReturnMeansDivides(s: Word, x: int)
    ensures (s + x) % M == s <==> Divides(M, x)
  {
    if Divides(M, x) {
      var q :| x == q * M;
      ModShift(s, q);
    }
    if (s + x) % M == s {
      assert x == ((s + x) / M) * M;
    }
  }

  /** The generator returns to a state after `n` draws exactly when `n` is a multiple of 2^32. */
  lemma FullPeriod(s: Word, n: nat)
    ensures Iterate(s, n) == s <==> n % M == 0
  {
    hide Iterate, Series, Two, Divides;
    var odd := (A - 1) * s + C;
    assert odd == 2 * (832262 * s + 506952111) + 1;
    IterateClosed(s, n);
    ReturnMeansDivides(s, Series(n) * odd);
    TwoIs32();
    OddFactor(32, Series(n), odd);
    SeriesDivisibility(32, n);
    DividesIsMod(n);
  }

  lemma {:induction false} IterateAdd(s: Word, n: nat, m: nat)
    ensures Iterate(s, n + m) == Iterate(Iterate(s, n), m)
  {
    if m > 0 {
      IterateAdd(s, n, m - 1);
    }
  }

  /** No state comes twice within one period. */
  lemma NoEarlyRepeat(s: Word, i: nat, j: nat)
    requires i < j < M
    ensures Iterate(s, i) != Iterate(s, j)
  {
    hide Iterate;
    IterateAdd(s, i, j - i);
    FullPeriod(Iterate(s, i), j - i);
  }

  /** The step has an inverse: draw 2^32 - 1 more times. */
  lemma StepIsPermutation(s: Word)
    ensures Step(Iterate(s, M - 1)) == s && Iterate(Step(s), M - 1) == s
  {
    FullPeriod(s, M);
    IterateAdd(s, 1, M - 1);
    assert Iterate(s, 1) == Step(s) by { assert Iterate(s, 0) == s; }
  }

  lemma StepIsInjective(s: Word, t: Word)
    requires Step(s) == Step(t)
    ensures s == t
  {
    StepIsPermutation(s);
    StepIsPermutation(t);
  }

  ghost predicate Reached(s: Word, n: nat, x: int) {
    exists i: nat :: i < n && Iterate(s, i) == x
  }

  function Visited(s: Word, n: nat): set<int> {
    if n == 0 then {} else Visited(s, n - 1) + {Iterate(s, n - 1)}
  }

  lemma {:induction false} VisitedMeans(s: Word, n: nat)
    ensures forall x :: x in Visited(s, n) ==> 0 <= x < M && Reached(s, n, x)
    ensures forall i: nat :: i < n ==> Iterate(s, i) in Visited(s, n)
  {
    hide Step;
    if n > 0 {
      VisitedMeans(s, n - 1);
      forall x | x in Visited(s, n)
        ensures 0 <= x < M && Reached(s, n, x)
      {
        if x in Visited(s, n - 1) {
          var i: nat :| i < n - 1 && Iterate(s, i) == x;
          assert i < n;
        } else {
          assert Iterate(s, n - 1) == x;
        }
      }
    }
  }

  lemma {:induction false} VisitedSize(s: Word, n: nat)
    requires n <= M
    ensures |Visited(s, n)| == n
  {
    hide Iterate;
    if n > 0 {
      VisitedSize(s, n - 1);
      VisitedMeans(s, n - 1);
      var last := Iterate(s, n - 1);
      if last in Visited(s, n - 1) {
        var i: nat :| i < n - 1 && Iterate(s, i) == last;
        NoEarlyRepeat(s, i, n - 1);
      }
    }
  }

  function Below(n: nat): set<int> {
    if n == 0 then {} else Below(n - 1) + {n - 1}
  }

  lemma {:induction false} BelowMeans(n: nat)
    ensures |Below(n)| == n && forall x :: x in Below(n) <==> 0 <= x < n
  {
    if n > 0 {
      BelowMeans(n - 1);
    }
  }

  lemma SubsetOfSameSize(a: set<int>, b: set<int>, x: int)
    requires a <= b && |a| == |b| && x in b
    ensures x in a
  {
    assert a + b == b && a * b == a && a - b == {};
    assert |b - a| == 0;
    assert x in a || x in b - a;
  }

  /** From any seed every one of the 2^32 states is reached within one period. */
  lemma EveryStateVisited(s: Word, t: Word, period: nat)
    requires period == M
    ensures Reached(s, period, t)
  {
    hide Iterate, Visited, Below;
    VisitedMeans(s, period);
    VisitedSize(s, period);
    BelowMeans(period);
    forall x | x in Visited(s, period)
      ensures x in Below(period)
    {
      assert 0 <= x < M;
    }
    SubsetOfSameSize(Visited(s, period), Below(period), t);
  }

  // ---------------------------------------------------------------- the program

  /** `random`: the closure over `state`. */
  class Random {
    var state: Word

    constructor (seed: Word)
      ensures state == seed
    {
      state := seed;
    }

    method Next() returns (r: real)
      modifies this
      ensures state == Step(old(state)) && r == Fraction(state) && 0.0 <= r < 1.0
    {
      FractionBounds(Step(state));
      StepIsExact(state);
      state := DoubleStep(state);
      r := state as real / M as real;
    }

    /** `Math.floor(random() * n)` */
    method Below(n: nat) returns (k: nat)
      modifies this
      ensures state == Step(old(state)) && k == Scaled(state, n)
      ensures 0 < n <= EXACT_BOUND ==> k == state * n / M && k < n
    {
      var r := Next();
      QuotientFloor(Round(state * n));
      if 0 < n <= EXACT_BOUND {
        ScaledBounds(state, n);
      }
      k := TimesDouble(state, n).Floor;
    }
  }

  function Fraction(s: Word): real {
    s as real / M as real
  }

  /** `random() * n` in doubles. Dividing by 2^32 rounds nothing, so the product is rounded as `s * n` is. */
  function TimesDouble(s: Word, n: nat): real {
    Round(s * n) as real / M as real
  }

  /** Its floor. */
  function Scaled(s: Word, n: nat): nat {
    Round(s * n) / M
  }

  lemma FractionBounds(s: Word)
    ensures 0.0 <= Fraction(s) < 1.0
  {
  }

  lemma QuotientFloor(y: nat)
    ensures (y as real / M as real).Floor == y / M
  {
    var q := y / M;
    assert q * M <= y < q * M + M;
    assert q as real <= y as real / M as real < q as real + 1.0;
  }

  /** Up to here a bound keeps the product below 2^53. */
  const EXACT_BOUND := 0x20_0000

  /** Scaling by such a bound rounds nothing, and all bounds of the script are such. */
  lemma ScaledIsExact(s: Word, n: nat)
    ensures n <= EXACT_BOUND ==> Round(s * n) == s * n && TimesDouble(s, n) == Fraction(s) * n as real
    ensures forall bound :: bound in [40, 800, 2000, 20, 300] ==> 0 < bound <= EXACT_BOUND
  {
    hide Round;
    if n <= EXACT_BOUND {
      ProductBound(s, n, M, EXACT_BOUND);
      RoundSmall(s * n);
      assert (s * n) as real == s as real * n as real;
    }
  }

  lemma ProductBound(x: nat, y: nat, a: nat, b: nat)
    requires x <= a && y <= b
    ensures x * y <= a * b
  {
    assert (a - x) * y >= 0 && a * (b - y) >= 0;
  }

  /** The scaled draw is the integer quotient `s * n / 2^32`, hence below `n`. */
  lemma ScaledBounds(s: Word, n: nat)
    requires 0 < n <= EXACT_BOUND
    ensures Scaled(s, n) == s * n / M && Scaled(s, n) < n
  {
    hide Round;
    ScaledIsExact(s, n);
    var y := s * n;
    ProductBound(s, n, M - 1, n);
    assert (M - 1) * n == M * n - n;
    assert y / M * M <= y;
  }

  datatype Role = System | User | Assistant
  datatype Message = Message(role: Role, content: string, timestamp: nat)

  function Repeat(c: char, n: nat): (r: string)
    ensures |r| == n && forall i :: 0 <= i < n ==> r[i] == c
  {
    seq(n, _ => c)
  }

  /** The message at place `k` of the history: its length comes from draw number `k + 1`. */
  function MessageAt(seed: Word, k: nat): Message {
    if k == 0 then Message(System, "policy", 0)
    else
      var size := 1 + Length(seed, k);
      if k % 2 == 1 then Message(User, "u-" + Digits.Decimal(k / 2) + " " + Repeat('x', size), k)
      else Message(Assistant, "a-" + Digits.Decimal(k / 2 - 1) + " " + Repeat('y', size), k)
  }

  function Length(seed: Word, k: nat): nat {
    ScaledBounds(Iterate(seed, k + 1), 800);
    Scaled(Iterate(seed, k + 1), 800)
  }

  function TurnCount(seed: Word): nat {
    ScaledBounds(Iterate(seed, 1), 40);
    2 + Scaled(Iterate(seed, 1), 40)
  }

  /** The history of one seed: the system message and 2 to 41 turns of user and assistant, time stamps
      0, 1, 2, ..., one fresh generator state for each message. */
  method BuildHistory(seed: Word) returns (history: seq<Message>, random: Random)
    ensures |history| == 1 + 2 * TurnCount(seed) && 2 <= TurnCount(seed) <= 41
    ensures forall k :: 0 <= k < |history| ==> history[k] == MessageAt(seed, k)
    ensures random.state == Iterate(seed, |history|)
  {
    hide Step, Scaled, MessageAt, Length, Digits.Decimal, Repeat;
    random := new Random(seed);
    IterateSnoc(seed, 0);
    var turns := random.Below(40);
    var turnCount := 2 + turns;
    history := [Message(System, "policy", 0)];
    SystemMessage(seed);
    for index := 0 to turnCount
      invariant |history| == 1 + 2 * index
      invariant forall k :: 0 <= k < |history| ==> history[k] == MessageAt(seed, k)
      invariant random.state == Iterate(seed, 1 + 2 * index)
    {
      var at := 1 + 2 * index;
      TurnMessages(seed, index);
      IterateSnoc(seed, at);
      var x := random.Below(800);
      history := history + [Message(User, "u-" + Digits.Decimal(index) + " " + Repeat('x', 1 + x), index * 2 + 1)];
      IterateSnoc(seed, at + 1);
      var y := random.Below(800);
      history := history + [Message(Assistant, "a-" + Digits.Decimal(index) + " " + Repeat('y', 1 + y), index * 2 + 2)];
    }
  }

  lemma SystemMessage(seed: Word)
    ensures MessageAt(seed, 0) == Message(System, "policy", 0)
  {
  }

  lemma TurnMessages(seed: Word, index: nat)
    ensures MessageAt(seed, 1 + 2 * index)
         == Message(User,
                    "u-" + Digits.Decimal(index) + " " + Repeat('x', 1 + Scaled(Iterate(seed, 2 + 2 * index), 800)),
                    index * 2 + 1)
    ensures MessageAt(seed, 2 + 2 * index)
         == Message(Assistant,
                    "a-" + Digits.Decimal(index) + " " + Repeat('y', 1 + Scaled(Iterate(seed, 3 + 2 * index), 800)),
                    index * 2 + 2)
  {
    hide Scaled, Iterate, Digits.Decimal;
    var user, assistant: nat := 1 + 2 * index, 2 + 2 * index;
    assert user / 2 == index && assistant / 2 - 1 == index;
    assert user + 1 == 2 + 2 * index && assistant + 1 == 3 + 2 * index;
  }

  lemma IterateSnoc(seed: Word, n: nat)
    ensures Iterate(seed, n + 1) == Step(Iterate(seed, n))
    ensures Iterate(seed, 0) == seed
  {
  }

  /** No two messages of a history draw their length from the same generator state. */
  lemma MessagesDrawFresh(seed: Word, j: nat, k: nat)
    requires j < k < 1 + 2 * TurnCount(seed)
    ensures Iterate(seed, j + 1) != Iterate(seed, k + 1)
  {
    hide Iterate;
    ScaledBounds(Iterate(seed, 1), 40);
    NoEarlyRepeat(seed, j + 1, k + 1);
  }
}
