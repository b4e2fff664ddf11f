/** Non-negative integers as JavaScript numbers: IEEE 754 doubles, rounded to nearest, ties to even. */
module Doubles {

  /** Up to here every integer is a double. */
  const LIMIT := 0x20_0000_0000_0000

  /** The distance between neighbouring doubles around `n`, for integers. */
  function Ulp(n: nat): (u: nat)
    ensures u >= 1
  {
    if n < LIMIT then 1 else 2 * Ulp(n / 2)
  }

  /** The double nearest to `n`, ties to the even one. */
  function Round(n: nat): nat {
    var u := Ulp(n);
    var q, r := n / u, n % u;
    if 2 * r < u || (2 * r == u && q % 2 == 0) then q * u else (q + 1) * u
  }

  lemma RoundSmall(n: nat)
    requires n <= LIMIT
    ensures Round(n) == n
  {
    if n == LIMIT {
      assert Ulp(LIMIT / 2) == 1;
      assert Ulp(LIMIT) == 2;
    }
  }

  // ---------------------------------------------------------------- beyond the limit

  lemma DoubleUlp(m: nat)
    requires LIMIT <= m < 2 * LIMIT
    ensures Ulp(m) == 2
  {
    assert Ulp(m / 2) == 1;
  }

  /** Rounding a number `r` above a multiple of the spacing. */
  lemma RoundAtSpacing(n: nat, u: nat, q: nat, r: nat)
    requires u >= 1 && Ulp(n) == u && n / u == q && n % u == r
    ensures Round(n) == if 2 * r < u || (2 * r == u && q % 2 == 0) then n - r else n - r + u
  {
    hide Ulp;
    assert n == q * u + r && (q + 1) * u == q * u + u;
  }

  lemma NextQuotient(m: nat, u: nat)
    requires u >= 4 && m % u == 0
    ensures (m + 1) / u == m / u && (m + 1) % u == 1
  {
    var q := m / u;
    assert m == q * u;
    QuotientIs(m + 1, u, q, 1);
  }

  lemma QuotientIs(x: nat, u: nat, q: nat, r: nat)
    requires x == q * u + r && r < u
    ensures x / u == q && x % u == r
  {
    var d := x / u - q;
    assert x == (x / u) * u + x % u;
    assert d * u == r - x % u;
    Multiple(d, u);
  }

  lemma Multiple(d: int, u: nat)
    ensures d >= 1 ==> d * u >= u
    ensures d <= -1 ==> d * u <= -(u as int)
  {
  }

  lemma {:induction false} WideUlp(m: nat)
    requires m >= 2 * LIMIT
    ensures Ulp(m) >= 4 && Ulp(m) % 2 == 0
  {
    assert m / 2 >= LIMIT;
    assert Ulp(m / 2) == 2 * Ulp(m / 2 / 2);
  }

  /** Halving loses nothing of what decides the spacing. */
  lemma {:induction false} SameUlp(m: nat)
    requires m >= LIMIT && m % 2 == 0
    ensures Ulp(m + 1) == Ulp(m)
  {
    assert (m + 1) / 2 == m / 2;
  }

  lemma RoundedIsMultiple(m: nat)
    requires Round(m) == m
    ensures m % Ulp(m) == 0
    ensures Ulp(m) % 2 == 0 ==> m % 2 == 0
  {
    hide Ulp;
    var u := Ulp(m);
    var k := if m == (m / u) * u then m / u else m / u + 1;
    assert m == k * u;
    QuotientIs(m, u, k, 0);
    if u % 2 == 0 {
      EvenMultiple(k, u);
    }
  }

  lemma EvenMultiple(k: nat, u: nat)
    requires u % 2 == 0
    ensures k * u % 2 == 0
  {
    var h := u / 2;
    assert k * u == 2 * (k * h);
  }

  // ---------------------------------------------------------------- rounding twice is rounding once

  function PowerOfTwo(e: nat): (r: nat)
    ensures r >= 1
  {
    if e == 0 then 1 else 2 * PowerOfTwo(e - 1)
  }

  /** A number with 53 significant bits in front of `e` more has the spacing 2^e. */
  lemma {:induction false} UlpPower(q: nat, e: nat, r: nat)
    requires LIMIT / 2 <= q < LIMIT && r < PowerOfTwo(e)
    ensures Ulp(q * PowerOfTwo(e) + r) == PowerOfTwo(e)
    decreases e
  {
    if e > 0 {
      var half := PowerOfTwo(e - 1);
      var n := q * PowerOfTwo(e) + r;
      DoubledProduct(q, half);
      assert q * half >= q by { ProductAtLeast(q, half); }
      assert n / 2 == q * half + r / 2;
      UlpPower(q, e - 1, r / 2);
    }
  }

  lemma DoubledProduct(q: nat, half: nat)
    ensures q * (2 * half) == 2 * (q * half)
  {
  }

  lemma ProductAtLeast(q: nat, u: nat)
    requires u >= 1
    ensures q * u >= q
  {
    assert q * (u - 1) >= 0;
  }

  /** Every number from 2^53 on is of that shape. */
  lemma {:induction false} UlpShape(n: nat) returns (q: nat, e: nat, r: nat)
    requires n >= LIMIT
    ensures LIMIT / 2 <= q < LIMIT && r < PowerOfTwo(e) && n == q * PowerOfTwo(e) + r && Ulp(n) == PowerOfTwo(e)
  {
    if n / 2 < LIMIT {
      q, e, r := n / 2, 1, n % 2;
      assert PowerOfTwo(1) == 2 * PowerOfTwo(0) == 2;
    } else {
      var f, s;
      q, f, s := UlpShape(n / 2);
      e, r := f + 1, 2 * s + n % 2;
      DoubledProduct(q, PowerOfTwo(f));
    }
    UlpPower(q, e, r);
  }

  /** A multiple of the spacing is a double. */
  lemma MultipleIsDouble(q: nat, e: nat)
    requires LIMIT / 2 <= q <= LIMIT
    ensures Round(q * PowerOfTwo(e)) == q * PowerOfTwo(e)
  {
    hide Ulp, Round;
    if q < LIMIT {
      UlpPower(q, e, 0);
      QuotientIs(q * PowerOfTwo(e), PowerOfTwo(e), q, 0);
      RoundAtSpacing(q * PowerOfTwo(e), PowerOfTwo(e), q, 0);
    } else {
      UlpPower(LIMIT / 2, e + 1, 0);
      assert PowerOfTwo(e + 1) == 2 * PowerOfTwo(e);
      DoubledProduct(LIMIT / 2, PowerOfTwo(e));
      QuotientIs(LIMIT * PowerOfTwo(e), PowerOfTwo(e + 1), LIMIT / 2, 0);
      RoundAtSpacing(LIMIT * PowerOfTwo(e), PowerOfTwo(e + 1), LIMIT / 2, 0);
    }
  }

  lemma RoundIdempotent(n: nat)
    ensures Round(Round(n)) == Round(n)
  {
    hide Ulp, Round, PowerOfTwo;
    if n < LIMIT {
      RoundSmall(n);
    } else {
      var q, e, r := UlpShape(n);
      var u := PowerOfTwo(e);
      QuotientIs(n, u, q, r);
      RoundAtSpacing(n, u, q, r);
      MultipleIsDouble(q, e);
      MultipleIsDouble(q + 1, e);
      assert (q + 1) * u == q * u + u;
    }
  }
}
