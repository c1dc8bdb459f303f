/** Durations in JSON: nanoseconds are written as a double number of seconds,
    and read back by multiplying and cutting off the fraction. */
module Seconds {
  const BILLION: nat := 1_000_000_000

  /** 2^52. Up to it, about 52 days, every number of nanoseconds is a double. */
  const TOP: nat := 0x10_0000_0000_0000

  function Pow2(k: nat): (p: nat)
    ensures p > 0
  {
    if k == 0 then 1 else 2 * Pow2(k - 1)
  }

  /** n / d, rounded to the nearest integer and halves to the even one. */
  function Rounded(n: nat, d: nat): nat
    requires d > 0
  {
    var q, r := n / d, n % d;
    if 2 * r < d || (2 * r == d && q % 2 == 0) then q else q + 1
  }

  /** How often n / d, if below 2^53, is doubled until it has 53 binary digits. */
  function Shift(n: nat, d: nat): nat
    requires n > 0 && d > 0
    decreases d * TOP - n
  {
    if n >= d * TOP then 0 else 1 + Shift(2 * n, d)
  }

  /** The fraction m / 2^k. */
  datatype Double = Double(m: nat, k: nat)

  /** The double nearest to n / d. */
  function Nearest(n: nat, d: nat): Double
    requires n > 0 && d > 0
  {
    var k := Shift(n, d);
    Double(Rounded(n * Pow2(k), d), k)
  }

  /** What a reader gets for a duration of `ns` nanoseconds. */
  function ReadBack(ns: nat): nat
    requires ns < TOP
  {
    if ns == 0 then 0
    else
      var seconds := Nearest(ns, BILLION);
      NearestIsPositive(ns, BILLION);
      var product := Nearest(seconds.m * BILLION, Pow2(seconds.k));
      product.m / Pow2(product.k)
  }

  lemma RoundedFacts(n: nat, d: nat)
    requires d > 0
    ensures n - d <= 2 * n - d <= 2 * (Rounded(n, d) * d) <= 2 * n + d
    ensures n >= d ==> Rounded(n, d) > 0
  {
    assert n == n / d * d + n % d;
  }

  lemma {:induction false} ShiftFacts(n: nat, d: nat)
    requires n > 0 && d > 0
    ensures n * Pow2(Shift(n, d)) >= d * TOP
    decreases d * TOP - n
  {
    if n < d * TOP {
      ShiftFacts(2 * n, d);
      assert Shift(n, d) == 1 + Shift(2 * n, d);
      assert Pow2(Shift(n, d)) == 2 * Pow2(Shift(2 * n, d));
    }
  }

  lemma NearestIsPositive(n: nat, d: nat)
    requires n > 0 && d > 0
    ensures Nearest(n, d).m > 0
  {
    ShiftFacts(n, d);
    RoundedFacts(n * Pow2(Shift(n, d)), d);
  }

  lemma {:induction false} ShiftIs(n: nat, d: nat, k: nat)
    requires n > 0 && d > 0 && d * TOP <= n * Pow2(k) < 2 * d * TOP
    ensures Shift(n, d) == k
    decreases k
  {
    if k > 0 {
      var p := Pow2(k - 1);
      assert Pow2(k) == 2 * p && n * Pow2(k) == 2 * n * p;
      assert n <= n * p < d * TOP;
      ShiftIs(2 * n, d, k - 1);
    }
  }

  lemma Scaled(a: int, b: int, d: nat)
    requires d > 0 && a < b
    ensures a * d + d <= b * d
  {
    var c: nat := b - a - 1;
    Distribute(a + 1, c, d);
    Distribute(a, 1, d);
    ProductNotNegative(c, d);
    assert b == a + 1 + c;
  }

  lemma Distribute(a: int, b: int, d: int)
    ensures (a + b) * d == a * d + b * d
  {}

  lemma ProductNotNegative(a: nat, b: nat)
    ensures a * b >= 0
  {}

  lemma Less(a: int, b: int, d: nat)
    requires a * d < b * d
    ensures a < b
  {
    if b < a { Scaled(b, a, d); }
  }

  lemma QuotientIs(n: nat, d: nat, q: nat)
    requires d > 0 && q * d <= n < q * d + d
    ensures n / d == q
  {
    var a := n / d;
    assert n == a * d + n % d;
    if a < q { Scaled(a, q, d); } else if a > q { Scaled(q, a, d); }
  }

  lemma RoundedExact(n: nat, d: nat, q: nat)
    requires d > 0 && n == q * d
    ensures Rounded(n, d) == q
  {
    QuotientIs(n, d, q);
  }

  /** Reading back loses at most one nanosecond. */
  lemma ReadBackLosesAtMostOne(ns: nat)
    requires ns < TOP
    ensures ns - 1 <= ReadBack(ns) <= ns
  {
    if ns > 0 {
      var seconds := Nearest(ns, BILLION);
      var m, p := seconds.m, Pow2(seconds.k);
      ShiftFacts(ns, BILLION);
      RoundedFacts(ns * p, BILLION);
      BigPower(ns, p);
      var product := Nearest(m * BILLION, p);
      var q := Pow2(product.k);
      RoundedFacts(m * BILLION * q, p);
      CloseBelow(ns, m * BILLION, p, product.m, q);
    }
  }

  lemma BigPower(ns: nat, p: nat)
    requires ns < TOP && ns * p >= BILLION * TOP
    ensures p > BILLION
  {
    if p <= BILLION { Times(ns, TOP, p, BILLION); }
  }

  lemma Times(a: nat, b: nat, p: nat, q: nat)
    requires a < b && p <= q && q > 0
    ensures a * p < b * q
  {
    Scaled(a, b, q);
    assert a * (q - p) >= 0;
  }

  lemma Linear(a: int, x: int, b: int, y: int, q: int)
    ensures (a * x + b * y) * q == a * (x * q) + b * (y * q)
  {
    assert (a * x + b * y) * q == a * x * q + b * y * q;
    assert a * x * q == a * (x * q) && b * y * q == b * (y * q);
  }

  lemma Swapped(a: int, p: int, q: int)
    ensures a * p * q == a * q * p && p * q == q * p
  {
    assert a * (p * q) == a * p * q && a * (q * p) == a * q * p;
  }

  // `x` is within 1/2 of ns * p, and `y` within 1/2 of x * q / p.
  lemma CloseBelow(ns: nat, x: nat, p: nat, y: nat, q: nat)
    requires ns > 0 && p > BILLION && q > 0
    requires 2 * (ns * p) - BILLION <= 2 * x <= 2 * (ns * p) + BILLION
    requires 2 * (x * q) - p <= 2 * (y * p) <= 2 * (x * q) + p
    ensures ns - 1 <= y / q <= ns
  {
    var u := ns * q;
    Close(ns * p, x, p, q);
    Swapped(ns, p, q);
    Quotient(ns, u, y, p, q);
  }

  lemma Quotient(ns: nat, u: nat, y: nat, p: nat, q: nat)
    requires ns > 0 && p > 0 && q > 0 && u == ns * q
    requires 2 * (u * p) - q * p - p < 2 * (y * p) < 2 * (u * p) + q * p + p
    ensures ns - 1 <= y / q <= ns
  {
    Linear(1, 2 * u - q, -1, 1, p);
    Linear(1, 2 * u + q, 1, 1, p);
    Linear(2, u, -1, q, p);
    Linear(2, u, 1, q, p);
    assert 2 * y * p == 2 * (y * p);
    Less(2 * u - q - 1, 2 * y, p);
    Less(2 * y, 2 * u + q + 1, p);
    assert (ns + 1) * q == u + q && (ns - 1) * q == u - q;
    if y < u { QuotientIs(y, q, ns - 1); } else { QuotientIs(y, q, ns); }
  }

  lemma Close(z: nat, x: nat, p: nat, q: nat)
    requires p > BILLION && q > 0 && 2 * z - BILLION <= 2 * x <= 2 * z + BILLION
    ensures 2 * (z * q) - p * q < 2 * (x * q) < 2 * (z * q) + p * q
  {
    Linear(2, z, 1, p, q);
    Linear(2, z, -1, p, q);
    Scaled(2 * x, 2 * z + p, q);
    Scaled(2 * z - p, 2 * x, q);
    assert 2 * x * q == 2 * (x * q);
  }

  /** Whole seconds come back exactly. */
  lemma WholeSecondsSurvive(s: nat)
    requires s * BILLION < TOP
    ensures ReadBack(s * BILLION) == s * BILLION
  {
    var ns := s * BILLION;
    if s > 0 {
      var p := Pow2(Shift(ns, BILLION));
      RoundedExact(ns * p, BILLION, s * p);
      SecondsRead(ns, s * p, p);
    }
  }

  lemma SecondsRead(ns: nat, m: nat, p: nat)
    requires p > 0 && ns > 0 && m * BILLION == ns * p
    ensures m * BILLION > 0
    ensures var double := Nearest(m * BILLION, p); double.m / Pow2(double.k) == ns
  {
    Times(0, ns, p, p);
    var q := Pow2(Shift(m * BILLION, p));
    assert m * BILLION * q == ns * q * p by { assert ns * p * q == ns * q * p; }
    RoundedExact(m * BILLION * q, p, ns * q);
    QuotientIs(ns * q, q, ns);
  }

  lemma PowerFacts()
    ensures Pow2(23) == 0x80_0000 && Pow2(52) == TOP
  {
    assert Pow2(8) == 256;
    assert Pow2(16) == 0x1_0000;
    assert Pow2(24) == 0x100_0000;
    assert Pow2(32) == 0x1_0000_0000;
    assert Pow2(40) == 0x100_0000_0000;
    assert Pow2(48) == 0x1_0000_0000_0000;
  }

  /** 1.001 seconds do not. */
  lemma OnePointOhOhOne()
    ensures ReadBack(1_001_000_000) == 1_000_999_999
  {
    PowerFacts();
    ShiftIs(1_001_000_000, BILLION, 52);
    var m := Rounded(1_001_000_000 * TOP, BILLION);
    ShiftIs(m * BILLION, TOP, 23);
  }
}
