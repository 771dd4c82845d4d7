/** Exact-rational view of the arctangent series and Machin's formula that
    `computePi` evaluates (pi-worker.js:11-29). Where the worker uses
    decimal.js numbers, this module uses Dafny's exact `real`. */
module Series {

  function Pow(x: real, n: nat): real {
    if n == 0 then 1.0 else x * Pow(x, n - 1)
  }

  /** The magnitude of the `n`-th term of the arctan series:
      x^(2n+1) / (2n+1). */
  function Term(x: real, n: nat): real {
    Pow(x, 2 * n + 1) / (2 * n + 1) as real
  }

  /** The alternating partial sum of the first `n` terms:
      sum over k < n of (-1)^k x^(2k+1) / (2k+1). */
  function ArctanSeries(x: real, n: nat): real {
    if n == 0 then 0.0
    else if (n - 1) % 2 == 0 then ArctanSeries(x, n - 1) + Term(x, n - 1)
    else ArctanSeries(x, n - 1) - Term(x, n - 1)
  }

  /** Machin's formula, pi = 4 (4 arctan(1/5) - arctan(1/239)), with both
      arctangents cut off after the same number of terms. */
  function Machin(terms: nat): real {
    4.0 * (4.0 * ArctanSeries(1.0 / 5.0, terms) - ArctanSeries(1.0 / 239.0, terms))
  }

  function Abs(r: real): real {
    if r < 0.0 then -r else r
  }

  lemma {:induction false} PowBounds(x: real, n: nat)
    requires 0.0 <= x <= 1.0
    ensures 0.0 <= Pow(x, n) <= 1.0
  {
    if n > 0 {
      PowBounds(x, n - 1);
      assert x * Pow(x, n - 1) <= 1.0 * Pow(x, n - 1);
    }
  }

  lemma PowStep2(x: real, n: nat)
    ensures Pow(x, n + 2) == x * x * Pow(x, n)
  {
    calc {
      Pow(x, n + 2);
      x * Pow(x, n + 1);
      x * (x * Pow(x, n));
    }
  }

  lemma DivMono(p: real, q: real, a: real, b: real)
    requires 0.0 <= q <= p
    requires 0.0 < a <= b
    ensures 0.0 <= q / b <= p / a
  {
    assert q / b <= p / b by {
      assert (p - q) / b >= 0.0;
    }
    assert p / b <= p / a by {
      assert p / a - p / b == p * (b - a) / (a * b);
    }
  }

  lemma TermNonneg(x: real, n: nat)
    requires 0.0 <= x <= 1.0
    ensures 0.0 <= Term(x, n)
  {
    PowBounds(x, 2 * n + 1);
    DivMono(Pow(x, 2 * n + 1), Pow(x, 2 * n + 1), (2 * n + 1) as real, (2 * n + 1) as real);
  }

  /** For 0 <= x <= 1 the terms of the series are non-negative and shrink. */
  lemma TermDecreasing(x: real, n: nat)
    requires 0.0 <= x <= 1.0
    ensures 0.0 <= Term(x, n + 1) <= Term(x, n)
  {
    var p := Pow(x, 2 * n + 1);
    assert 0.0 <= p <= 1.0 by {
      PowBounds(x, 2 * n + 1);
    }
    assert Pow(x, 2 * (n + 1) + 1) == x * x * p by {
      PowStep2(x, 2 * n + 1);
    }
    assert 0.0 <= x * x * p <= p by {
      SquareShrinks(x, p);
    }
    DivMono(p, x * x * p, (2 * n + 1) as real, (2 * n + 3) as real);
  }

  lemma SquareShrinks(x: real, p: real)
    requires 0.0 <= x <= 1.0 && 0.0 <= p
    ensures 0.0 <= x * x * p <= p
  {
    assert x * x <= 1.0 by {
      assert x * x <= x * 1.0;
    }
    assert (x * x) * p <= 1.0 * p;
  }

  /** The invariant behind the alternating-series bound, from term `n` on: every
      later partial sum stays between the partial sum at `n` and that sum moved
      by term `n` towards the limit, and the next step cannot leave that
      interval. */
  ghost predicate TailInvariant(x: real, n: nat, m: nat) {
    var lo := if n % 2 == 0 then ArctanSeries(x, n) else ArctanSeries(x, n) - Term(x, n);
    var hi := if n % 2 == 0 then ArctanSeries(x, n) + Term(x, n) else ArctanSeries(x, n);
    && lo <= ArctanSeries(x, m) <= hi
    && (m % 2 == 0 ==> ArctanSeries(x, m) + Term(x, m) <= hi)
    && (m % 2 == 1 ==> lo <= ArctanSeries(x, m) - Term(x, m))
  }

  lemma {:induction false} Tail(x: real, n: nat, m: nat)
    requires 0.0 <= x <= 1.0
    requires n <= m
    ensures TailInvariant(x, n, m)
    decreases m - n
  {
    if m == n {
      TailStart(x, n);
    } else {
      Tail(x, n, m - 1);
      TailNext(x, n, m);
    }
  }

  lemma TailStart(x: real, n: nat)
    requires 0.0 <= x <= 1.0
    ensures TailInvariant(x, n, n)
  {
    TermNonneg(x, n);
    TailBase(ArctanSeries(x, n), Term(x, n), n % 2 == 0);
  }

  lemma TailNext(x: real, n: nat, m: nat)
    requires 0.0 <= x <= 1.0
    requires n < m && TailInvariant(x, n, m - 1)
    ensures TailInvariant(x, n, m)
  {
    var a, t, t2 := ArctanSeries(x, m - 1), Term(x, m - 1), Term(x, m);
    assert 0.0 <= t2 <= t by {
      TermDecreasing(x, m - 1);
    }
    var lo := if n % 2 == 0 then ArctanSeries(x, n) else ArctanSeries(x, n) - Term(x, n);
    var hi := if n % 2 == 0 then ArctanSeries(x, n) + Term(x, n) else ArctanSeries(x, n);
    assert ((m - 1) % 2 == 0) == (m % 2 == 1) && (m % 2 == 0 || m % 2 == 1) by {
      Parity(m);
    }
    TailStep(lo, hi, a, t, t2, ArctanSeries(x, m), (m - 1) % 2 == 0);
  }

  lemma Parity(m: nat)
    requires m > 0
    ensures ((m - 1) % 2 == 0) == (m % 2 == 1) && (m % 2 == 0 || m % 2 == 1)
  {
    var k := (m - 1) / 2;
    assert m - 1 == 2 * k + (m - 1) % 2;
  }

  /** The interval [lo, hi] of term `n` holds the `n`-term sum, and the
      sum moved by term `n` lands on its far end. */
  lemma TailBase(a: real, t: real, even: bool)
    requires 0.0 <= t
    ensures var lo, hi := (if even then a else a - t), (if even then a + t else a);
      && lo <= a <= hi
      && (even ==> a + t <= hi)
      && (!even ==> lo <= a - t)
  {
  }

  /** One step of the alternating sum: moving by the current term towards
      the far side of [lo, hi] stays inside it, and the next, smaller term
      cannot leave it either. */
  lemma TailStep(lo: real, hi: real, a: real, t: real, t2: real, b: real, even: bool)
    requires lo <= a <= hi && 0.0 <= t2 <= t
    requires even ==> a + t <= hi
    requires !even ==> lo <= a - t
    requires b == if even then a + t else a - t
    ensures lo <= b <= hi
    ensures even ==> lo <= b - t2
    ensures !even ==> b + t2 <= hi
  {
  }

  /** Alternating-series bounds: for 0 <= x <= 1, every partial sum with at
      least `n` terms lies on the far side of the `n`-term sum, within the
      first omitted term. */
  lemma ArctanTailBounds(x: real, n: nat, m: nat)
    requires 0.0 <= x <= 1.0
    requires n <= m
    ensures n % 2 == 0 ==> ArctanSeries(x, n) <= ArctanSeries(x, m) <= ArctanSeries(x, n) + Term(x, n)
    ensures n % 2 == 1 ==> ArctanSeries(x, n) - Term(x, n) <= ArctanSeries(x, m) <= ArctanSeries(x, n)
  {
    Tail(x, n, m);
  }

  /** Truncation error: adding more terms moves the partial sum by at most the
      first term left out. */
  lemma ArctanTruncation(x: real, n: nat, m: nat)
    requires 0.0 <= x <= 1.0
    requires n <= m
    ensures Abs(ArctanSeries(x, m) - ArctanSeries(x, n)) <= Term(x, n)
  {
    Tail(x, n, m);
  }

  /** With at least two terms, Machin's partial sum lies in (3.14, 3.142): its
      integer part is 3 whatever the number of terms. */
  lemma MachinRange(terms: nat)
    requires terms >= 2
    ensures 3.14 < Machin(terms) < 3.142
  {
    var f, g := 1.0 / 5.0, 1.0 / 239.0;
    ArctanTailBounds(f, 2, terms);
    ArctanTailBounds(g, 1, terms);
    assert Pow(f, 3) == 1.0 / 125.0;
    assert Pow(f, 5) == 1.0 / 3125.0;
    assert Pow(g, 3) == 1.0 / 13651919.0;
    assert ArctanSeries(f, 2) == 1.0 / 5.0 - 1.0 / 375.0;
    assert Term(f, 2) == 1.0 / 15625.0;
    assert ArctanSeries(g, 1) == 1.0 / 239.0;
    assert Term(g, 1) == 1.0 / 40955757.0;
  }

  lemma {:induction false} PowAdd(x: real, a: nat, b: nat)
    ensures Pow(x, a + b) == Pow(x, a) * Pow(x, b)
    decreases a
  {
    if a > 0 {
      PowAdd(x, a - 1, b);
      assert Pow(x, a + b) == x * Pow(x, a - 1 + b);
    }
  }

  lemma {:induction false} PowMul(x: real, a: nat, k: nat)
    ensures Pow(x, a * k) == Pow(Pow(x, a), k)
    decreases k
  {
    if k > 0 {
      PowMul(x, a, k - 1);
      assert a * k == a + a * (k - 1);
      PowAdd(x, a, a * (k - 1));
    }
  }

  lemma {:induction false} PowMono(x: real, y: real, n: nat)
    requires 0.0 <= y <= x
    ensures 0.0 <= Pow(y, n) <= Pow(x, n)
  {
    if n > 0 {
      PowMono(x, y, n - 1);
      var py, px := Pow(y, n - 1), Pow(x, n - 1);
      assert y * py <= x * py by {
        assert x * py - y * py == (x - y) * py;
      }
      assert x * py <= x * px by {
        assert x * px - x * py == x * (px - py);
      }
      assert 0.0 <= y * py;
    }
  }

  /** A smaller argument gives a smaller term. */
  lemma TermMono(x: real, y: real, n: nat)
    requires 0.0 <= y <= x
    ensures 0.0 <= Term(y, n) <= Term(x, n)
  {
    PowMono(x, y, 2 * n + 1);
    var d := (2 * n + 1) as real;
    assert Term(x, n) - Term(y, n) == (Pow(x, 2 * n + 1) - Pow(y, 2 * n + 1)) / d;
  }

  /** Two Machin partial sums differ by at most twenty times the first term
      of arctan(1/5) that the shorter one leaves out. */
  lemma MachinTruncation(n: nat, m: nat)
    requires n <= m
    ensures Abs(Machin(m) - Machin(n)) <= 20.0 * Term(1.0 / 5.0, n)
  {
    var f, g := 1.0 / 5.0, 1.0 / 239.0;
    ArctanTruncation(f, n, m);
    ArctanTruncation(g, n, m);
    TermMono(f, g, n);
    var a := ArctanSeries(f, m) - ArctanSeries(f, n);
    var b := ArctanSeries(g, m) - ArctanSeries(g, n);
    assert Machin(m) - Machin(n) == 16.0 * a - 4.0 * b;
  }

  lemma MulDiv(c: real, a: real, u: real)
    requires u > 0.0
    ensures c * (a / u) == (c * a) / u
  {
  }

  /** Consecutive terms shrink at least by the factor x^2. */
  lemma TermRatio(x: real, n: nat)
    requires 0.0 <= x <= 1.0
    ensures Term(x, n + 1) <= x * x * Term(x, n)
  {
    var a, c := Pow(x, 2 * n + 1), x * x;
    var u, v := (2 * n + 1) as real, (2 * n + 3) as real;
    PowStep2(x, 2 * n + 1);
    PowBounds(x, 2 * n + 1);
    assert 0.0 <= c * a;
    DivMono(c * a, c * a, u, v);
    MulDiv(c, a, u);
  }
}
