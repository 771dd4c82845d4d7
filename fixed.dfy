/** The rendering `pi.toFixed(digits).replace('.', '')` at pi-worker.js:30:
    a non-negative number rounded half-up (decimal.js's default rounding
    mode) to `digits` places and written as its integer part followed by
    exactly `digits` fractional digits, without the point. */
module FixedPoint {

  function Pow10(n: nat): (r: nat)
    ensures r >= 1
  {
    if n == 0 then 1 else 10 * Pow10(n - 1)
  }

  predicate IsDigit(c: char) {
    '0' <= c <= '9'
  }

  predicate IsDigits(s: string) {
    forall i :: 0 <= i < |s| ==> IsDigit(s[i])
  }

  function DigitChar(k: nat): (c: char)
    requires k < 10
    ensures IsDigit(c) && c as int - '0' as int == k
  {
    ('0' as int + k) as char
  }

  /** The number a string of decimal digits denotes. */
  function DigitsValue(s: string): nat
    requires IsDigits(s)
  {
    if s == [] then 0
    else 10 * DigitsValue(s[..|s| - 1]) + (s[|s| - 1] as int - '0' as int)
  }

  lemma {:induction false} DigitsValueAppend(s: string, t: string)
    requires IsDigits(s) && IsDigits(t)
    ensures IsDigits(s + t)
    ensures DigitsValue(s + t) == DigitsValue(s) * Pow10(|t|) + DigitsValue(t)
    decreases |t|
  {
    if t != [] {
      var t' := t[..|t| - 1];
      assert (s + t)[..|s + t| - 1] == s + t';
      DigitsValueAppend(s, t');
      var a, b, c := DigitsValue(s), DigitsValue(t'), t[|t| - 1] as int - '0' as int;
      assert DigitsValue(s + t) == 10 * DigitsValue(s + t') + c;
      assert DigitsValue(t) == 10 * b + c;
      ShiftArith(a, b, c, Pow10(|t'|));
    } else {
      assert s + t == s;
    }
  }

  lemma ShiftArith(a: int, b: int, c: int, p: int)
    ensures 10 * (a * p + b) + c == a * (10 * p) + (10 * b + c)
  {
  }

  lemma MulAtLeast(k: int, a: int)
    requires k > 0 && a >= 1
    ensures k * a >= k
  {
    assert k * a == k * (a - 1) + k;
  }

  /** Quotient and remainder are determined by x == k * q + r, 0 <= r < k. */
  lemma DivModUnique(x: int, k: int, q: int, r: int)
    requires k > 0 && 0 <= r < k && x == k * q + r
    ensures x / k == q && x % k == r
  {
    var q', r' := x / k, x % k;
    assert x == k * q' + r';
    assert k * (q' - q) == r - r';
    if q' > q {
      MulAtLeast(k, q' - q);
    } else if q' < q {
      MulAtLeast(k, q - q');
    }
  }

  /** The last `k` decimal digits of `m`, with leading zeros: the string is
      exactly `k` digits long and, when `m` has at most `k` digits, denotes `m`. */
  function FixedDigits(m: nat, k: nat): (r: string)
    ensures |r| == k && IsDigits(r)
    ensures m < Pow10(k) ==> DigitsValue(r) == m
  {
    if k == 0 then []
    else
      var r := FixedDigits(m / 10, k - 1) + [DigitChar(m % 10)];
      assert r[..k - 1] == FixedDigits(m / 10, k - 1);
      r
  }

  /** The decimal numeral of `n`: at least one digit, no leading zero, and it
      denotes `n`. */
  function NatString(n: nat): (r: string)
    ensures |r| >= 1 && IsDigits(r) && DigitsValue(r) == n
    ensures |r| > 1 ==> r[0] != '0'
    ensures n < 10 ==> r == [DigitChar(n)]
  {
    if n < 10 then [DigitChar(n)]
    else
      var r := NatString(n / 10) + [DigitChar(n % 10)];
      assert r[..|r| - 1] == NatString(n / 10);
      r
  }

  /** `v` scaled by 10^d and rounded half-up to an integer. */
  function ScaledRound(v: real, d: nat): (n: nat)
    requires v >= 0.0
    ensures (n as real) <= v * (Pow10(d) as real) + 0.5 < (n as real) + 1.0
  {
    (v * (Pow10(d) as real) + 0.5).Floor
  }

  lemma DivModFacts(n: nat, p: nat)
    requires p >= 1
    ensures n == (n / p) * p + n % p && 0 <= n % p < p && 0 <= n / p
  {
  }

  /** The fixed-point numeral of n / 10^d with the point removed: the integer
      part, then exactly `d` fractional digits. Read as one numeral it denotes
      `n`, and it has no leading zero beyond the units digit. */
  function FixedString(n: nat, d: nat): (s: string)
    ensures IsDigits(s) && |s| >= d + 1
    ensures |s| > d + 1 ==> s[0] != '0'
    ensures DigitsValue(s) == n
  {
    var p := Pow10(d);
    DivModFacts(n, p);
    var head, tail := NatString(n / p), FixedDigits(n % p, d);
    SplitValue(n, p, head, tail);
    head + tail
  }

  /** Joining the numeral of n / p with a p-digit numeral of n % p gives a
      numeral of `n`. */
  lemma SplitValue(n: nat, p: nat, head: string, tail: string)
    requires p >= 1 && IsDigits(head) && IsDigits(tail)
    requires p == Pow10(|tail|)
    requires DigitsValue(head) == n / p && DigitsValue(tail) == n % p
    ensures IsDigits(head + tail) && DigitsValue(head + tail) == n
  {
    DivModFacts(n, p);
    DigitsValueAppend(head, tail);
  }

  /** `v.toFixed(d)` with the point removed: read as one numeral, the string is
      `v` rounded half-up to `d` places and scaled by 10^d. */
  function ToFixed(v: real, d: nat): (s: string)
    requires v >= 0.0
    ensures IsDigits(s) && |s| >= d + 1
    ensures |s| > d + 1 ==> s[0] != '0'
    ensures DigitsValue(s) == ScaledRound(v, d)
  {
    FixedString(ScaledRound(v, d), d)
  }

  lemma RealMulNonneg(a: real, b: real)
    requires a >= 0.0 && b >= 0.0
    ensures a * b >= 0.0
  {
  }

  lemma RealMulPos(a: real, b: real)
    requires a > 0.0 && b > 0.0
    ensures a * b > 0.0
  {
  }

  /** A value in [3, 3.5) renders as '3' followed by exactly `d` digits;
      from 3.5 on, rounding may carry into a leading '4'. */
  lemma ToFixedShape(v: real, d: nat)
    requires 3.0 <= v < 3.5
    ensures |ToFixed(v, d)| == d + 1 && ToFixed(v, d)[0] == '3'
  {
    var n, p := ScaledRound(v, d), Pow10(d);
    ShapeArith(v, p as real, v * (Pow10(d) as real), n as real);
    assert 3 * p <= n < 4 * p;
    DivModUnique(n, p, 3, n - 3 * p);
    assert NatString(n / p) == ['3'];
  }

  /** The rounding of a value in [3, 3.5) scaled by `pr` >= 1 lies in
      [3 pr, 4 pr). */
  lemma ShapeArith(v: real, pr: real, vp: real, nr: real)
    requires 3.0 <= v < 3.5 && pr >= 1.0 && vp == v * pr
    requires nr <= vp + 0.5 < nr + 1.0
    ensures 3.0 * pr < nr + 1.0 && nr < 4.0 * pr
  {
    assert 3.0 * pr <= vp by {
      assert vp - 3.0 * pr == (v - 3.0) * pr;
      RealMulNonneg(v - 3.0, pr);
    }
    assert vp < 3.5 * pr by {
      assert 3.5 * pr - vp == (3.5 - v) * pr;
      RealMulPos(3.5 - v, pr);
    }
  }

  lemma RealMulLe(a: real, b: real, p: real)
    requires a <= b && p >= 0.0
    ensures a * p <= b * p
  {
    RealMulNonneg(b - a, p);
    assert (b - a) * p == b * p - a * p;
  }

  /** Two values whose scaled difference is at least `gap` + 1 round to
      numerals more than `gap` apart. */
  lemma ScaledRoundGap(a: real, b: real, d: nat, gap: nat)
    requires 0.0 <= a && 0.0 <= b
    requires (b - a) * (Pow10(d) as real) >= (gap + 1) as real
    ensures ScaledRound(b, d) > ScaledRound(a, d) + gap
  {
    var p := Pow10(d) as real;
    assert (b - a) * p == b * p - a * p;
  }

  /** Two values whose scaled difference is at most 0.4 round to numerals at
      most one apart. */
  lemma ScaledRoundNear(a: real, b: real, d: nat)
    requires 0.0 <= a && 0.0 <= b
    requires -0.4 <= (b - a) * (Pow10(d) as real) <= 0.4
    ensures ScaledRound(b, d) <= ScaledRound(a, d) + 1 && ScaledRound(a, d) <= ScaledRound(b, d) + 1
  {
    var p := Pow10(d) as real;
    assert (b - a) * p == b * p - a * p;
  }
}
