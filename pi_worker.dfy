/** The worker's pi search (pi-worker.js): `computePi` evaluates Machin's
    formula with truncated arctan series and renders it as a digit string;
    `findInPi` searches that string chunk by chunk and posts progress
    messages at most once a minute. */
module PiWorker {
  import opened Text
  import opened Series
  import opened FixedPoint

  /** `chunkSize` in `findInPi`. */
  const ChunkSize: nat := 10000

  /** Milliseconds that must pass between two progress messages. */
  const ReportIntervalMs: int := 60000

  /** `Math.ceil(digits / 14) + 10`: the number of series terms. */
  function Terms(digits: nat): (t: nat)
    ensures t >= 10
    ensures 14 * (t - 10) >= digits > 14 * (t - 11)
  {
    (digits + 13) / 14 + 10
  }

  lemma TermsMonotone(d1: nat, d2: nat)
    requires d1 <= d2
    ensures Terms(d1) <= Terms(d2)
  {
  }

  /** The inner `arctan(x)` of `computePi`: `terms` steps that add or subtract
      xPow / (2n+1) and multiply xPow by x twice. */
  method Arctan(x: real, terms: nat) returns (sum: real)
    ensures sum == ArctanSeries(x, terms)
  {
    var xPow := x;
    sum := 0.0;
    for n := 0 to terms
      invariant xPow == Pow(x, 2 * n + 1)
      invariant sum == ArctanSeries(x, n)
    {
      var term := xPow / (2 * n + 1) as real;
      sum := if n % 2 == 0 then sum + term else sum - term;
      PowStep2(x, 2 * n + 1);
      xPow := xPow * x * x;
    }
  }

  /** What `computePi(digits)` returns: Machin's partial sum with
      `Terms(digits)` terms, rendered with `digits` places and the point
      removed. Index 0 holds the integer digit '3'. */
  function PiString(digits: nat): (s: string)
    ensures |s| == digits + 1 && s[0] == '3' && IsDigits(s)
  {
    var v := Machin(Terms(digits));
    MachinRange(Terms(digits));
    ToFixedShape(v, digits);
    ToFixed(v, digits)
  }

  /** Read as one numeral, the string is Machin's partial sum rounded half-up
      to `digits` places and scaled by 10^digits. */
  lemma PiStringValue(digits: nat)
    ensures Machin(Terms(digits)) > 3.14
    ensures DigitsValue(PiString(digits)) == ScaledRound(Machin(Terms(digits)), digits)
  {
    MachinRange(Terms(digits));
  }

  /** `computePi(digits)`: both arctangents with the same number of terms,
      combined by Machin's formula, rendered by `toFixed(digits)` without the
      point. */
  method ComputePi(digits: nat) returns (s: string)
    ensures s == PiString(digits)
    ensures |s| == digits + 1 && s[0] == '3'
  {
    var terms := Terms(digits);
    var atan5 := Arctan(1.0 / 5.0, terms);
    var atan239 := Arctan(1.0 / 239.0, terms);
    var pi := 4.0 * (4.0 * atan5 - atan239);
    MachinRange(terms);
    s := ToFixed(pi, digits);
  }

  /** The string searched for the chunk starting at `position`, for any
      digit-string source `piString`: `computePi(position + chunkSize +
      extra).slice(position)`. The source reads `extra` = 0; the window then
      also holds the first character of the next chunk. */
  function Window(piString: nat -> string, position: nat, extra: nat): string {
    Drop(piString(position + ChunkSize + extra), position)
  }

  predicate ChunkMatches(piString: nat -> string, target: string, extra: nat, c: nat) {
    IndexOf(Window(piString, c * ChunkSize, extra), target) >= 0
  }

  /** The number of leading chunks, out of the first `fuel`, whose window does
      not contain `target`. */
  function LeadingMisses(piString: nat -> string, target: string, extra: nat, fuel: nat): (k: nat)
    ensures k <= fuel
    ensures forall c :: 0 <= c < k ==> !ChunkMatches(piString, target, extra, c)
    ensures k < fuel ==> ChunkMatches(piString, target, extra, k)
  {
    if fuel == 0 then 0
    else
      var k := LeadingMisses(piString, target, extra, fuel - 1);
      if k < fuel - 1 || ChunkMatches(piString, target, extra, fuel - 1) then k else fuel
  }

  lemma LeadingMissesUnique(piString: nat -> string, target: string, extra: nat, fuel: nat, k: nat)
    requires k <= fuel
    requires forall c :: 0 <= c < k ==> !ChunkMatches(piString, target, extra, c)
    requires k < fuel ==> ChunkMatches(piString, target, extra, k)
    ensures LeadingMisses(piString, target, extra, fuel) == k
  {
  }

  /** A progress message `{ progress: { where, seconds } }`. */
  datatype Progress = Progress(where: nat, seconds: int)

  /** `Date.now()` is read through `clock`: `clock(0)` is `startTime`,
      `clock(1)` the first `lastReportTime`, and `clock(m + 1)` the reading
      after the m-th chunk without a match. `LastReport(clock, m)` is
      `lastReportTime` after `m` such chunks. */
  function LastReport(clock: nat -> int, misses: nat): int {
    if misses == 0 then clock(1)
    else
      var last, now := LastReport(clock, misses - 1), clock(misses + 1);
      if now - last >= ReportIntervalMs then now else last
  }

  /** The progress messages posted during the first `misses` chunks without
      a match: after the m-th, one carrying `where = m * chunkSize` and the
      whole seconds since `startTime`, when a minute has passed since the
      last one. */
  function Reports(clock: nat -> int, misses: nat): seq<Progress> {
    if misses == 0 then []
    else
      var now := clock(misses + 1);
      Reports(clock, misses - 1)
      + if now - LastReport(clock, misses - 1) >= ReportIntervalMs
        then [Progress(misses * ChunkSize, (now - clock(0)) / 1000)]
        else []
  }

  /** `findInPi(target)`, run for at most `maxChunks` chunks (the source loops
      until it finds a match). The result is `position + idx + 1` for the
      first chunk whose window contains `target`, where `idx` is the first
      index of `target` in that window, or None when none of the first
      `maxChunks` windows does; `reports` are the progress messages posted
      before that. */
  method FindInPi(target: string, piString: nat -> string, clock: nat -> int, maxChunks: nat)
    returns (result: Option<nat>, reports: seq<Progress>)
    ensures var k := LeadingMisses(piString, target, 0, maxChunks);
      && result == (if k < maxChunks
                    then Some(k * ChunkSize + IndexOf(Window(piString, k * ChunkSize, 0), target) + 1)
                    else None)
      && reports == Reports(clock, k)
  {
    var position := 0;
    var startTime := clock(0);
    var lastReportTime := clock(1);
    var chunks := 0;
    reports := [];
    while chunks < maxChunks
      invariant chunks <= maxChunks
      invariant position == chunks * ChunkSize
      invariant forall c :: 0 <= c < chunks ==> !ChunkMatches(piString, target, 0, c)
      invariant lastReportTime == LastReport(clock, chunks)
      invariant reports == Reports(clock, chunks)
    {
      var piDigits := Drop(piString(position + ChunkSize), position);
      assert piDigits == Window(piString, chunks * ChunkSize, 0);
      var idx := IndexOf(piDigits, target);
      if idx != -1 {
        LeadingMissesUnique(piString, target, 0, maxChunks, chunks);
        return Some(position + idx + 1), reports;
      }
      position := position + ChunkSize;
      chunks := chunks + 1;
      var now := clock(chunks + 1);
      if now - lastReportTime >= ReportIntervalMs {
        reports := reports + [Progress(position, (now - startTime) / 1000)];
        lastReportTime := now;
      }
    }
    LeadingMissesUnique(piString, target, 0, maxChunks, chunks);
    result := None;
  }

  /** A match in chunk `c` is an occurrence of `target` in the whole digit
      string at index `c * chunkSize + idx`, which is one less than the
      value `findInPi` returns. That string holds the integer digit at index
      0, so the returned value counts from the '3', not from the first digit
      after the point. */
  lemma ChunkMatchLocates(piString: nat -> string, target: string, c: nat)
    requires target != [] && ChunkMatches(piString, target, 0, c)
    ensures var idx := IndexOf(Window(piString, c * ChunkSize, 0), target);
      OccursAt(piString(c * ChunkSize + ChunkSize), target, c * ChunkSize + idx)
  {
    IndexOfFirst(Window(piString, c * ChunkSize, 0), target);
    OccursInDrop(piString(c * ChunkSize + ChunkSize), target, c * ChunkSize,
                 IndexOf(Window(piString, c * ChunkSize, 0), target));
  }

  // ---------------------------------------------------------------------
  // Occurrences across chunk boundaries
  // ---------------------------------------------------------------------

  /** A digit source in which "123" straddles the first chunk boundary: index
      9999 holds '1', 10000 '2' and 10001 '3', every other index '0'. */
  function StraddleDigit(i: nat): char {
    if i == 9999 then '1' else if i == 10000 then '2' else if i == 10001 then '3' else '0'
  }

  /** The strings that source yields: `digits` places after index 0. */
  function Straddle(digits: nat): string {
    Prefix(StraddleDigit, digits + 1)
  }

  /** "123" occurs in the digit string at index 9999, yet no chunk window
      contains it: the window of chunk 0 stops at index 10000 and the later
      ones start past the '1'. `findInPi("123")` therefore never returns. */
  lemma ChunkBoundaryMiss(fuel: nat)
    ensures OccursAt(Straddle(2 * ChunkSize), "123", 9999)
    ensures LeadingMisses(Straddle, "123", 0, fuel) == fuel
  {
    OccursInPrefix(StraddleDigit, "123", 2 * ChunkSize + 1, 9999);
    forall c | 0 <= c < fuel ensures !ChunkMatches(Straddle, "123", 0, c) {
      var w := Window(Straddle, c * ChunkSize, 0);
      var s := Straddle(c * ChunkSize + ChunkSize);
      assert w == s[c * ChunkSize..];
      forall q ensures !OccursAt(w, "123", q) {
        if 0 <= q && q + 3 <= |w| {
          if c > 0 {
            MulAtLeast(ChunkSize, c);
          }
          assert w[q] == StraddleDigit(c * ChunkSize + q) != '1';
          assert w[q..q + 3][0] == w[q];
        }
      }
      IndexOfFirst(w, "123");
    }
    LeadingMissesUnique(Straddle, "123", 0, fuel, fuel);
  }

  /** The extra reach that makes every occurrence that starts inside a chunk
      fit into that chunk's window. */
  function OverlapExtra(target: string): (extra: nat)
    ensures |target| <= extra + 2
  {
    if |target| >= 2 then |target| - 2 else 0
  }

  /** The digit strings of a fixed digit stream: `digits` places after index
      0, each a prefix of the longer ones. */
  function StreamStrings(digit: nat -> char): nat -> string {
    (digits: nat) => Prefix(digit, digits + 1)
  }

  /** In a window over a digit stream, an occurrence at index `j` is an
      occurrence in the stream at the window's start plus `j`. */
  lemma WindowOccurs(digit: nat -> char, target: string, extra: nat, position: nat, j: nat)
    ensures OccursAt(Window(StreamStrings(digit), position, extra), target, j)
      <==> j + |target| <= ChunkSize + extra + 1 && StreamOccursAt(digit, target, position + j)
  {
    var n := position + ChunkSize + extra + 1;
    var s := Prefix(digit, n);
    var w := Window(StreamStrings(digit), position, extra);
    assert w == s[position..];
    OccursInPrefix(digit, target, n, position + j);
    if j + |target| <= |w| {
      assert w[j..j + |target|] == s[position + j..position + j + |target|];
    }
  }

  /** When the window of the chunk `q` starts in does not contain `target`,
      no occurrence of `target` starts at `q`. */
  lemma MissedChunkHasNone(digit: nat -> char, target: string, q: nat)
    requires !ChunkMatches(StreamStrings(digit), target, OverlapExtra(target), q / ChunkSize)
    ensures !StreamOccursAt(digit, target, q)
  {
    var c, extra := q / ChunkSize, OverlapExtra(target);
    var j := q - c * ChunkSize;
    assert 0 <= j < ChunkSize;
    IndexOfFirst(Window(StreamStrings(digit), c * ChunkSize, extra), target);
    WindowOccurs(digit, target, extra, c * ChunkSize, j);
  }

  /** With the corrected reach, no occurrence starts before the first chunk
      whose window matches (or before the bound, when none of the first
      `fuel` does). */
  lemma MissedChunksHaveNone(digit: nat -> char, target: string, fuel: nat)
    ensures AbsentBefore(digit, target,
      LeadingMisses(StreamStrings(digit), target, OverlapExtra(target), fuel) * ChunkSize)
  {
    var k := LeadingMisses(StreamStrings(digit), target, OverlapExtra(target), fuel);
    forall q: nat | q < k * ChunkSize ensures !StreamOccursAt(digit, target, q) {
      assert q / ChunkSize < k;
      MissedChunkHasNone(digit, target, q);
    }
  }

  /** When no occurrence starts before `position`, the index found in the
      window at `position` gives the first occurrence in the stream. */
  lemma WindowFirst(digit: nat -> char, target: string, extra: nat, position: nat)
    requires AbsentBefore(digit, target, position)
    requires IndexOf(Window(StreamStrings(digit), position, extra), target) >= 0
    ensures FirstOccurrence(digit, target, position + IndexOf(Window(StreamStrings(digit), position, extra), target))
  {
    var w := Window(StreamStrings(digit), position, extra);
    var idx := IndexOf(w, target);
    IndexOfFirst(w, target);
    WindowOccurs(digit, target, extra, position, idx);
    forall q: nat | q < position + idx ensures !StreamOccursAt(digit, target, q) {
      if q >= position {
        WindowOccurs(digit, target, extra, position, q - position);
      }
    }
  }

  /** With the corrected reach, the index found in the first matching window
      is the first occurrence in the stream. */
  lemma MatchedChunkFirst(digit: nat -> char, target: string, fuel: nat)
    requires LeadingMisses(StreamStrings(digit), target, OverlapExtra(target), fuel) < fuel
    ensures var ps, extra := StreamStrings(digit), OverlapExtra(target);
      var k := LeadingMisses(ps, target, extra, fuel);
      FirstOccurrence(digit, target, k * ChunkSize + IndexOf(Window(ps, k * ChunkSize, extra), target))
  {
    var ps, extra := StreamStrings(digit), OverlapExtra(target);
    var k := LeadingMisses(ps, target, extra, fuel);
    MissedChunksHaveNone(digit, target, fuel);
    assert IndexOf(Window(ps, k * ChunkSize, extra), target) >= 0 by {
      assert ChunkMatches(ps, target, extra, k);
    }
    WindowFirst(digit, target, extra, k * ChunkSize);
  }

  /** With windows reaching `OverlapExtra(target)` characters further, the
      chunk search over a digit stream finds the first occurrence of `target`,
      and when no chunk out of the first `fuel` matches, no occurrence starts
      before `fuel * chunkSize`. */
  lemma OverlapFindsFirst(digit: nat -> char, target: string, fuel: nat)
    ensures var ps, extra := StreamStrings(digit), OverlapExtra(target);
      var k := LeadingMisses(ps, target, extra, fuel);
      && (k < fuel ==> FirstOccurrence(digit, target, k * ChunkSize + IndexOf(Window(ps, k * ChunkSize, extra), target)))
      && (k == fuel ==> AbsentBefore(digit, target, fuel * ChunkSize))
  {
    MissedChunksHaveNone(digit, target, fuel);
    if LeadingMisses(StreamStrings(digit), target, OverlapExtra(target), fuel) < fuel {
      MatchedChunkFirst(digit, target, fuel);
    }
  }

  lemma {:induction false} ReportsWhere(clock: nat -> int, misses: nat)
    ensures var r := Reports(clock, misses);
      && |r| <= misses
      && (forall j :: 0 <= j < |r| ==> 0 < r[j].where <= misses * ChunkSize && r[j].where % ChunkSize == 0)
      && (forall j :: 0 <= j < |r| - 1 ==> r[j].where < r[j + 1].where)
  {
    if misses > 0 {
      ReportsWhere(clock, misses - 1);
      var r0 := Reports(clock, misses - 1);
      var r := Reports(clock, misses);
      assert forall j :: 0 <= j < |r0| ==> r[j] == r0[j];
      if |r| > |r0| {
        assert r[|r0|].where == misses * ChunkSize;
      }
    }
  }

  /** What the timing of the reports keeps: `lastReportTime` is the clock
      reading of the last report (or the initial one), and each report's
      seconds are at least 60 more than the previous one's. */
  ghost predicate TimingInvariant(clock: nat -> int, misses: nat) {
    var r, last := Reports(clock, misses), LastReport(clock, misses);
    && (|r| == 0 ==> last == clock(1))
    && (|r| > 0 ==> r[|r| - 1].seconds == (last - clock(0)) / 1000)
    && (forall j :: 0 <= j < |r| - 1 ==> r[j + 1].seconds >= r[j].seconds + 60)
    && (clock(0) <= clock(1) && |r| > 0 ==> r[0].seconds >= 60)
  }

  lemma {:induction false} ReportsTiming(clock: nat -> int, misses: nat)
    ensures TimingInvariant(clock, misses)
  {
    if misses > 0 {
      ReportsTiming(clock, misses - 1);
      var r0, last0 := Reports(clock, misses - 1), LastReport(clock, misses - 1);
      var now := clock(misses + 1);
      if now - last0 >= ReportIntervalMs {
        var secs := (now - clock(0)) / 1000;
        var r := r0 + [Progress(misses * ChunkSize, secs)];
        assert Reports(clock, misses) == r;
        assert LastReport(clock, misses) == now;
        assert forall j :: 0 <= j < |r0| ==> r[j] == r0[j];
        if |r0| > 0 {
          assert secs >= (last0 - clock(0)) / 1000 + 60;
        } else {
          assert clock(0) <= clock(1) ==> secs >= 60;
        }
      } else {
        assert Reports(clock, misses) == r0;
        assert LastReport(clock, misses) == last0;
      }
    }
  }

  /** Progress messages are rate-limited and carry chunk positions: every
      `where` is a positive multiple of 10000 and they strictly increase;
      each message's `seconds` is at least 60 more than the previous one's,
      and, when the clock did not run backwards between the first two
      readings, the first message comes at 60 seconds or later. */
  lemma ReportsSpacing(clock: nat -> int, misses: nat)
    ensures var r := Reports(clock, misses);
      && |r| <= misses
      && (forall j :: 0 <= j < |r| ==> r[j].where > 0 && r[j].where % ChunkSize == 0)
      && (forall j :: 0 <= j < |r| - 1 ==> r[j].where < r[j + 1].where)
      && (forall j :: 0 <= j < |r| - 1 ==> r[j + 1].seconds >= r[j].seconds + 60)
      && (clock(0) <= clock(1) && |r| > 0 ==> r[0].seconds >= 60)
  {
    ReportsWhere(clock, misses);
    ReportsTiming(clock, misses);
  }

  // ---------------------------------------------------------------------
  // Accuracy of the number of terms
  // ---------------------------------------------------------------------

  lemma {:induction false} TenthPow(n: nat)
    ensures Pow(0.1, n) * (Pow10(n) as real) == 1.0
  {
    if n > 0 {
      TenthPow(n - 1);
      var a, b := Pow(0.1, n - 1), Pow10(n - 1) as real;
      assert Pow10(n) as real == 10.0 * b;
      assert Pow(0.1, n) * (Pow10(n) as real) == (0.1 * a) * (10.0 * b);
      assert (0.1 * a) * (10.0 * b) == a * b;
    }
  }

  /** Past `n` terms Machin's partial sums move away from the `n`-term sum by
      at least eleven times term `n` of arctan(1/5): up for even `n`, down for
      odd `n`. */
  lemma MachinGap(n: nat, m: nat)
    requires n < m
    ensures n % 2 == 0 ==> Machin(m) - Machin(n) >= 11.0 * Term(1.0 / 5.0, n)
    ensures n % 2 == 1 ==> Machin(n) - Machin(m) >= 11.0 * Term(1.0 / 5.0, n)
    ensures Abs(Machin(m) - Machin(n)) >= 11.0 * Term(1.0 / 5.0, n)
  {
    var f, g := 1.0 / 5.0, 1.0 / 239.0;
    ArctanTailBounds(f, n + 1, m);
    ArctanTailBounds(g, n, m);
    TermRatio(f, n);
    TermMono(f, g, n);
  }

  /** Term `n` of arctan(1/5) is at least 40 units of the `d`-th decimal
      place when 40 (2n + 1) <= 10^(d - 2n - 1). */
  lemma TermSize(n: nat, d: nat)
    requires 2 * n + 1 <= d && 40 * (2 * n + 1) <= Pow10(d - 2 * n - 1)
    ensures Term(1.0 / 5.0, n) >= 40.0 * Pow(0.1, d)
  {
    var e := 2 * n + 1;
    var pf, pe, r, q, pd := Pow(1.0 / 5.0, e), Pow(0.1, e), Pow(0.1, d - e), Pow10(d - e) as real, Pow(0.1, d);
    assert pe <= pf by {
      PowMono(1.0 / 5.0, 0.1, e);
    }
    assert pd == pe * r by {
      PowAdd(0.1, e, d - e);
    }
    assert r * q == 1.0 by {
      TenthPow(d - e);
    }
    assert pd >= 0.0 by {
      PowBounds(0.1, d);
    }
    assert 40.0 * (e as real) <= q;
    SizeArith(Term(1.0 / 5.0, n), pf, pe, e as real, r, q, pd);
  }

  lemma SizeArith(term: real, pf: real, pe: real, w: real, r: real, q: real, pd: real)
    requires w > 0.0 && term == pf / w && pe <= pf && r * q == 1.0 && pd == pe * r
    requires 40.0 * w <= q && pd >= 0.0
    ensures term >= 40.0 * pd
  {
    assert r > 0.0 by {
      if r <= 0.0 {
        RealMulLe(r, 0.0, q);
      }
    }
    assert pd * q == pe by {
      assert pd * q == pe * (r * q);
    }
    assert 40.0 * pd * w <= pd * q by {
      RealMulLe(40.0 * w, q, pd);
      assert 40.0 * w * pd == 40.0 * pd * w;
    }
    DivLe(40.0 * pd, w, pe);
    DivMono(pf, pe, w, w);
  }

  lemma DivLe(y: real, w: real, z: real)
    requires w > 0.0 && y * w <= z
    ensures y <= z / w
  {
    assert z / w - y == (z - y * w) / w;
  }

  /** Values at least (gap + 1) * 10^(-d) apart round to numerals more than
      `gap` apart, in one order or the other. */
  lemma ScaledRoundApart(a: real, b: real, d: nat, gap: nat)
    requires 0.0 <= a && 0.0 <= b
    requires Abs(b - a) >= (gap + 1) as real * Pow(0.1, d)
    ensures ScaledRound(b, d) > ScaledRound(a, d) + gap || ScaledRound(a, d) > ScaledRound(b, d) + gap
  {
    var p := Pow10(d) as real;
    TenthPow(d);
    PowBounds(0.1, d);
    RealMulLe((gap + 1) as real * Pow(0.1, d), Abs(b - a), p);
    assert (gap + 1) as real * Pow(0.1, d) * p == (gap + 1) as real * (Pow(0.1, d) * p);
    if b >= a {
      ScaledRoundGap(a, b, d, gap);
    } else {
      ScaledRoundGap(b, a, d, gap);
    }
  }

  /** When the first omitted term of arctan(1/5) is worth at least 40 units
      of the last place, as it is for `digits` = 28 (`TooFewTermsAt28`), every
      partial sum with more terms, and so pi itself, renders more than 400
      units of the last place away from what `computePi(digits)` returns. */
  lemma TooFewTerms(digits: nat, m: nat)
    requires m > Terms(digits)
    requires 2 * Terms(digits) + 1 <= digits
    requires 40 * (2 * Terms(digits) + 1) <= Pow10(digits - 2 * Terms(digits) - 1)
    ensures Machin(m) > 3.14
    ensures var exact, shown := ScaledRound(Machin(m), digits), DigitsValue(PiString(digits));
      exact > shown + 400 || shown > exact + 400
  {
    PiStringValue(digits);
    RenderedApart(Terms(digits), digits, m);
  }

  /** When term `t` of arctan(1/5) is worth at least 40 units of the `d`-th
      place, the partial sums with `t` and with `m` > `t` terms round to
      numerals more than 400 apart. */
  lemma RenderedApart(t: nat, d: nat, m: nat)
    requires 2 <= t < m && 2 * t + 1 <= d && 40 * (2 * t + 1) <= Pow10(d - 2 * t - 1)
    ensures Machin(m) > 3.14 && Machin(t) > 3.14
    ensures var exact, shown := ScaledRound(Machin(m), d), ScaledRound(Machin(t), d);
      exact > shown + 400 || shown > exact + 400
  {
    MachinRange(t);
    MachinRange(m);
    TooFewTermsGap(t, d, m);
    ScaledRoundApart(Machin(t), Machin(m), d, 400);
  }

  /** When term `t` of arctan(1/5) is worth at least 40 units of the `d`-th
      place, the partial sums with `t` and with `m` > `t` terms are at least
      401 units of that place apart. */
  lemma TooFewTermsGap(t: nat, d: nat, m: nat)
    requires t < m && 2 * t + 1 <= d && 40 * (2 * t + 1) <= Pow10(d - 2 * t - 1)
    ensures Abs(Machin(m) - Machin(t)) >= (400 + 1) as real * Pow(0.1, d)
  {
    var a, term, p := Abs(Machin(m) - Machin(t)), Term(1.0 / 5.0, t), Pow(0.1, d);
    assert a >= 11.0 * term by {
      MachinGap(t, m);
    }
    assert term >= 40.0 * p by {
      TermSize(t, d);
    }
    assert p >= 0.0 by {
      PowBounds(0.1, d);
    }
    GapArith(a, term, p);
  }

  lemma GapArith(a: real, t: real, p: real)
    requires a >= 11.0 * t && t >= 40.0 * p && p >= 0.0
    ensures a >= (400 + 1) as real * p
  {
    assert (400 + 1) as real == 401.0;
  }

  /** `digits` = 28 meets the conditions of `TooFewTerms`: 12 terms, and
      40 * 25 <= 10^3, so the 13th term, (1/5)^25 / 25, is worth at least
      40 units of the 28th place (in fact about 1.3 * 10^9). */
  lemma TooFewTermsAt28()
    ensures Terms(28) == 12
    ensures 2 * Terms(28) + 1 <= 28 && 40 * (2 * Terms(28) + 1) <= Pow10(28 - 2 * Terms(28) - 1)
  {
  }

  /** Enough terms for `digits` places: 3 * ceil((digits + 1) / 4). Three
      terms of arctan(1/5) shrink by 5^6 = 15625 > 10^4, so they buy four
      digits. */
  function AccurateTerms(digits: nat): (t: nat)
    ensures t % 3 == 0 && 4 * (t / 3) >= digits + 1
  {
    3 * ((digits + 4) / 4)
  }

  /** Term 3k of arctan(1/5) is at most 0.2 * 10^(-4k). */
  lemma TermByThrees(t: nat)
    requires t % 3 == 0
    ensures Term(1.0 / 5.0, t) <= 0.2 * Pow(0.1, 4 * (t / 3))
  {
    var f, k := 1.0 / 5.0, t / 3;
    assert Term(f, t) <= f * Pow(f, 2 * t) by {
      PowAdd(f, 1, 2 * t);
      assert Pow(f, 1) == f;
      PowBounds(f, 2 * t + 1);
      DivMono(Pow(f, 2 * t + 1), Pow(f, 2 * t + 1), 1.0, (2 * t + 1) as real);
    }
    assert Pow(f, 2 * t) <= Pow(0.1, 4 * k) by {
      PowMul(f, 6, k);
      assert Pow(f, 2 * t) == Pow(f, 6 * k);
      assert Pow(f, 6) == 1.0 / 15625.0;
      PowMono(0.0001, 1.0 / 15625.0, k);
      PowMul(0.1, 4, k);
      assert Pow(0.1, 4) == 0.0001;
    }
  }

  /** 10^(-j) is at most a tenth of 10^(-digits) once j > digits. */
  lemma TenthPowSmall(digits: nat, j: nat)
    requires j >= digits + 1
    ensures Pow(0.1, j) <= 0.1 * Pow(0.1, digits)
  {
    PowAdd(0.1, digits + 1, j - digits - 1);
    PowBounds(0.1, j - digits - 1);
    PowBounds(0.1, digits + 1);
    var a, r := Pow(0.1, digits + 1), Pow(0.1, j - digits - 1);
    RealMulLe(r, 1.0, a);
    assert Pow(0.1, digits + 1) == 0.1 * Pow(0.1, digits);
  }

  /** With `AccurateTerms(digits)` terms every longer partial sum, and so pi,
      stays within 0.4 * 10^(-digits) of the rendered sum: less than half a
      unit of the last place. */
  lemma AccurateTermsBound(digits: nat, m: nat)
    requires AccurateTerms(digits) <= m
    ensures Abs(Machin(m) - Machin(AccurateTerms(digits))) <= 0.4 * Pow(0.1, digits)
  {
    var t := AccurateTerms(digits);
    MachinTruncation(t, m);
    TermByThrees(t);
    TenthPowSmall(digits, 4 * (t / 3));
  }

  lemma NearArith(x: real, q: real, p: real)
    requires Abs(x) <= 0.4 * q && q * p == 1.0 && p >= 1.0
    ensures -0.4 <= x * p <= 0.4
  {
    if x >= 0.0 {
      RealMulLe(x, 0.4 * q, p);
    } else {
      RealMulLe(-x, 0.4 * q, p);
      assert (-x) * p == -(x * p);
    }
    assert 0.4 * q * p == 0.4 * (q * p);
  }

  /** A difference of at most 0.4 * 10^(-d) is at most 0.4 once scaled by
      10^d. */
  lemma ScaledNear(x: real, d: nat)
    requires Abs(x) <= 0.4 * Pow(0.1, d)
    ensures -0.4 <= x * (Pow10(d) as real) <= 0.4
  {
    TenthPow(d);
    NearArith(x, Pow(0.1, d), Pow10(d) as real);
  }

  /** Values at most 0.4 * 10^(-d) apart round to numerals at most one
      apart. */
  lemma RoundedNear(a: real, b: real, d: nat)
    requires 0.0 <= a && 0.0 <= b
    requires Abs(b - a) <= 0.4 * Pow(0.1, d)
    ensures ScaledRound(b, d) <= ScaledRound(a, d) + 1 && ScaledRound(a, d) <= ScaledRound(b, d) + 1
  {
    ScaledNear(b - a, d);
    ScaledRoundNear(a, b, d);
  }

  /** `computePi(digits)` with `AccurateTerms(digits)` terms. */
  function AccuratePiString(digits: nat): (s: string)
    ensures |s| == digits + 1 && s[0] == '3' && IsDigits(s)
  {
    var v := Machin(AccurateTerms(digits));
    MachinRange(AccurateTerms(digits));
    ToFixedShape(v, digits);
    ToFixed(v, digits)
  }

  /** With `AccurateTerms(digits)` terms the rendered string is within one
      unit of the last place of every longer partial sum, and so of pi
      rounded to `digits` places. */
  lemma AccurateRendering(digits: nat, m: nat)
    requires AccurateTerms(digits) <= m
    ensures Machin(m) > 3.14
    ensures var exact, shown := ScaledRound(Machin(m), digits), DigitsValue(AccuratePiString(digits));
      exact <= shown + 1 && shown <= exact + 1
  {
    var t := AccurateTerms(digits);
    var a, b := Machin(t), Machin(m);
    assert a > 3.14 && b > 3.14 by {
      MachinRange(m);
      MachinRange(t);
    }
    AccurateTermsBound(digits, m);
    RoundedNear(a, b, digits);
    assert DigitsValue(AccuratePiString(digits)) == ScaledRound(a, digits);
  }
}
