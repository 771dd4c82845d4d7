/** The JavaScript string operations the plugin and the worker rely on:
    `String.prototype.trim`, the regular-expression class `\s`,
    `split(/\s+/)[0]`, `indexOf` and `slice`. JavaScript strings are
    sequences of UTF-16 code units; here they are sequences of `char`, a
    Unicode scalar value, so a lone surrogate has no counterpart and a
    character outside the Basic Multilingual Plane is one element, not two. */
module Text {

  datatype Option<+T> = None | Some(value: T)

  /** The characters JavaScript counts as white space or line terminators:
      what `trim` removes and what `\s` matches. */
  predicate IsSpace(c: char) {
    var n := c as int;
    (9 <= n <= 13) || n == 32 || n == 0xA0 || n == 0x1680 || (0x2000 <= n <= 0x200A)
    || n == 0x2028 || n == 0x2029 || n == 0x202F || n == 0x205F || n == 0x3000 || n == 0xFEFF
  }

  /** The characters the regular-expression `.` does not match (no `s` flag). */
  predicate IsLineTerminator(c: char) {
    c == '\n' || c == '\r' || c as int == 0x2028 || c as int == 0x2029
  }

  predicate NoSpace(s: string) {
    forall i :: 0 <= i < |s| ==> !IsSpace(s[i])
  }

  predicate AllSpace(s: string) {
    forall i :: 0 <= i < |s| ==> IsSpace(s[i])
  }

  /** Removes leading white space: the result is the suffix of `s` that starts
      at the first non-space character. */
  function TrimStart(s: string): (r: string)
    ensures |r| <= |s| && r == s[|s| - |r|..]
    ensures AllSpace(s[..|s| - |r|])
    ensures r == [] || !IsSpace(r[0])
  {
    if |s| > 0 && IsSpace(s[0]) then
      var r := TrimStart(s[1..]);
      assert s[1..][|s| - 1 - |r|..] == s[|s| - |r|..];
      r
    else s
  }

  /** Removes trailing white space: the result is the prefix of `s` that ends
      at the last non-space character. */
  function TrimEnd(s: string): (r: string)
    ensures |r| <= |s| && r == s[..|r|]
    ensures AllSpace(s[|r|..])
    ensures r == [] || !IsSpace(r[|r| - 1])
  {
    if |s| > 0 && IsSpace(s[|s| - 1]) then
      var r := TrimEnd(s[..|s| - 1]);
      assert forall i :: |r| <= i < |s| - 1 ==> s[i] == s[..|s| - 1][i];
      r
    else s
  }

  /** `r` is a contiguous part of `s` with only white space before and after
      it. */
  ghost predicate TrimmedFrom(s: string, r: string) {
    exists k :: 0 <= k <= |s| - |r| && r == s[k..k + |r|] && AllSpace(s[..k]) && AllSpace(s[k + |r|..])
  }

  /** `s.trim()`: the contiguous middle part of `s` left after removing white
      space at both ends. */
  function Trim(s: string): (r: string)
    ensures TrimmedFrom(s, r)
    ensures r == [] || (!IsSpace(r[0]) && !IsSpace(r[|r| - 1]))
  {
    var t := TrimStart(s);
    var r := TrimEnd(t);
    TrimParts(s, t, r);
    r
  }

  /** Removing trailing space from the result of removing leading space leaves
      a middle part of `s`, with white space only on both sides of it. */
  lemma TrimParts(s: string, t: string, r: string)
    requires |t| <= |s| && t == s[|s| - |t|..] && AllSpace(s[..|s| - |t|])
    requires |r| <= |t| && r == t[..|r|] && AllSpace(t[|r|..])
    ensures TrimmedFrom(s, r)
    ensures r != [] ==> r[0] == t[0]
  {
    var k := |s| - |t|;
    assert s[k + |r|..] == t[|r|..];
    assert r == s[k..k + |r|];
  }

  /** `s.split(/\s+/)[0]`: the characters before the first white space. */
  function FirstField(s: string): (r: string)
    ensures |r| <= |s| && r == s[..|r|] && NoSpace(r)
    ensures |r| == |s| || IsSpace(s[|r|])
  {
    if s == [] || IsSpace(s[0]) then []
    else
      var r := FirstField(s[1..]);
      assert [s[0]] + r == s[..1 + |r|];
      [s[0]] + r
  }

  predicate StartsWith(s: string, prefix: string) {
    |prefix| <= |s| && s[..|prefix|] == prefix
  }

  /** `t` occurs in `s` starting at index `q`. */
  predicate OccursAt(s: string, t: string, q: int) {
    0 <= q && q + |t| <= |s| && s[q..q + |t|] == t
  }

  function IndexFrom(s: string, t: string, from: nat): (r: int)
    requires from <= |s| + 1
    ensures r == -1 || from <= r
    decreases |s| + 1 - from
  {
    if from + |t| > |s| then -1
    else if s[from..from + |t|] == t then from
    else IndexFrom(s, t, from + 1)
  }

  /** The search from `from` stops at the first occurrence at or after
      `from`, and gives -1 exactly when there is none. */
  lemma {:induction false} IndexFromFirst(s: string, t: string, from: nat)
    requires from <= |s| + 1
    ensures var r := IndexFrom(s, t, from);
      && (r >= 0 ==> OccursAt(s, t, r) && forall q :: from <= q < r ==> !OccursAt(s, t, q))
      && (r == -1 <==> forall q :: from <= q ==> !OccursAt(s, t, q))
    decreases |s| + 1 - from
  {
    if from + |t| <= |s| && s[from..from + |t|] != t {
      IndexFromFirst(s, t, from + 1);
    }
  }

  /** `s.indexOf(t)`: the first index at which `t` occurs in `s`, or -1 when it
      occurs nowhere (the empty string occurs at 0). */
  function IndexOf(s: string, t: string): (r: int)
    ensures -1 <= r
  {
    IndexFrom(s, t, 0)
  }

  lemma IndexOfFirst(s: string, t: string)
    ensures var r := IndexOf(s, t);
      && (r >= 0 ==> OccursAt(s, t, r) && forall q :: 0 <= q < r ==> !OccursAt(s, t, q))
      && (r == -1 <==> forall q :: !OccursAt(s, t, q))
  {
    IndexFromFirst(s, t, 0);
  }

  /** `s.slice(k)` for a non-negative `k`: empty once `k` passes the end. */
  function Drop(s: string, k: nat): string
  {
    if k <= |s| then s[k..] else []
  }

  /** An occurrence found in a slice is an occurrence in the whole string, at
      the index shifted by where the slice starts. */
  lemma OccursInDrop(s: string, t: string, k: nat, q: int)
    requires OccursAt(Drop(s, k), t, q)
    requires t != []
    ensures OccursAt(s, t, k + q)
  {
    assert k <= |s|;
    assert s[k..][q..q + |t|] == s[k + q..k + q + |t|];
  }

  /** The first `n` characters the digit source produces. */
  function Prefix(digit: nat -> char, n: nat): (s: string)
    ensures |s| == n && forall k :: 0 <= k < n ==> s[k] == digit(k)
  {
    if n == 0 then [] else Prefix(digit, n - 1) + [digit(n - 1)]
  }

  /** `target` occurs in the digit stream starting at index `q`. */
  predicate StreamOccursAt(digit: nat -> char, target: string, q: nat) {
    forall k :: 0 <= k < |target| ==> digit(q + k) == target[k]
  }

  /** No occurrence of `target` starts in the stream before index `n`. */
  ghost predicate AbsentBefore(digit: nat -> char, target: string, n: nat) {
    forall q: nat :: q < n ==> !StreamOccursAt(digit, target, q)
  }

  /** `p` is the index of the first occurrence of `target` in the stream. */
  ghost predicate FirstOccurrence(digit: nat -> char, target: string, p: nat) {
    StreamOccursAt(digit, target, p) && AbsentBefore(digit, target, p)
  }

  lemma OccursInPrefix(digit: nat -> char, target: string, n: nat, q: nat)
    ensures OccursAt(Prefix(digit, n), target, q) <==> q + |target| <= n && StreamOccursAt(digit, target, q)
  {
    var s := Prefix(digit, n);
    if q + |target| <= n {
      if StreamOccursAt(digit, target, q) {
        assert s[q..q + |target|] == target;
      }
      if s[q..q + |target|] == target {
        forall k | 0 <= k < |target| ensures digit(q + k) == target[k] {
          assert s[q..q + |target|][k] == s[q + k];
        }
      }
    }
  }
}
