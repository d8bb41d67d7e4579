/**
 * String helpers with the meaning JavaScript gives them: `indexOf`,
 * `replace` with a string pattern, `split(sep).pop()`, `startsWith`,
 * decimal printing of a number, and ASCII case folding.
 */
module Text {
  import opened Wrappers

  predicate IsPrefix(p: string, s: string) {
    |p| <= |s| && s[..|p|] == p
  }

  predicate IsSuffix(p: string, s: string) {
    |p| <= |s| && s[|s| - |p|..] == p
  }

  /** A concatenation starts with its head and ends with its tail. */
  lemma ConcatEnds(head: string, tail: string)
    ensures IsPrefix(head, head + tail) && IsSuffix(tail, head + tail)
  {
    assert (head + tail)[..|head|] == head;
    assert (head + tail)[|head|..] == tail;
  }

  /** A prefix of a prefix is a prefix. */
  lemma PrefixOfPrefix(p: string, q: string, s: string)
    requires IsPrefix(p, q) && IsPrefix(q, s)
    ensures IsPrefix(p, s)
  {
    assert s[..|p|] == s[..|q|][..|p|];
  }

  lemma AppendAssoc(a: string, b: string, c: string)
    ensures a + (b + c) == a + b + c
  {
  }

  /** Appending keeps a prefix. */
  lemma PrefixExtends(p: string, s: string, t: string)
    requires IsPrefix(p, s)
    ensures IsPrefix(p, s + t)
  {
    assert (s + t)[..|p|] == s[..|p|];
  }

  /** The last three parts of a concatenation form a suffix of it. */
  lemma SuffixOfThree(w: string, u: string, v: string, z: string)
    ensures IsSuffix(u + v + z, w + u + v + z)
  {
    assert (w + u + v + z)[|w|..] == u + v + z;
  }

  /** `pat` occurs in `s` starting at index `i`. */
  predicate OccursAt(pat: string, s: string, i: nat) {
    i + |pat| <= |s| && s[i..i + |pat|] == pat
  }

  /** The first index at or after `from` where `pat` occurs. */
  function IndexFrom(s: string, pat: string, from: nat): (r: Option<nat>)
    requires from <= |s|
    ensures r.Some? ==> from <= r.value && OccursAt(pat, s, r.value)
    ensures r.Some? ==> forall k :: from <= k < r.value ==> !OccursAt(pat, s, k)
    ensures r.None? ==> forall k :: from <= k <= |s| ==> !OccursAt(pat, s, k)
    decreases |s| - from
  {
    if OccursAt(pat, s, from) then Some(from)
    else if from == |s| then None
    else IndexFrom(s, pat, from + 1)
  }

  /** JavaScript's `s.indexOf(pat)`, with `None` for -1. */
  function IndexOf(s: string, pat: string): Option<nat> {
    IndexFrom(s, pat, 0)
  }

  /** JavaScript's `s.includes(pat)`. */
  predicate Contains(s: string, pat: string) {
    IndexOf(s, pat).Some?
  }

  /** `includes` holds exactly when the pattern occurs somewhere. */
  lemma ContainsOccurs(s: string, pat: string)
    ensures Contains(s, pat) <==> exists i: nat :: OccursAt(pat, s, i)
  {
    if IndexOf(s, pat).None? {
      forall i: nat ensures !OccursAt(pat, s, i) {
        if i <= |s| {
          assert !OccursAt(pat, s, i);
        }
      }
    }
  }

  /** JavaScript's `s.replace(pat, rep)` for a string `pat`: only the first occurrence is replaced. */
  function ReplaceFirst(s: string, pat: string, rep: string): (r: string)
    ensures !Contains(s, pat) ==> r == s
    ensures Contains(s, pat) ==> var i := IndexOf(s, pat).value; r == s[..i] + rep + s[i + |pat|..]
  {
    match IndexOf(s, pat)
    case None => s
    case Some(i) => s[..i] + rep + s[i + |pat|..]
  }

  /** What is replaced is an occurrence of `pat`, no other occurrence comes before it, and the length changes accordingly. */
  lemma ReplaceFirstReplacesFirst(s: string, pat: string, rep: string)
    requires Contains(s, pat)
    ensures var i := IndexOf(s, pat).value;
      && OccursAt(pat, s, i)
      && (forall k: nat :: k < i ==> !OccursAt(pat, s, k))
      && s == s[..i] + pat + s[i + |pat|..]
      && ReplaceFirst(s, pat, rep) == s[..i] + rep + s[i + |pat|..]
      && |ReplaceFirst(s, pat, rep)| == |s| - |pat| + |rep|
  {
    var i := IndexOf(s, pat).value;
    SplitAround(s, i, i + |pat|);
  }

  lemma SplitAround(s: string, i: nat, j: nat)
    requires i <= j <= |s|
    ensures s == s[..i] + s[i..j] + s[j..]
  {
    assert s[..j] == s[..i] + s[i..j];
  }

  /** The index of the last `c` in `s`. */
  function LastIndexOf(s: string, c: char): (r: Option<nat>)
    ensures r.Some? ==> r.value < |s| && s[r.value] == c && c !in s[r.value + 1..]
    ensures r.None? ==> c !in s
  {
    if |s| == 0 then None
    else if s[|s| - 1] == c then Some(|s| - 1)
    else
      var r := LastIndexOf(s[..|s| - 1], c);
      assert r.Some? ==> s[r.value + 1..] == s[..|s| - 1][r.value + 1..] + [s[|s| - 1]];
      assert s == s[..|s| - 1] + [s[|s| - 1]];
      r
  }

  /**
   * JavaScript's `s.split(sep).pop()`: the text after the last `sep`,
   * or the whole of `s` when it holds no `sep`. It is the longest suffix
   * of `s` without a `sep`.
   */
  function LastSegment(s: string, sep: char): (r: string)
    ensures IsSuffix(r, s) && sep !in r
    ensures |r| < |s| ==> s[|s| - |r| - 1] == sep
  {
    match LastIndexOf(s, sep)
    case None => s
    case Some(k) => s[k + 1..]
  }

  /** When `e` holds no `.`, the last segment of `t + "." + e` is `e`, whatever `t` is. */
  lemma LastSegmentAfterLastDot(t: string, e: string)
    requires '.' !in e
    ensures LastSegment(t + "." + e, '.') == e
  {
    var s := t + "." + e;
    var k := LastIndexOf(s, '.');
    assert s[|t|] == '.';
    assert forall i :: |t| < i < |s| ==> s[i] == e[i - |t| - 1];
  }

  /** In `b + "." + rest` with no `.` in `b` and `rest` starting with `e`, the first `.` + `e` starts right after `b`. */
  lemma FirstOccurrenceAfterBase(b: string, e: string, rest: string)
    requires '.' !in b && IsPrefix(e, rest)
    ensures IndexOf(b + "." + rest, "." + e) == Some(|b|)
  {
    var s := b + "." + rest;
    assert rest[..|e|] == e;
    assert s[|b|..|b| + |"." + e|] == "." + rest[..|e|];
    assert OccursAt("." + e, s, |b|);
    forall k | 0 <= k < |b| ensures !OccursAt("." + e, s, k) {
      assert s[k] == b[k];
    }
  }

  // ----- decimal numbers -----

  predicate IsDigit(c: char) {
    '0' <= c <= '9'
  }

  predicate IsDigitString(s: string) {
    forall k :: 0 <= k < |s| ==> IsDigit(s[k])
  }

  function DigitChar(d: nat): (c: char)
    requires d < 10
    ensures IsDigit(c)
  {
    ('0' as int + d) as char
  }

  function DigitValue(c: char): nat
    requires IsDigit(c)
  {
    c as int - '0' as int
  }

  /** The number a string of decimal digits denotes (most significant digit first). */
  function DecimalValue(s: string): nat
    requires IsDigitString(s)
  {
    if s == [] then 0 else DecimalValue(s[..|s| - 1]) * 10 + DigitValue(s[|s| - 1])
  }

  /** `String(n)` for a non-negative integer: its shortest decimal spelling. */
  function NatToDecimal(n: nat): (r: string)
    ensures |r| >= 1 && IsDigitString(r)
    ensures r[0] == '0' ==> r == "0"
    ensures DecimalValue(r) == n
  {
    if n < 10 then [DigitChar(n)]
    else
      var r := NatToDecimal(n / 10) + [DigitChar(n % 10)];
      assert r[..|r| - 1] == NatToDecimal(n / 10);
      r
  }

  // ----- ASCII case -----

  function LowerChar(c: char): char {
    if 'A' <= c <= 'Z' then (c as int + 32) as char else c
  }

  function UpperChar(c: char): char {
    if 'a' <= c <= 'z' then (c as int - 32) as char else c
  }

  function Lower(s: string): (r: string)
    ensures |r| == |s| && forall k :: 0 <= k < |s| ==> r[k] == LowerChar(s[k])
  {
    seq(|s|, k requires 0 <= k < |s| => LowerChar(s[k]))
  }

  function Upper(s: string): (r: string)
    ensures |r| == |s| && forall k :: 0 <= k < |s| ==> r[k] == UpperChar(s[k])
  {
    seq(|s|, k requires 0 <= k < |s| => UpperChar(s[k]))
  }
}
