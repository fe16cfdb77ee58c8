/**
 * The string operations of Python's `str` that the catalog pipeline relies on:
 * `lower`, the `in` substring test, `strip`, `str(n)` for a count,
 * `c * n` and `sep.join(parts)`.
 */
module Text {

  /** ASCII case folding; the paths and codes the pipeline compares are ASCII. */
  function LowerChar(c: char): char
  {
    if 'A' <= c <= 'Z' then (c as int + 32) as char else c
  }

  function Lower(s: string): string
  {
    seq(|s|, i requires 0 <= i < |s| => LowerChar(s[i]))
  }

  /** Lower-casing commutes with slicing. */
  lemma LowerSlice(s: string, i: nat, j: nat)
    requires i <= j <= |s|
    ensures Lower(s)[i..j] == Lower(s[i..j])
  {
  }

  lemma LowerConcat(a: string, b: string)
    ensures Lower(a + b) == Lower(a) + Lower(b)
  {
  }

  predicate StartsWith(s: string, prefix: string)
  {
    |prefix| <= |s| && s[..|prefix|] == prefix
  }

  /** `part in s`: `part` occurs in `s` as a contiguous piece (the empty string occurs everywhere). */
  predicate Contains(s: string, part: string)
    decreases |s|
  {
    StartsWith(s, part) || (|s| > 0 && Contains(s[1..], part))
  }

  /** Every slice of `s` occurs in `s`. */
  lemma {:induction false} ContainsSlice(s: string, i: nat, j: nat)
    requires i <= j <= |s|
    ensures Contains(s, s[i..j])
    decreases i
  {
    if i > 0 {
      assert s[1..][i - 1..j - 1] == s[i..j];
      ContainsSlice(s[1..], i - 1, j - 1);
    }
  }

  /** `part` stands in `s` at position `i`. */
  predicate OccursAt(s: string, part: string, i: nat)
  {
    i + |part| <= |s| && s[i..i + |part|] == part
  }

  /** `Contains` finds exactly the pieces that stand somewhere in `s`. */
  lemma {:induction false} ContainsHasPosition(s: string, part: string)
    requires Contains(s, part)
    ensures exists i: nat :: OccursAt(s, part, i)
    decreases |s|
  {
    if StartsWith(s, part) {
      assert OccursAt(s, part, 0);
    } else {
      ContainsHasPosition(s[1..], part);
      var i: nat :| OccursAt(s[1..], part, i);
      assert s[1..][i..i + |part|] == s[i + 1..i + 1 + |part|];
      assert OccursAt(s, part, i + 1);
    }
  }

  /** A piece of a piece of `a` is a piece of `a`. */
  lemma ContainsTransitive(a: string, b: string, c: string)
    requires Contains(a, b) && Contains(b, c)
    ensures Contains(a, c)
  {
    ContainsHasPosition(a, b);
    var i: nat :| OccursAt(a, b, i);
    ContainsHasPosition(b, c);
    var j: nat :| OccursAt(b, c, j);
    SliceOfSlice(a, i, i + |b|, j, j + |c|);
    ContainsSlice(a, i + j, i + j + |c|);
  }

  lemma SliceOfSlice(a: string, i: nat, k: nat, j: nat, l: nat)
    requires i <= k <= |a| && j <= l <= k - i
    ensures a[i..k][j..l] == a[i + j..i + l]
  {
    var x, y := a[i..k][j..l], a[i + j..i + l];
    forall n | 0 <= n < |x| ensures x[n] == y[n] {
      assert x[n] == a[i..k][j + n] == a[i + j + n];
    }
  }

  /** Lower-casing keeps every piece in place. */
  lemma LowerContains(a: string, b: string)
    requires Contains(a, b)
    ensures Contains(Lower(a), Lower(b))
  {
    ContainsHasPosition(a, b);
    var i: nat :| OccursAt(a, b, i);
    var j := i + |b|;
    assert a[i..j] == b;
    LowerSlice(a, i, j);
    ContainsSlice(Lower(a), i, j);
  }

  lemma LowerIdempotent(s: string)
    ensures Lower(Lower(s)) == Lower(s)
  {
  }

  /** Python's `str.isspace` for one character: the characters `str.strip()` removes. */
  predicate IsSpace(c: char)
  {
    var n := c as int;
    (9 <= n <= 13) || (28 <= n <= 32) || n == 0x85 || n == 0xA0 || n == 0x1680
    || (0x2000 <= n <= 0x200A) || n == 0x2028 || n == 0x2029 || n == 0x202F
    || n == 0x205F || n == 0x3000
  }

  /** The position of the first non-whitespace character of `s` at or after `i`, or `|s|`. */
  function StripFrom(s: string, i: nat): (k: nat)
    requires i <= |s|
    ensures i <= k <= |s|
    ensures forall p :: i <= p < k ==> IsSpace(s[p])
    ensures k == |s| || !IsSpace(s[k])
    decreases |s| - i
  {
    if i < |s| && IsSpace(s[i]) then StripFrom(s, i + 1) else i
  }

  /** The end of `s[lo..j]` once its trailing whitespace is dropped. */
  function StripTo(s: string, lo: nat, j: nat): (k: nat)
    requires lo <= j <= |s|
    ensures lo <= k <= j
    ensures forall p :: k <= p < j ==> IsSpace(s[p])
    ensures k == lo || !IsSpace(s[k - 1])
    decreases j
  {
    if j > lo && IsSpace(s[j - 1]) then StripTo(s, lo, j - 1) else j
  }

  /** `r` is `s[i..j]`, and everything of `s` before `i` and from `j` on is whitespace. */
  predicate TrimmedAt(s: string, r: string, i: nat, j: nat)
  {
    && i <= j <= |s|
    && r == s[i..j]
    && (forall k :: 0 <= k < i ==> IsSpace(s[k]))
    && (forall k :: j <= k < |s| ==> IsSpace(s[k]))
  }

  /**
   * `s.strip()`: the piece of `s` left after removing whitespace at both ends.
   * It is empty exactly when `s` is all whitespace.
   */
  function Strip(s: string): (r: string)
    ensures Contains(s, r)
    ensures r != [] ==> !IsSpace(r[0]) && !IsSpace(r[|r| - 1])
    ensures r == [] <==> forall k :: 0 <= k < |s| ==> IsSpace(s[k])
  {
    var i := StripFrom(s, 0);
    var j := StripTo(s, i, |s|);
    ContainsSlice(s, i, j);
    assert TrimmedAt(s, s[i..j], i, j);
    assert i < j ==> s[i..j][0] == s[i] && s[i..j][j - i - 1] == s[j - 1];
    s[i..j]
  }

  /** Stripping removes whitespace only, and all of it at either end. */
  lemma StripRemovesOnlyEdgeSpace(s: string)
    ensures exists i: nat, j: nat :: TrimmedAt(s, Strip(s), i, j)
  {
    var i := StripFrom(s, 0);
    var j := StripTo(s, i, |s|);
    assert TrimmedAt(s, Strip(s), i, j);
  }

  /** Stripping a stripped string changes nothing. */
  lemma StripIdempotent(s: string)
    ensures Strip(Strip(s)) == Strip(s)
  {
    var r := Strip(s);
    if r != [] {
      assert StripFrom(r, 0) == 0;
      assert StripTo(r, 0, |r|) == |r|;
      assert r[0..|r|] == r;
    }
  }

  function DigitChar(d: nat): char
    requires d < 10
  {
    ('0' as int + d) as char
  }

  /** `str(n)` for a non-negative integer: its decimal digits, without leading zeros. */
  function DecimalString(n: nat): (r: string)
    ensures |r| > 0
    ensures forall k :: 0 <= k < |r| ==> '0' <= r[k] <= '9'
    ensures |r| > 1 ==> r[0] != '0'
    decreases n
  {
    if n < 10 then [DigitChar(n)] else DecimalString(n / 10) + [DigitChar(n % 10)]
  }

  /** The value of a string of decimal digits. */
  function DecimalValue(s: string): nat
    requires forall k :: 0 <= k < |s| ==> '0' <= s[k] <= '9'
  {
    if s == [] then 0
    else DecimalValue(s[..|s| - 1]) * 10 + (s[|s| - 1] as int - '0' as int)
  }

  /** Reading back a rendered count gives the count. */
  lemma {:induction false} DecimalRoundTrip(n: nat)
    ensures DecimalValue(DecimalString(n)) == n
    decreases n
  {
    if n >= 10 {
      var r := DecimalString(n);
      assert r[..|r| - 1] == DecimalString(n / 10);
      DecimalRoundTrip(n / 10);
    }
  }

  /** `c * n` for a one-character string `c`. */
  function Repeat(c: char, n: nat): (r: string)
    ensures |r| == n
    ensures forall k :: 0 <= k < n ==> r[k] == c
  {
    seq(n, _ => c)
  }

  /** `sep.join(parts)`. */
  function Join(parts: seq<string>, sep: string): string
  {
    if parts == [] then ""
    else if |parts| == 1 then parts[0]
    else Join(parts[..|parts| - 1], sep) + sep + parts[|parts| - 1]
  }

  /** Joining splits at any part boundary: the text is the join of the head, the separator, and the join of the rest. */
  lemma {:induction false} JoinSplit(parts: seq<string>, sep: string, k: nat)
    requires 0 < k < |parts|
    ensures Join(parts, sep) == Join(parts[..k], sep) + sep + Join(parts[k..], sep)
    decreases |parts|
  {
    var n := |parts|;
    if k < n - 1 {
      var front := parts[..n - 1];
      JoinSplit(front, sep, k);
      assert front[..k] == parts[..k];
      assert front[k..] == parts[k..n - 1];
      assert parts[k..][..|parts[k..]| - 1] == parts[k..n - 1];
    } else {
      assert parts[k..] == [parts[n - 1]];
    }
  }
}
