/**
 * `PathExtractor` (backend/extraction.py): find every leftmost, greedy,
 * non-overlapping match of the byte pattern `Assets/[-_a-zA-Z0-9./]+` in a
 * decrypted catalog buffer, decode each match, and collect the distinct paths.
 */
module Extraction {
  import opened Wrappers
  import opened Text

  newtype byte = x: int | 0 <= x < 256

  /** The bytes of `Assets/`. */
  const AssetsPrefix: seq<byte> := [0x41, 0x73, 0x73, 0x65, 0x74, 0x73, 0x2F]

  /** The same prefix as text. */
  const AssetsPrefixText: string := "Assets/"

  /** The pattern's character class `[-_a-zA-Z0-9./]`, on bytes. */
  predicate InPathClass(b: byte)
  {
    b == 0x2D || b == 0x5F || (0x61 <= b <= 0x7A) || (0x41 <= b <= 0x5A)
    || (0x30 <= b <= 0x39) || b == 0x2E || b == 0x2F
  }

  /** The same class, on decoded characters. */
  predicate InPathClassChar(c: char)
  {
    c == '-' || c == '_' || ('a' <= c <= 'z') || ('A' <= c <= 'Z')
    || ('0' <= c <= '9') || c == '.' || c == '/'
  }

  /** The pattern can start at `i`: the seven prefix bytes, then at least one class byte. */
  predicate MatchStartsAt(buf: seq<byte>, i: nat)
  {
    i + 7 < |buf| && buf[i..i + 7] == AssetsPrefix && InPathClass(buf[i + 7])
  }

  /** Where the greedy `[...]+` run that may begin at `j` ends: the first non-class byte, or the end. */
  function RunEnd(buf: seq<byte>, j: nat): (k: nat)
    requires j <= |buf|
    ensures j <= k <= |buf|
    ensures forall p :: j <= p < k ==> InPathClass(buf[p])
    ensures k == |buf| || !InPathClass(buf[k])
    decreases |buf| - j
  {
    if j < |buf| && InPathClass(buf[j]) then RunEnd(buf, j + 1) else j
  }

  /** The bytes `buf[start..end]` of one match. */
  datatype Span = Span(start: nat, end: nat)

  /** `sp` is a complete match: prefix, one or more class bytes, and no class byte right after it. */
  predicate IsMatch(buf: seq<byte>, sp: Span)
  {
    && sp.start + 8 <= sp.end <= |buf|
    && buf[sp.start..sp.start + 7] == AssetsPrefix
    && (forall p :: sp.start + 7 <= p < sp.end ==> InPathClass(buf[p]))
    && (sp.end == |buf| || !InPathClass(buf[sp.end]))
  }

  predicate NoMatchBetween(buf: seq<byte>, lo: nat, hi: nat)
  {
    forall p :: lo <= p < hi ==> !MatchStartsAt(buf, p)
  }

  /**
   * What `findall` promises from position `from` on: the spans are complete
   * matches in increasing, non-overlapping order, and no match could start
   * before the first, between two of them, or after the last.
   */
  predicate LeftmostGreedy(buf: seq<byte>, from: nat, spans: seq<Span>)
  {
    && (forall k :: 0 <= k < |spans| ==> IsMatch(buf, spans[k]))
    && (spans == [] ==> NoMatchBetween(buf, from, |buf|))
    && (spans != [] ==>
          && from <= spans[0].start
          && NoMatchBetween(buf, from, spans[0].start)
          && NoMatchBetween(buf, spans[|spans| - 1].end, |buf|))
    && (forall k :: 0 <= k < |spans| - 1 ==>
          spans[k].end <= spans[k + 1].start && NoMatchBetween(buf, spans[k].end, spans[k + 1].start))
  }

  /** The scan of the compiled pattern over `buf` from `from` on. */
  function Scan(buf: seq<byte>, from: nat): (spans: seq<Span>)
    requires from <= |buf|
    ensures forall k :: 0 <= k < |spans| ==> from <= spans[k].start <= spans[k].end <= |buf|
    decreases |buf| - from
  {
    if from == |buf| then []
    else if MatchStartsAt(buf, from) then
      var e := RunEnd(buf, from + 8);
      [Span(from, e)] + Scan(buf, e)
    else
      Scan(buf, from + 1)
  }

  /** A match at `from` followed by a leftmost-greedy scan from its end is a leftmost-greedy scan from `from`. */
  lemma LeftmostGreedyCons(buf: seq<byte>, from: nat, rest: seq<Span>)
    requires MatchStartsAt(buf, from)
    requires LeftmostGreedy(buf, RunEnd(buf, from + 8), rest)
    ensures LeftmostGreedy(buf, from, [Span(from, RunEnd(buf, from + 8))] + rest)
  {
    var sp := Span(from, RunEnd(buf, from + 8));
    var spans := [sp] + rest;
    assert IsMatch(buf, sp);
    forall k | 0 <= k < |spans| ensures IsMatch(buf, spans[k]) {
      if k > 0 {
        assert spans[k] == rest[k - 1];
      }
    }
    forall k | 0 <= k < |spans| - 1
      ensures spans[k].end <= spans[k + 1].start && NoMatchBetween(buf, spans[k].end, spans[k + 1].start)
    {
      assert spans[k + 1] == rest[k];
      if k > 0 {
        assert spans[k] == rest[k - 1];
      }
    }
    if rest == [] {
      assert spans[|spans| - 1] == sp;
    } else {
      assert spans[|spans| - 1] == rest[|rest| - 1];
    }
  }

  /** No match can start at `from`, so a leftmost-greedy scan from the next byte is one from `from`. */
  lemma LeftmostGreedySkip(buf: seq<byte>, from: nat, spans: seq<Span>)
    requires !MatchStartsAt(buf, from)
    requires LeftmostGreedy(buf, from + 1, spans)
    ensures LeftmostGreedy(buf, from, spans)
  {
  }

  /** `Scan` is the leftmost, greedy, non-overlapping list of matches that `findall` promises. */
  lemma {:induction false} ScanIsLeftmostGreedy(buf: seq<byte>, from: nat)
    requires from <= |buf|
    ensures LeftmostGreedy(buf, from, Scan(buf, from))
    decreases |buf| - from
  {
    if from < |buf| {
      if MatchStartsAt(buf, from) {
        ScanIsLeftmostGreedy(buf, RunEnd(buf, from + 8));
        LeftmostGreedyCons(buf, from, Scan(buf, RunEnd(buf, from + 8)));
      } else {
        ScanIsLeftmostGreedy(buf, from + 1);
        LeftmostGreedySkip(buf, from, Scan(buf, from + 1));
      }
    }
  }

  lemma MatchIsMatchStart(buf: seq<byte>, sp: Span)
    requires IsMatch(buf, sp)
    ensures MatchStartsAt(buf, sp.start)
  {
  }

  /** A maximal run of class bytes starting at `j` can end in one place only. */
  lemma {:induction false} RunEndUnique(buf: seq<byte>, j: nat, e: nat)
    requires j <= e <= |buf|
    requires forall p :: j <= p < e ==> InPathClass(buf[p])
    requires e == |buf| || !InPathClass(buf[e])
    ensures RunEnd(buf, j) == e
    decreases e - j
  {
    if j < e {
      RunEndUnique(buf, j + 1, e);
    }
  }

  lemma LeftmostGreedyTail(buf: seq<byte>, from: nat, a: seq<Span>)
    requires LeftmostGreedy(buf, from, a) && a != []
    ensures LeftmostGreedy(buf, a[0].end, a[1..])
  {
    var a' := a[1..];
    forall k | 0 <= k < |a'| ensures IsMatch(buf, a'[k]) {
      assert a'[k] == a[k + 1];
    }
    forall k | 0 <= k < |a'| - 1
      ensures a'[k].end <= a'[k + 1].start && NoMatchBetween(buf, a'[k].end, a'[k + 1].start)
    {
      assert a'[k] == a[k + 1] && a'[k + 1] == a[k + 2];
    }
    if a' != [] {
      assert a'[0] == a[1] && a'[|a'| - 1] == a[|a| - 1];
    }
  }

  lemma LeftmostGreedyHead(buf: seq<byte>, from: nat, a: seq<Span>, b: seq<Span>)
    requires LeftmostGreedy(buf, from, a) && LeftmostGreedy(buf, from, b)
    requires a != [] && b != []
    ensures a[0] == b[0]
  {
    MatchIsMatchStart(buf, a[0]);
    MatchIsMatchStart(buf, b[0]);
    var s := a[0].start;
    assert b[0].start == s;
    RunEndUnique(buf, s + 7, a[0].end);
    RunEndUnique(buf, s + 7, b[0].end);
  }

  /** `LeftmostGreedy` leaves no choice: `Scan` is the only sequence of spans it admits. */
  lemma {:induction false} LeftmostGreedyUnique(buf: seq<byte>, from: nat, a: seq<Span>, b: seq<Span>)
    requires from <= |buf|
    requires LeftmostGreedy(buf, from, a) && LeftmostGreedy(buf, from, b)
    ensures a == b
    decreases |buf| - from
  {
    if a != [] {
      MatchIsMatchStart(buf, a[0]);
    }
    if b != [] {
      MatchIsMatchStart(buf, b[0]);
    }
    if a != [] && b != [] {
      LeftmostGreedyHead(buf, from, a, b);
      LeftmostGreedyTail(buf, from, a);
      LeftmostGreedyTail(buf, from, b);
      LeftmostGreedyUnique(buf, a[0].end, a[1..], b[1..]);
      assert a == [a[0]] + a[1..] && b == [b[0]] + b[1..];
    }
  }

  /** The bytes each span covers, in scan order: the list `findall` returns. */
  function Slices(buf: seq<byte>, spans: seq<Span>): seq<seq<byte>>
    requires forall k :: 0 <= k < |spans| ==> spans[k].start <= spans[k].end <= |buf|
  {
    if spans == [] then []
    else [buf[spans[0].start..spans[0].end]] + Slices(buf, spans[1..])
  }

  /** `_ASSET_PATH_PATTERN.findall(buf)`. */
  function FindAllSpec(buf: seq<byte>): seq<seq<byte>>
  {
    Slices(buf, Scan(buf, 0))
  }

  /** At a position where the pattern matches, `findall` reports the greedy match and resumes after it. */
  lemma ScanAtMatch(buf: seq<byte>, i: nat)
    requires MatchStartsAt(buf, i)
    ensures Slices(buf, Scan(buf, i)) == [buf[i..RunEnd(buf, i + 8)]] + Slices(buf, Scan(buf, RunEnd(buf, i + 8)))
  {
  }

  /** At a position where the pattern does not match, `findall` moves on by one byte. */
  lemma ScanSkip(buf: seq<byte>, i: nat)
    requires i < |buf| && !MatchStartsAt(buf, i)
    ensures Slices(buf, Scan(buf, i)) == Slices(buf, Scan(buf, i + 1))
  {
  }

  /** The greedy `[...]+`: the position of the first byte from `j` on outside the class. */
  method SkipRun(buf: seq<byte>, j: nat) returns (k: nat)
    requires j <= |buf|
    ensures k == RunEnd(buf, j)
  {
    k := j;
    while k < |buf| && InPathClass(buf[k])
      invariant j <= k <= |buf|
      invariant RunEnd(buf, k) == RunEnd(buf, j)
      decreases |buf| - k
    {
      k := k + 1;
    }
  }

  /** The regular-expression scan as an index walk over the buffer. */
  method FindAll(buf: seq<byte>) returns (matches: seq<seq<byte>>)
    ensures matches == FindAllSpec(buf)
  {
    matches := [];
    var i := 0;
    while i < |buf|
      invariant 0 <= i <= |buf|
      invariant matches + Slices(buf, Scan(buf, i)) == FindAllSpec(buf)
      decreases |buf| - i
    {
      if i + 7 < |buf| && buf[i..i + 7] == AssetsPrefix && InPathClass(buf[i + 7]) {
        var j := SkipRun(buf, i + 8);
        ScanAtMatch(buf, i);
        matches := matches + [buf[i..j]];
        i := j;
      } else {
        ScanSkip(buf, i);
        i := i + 1;
      }
    }
  }

  /**
   * `bytes.decode('utf-8')` on the bytes a match can hold: one character per
   * byte below 0x80; any other byte is reported as a decoding failure.
   */
  function DecodeUtf8(bytes: seq<byte>): (r: Option<string>)
  {
    if forall k :: 0 <= k < |bytes| ==> bytes[k] < 0x80
    then Some(seq(|bytes|, k requires 0 <= k < |bytes| => bytes[k] as int as char))
    else None
  }

  /** The distinct decoded forms of the matches that decode. */
  function DecodedSet(matches: seq<seq<byte>>): set<string>
  {
    set m | m in matches && DecodeUtf8(m).Some? :: DecodeUtf8(m).value
  }

  /** The paths `extract_from_binary` collects from a buffer it has read. */
  function ExtractedPaths(buf: seq<byte>): set<string>
  {
    DecodedSet(FindAllSpec(buf))
  }

  /**
   * `PathExtractor.extract_from_binary`. The file read is the caller's:
   * `None` stands for a file that does not exist or cannot be read, which
   * yields the empty set.
   */
  method ExtractFromBinary(content: Option<seq<byte>>) returns (paths: set<string>)
    ensures content.None? ==> paths == {}
    ensures content.Some? ==> paths == ExtractedPaths(content.value)
  {
    paths := {};
    if content.None? {
      return;
    }
    var matches := FindAll(content.value);
    var k := 0;
    while k < |matches|
      invariant 0 <= k <= |matches|
      invariant paths == DecodedSet(matches[..k])
    {
      var decoded := DecodeUtf8(matches[k]);
      if decoded.Some? {
        paths := paths + {decoded.value};
      }
      // otherwise the source logs a warning and skips the match
      assert matches[..k + 1] == matches[..k] + [matches[k]];
      k := k + 1;
    }
    assert matches[..k] == matches;
  }

  /** The bytes of one match: the prefix, then one or more class bytes. */
  predicate IsMatchBytes(m: seq<byte>)
  {
    |m| > 7 && m[..7] == AssetsPrefix && forall k :: 7 <= k < |m| ==> InPathClass(m[k])
  }

  /** A decoded path: `Assets/`, then one or more characters of the class. */
  predicate IsAssetPath(p: string)
  {
    |p| > 7 && p[..7] == AssetsPrefixText && forall k :: 7 <= k < |p| ==> InPathClassChar(p[k])
  }

  /** Each element of the `findall` list is a slice of the buffer that the scan found, and has the pattern's shape. */
  lemma {:induction false} SlicesOfScan(buf: seq<byte>, spans: seq<Span>, m: seq<byte>)
    requires forall k :: 0 <= k < |spans| ==> IsMatch(buf, spans[k])
    requires forall k :: 0 <= k < |spans| ==> spans[k].start <= spans[k].end <= |buf|
    requires m in Slices(buf, spans)
    ensures exists k :: 0 <= k < |spans| && m == buf[spans[k].start..spans[k].end]
    ensures IsMatchBytes(m)
    decreases |spans|
  {
    var sp := spans[0];
    if m == buf[sp.start..sp.end] {
      assert buf[sp.start..sp.end][..7] == buf[sp.start..sp.start + 7];
    } else {
      SlicesOfScan(buf, spans[1..], m);
      var k :| 0 <= k < |spans[1..]| && m == buf[spans[1..][k].start..spans[1..][k].end];
      assert spans[1..][k] == spans[k + 1];
    }
  }

  /** Every element of the `findall` list is a contiguous slice of the buffer holding one match. */
  lemma FoundMatchesAreSlices(buf: seq<byte>, m: seq<byte>)
    requires m in FindAllSpec(buf)
    ensures IsMatchBytes(m)
    ensures exists i, j :: 0 <= i < j <= |buf| && m == buf[i..j]
  {
    var spans := Scan(buf, 0);
    ScanIsLeftmostGreedy(buf, 0);
    SlicesOfScan(buf, spans, m);
    var k :| 0 <= k < |spans| && m == buf[spans[k].start..spans[k].end];
    assert IsMatch(buf, spans[k]);
  }

  /** Every byte of a match is ASCII, so decoding it never fails, and it decodes to an asset path. */
  lemma MatchDecodes(m: seq<byte>)
    requires IsMatchBytes(m)
    ensures DecodeUtf8(m).Some?
    ensures IsAssetPath(DecodeUtf8(m).value)
  {
    assert forall k :: 0 <= k < |m| ==> m[k] < 0x80 by {
      forall k | 0 <= k < |m| ensures m[k] < 0x80 {
        if k < 7 {
          assert m[k] == m[..7][k];
        }
      }
    }
    var p := DecodeUtf8(m).value;
    forall k | 0 <= k < 7 ensures p[k] == AssetsPrefixText[k] {
      assert m[k] == AssetsPrefix[k];
    }
  }

  /** Every match that `findall` reports lands in the result: the decoding-failure branch is never taken. */
  lemma NoMatchDropped(buf: seq<byte>)
    ensures forall m :: m in FindAllSpec(buf) ==>
              DecodeUtf8(m).Some? && DecodeUtf8(m).value in ExtractedPaths(buf)
  {
    forall m | m in FindAllSpec(buf)
      ensures DecodeUtf8(m).Some? && DecodeUtf8(m).value in ExtractedPaths(buf)
    {
      FoundMatchesAreSlices(buf, m);
      MatchDecodes(m);
    }
  }

  /** Each extracted path is `Assets/` followed by one or more class characters, decoded from a match in the buffer. */
  lemma ExtractedPathShape(buf: seq<byte>, p: string)
    requires p in ExtractedPaths(buf)
    ensures IsAssetPath(p)
    ensures exists m :: m in FindAllSpec(buf) && DecodeUtf8(m) == Some(p)
  {
    var m :| m in FindAllSpec(buf) && DecodeUtf8(m).Some? && DecodeUtf8(m).value == p;
    FoundMatchesAreSlices(buf, m);
    MatchDecodes(m);
  }

  lemma {:induction false} DecodedSetSize(matches: seq<seq<byte>>)
    ensures |DecodedSet(matches)| <= |matches|
    decreases |matches|
  {
    if matches != [] {
      var n := |matches|;
      var front := matches[..n - 1];
      DecodedSetSize(front);
      assert matches == front + [matches[n - 1]];
      var last := DecodeUtf8(matches[n - 1]);
      var extra: set<string> := if last.Some? then {last.value} else {};
      forall p | p in DecodedSet(matches) ensures p in DecodedSet(front) + extra {
        var m :| m in matches && DecodeUtf8(m).Some? && DecodeUtf8(m).value == p;
        if m != matches[n - 1] {
          assert m in front;
        }
      }
      var u := DecodedSet(front) + extra;
      assert u == DecodedSet(matches) + (u - DecodedSet(matches));
      assert |u| <= |DecodedSet(front)| + |extra|;
    }
  }

  /** Duplicate matches collapse: there are never more paths than matches. */
  lemma ExtractedAtMostMatches(buf: seq<byte>)
    ensures |ExtractedPaths(buf)| <= |FindAllSpec(buf)|
  {
    DecodedSetSize(FindAllSpec(buf));
  }

  /** The result is empty exactly when the pattern matches nowhere in the buffer (an empty set, not an error). */
  lemma ExtractedEmptyIffNoMatch(buf: seq<byte>)
    ensures ExtractedPaths(buf) == {} <==> NoMatchBetween(buf, 0, |buf|)
  {
    var spans := Scan(buf, 0);
    ScanIsLeftmostGreedy(buf, 0);
    if spans != [] {
      MatchIsMatchStart(buf, spans[0]);
      var m := buf[spans[0].start..spans[0].end];
      assert m in FindAllSpec(buf);
      NoMatchDropped(buf);
    } else {
      assert FindAllSpec(buf) == [];
    }
  }

  /** A buffer that is exactly `Assets/` and one or more class bytes yields that one path. */
  lemma WholeBufferIsOnePath(buf: seq<byte>)
    requires IsMatchBytes(buf)
    ensures FindAllSpec(buf) == [buf]
    ensures ExtractedPaths(buf) == {DecodeUtf8(buf).value}
  {
    assert MatchStartsAt(buf, 0) by {
      assert buf[0..7] == buf[..7];
    }
    RunEndUnique(buf, 8, |buf|);
    assert Scan(buf, |buf|) == [];
    assert Scan(buf, 0) == [Span(0, |buf|)];
    assert buf[0..|buf|] == buf;
    assert Slices(buf, [Span(0, |buf|)]) == [buf] + Slices(buf, []);
    MatchDecodes(buf);
  }
}
