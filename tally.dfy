/**
 * Sums over the values of a string-keyed map, taken in the ascending key order
 * in which the catalog report walks its dictionaries.
 */
module Tally {
  import opened Ordering

  /** The sum of `m[k]` for the keys `k` of `keys`, in list order. */
  function SeqSum(keys: seq<string>, m: map<string, int>): int
    requires forall k :: k in keys ==> k in m
  {
    if keys == [] then 0 else SeqSum(keys[..|keys| - 1], m) + m[keys[|keys| - 1]]
  }

  /** The sum of `m[k]` over a set of keys, taken in ascending key order. */
  function SetSum(keys: set<string>, m: map<string, int>): int
    requires keys <= m.Keys
  {
    SeqSum(SortSet(keys), m)
  }

  /** The sum of all values of `m`. */
  function KeySum(m: map<string, int>): int
  {
    SetSum(m.Keys, m)
  }

  /** The length of every list stored under a key. */
  function Sizes<T>(m: map<string, seq<T>>): (r: map<string, int>)
    ensures r.Keys == m.Keys
    ensures forall k :: k in m ==> r[k] == |m[k]|
  {
    map k | k in m :: |m[k]|
  }

  lemma {:induction false} SeqSumCons(x: string, keys: seq<string>, m: map<string, int>)
    requires x in m && forall k :: k in keys ==> k in m
    ensures SeqSum([x] + keys, m) == m[x] + SeqSum(keys, m)
    decreases |keys|
  {
    if keys != [] {
      var n := |keys|;
      assert ([x] + keys)[..n] == [x] + keys[..n - 1];
      SeqSumCons(x, keys[..n - 1], m);
    }
  }

  lemma {:induction false} SeqSumFrame(keys: seq<string>, m: map<string, int>, m': map<string, int>)
    requires forall k :: k in keys ==> k in m && k in m' && m[k] == m'[k]
    ensures SeqSum(keys, m) == SeqSum(keys, m')
    decreases |keys|
  {
    if keys != [] {
      SeqSumFrame(keys[..|keys| - 1], m, m');
    }
  }

  lemma MinOfSubset(s: set<string>, t: set<string>)
    requires t <= s && s != {} && Min(s) in t
    ensures Min(t) == Min(s)
  {
    var a, b := Min(s), Min(t);
    if a != b {
      assert LessEq(a, b) && LessEq(b, a);
      LessAsymmetric(a, b);
    }
  }

  /** The smallest key comes first in the sum. */
  lemma SetSumMin(keys: set<string>, m: map<string, int>)
    requires keys <= m.Keys && keys != {}
    ensures SetSum(keys, m) == m[Min(keys)] + SetSum(keys - {Min(keys)}, m)
  {
    var y := Min(keys);
    assert SortSet(keys) == [y] + SortSet(keys - {y});
    SeqSumCons(y, SortSet(keys - {y}), m);
  }

  /** The step of `SetSumRemove` for a key that is not the smallest, given the claim for the other keys. */
  lemma SetSumRemoveLater(keys: set<string>, m: map<string, int>, x: string)
    requires keys <= m.Keys && x in keys && x != Min(keys)
    requires SetSum(keys - {Min(keys)}, m) == m[x] + SetSum(keys - {x} - {Min(keys)}, m)
    ensures SetSum(keys, m) == m[x] + SetSum(keys - {x}, m)
  {
    SetSumMin(keys, m);
    var rest := keys - {x};
    MinOfSubset(keys, rest);
    SetSumMin(rest, m);
  }

  /** Taking one key out of a set takes exactly its value out of the sum, whatever its place in the order. */
  lemma {:induction false} SetSumRemove(keys: set<string>, m: map<string, int>, x: string)
    requires keys <= m.Keys && x in keys
    ensures SetSum(keys, m) == m[x] + SetSum(keys - {x}, m)
    decreases |keys|
  {
    var y := Min(keys);
    if x == y {
      SetSumMin(keys, m);
    } else {
      var others := keys - {y};
      assert x in others && |others| < |keys|;
      SetSumRemove(others, m, x);
      assert others - {x} == keys - {x} - {y};
      SetSumRemoveLater(keys, m, x);
    }
  }

  lemma SetSumFrame(keys: set<string>, m: map<string, int>, m': map<string, int>)
    requires keys <= m.Keys && keys <= m'.Keys
    requires forall k :: k in keys ==> m[k] == m'[k]
    ensures SetSum(keys, m) == SetSum(keys, m')
  {
    SeqSumFrame(SortSet(keys), m, m');
  }

  /** Storing `v` under `k` changes the total by `v` minus whatever `k` held before. */
  lemma KeySumUpdate(m: map<string, int>, k: string, v: int)
    ensures KeySum(m[k := v]) == KeySum(m) - (if k in m then m[k] else 0) + v
  {
    var m' := m[k := v];
    KeySumWithout(m', k);
    KeySumWithout(m, k);
    UpdateLeavesOthers(m, k, v);
  }

  /** The total is the value under `k`, if any, plus the sum over the other keys. */
  lemma KeySumWithout(m: map<string, int>, k: string)
    ensures KeySum(m) == (if k in m then m[k] else 0) + SetSum(m.Keys - {k}, m)
  {
    if k in m {
      SetSumRemove(m.Keys, m, k);
    } else {
      assert m.Keys - {k} == m.Keys;
    }
  }

  lemma UpdateLeavesOthers(m: map<string, int>, k: string, v: int)
    ensures SetSum(m[k := v].Keys - {k}, m[k := v]) == SetSum(m.Keys - {k}, m)
  {
    var m' := m[k := v];
    assert m'.Keys - {k} == m.Keys - {k};
    SetSumFrame(m.Keys - {k}, m, m');
  }

  lemma {:induction false} SeqSumAtLeastLength(keys: seq<string>, m: map<string, int>)
    requires forall k :: k in keys ==> k in m && m[k] >= 1
    ensures SeqSum(keys, m) >= |keys|
    decreases |keys|
  {
    if keys != [] {
      SeqSumAtLeastLength(keys[..|keys| - 1], m);
    }
  }

  /** When every value is at least one, the sum is at least the number of keys. */
  lemma KeySumAtLeastCount(m: map<string, int>)
    requires forall k :: k in m ==> m[k] >= 1
    ensures KeySum(m) >= |m|
  {
    SeqSumAtLeastLength(SortSet(m.Keys), m);
    assert |m| == |m.Keys|;
  }

  lemma {:induction false} SeqSumNonNegative(keys: seq<string>, m: map<string, int>)
    requires forall k :: k in keys ==> k in m && m[k] >= 0
    ensures SeqSum(keys, m) >= 0
    decreases |keys|
  {
    if keys != [] {
      SeqSumNonNegative(keys[..|keys| - 1], m);
    }
  }

  /** A sum of counts is a count. */
  lemma KeySumNonNegative(m: map<string, int>)
    requires forall k :: k in m ==> m[k] >= 0
    ensures KeySum(m) >= 0
  {
    SeqSumNonNegative(SortSet(m.Keys), m);
  }

  lemma SeqSumSnoc(keys: seq<string>, m: map<string, int>, i: nat)
    requires i < |keys| && forall k :: k in keys ==> k in m
    ensures SeqSum(keys[..i + 1], m) == SeqSum(keys[..i], m) + m[keys[i]]
  {
    assert keys[..i + 1][..i] == keys[..i];
  }
}
