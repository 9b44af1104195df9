/** The single direction flag every procedure honours, sortedness, and facts
    about permutations of a sub-range. */
module Ordering {

  /** `x` may stand before `y`: the flag turns `<=` into `>=`. The source's
      strict tests (`x > y and ascending or x < y and not ascending`) are
      `!InOrder(x, y, ascending)`. */
  predicate InOrder(x: int, y: int, ascending: bool)
  {
    if ascending then x <= y else x >= y
  }

  /** The indices `lo .. hi-1` of `s` are ordered under the flag. */
  predicate SortedBetween(s: seq<int>, lo: int, hi: int, ascending: bool)
    requires 0 <= lo <= hi <= |s|
  {
    forall i, j :: lo <= i < j < hi ==> InOrder(s[i], s[j], ascending)
  }

  /** Non-decreasing when ascending, non-increasing otherwise. */
  predicate Sorted(s: seq<int>, ascending: bool)
  {
    SortedBetween(s, 0, |s|, ascending)
  }

  /** No value before index `m` belongs after any value from `m` on. */
  predicate Partitioned(s: seq<int>, m: int, ascending: bool)
  {
    forall x, y :: 0 <= x < m <= y < |s| ==> InOrder(s[x], s[y], ascending)
  }

  /** `s` and `t` agree everywhere except possibly on `lo .. hi-1`. */
  predicate SameOutside(s: seq<int>, t: seq<int>, lo: int, hi: int)
  {
    |s| == |t| && forall x :: 0 <= x < |s| && !(lo <= x < hi) ==> s[x] == t[x]
  }

  /** The number of unordered pairs of `n` items. */
  function Pairs(n: nat): nat
  {
    if n == 0 then 0 else Pairs(n - 1) + (n - 1)
  }

  lemma {:induction false} PairsClosedForm(n: nat)
    ensures 2 * Pairs(n) == n * (n - 1)
    ensures Pairs(n) == n * (n - 1) / 2
  {
    if n > 0 {
      PairsClosedForm(n - 1);
      assert 2 * Pairs(n) == (n - 1) * (n - 2) + 2 * (n - 1);
    }
  }

  /** Proof helper: the values of a sequence are those before, inside and
      after a range. */
  lemma Thirds(s: seq<int>, lo: int, hi: int)
    requires 0 <= lo <= hi <= |s|
    ensures multiset(s) == multiset(s[..lo]) + multiset(s[lo..hi]) + multiset(s[hi..])
  {
    assert s == s[..lo] + s[lo..hi] + s[hi..];
  }

  /** When two buffers agree outside a range and hold the same values overall,
      the range itself holds the same values. */
  lemma {:induction false} RangePermutation(s: seq<int>, t: seq<int>, lo: int, hi: int)
    requires 0 <= lo <= hi <= |s|
    requires SameOutside(s, t, lo, hi)
    requires multiset(s) == multiset(t)
    ensures multiset(s[lo..hi]) == multiset(t[lo..hi])
  {
    Thirds(s, lo, hi);
    Thirds(t, lo, hi);
    assert t[..lo] == s[..lo] && t[hi..] == s[hi..];
    var outside := multiset(s[..lo]) + multiset(s[hi..]);
    assert multiset(s[lo..hi]) == multiset(s) - outside;
    assert multiset(t[lo..hi]) == multiset(t) - outside;
  }

  /** Exchanging two entries permutes a sequence. */
  lemma {:induction false} ExchangePermutes(s: seq<int>, i: int, j: int)
    requires 0 <= i < |s| && 0 <= j < |s|
    ensures multiset(s[i := s[j]][j := s[i]]) == multiset(s)
  {
    var u := s[i := s[j]];
    assert multiset(u) == multiset(s) - multiset{s[i]} + multiset{s[j]};
    assert u[j] == s[j];
    assert multiset(u[j := s[i]]) == multiset(u) - multiset{s[j]} + multiset{s[i]};
  }

  /** The values of a non-empty sequence are its head and those of its tail. */
  lemma HeadTail(s: seq<int>)
    requires s != []
    ensures multiset(s) == multiset{s[0]} + multiset(s[1..])
  {
    assert s == [s[0]] + s[1..];
  }

  /** When two buffers agree outside a range and the range holds the same
      values in both, so do the whole buffers. */
  lemma {:induction false} RangeToWhole(s: seq<int>, t: seq<int>, lo: int, hi: int)
    requires 0 <= lo <= hi <= |s|
    requires SameOutside(s, t, lo, hi)
    requires multiset(s[lo..hi]) == multiset(t[lo..hi])
    ensures multiset(s) == multiset(t)
  {
    assert s == s[..lo] + s[lo..hi] + s[hi..];
    assert t == t[..lo] + t[lo..hi] + t[hi..];
    assert s[..lo] == t[..lo] && s[hi..] == t[hi..];
  }

  /** Writing `m` over the range `lo .. hi - 1` of `s`, as a splice: the
      range then holds `m` and nothing else changes. */
  lemma Spliced(s: seq<int>, m: seq<int>, lo: int, hi: int)
    requires 0 <= lo <= hi <= |s| && |m| == hi - lo
    ensures (s[..lo] + m + s[hi..])[lo..hi] == m
    ensures SameOutside(s[..lo] + m + s[hi..], s, lo, hi)
  {
    var r := s[..lo] + m + s[hi..];
    assert forall k :: 0 <= k < |m| ==> r[lo..hi][k] == m[k];
  }

  /** A range is ordered exactly when its slice is. */
  lemma SortedSlice(s: seq<int>, lo: int, hi: int, ascending: bool)
    requires 0 <= lo <= hi <= |s|
    ensures SortedBetween(s, lo, hi, ascending) <==> Sorted(s[lo..hi], ascending)
  {
    var t := s[lo..hi];
    if Sorted(t, ascending) {
      forall i, j | lo <= i < j < hi ensures InOrder(s[i], s[j], ascending) {
        assert s[i] == t[i - lo] && s[j] == t[j - lo];
      }
    }
  }

  /** A property held by every value in a range still holds after the range
      is permuted. */
  lemma {:induction false} RangeCarries(s: seq<int>, t: seq<int>, lo: int, hi: int, P: int -> bool)
    requires 0 <= lo <= hi <= |s| == |t|
    requires multiset(s[lo..hi]) == multiset(t[lo..hi])
    requires forall k :: lo <= k < hi ==> P(s[k])
    ensures forall k :: lo <= k < hi ==> P(t[k])
  {
    forall k | lo <= k < hi
      ensures P(t[k])
    {
      assert t[lo..hi][k - lo] == t[k];
      assert t[k] in multiset(s[lo..hi]);
      var m :| 0 <= m < hi - lo && s[lo..hi][m] == t[k];
      assert s[lo + m] == t[k];
    }
  }
}
