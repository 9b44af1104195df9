/** Top-down merge sort: sort both halves of a range, merge them into a
    temporary list, then write the list back over the range. */
module Merge {
  import opened Steps
  import opened Ordering

  /** The merge of `x` and `y`: repeatedly take the head of `x` when it may
      stand before the head of `y`, else the head of `y`. */
  ghost function Merged(x: seq<int>, y: seq<int>, ascending: bool): (r: seq<int>)
    ensures |r| == |x| + |y|
    decreases |x| + |y|
  {
    if x == [] then y
    else if y == [] then x
    else if InOrder(x[0], y[0], ascending) then [x[0]] + Merged(x[1..], y, ascending)
    else [y[0]] + Merged(x, y[1..], ascending)
  }

  /** The comparisons the merge of `x` and `y` makes: one per value taken
      while both lists still have values. */
  ghost function MergeComparisons(x: seq<int>, y: seq<int>, ascending: bool): nat
    decreases |x| + |y|
  {
    if x == [] || y == [] then 0
    else if InOrder(x[0], y[0], ascending) then 1 + MergeComparisons(x[1..], y, ascending)
    else 1 + MergeComparisons(x, y[1..], ascending)
  }

  /** Merging loses and invents no value. */
  lemma {:induction false} MergedPermutes(x: seq<int>, y: seq<int>, ascending: bool)
    ensures multiset(Merged(x, y, ascending)) == multiset(x) + multiset(y)
    decreases |x| + |y|
  {
    if x != [] && y != [] {
      var r := Merged(x, y, ascending);
      HeadTail(r);
      if InOrder(x[0], y[0], ascending) {
        MergedPermutes(x[1..], y, ascending);
        HeadTail(x);
        assert r[0] == x[0] && r[1..] == Merged(x[1..], y, ascending);
      } else {
        MergedPermutes(x, y[1..], ascending);
        HeadTail(y);
        assert r[0] == y[0] && r[1..] == Merged(x, y[1..], ascending);
      }
    }
  }

  /** One round of the merge of two ranges of `s`, both non-empty: the head
      taken, and the comparison made. */
  lemma MergedTake(s: seq<int>, i: int, hi: int, j: int, hj: int, ascending: bool)
    requires 0 <= i < hi <= |s| && 0 <= j < hj <= |s|
    ensures Merged(s[i..hi], s[j..hj], ascending) ==
      if InOrder(s[i], s[j], ascending) then [s[i]] + Merged(s[i + 1..hi], s[j..hj], ascending)
      else [s[j]] + Merged(s[i..hi], s[j + 1..hj], ascending)
    ensures MergeComparisons(s[i..hi], s[j..hj], ascending) ==
      1 + if InOrder(s[i], s[j], ascending) then MergeComparisons(s[i + 1..hi], s[j..hj], ascending)
      else MergeComparisons(s[i..hi], s[j + 1..hj], ascending)
  {
    assert s[i..hi][1..] == s[i + 1..hi] && s[j..hj][1..] == s[j + 1..hj];
  }

  /** Every value of `s` may stand after `v`. */
  ghost predicate Bounds(v: int, s: seq<int>, ascending: bool)
  {
    forall k :: 0 <= k < |s| ==> InOrder(v, s[k], ascending)
  }

  /** A lower bound of two lists bounds their merge. */
  lemma BoundsMerged(v: int, x: seq<int>, y: seq<int>, ascending: bool)
    requires Bounds(v, x, ascending) && Bounds(v, y, ascending)
    ensures Bounds(v, Merged(x, y, ascending), ascending)
  {
    var r := Merged(x, y, ascending);
    MergedPermutes(x, y, ascending);
    forall k | 0 <= k < |r| ensures InOrder(v, r[k], ascending) {
      assert r[k] in multiset(x) + multiset(y);
      if r[k] in multiset(x) {
        var m :| 0 <= m < |x| && x[m] == r[k];
      } else {
        var m :| 0 <= m < |y| && y[m] == r[k];
      }
    }
  }

  /** Merging two ordered lists gives an ordered list. */
  lemma {:induction false} MergedSorted(x: seq<int>, y: seq<int>, ascending: bool)
    requires Sorted(x, ascending) && Sorted(y, ascending)
    ensures Sorted(Merged(x, y, ascending), ascending)
    decreases |x| + |y|
  {
    if x != [] && y != [] {
      var r := Merged(x, y, ascending);
      var h, x', y' := if InOrder(x[0], y[0], ascending) then x[0] else y[0], x[1..], y[1..];
      assert Bounds(x[0], x', ascending) && Bounds(y[0], y', ascending);
      assert Sorted(x', ascending) && Sorted(y', ascending);
      if InOrder(x[0], y[0], ascending) {
        MergedSorted(x', y, ascending);
        assert Bounds(x[0], y, ascending);
        BoundsMerged(x[0], x', y, ascending);
        assert r == [x[0]] + Merged(x', y, ascending);
      } else {
        MergedSorted(x, y', ascending);
        assert Bounds(y[0], x, ascending);
        BoundsMerged(y[0], x, y', ascending);
        assert r == [y[0]] + Merged(x, y', ascending);
      }
    }
  }

  /** The merge compares at least once per value of the shorter list and
      never more than once per value but the last. */
  lemma {:induction false} MergeComparisonsBounds(x: seq<int>, y: seq<int>, ascending: bool)
    requires x != [] && y != []
    ensures (if |x| < |y| then |x| else |y|) <= MergeComparisons(x, y, ascending) <= |x| + |y| - 1
    decreases |x| + |y|
  {
    if InOrder(x[0], y[0], ascending) {
      if |x| > 1 {
        MergeComparisonsBounds(x[1..], y, ascending);
      }
    } else {
      if |y| > 1 {
        MergeComparisonsBounds(x, y[1..], ascending);
      }
    }
  }

  /** `s` with `temp[..idx]` written over it from index `left` on. */
  ghost function Written(s: seq<int>, left: int, temp: seq<int>, idx: int): (r: seq<int>)
    requires 0 <= left && 0 <= idx <= |temp| && left + |temp| <= |s|
    ensures |r| == |s|
    ensures forall k :: 0 <= k < |s| && !(left <= k < left + idx) ==> r[k] == s[k]
    ensures forall k :: left <= k < left + idx ==> r[k] == temp[k - left]
  {
    s[..left] + temp[..idx] + s[left + idx..]
  }

  /** Once either list is exhausted, the rest of the merge is the other
      one, and no further comparison is made. */
  lemma MergedExhausted(temp: seq<int>, x: seq<int>, y: seq<int>, whole: seq<int>, ascending: bool)
    requires x == [] || y == []
    requires temp + Merged(x, y, ascending) == whole
    ensures temp + x + y == whole && MergeComparisons(x, y, ascending) == 0
  {
    if x == [] {
      assert temp + x + y == temp + y;
    } else {
      assert temp + x + y == temp + x;
    }
  }

  /** Proof helper: taking `v` off the front of what remains to merge extends
      the merged prefix by `v`. */
  lemma Advanced(temp: seq<int>, v: int, rest: seq<int>, whole: seq<int>)
    requires temp + ([v] + rest) == whole
    ensures (temp + [v]) + rest == whole
  {
    assert (temp + [v]) + rest == temp + ([v] + rest);
  }

  /** One round of the first loop of the merge: a comparison step for the
      heads `a[i]` and `a[j]` of the two halves, and the head taken; the
      buffer is only read. */
  method Take(a: array<int>, i: int, hi: int, j: int, hj: int, ascending: bool, ghost init: seq<int>, steps: seq<Step>, ghost states: seq<seq<int>>) returns (v: int, i': int, j': int, steps': seq<Step>, ghost states': seq<seq<int>>)
    requires 0 <= i < hi <= j < hj <= a.Length
    requires Recorded(init, steps, states, AnyWrite) && Current(init, states) == a[..]
    ensures (i', j') == if InOrder(a[i], a[j], ascending) then (i + 1, j) else (i, j + 1)
    ensures Merged(a[i..hi], a[j..hj], ascending) == [v] + Merged(a[i'..hi], a[j'..hj], ascending)
    ensures MergeComparisons(a[i..hi], a[j..hj], ascending) == 1 + MergeComparisons(a[i'..hi], a[j'..hj], ascending)
    ensures Recorded(init, steps', states', AnyWrite) && Current(init, states') == a[..]
    ensures Comparisons(steps') == Comparisons(steps) + 1 && Swaps(steps') == Swaps(steps) && |steps'| == |steps| + 1
  {
    var compare := Step(map[i := Red][j := Red], 1, 0);
    Looked(init, steps, states, compare, AnyWrite);
    steps', states' := steps + [compare], states + [a[..]];
    MergedTake(a[..], i, hi, j, hj, ascending);
    if InOrder(a[i], a[j], ascending) {
      v, i', j' := a[i], i + 1, j;
    } else {
      v, i', j' := a[j], i, j + 1;
    }
  }

  /** The first loop of the merge of the halves `a[left..hi]` and
      `a[hi..hj]`: while both have values, a comparison step for their heads,
      and the head taken into `temp`. */
  method Compare(a: array<int>, left: int, hi: int, hj: int, ascending: bool) returns (i: int, j: int, temp: seq<int>, steps: seq<Step>, ghost states: seq<seq<int>>)
    requires 0 <= left < hi < hj <= a.Length
    ensures left <= i <= hi && hi <= j <= hj && (i == hi || j == hj)
    ensures temp + a[i..hi] + a[j..hj] == Merged(a[left..hi], a[hi..hj], ascending)
    ensures Recorded(a[..], steps, states, AnyWrite) && Current(a[..], states) == a[..]
    ensures Comparisons(steps) == MergeComparisons(a[left..hi], a[hi..hj], ascending)
    ensures Swaps(steps) == 0 && |steps| == |temp|
  {
    ghost var s := a[..];
    ghost var whole := Merged(a[left..hi], a[hi..hj], ascending);
    temp, steps, states := [], [], [];
    i, j := left, hi;
    while i < hi && j < hj
      invariant left <= i <= hi && hi <= j <= hj
      invariant temp + Merged(a[i..hi], a[j..hj], ascending) == whole
      invariant Comparisons(steps) + MergeComparisons(a[i..hi], a[j..hj], ascending) == MergeComparisons(a[left..hi], a[hi..hj], ascending)
      invariant Recorded(s, steps, states, AnyWrite) && Current(s, states) == s
      invariant Swaps(steps) == 0 && |steps| == |temp|
      decreases hi + hj - i - j
    {
      var v, i', j';
      v, i', j', steps, states := Take(a, i, hi, j, hj, ascending, s, steps, states);
      Advanced(temp, v, Merged(a[i'..hi], a[j'..hj], ascending), whole);
      temp, i, j := temp + [v], i', j';
    }
    MergedExhausted(temp, a[i..hi], a[j..hj], whole, ascending);
  }

  /** The two remaining loops of the merge: the rest of whichever half still
      has values is read, one view step per value, into `temp`. */
  method Drain(a: array<int>, lo: int, hi: int, temp: seq<int>, ghost init: seq<int>, steps: seq<Step>, ghost states: seq<seq<int>>) returns (temp': seq<int>, steps': seq<Step>, ghost states': seq<seq<int>>)
    requires 0 <= lo <= hi <= a.Length
    requires Recorded(init, steps, states, AnyWrite) && Current(init, states) == a[..]
    ensures temp' == temp + a[lo..hi]
    ensures Recorded(init, steps', states', AnyWrite) && Current(init, states') == a[..]
    ensures Comparisons(steps') == Comparisons(steps) && Swaps(steps') == Swaps(steps) && |steps'| == |steps| + hi - lo
  {
    temp', steps', states' := temp, steps, states;
    var i := lo;
    while i < hi
      invariant lo <= i <= hi
      invariant temp' == temp + a[lo..i]
      invariant Recorded(init, steps', states', AnyWrite) && Current(init, states') == a[..]
      invariant Comparisons(steps') == Comparisons(steps) && Swaps(steps') == Swaps(steps) && |steps'| == |steps| + i - lo
    {
      var view := Step(map[i := Red], 0, 0);
      Looked(init, steps', states', view, AnyWrite);
      steps', states' := steps' + [view], states' + [a[..]];
      assert a[lo..i + 1] == a[lo..i] + [a[i]];
      temp' := temp' + [a[i]];
      i := i + 1;
    }
  }

  /** The last loop of the merge: `temp` is written back over the range from
      `left`, one write step per index. */
  method WriteBack(a: array<int>, left: int, temp: seq<int>, ghost init: seq<int>, steps: seq<Step>, ghost states: seq<seq<int>>) returns (steps': seq<Step>, ghost states': seq<seq<int>>)
    requires 0 <= left && left + |temp| <= a.Length
    requires Recorded(init, steps, states, AnyWrite) && Current(init, states) == a[..]
    modifies a
    ensures a[..] == Written(old(a[..]), left, temp, |temp|)
    ensures Recorded(init, steps', states', AnyWrite) && Current(init, states') == a[..]
    ensures Comparisons(steps') == Comparisons(steps) && Swaps(steps') == Swaps(steps) + |temp| && |steps'| == |steps| + |temp|
    ensures steps'[..|steps|] == steps && WritesFrom(steps'[|steps|..], left)
  {
    steps', states' := steps, states;
    var idx := 0;
    while idx < |temp|
      invariant 0 <= idx <= |temp|
      invariant a[..] == Written(old(a[..]), left, temp, idx)
      invariant Recorded(init, steps', states', AnyWrite) && Current(init, states') == a[..]
      invariant Comparisons(steps') == Comparisons(steps) && Swaps(steps') == Swaps(steps) + idx && |steps'| == |steps| + idx
      invariant steps'[..|steps|] == steps && WritesFrom(steps'[|steps|..], left)
    {
      var write := Step(map[left + idx := Green], 0, 1);
      states' := Store(a, left + idx, temp[idx], write, init, steps', states');
      steps' := steps' + [write];
      idx := idx + 1;
    }
  }

  /** `s` with the range `left .. right` replaced by the merge of its two
      halves `s[left..mid + 1]` and `s[mid + 1..right + 1]`. */
  ghost function MergeStep(s: seq<int>, left: int, mid: int, right: int, ascending: bool): (r: seq<int>)
    requires 0 <= left <= mid < right < |s|
    ensures |r| == |s|
  {
    s[..left] + Merged(s[left..mid + 1], s[mid + 1..right + 1], ascending) + s[right + 1..]
  }

  /** Merging two ordered halves orders the range, permutes its values and
      leaves everything else alone. */
  lemma {:induction false} MergeStepCorrect(s: seq<int>, left: int, mid: int, right: int, ascending: bool)
    requires 0 <= left <= mid < right < |s|
    requires SortedBetween(s, left, mid + 1, ascending) && SortedBetween(s, mid + 1, right + 1, ascending)
    ensures SortedBetween(MergeStep(s, left, mid, right, ascending), left, right + 1, ascending)
    ensures SameOutside(MergeStep(s, left, mid, right, ascending), s, left, right + 1)
    ensures multiset(MergeStep(s, left, mid, right, ascending)[left..right + 1]) == multiset(s[left..right + 1])
  {
    var x, y := s[left..mid + 1], s[mid + 1..right + 1];
    var r, m := MergeStep(s, left, mid, right, ascending), Merged(x, y, ascending);
    Spliced(s, m, left, right + 1);
    SortedSlice(s, left, mid + 1, ascending);
    SortedSlice(s, mid + 1, right + 1, ascending);
    MergedSorted(x, y, ascending);
    SortedSlice(r, left, right + 1, ascending);
    MergedPermutes(x, y, ascending);
    assert s[left..right + 1] == x + y;
  }

  /** Sorting the upper half of a range leaves the lower half as it was. */
  lemma LowerHalfKept(s1: seq<int>, s2: seq<int>, left: int, mid: int, right: int, ascending: bool)
    requires 0 <= left <= mid < right < |s1|
    requires SortedBetween(s1, left, mid + 1, ascending) && SameOutside(s2, s1, mid + 1, right + 1)
    ensures SortedBetween(s2, left, mid + 1, ascending)
  {
    forall x, y | left <= x < y < mid + 1 ensures InOrder(s2[x], s2[y], ascending) {
      assert s2[x] == s1[x] && s2[y] == s1[y];
    }
  }

  /** Permuting the lower half, then the upper half, then the whole range
      permutes the whole range and nothing outside it. */
  lemma {:induction false} HalvesPermuted(s: seq<int>, s1: seq<int>, s2: seq<int>, r: seq<int>, left: int, mid: int, right: int)
    requires 0 <= left <= mid < right < |s|
    requires SameOutside(s1, s, left, mid + 1) && multiset(s1[left..mid + 1]) == multiset(s[left..mid + 1])
    requires SameOutside(s2, s1, mid + 1, right + 1) && multiset(s2[mid + 1..right + 1]) == multiset(s1[mid + 1..right + 1])
    requires SameOutside(r, s2, left, right + 1) && multiset(r[left..right + 1]) == multiset(s2[left..right + 1])
    ensures SameOutside(r, s, left, right + 1) && multiset(r[left..right + 1]) == multiset(s[left..right + 1])
  {
    assert s2[left..mid + 1] == s1[left..mid + 1];
    assert s1[mid + 1..right + 1] == s[mid + 1..right + 1];
    assert s2[left..right + 1] == s2[left..mid + 1] + s2[mid + 1..right + 1];
    assert s[left..right + 1] == s[left..mid + 1] + s[mid + 1..right + 1];
  }

  /** Sorting both halves of a range, each only by permuting it, and then
      merging them sorts and permutes the range and nothing else. */
  lemma {:induction false} Combined(s: seq<int>, s1: seq<int>, s2: seq<int>, r: seq<int>, left: int, mid: int, next: int, right: int, ascending: bool)
    requires 0 <= left <= mid < right < |s| && next == mid + 1 && |s1| == |s2| == |s|
    requires SortedBetween(s1, left, mid + 1, ascending) && SameOutside(s1, s, left, mid + 1)
    requires multiset(s1[left..mid + 1]) == multiset(s[left..mid + 1])
    requires SortedBetween(s2, next, right + 1, ascending) && SameOutside(s2, s1, next, right + 1)
    requires multiset(s2[next..right + 1]) == multiset(s1[next..right + 1])
    requires r == MergeStep(s2, left, mid, right, ascending)
    ensures SortedBetween(r, left, right + 1, ascending) && SameOutside(r, s, left, right + 1)
    ensures multiset(r[left..right + 1]) == multiset(s[left..right + 1])
  {
    LowerHalfKept(s1, s2, left, mid, right, ascending);
    MergeStepCorrect(s2, left, mid, right, ascending);
    HalvesPermuted(s, s1, s2, r, left, mid, right);
  }

  /** Three recorded runs, each starting where the previous one left off,
      are one recorded run; every write is still preceded by one read. */
  lemma {:induction false} Sequenced(s0: seq<int>, t1: seq<Step>, r1: seq<seq<int>>, t2: seq<Step>, r2: seq<seq<int>>, t3: seq<Step>, r3: seq<seq<int>>)
    requires Recorded(s0, t1, r1, AnyWrite) && |t1| == 2 * Swaps(t1)
    requires Recorded(Current(s0, r1), t2, r2, AnyWrite) && |t2| == 2 * Swaps(t2)
    requires Recorded(Current(Current(s0, r1), r2), t3, r3, AnyWrite) && |t3| == 2 * Swaps(t3)
    ensures Recorded(s0, t1 + t2 + t3, r1 + r2 + r3, AnyWrite)
    ensures Current(s0, r1 + r2 + r3) == Current(Current(Current(s0, r1), r2), r3)
    ensures |t1 + t2 + t3| == 2 * Swaps(t1 + t2 + t3)
  {
    Chained(s0, t1, r1, t2, r2, AnyWrite);
    Chained(s0, t1 + t2, r1 + r2, t3, r3, AnyWrite);
  }

  /** Proof helper: `MergeStep` and the comparisons of its merge, for a merge
      computed from the halves' bounds. */
  lemma MergeStepIs(s: seq<int>, left: int, mid: int, right: int, hi: int, hj: int, temp: seq<int>, ascending: bool)
    requires 0 <= left <= mid < right < |s| && hi == mid + 1 && hj == right + 1
    requires temp == Merged(s[left..hi], s[hi..hj], ascending)
    ensures MergeStep(s, left, mid, right, ascending) == Written(s, left, temp, |temp|)
    ensures MergeComparisons(s[left..hi], s[hi..hj], ascending) == MergeComparisons(s[left..mid + 1], s[mid + 1..right + 1], ascending)
  {
    var x, y := s[left..hi], s[hi..hj];
    assert x == s[left..mid + 1] && y == s[mid + 1..right + 1];
    assert temp[..|temp|] == temp;
  }

  /** Merges the ordered halves `a[left..mid + 1]` and `a[mid + 1..right + 1]`
      over the range. Each value is read once, by a comparison or a view
      step, and written back once, by a write step. */
  method MergeHalves(a: array<int>, left: int, mid: int, right: int, ascending: bool) returns (steps: seq<Step>, ghost states: seq<seq<int>>)
    requires 0 <= left <= mid < right < a.Length
    modifies a
    ensures a[..] == MergeStep(old(a[..]), left, mid, right, ascending)
    ensures Recorded(old(a[..]), steps, states, AnyWrite) && Current(old(a[..]), states) == a[..]
    ensures Comparisons(steps) == MergeComparisons(old(a[left..mid + 1]), old(a[mid + 1..right + 1]), ascending)
    ensures Swaps(steps) == right - left + 1 && |steps| == 2 * (right - left + 1)
    ensures WritesFrom(steps[right - left + 1..], left)
  {
    ghost var s := a[..];
    var hi, hj := mid + 1, right + 1;
    var i, j, temp;
    i, j, temp, steps, states := Compare(a, left, hi, hj, ascending);
    temp, steps, states := Drain(a, i, hi, temp, s, steps, states);
    temp, steps, states := Drain(a, j, hj, temp, s, steps, states);
    assert temp == Merged(s[left..hi], s[hi..hj], ascending);
    assert |temp| == right - left + 1 == |steps|;
    steps, states := WriteBack(a, left, temp, s, steps, states);
    MergeStepIs(s, left, mid, right, hi, hj, temp, ascending);
  }

  /** Sorts `a[left..right + 1]` in place, leaving everything else alone; a
      range of fewer than two values yields nothing. Every value written is
      read once before. */
  method MergeSortRange(a: array<int>, left: int, right: int, ascending: bool) returns (steps: seq<Step>, ghost states: seq<seq<int>>)
    requires 0 <= left <= right + 1 <= a.Length
    modifies a
    ensures SortedBetween(a[..], left, right + 1, ascending) && SameOutside(a[..], old(a[..]), left, right + 1)
    ensures multiset(a[left..right + 1]) == multiset(old(a[left..right + 1]))
    ensures Recorded(old(a[..]), steps, states, AnyWrite) && Current(old(a[..]), states) == a[..]
    ensures |steps| == 2 * Swaps(steps)
    ensures left >= right ==> steps == []
    decreases right - left
  {
    steps, states := [], [];
    if left >= right {
      return;
    }
    var mid := (left + right) / 2;
    ghost var s0 := a[..];
    var lower, upper, merge;
    ghost var lowerStates, upperStates, mergeStates;
    lower, lowerStates := MergeSortRange(a, left, mid, ascending);
    ghost var s1 := a[..];
    var next := mid + 1;
    upper, upperStates := MergeSortRange(a, next, right, ascending);
    ghost var s2 := a[..];
    merge, mergeStates := MergeHalves(a, left, mid, right, ascending);
    Combined(s0, s1, s2, a[..], left, mid, next, right, ascending);
    Sequenced(s0, lower, lowerStates, upper, upperStates, merge, mergeStates);
    steps, states := lower + upper + merge, lowerStates + upperStates + mergeStates;
  }

  /** Sorts `a` in place: the whole buffer is one range. */
  method MergeSort(a: array<int>, ascending: bool) returns (trace: seq<Step>, ghost states: seq<seq<int>>)
    modifies a
    ensures Sorted(a[..], ascending)
    ensures multiset(a[..]) == multiset(old(a[..]))
    ensures Recorded(old(a[..]), trace, states, AnyWrite) && Current(old(a[..]), states) == a[..]
    ensures |trace| == 2 * Swaps(trace)
    ensures a.Length <= 1 ==> trace == []
  {
    trace, states := MergeSortRange(a, 0, a.Length - 1, ascending);
    RangeToWhole(a[..], old(a[..]), 0, a.Length);
  }
}
