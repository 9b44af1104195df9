/** Quick sort with the last element of a range as its pivot (Lomuto
    partition), recursing on both sides of the placed pivot. */
module Quick {
  import opened Steps
  import opened Ordering

  /** Midway through a partition of `s[low..]` against `pivot`: the values of
      `s[low..i + 1]` may stand before the pivot, those of `s[i + 1..j]`
      strictly may not. */
  ghost predicate Split(s: seq<int>, low: int, i: int, j: int, pivot: int, ascending: bool)
    requires 0 <= low <= i + 1 <= j <= |s|
  {
    && (forall k :: low <= k <= i ==> InOrder(s[k], pivot, ascending))
    && (forall k :: i < k < j ==> !InOrder(s[k], pivot, ascending))
  }

  /** The value at `p` is in its final place within `s[low..high + 1]`: every
      value before it may stand before it, and every value after it strictly
      may not. */
  ghost predicate PivotAt(s: seq<int>, low: int, p: int, high: int, ascending: bool)
    requires 0 <= low <= p <= high < |s|
  {
    && (forall k :: low <= k < p ==> InOrder(s[k], s[p], ascending))
    && (forall k :: p < k <= high ==> !InOrder(s[k], s[p], ascending))
  }

  /** Classifying `s[j]` keeps the partition invariant: a value that may stand
      before the pivot is exchanged to the end of the low side. */
  lemma {:induction false} SplitStep(s: seq<int>, t: seq<int>, low: int, i: int, next: int, j: int, pivot: int, ascending: bool)
    requires 0 <= low <= i + 1 <= j < |s|
    requires Split(s, low, i, j, pivot, ascending)
    requires next == if InOrder(s[j], pivot, ascending) then i + 1 else i
    requires t == if next == i then s else s[next := s[j]][j := s[next]]
    ensures Split(t, low, next, j + 1, pivot, ascending)
  {
    if next != i {
      forall k | next < k < j + 1 ensures !InOrder(t[k], pivot, ascending) {
        if k == j && next < j {
          assert t[k] == s[next];
        }
      }
    }
  }

  /** Exchanging the pivot at `high` with the first value of the high side
      puts it in its final place. */
  lemma {:induction false} PivotPlaced(s: seq<int>, t: seq<int>, low: int, p: int, high: int, ascending: bool)
    requires 0 <= low <= p <= high < |s|
    requires Split(s, low, p - 1, high, s[high], ascending)
    requires t == s[p := s[high]][high := s[p]]
    ensures t[p] == s[high] && PivotAt(t, low, p, high, ascending)
  {
    forall k | p < k <= high ensures !InOrder(t[k], t[p], ascending) {
      if k == high {
        assert t[k] == s[p];
      }
    }
  }

  /** Partitioning a range and then sorting both sides of the placed pivot,
      each only by permuting its own range, sorts and permutes the whole
      range. */
  lemma {:induction false} Joined(s0: seq<int>, s1: seq<int>, s2: seq<int>, s3: seq<int>, low: int, p: int, high: int, ascending: bool)
    requires 0 <= low <= p <= high < |s1|
    requires SameOutside(s1, s0, low, high + 1) && multiset(s1) == multiset(s0)
    requires PivotAt(s1, low, p, high, ascending)
    requires SameOutside(s2, s1, low, p) && multiset(s2) == multiset(s1)
    requires SameOutside(s3, s2, p + 1, high + 1) && multiset(s3) == multiset(s2)
    requires SortedBetween(s2, low, p, ascending) && SortedBetween(s3, p + 1, high + 1, ascending)
    ensures SortedBetween(s3, low, high + 1, ascending)
    ensures SameOutside(s3, s0, low, high + 1) && multiset(s3) == multiset(s0)
  {
    var pivot := s1[p];
    RangePermutation(s2, s1, low, p);
    RangeCarries(s1, s2, low, p, x => InOrder(x, pivot, ascending));
    RangePermutation(s3, s2, p + 1, high + 1);
    assert forall k :: p + 1 <= k < high + 1 ==> s2[k] == s1[k];
    RangeCarries(s2, s3, p + 1, high + 1, x => !InOrder(x, pivot, ascending));
    assert s3[p] == pivot;
    forall x, y | low <= x < y < high + 1 ensures InOrder(s3[x], s3[y], ascending) {
      if y < p {
        assert s3[x] == s2[x] && s3[y] == s2[y];
      } else if x < p {
        assert s3[x] == s2[x] && InOrder(s2[x], pivot, ascending);
        assert y == p || !InOrder(s3[y], pivot, ascending);
      } else if x == p {
        assert !InOrder(s3[y], pivot, ascending);
      }
    }
  }

  /** Comparisons of the two sides of a pivot, plus those of its partition,
      never exceed the number of pairs in the whole range. */
  lemma {:induction false} PairsSplit(l: nat, r: nat)
    ensures Pairs(l) + Pairs(r) + l + r <= Pairs(l + r + 1)
  {
    if r > 0 {
      PairsSplit(l, r - 1);
    }
  }

  /** The comparison bound of a range, from those of its partition and of
      its two sides. */
  lemma RangeBound(t: seq<Step>, left: seq<Step>, right: seq<Step>, low: int, p: int, high: int)
    requires low <= p <= high
    requires Comparisons(t) == high - low
    requires Comparisons(left) <= Pairs(p - low) && Comparisons(right) <= Pairs(high - p)
    ensures Comparisons(t + left + right) <= Pairs(high - low + 1)
  {
    CountsConcat(t, left);
    CountsConcat(t + left, right);
    PairsSplit(p - low, high - p);
  }

  /** One round of the partition loop: a comparison step for `a[j]`, then,
      when it may stand before the pivot, its exchange to the end of the low
      side and a write step. */
  method Classify(a: array<int>, high: int, i: int, j: int, pivot: int, ascending: bool) returns (next: int, steps: seq<Step>, ghost states: seq<seq<int>>)
    requires -1 <= i < j < high < a.Length
    modifies a
    ensures next == if InOrder(old(a[j]), pivot, ascending) then i + 1 else i
    ensures a[..] == if next == i then old(a[..]) else old(a[..])[next := old(a[j])][j := old(a[next])]
    ensures Recorded(old(a[..]), steps, states, Exchange) && Current(old(a[..]), states) == a[..]
    ensures Comparisons(steps) == 1 && Swaps(steps) == next - i
  {
    var compare := Step(map[j := Red][high := Blue][i + 1 := Green], 1, 0);
    Looked(a[..], [], [], compare, Exchange);
    steps, states := [compare], [a[..]];
    next := i;
    if InOrder(a[j], pivot, ascending) {
      next := i + 1;
      var exchange := Step(map[next := Yellow][j := Yellow][high := Blue], 0, 1);
      states := Swap(a, next, j, exchange, old(a[..]), steps, states);
      steps := steps + [exchange];
    }
  }

  /** Partitions `a[low..high + 1]` around its last value and returns the
      pivot's final index `p`. Each index before `high` is compared once, and
      each value that may stand before the pivot is exchanged once, plus the
      final exchange of the pivot itself. */
  method Partition(a: array<int>, low: int, high: int, ascending: bool) returns (p: int, steps: seq<Step>, ghost states: seq<seq<int>>)
    requires 0 <= low < high < a.Length
    modifies a
    ensures low <= p <= high && a[p] == old(a[high])
    ensures PivotAt(a[..], low, p, high, ascending)
    ensures SameOutside(a[..], old(a[..]), low, high + 1)
    ensures Recorded(old(a[..]), steps, states, Exchange) && Current(old(a[..]), states) == a[..]
    ensures Comparisons(steps) == high - low && Swaps(steps) == p - low + 1
    ensures |steps| >= 1 && steps[|steps| - 1] == Step(map[p := Yellow][high := Yellow], 0, 1)
  {
    ghost var init := a[..];
    var pivot := a[high];
    var i := low - 1;
    steps, states := [], [];
    var j := low;
    while j < high
      invariant low <= j <= high && low - 1 <= i < j
      invariant a[high] == pivot && SameOutside(a[..], init, low, high)
      invariant Split(a[..], low, i, j, pivot, ascending)
      invariant Recorded(init, steps, states, Exchange) && Current(init, states) == a[..]
      invariant Comparisons(steps) == j - low && Swaps(steps) == i - low + 1
    {
      ghost var before := a[..];
      var next, more;
      ghost var moreStates;
      next, more, moreStates := Classify(a, high, i, j, pivot, ascending);
      SplitStep(before, a[..], low, i, next, j, pivot, ascending);
      Chained(init, steps, states, more, moreStates, Exchange);
      steps, states := steps + more, states + moreStates;
      i, j := next, j + 1;
    }
    p := i + 1;
    ghost var before := a[..];
    var exchange := Step(map[p := Yellow][high := Yellow], 0, 1);
    states := Swap(a, p, high, exchange, init, steps, states);
    steps := steps + [exchange];
    PivotPlaced(before, a[..], low, p, high, ascending);
  }

  /** Sorts `a[low..high + 1]` in place, leaving everything else alone; a
      range of fewer than two values yields nothing. A range of `m` values
      costs at most m(m-1)/2 comparisons. */
  method QuickSortRange(a: array<int>, low: int, high: int, ascending: bool) returns (steps: seq<Step>, ghost states: seq<seq<int>>)
    requires 0 <= low <= high + 1 <= a.Length
    modifies a
    ensures SortedBetween(a[..], low, high + 1, ascending)
    ensures SameOutside(a[..], old(a[..]), low, high + 1) && multiset(a[..]) == multiset(old(a[..]))
    ensures Recorded(old(a[..]), steps, states, Exchange) && Current(old(a[..]), states) == a[..]
    ensures Comparisons(steps) <= Pairs(high - low + 1)
    ensures low >= high ==> steps == []
    decreases high - low
  {
    steps, states := [], [];
    if low < high {
      ghost var s0 := a[..];
      var p;
      p, steps, states := Partition(a, low, high, ascending);
      ExchangesPermute(s0, steps, states, Exchange);
      ghost var s1 := a[..];
      var left;
      ghost var leftStates;
      left, leftStates := QuickSortRange(a, low, p - 1, ascending);
      ghost var s2 := a[..];
      var right;
      ghost var rightStates;
      right, rightStates := QuickSortRange(a, p + 1, high, ascending);
      Joined(s0, s1, s2, a[..], low, p, high, ascending);
      Chained(s0, steps, states, left, leftStates, Exchange);
      Chained(s0, steps + left, states + leftStates, right, rightStates, Exchange);
      RangeBound(steps, left, right, low, p, high);
      steps, states := steps + left + right, states + leftStates + rightStates;
    }
  }

  /** Sorts `a` in place: the whole buffer is one range. */
  method QuickSort(a: array<int>, ascending: bool) returns (trace: seq<Step>, ghost states: seq<seq<int>>)
    modifies a
    ensures Sorted(a[..], ascending)
    ensures multiset(a[..]) == multiset(old(a[..]))
    ensures Recorded(old(a[..]), trace, states, Exchange) && Current(old(a[..]), states) == a[..]
    ensures Comparisons(trace) <= a.Length * (a.Length - 1) / 2
    ensures a.Length <= 1 ==> trace == []
  {
    trace, states := QuickSortRange(a, 0, a.Length - 1, ascending);
    PairsClosedForm(a.Length);
  }
}
