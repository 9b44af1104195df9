/** Selection sort: each pass finds the first extreme value of the unsorted
    suffix and exchanges it into place. */
module Selection {
  import opened Steps
  import opened Ordering

  /** Positions `.. i - 1` hold their final values: they are in order, and no
      value from `i` on belongs before any of them. */
  ghost predicate Placed(s: seq<int>, i: int, ascending: bool)
    requires 0 <= i <= |s|
  {
    SortedBetween(s, 0, i, ascending) && Partitioned(s, i, ascending)
  }

  /** `s[k]` strictly beats every value of `s[i..k]`: a new running best when
      the suffix from `i` is scanned left to right. */
  ghost predicate IsRecord(s: seq<int>, i: int, k: int, ascending: bool)
    requires 0 <= i <= k < |s|
  {
    forall l :: i <= l < k ==> !InOrder(s[l], s[k], ascending)
  }

  /** How many of the indices `i + 1 .. hi - 1` hold a new running best. */
  ghost function Records(s: seq<int>, i: int, hi: int, ascending: bool): nat
    requires 0 <= i < hi <= |s|
    decreases hi
  {
    if hi == i + 1 then 0
    else Records(s, i, hi - 1, ascending) + if IsRecord(s, i, hi - 1, ascending) then 1 else 0
  }

  /** Against the best value `s[m]` of `s[i..j]`, one test decides whether
      `s[j]` is a new running best. */
  lemma RecordIff(s: seq<int>, i: int, j: int, m: int, ascending: bool)
    requires 0 <= i <= m < j < |s|
    requires forall k :: i <= k < j ==> InOrder(s[m], s[k], ascending)
    ensures IsRecord(s, i, j, ascending) <==> !InOrder(s[m], s[j], ascending)
  {
    if !InOrder(s[m], s[j], ascending) {
      forall l | i <= l < j ensures !InOrder(s[l], s[j], ascending) {
        assert InOrder(s[m], s[l], ascending);
      }
    }
  }

  /** Exchanging the best value of the suffix from `i` into index `i` places
      one more value. */
  lemma {:induction false} SelectStep(s: seq<int>, t: seq<int>, i: int, m: int, ascending: bool)
    requires 0 <= i <= m < |s|
    requires Placed(s, i, ascending)
    requires forall k :: i <= k < |s| ==> InOrder(s[m], s[k], ascending)
    requires t == s[i := s[m]][m := s[i]]
    ensures Placed(t, i + 1, ascending)
  {
    forall x, y | 0 <= x < i + 1 <= y < |t| ensures InOrder(t[x], t[y], ascending) {
      if x < i {
        assert InOrder(s[x], s[m], ascending) && InOrder(s[x], s[i], ascending);
      } else if y == m {
        assert InOrder(s[m], s[i], ascending);
      } else {
        assert InOrder(s[m], s[y], ascending);
      }
    }
    forall x, y | 0 <= x < y < i + 1 ensures InOrder(t[x], t[y], ascending) {
      if y < i {
        assert InOrder(s[x], s[y], ascending);
      } else {
        assert InOrder(s[x], s[m], ascending);
      }
    }
  }

  /** One round of the inner loop of pass `i`: a comparison step for index
      `j` against the best so far, `a[m]`, then, when `a[j]` is a new running
      best, a view step marking it; the buffer is only read. */
  method Consider(a: array<int>, i: int, j: int, m: int, ascending: bool) returns (best: int, steps: seq<Step>, ghost states: seq<seq<int>>)
    requires 0 <= i <= m < j < a.Length
    requires forall k :: i <= k < j ==> InOrder(a[m], a[k], ascending)
    requires forall k :: i <= k < m ==> !InOrder(a[k], a[m], ascending)
    ensures best == if IsRecord(a[..], i, j, ascending) then j else m
    ensures forall k :: i <= k <= j ==> InOrder(a[best], a[k], ascending)
    ensures forall k :: i <= k < best ==> !InOrder(a[k], a[best], ascending)
    ensures Recorded(a[..], steps, states, Exchange) && Current(a[..], states) == a[..]
    ensures Comparisons(steps) == 1 && Swaps(steps) == 0
    ensures |steps| == if best == j then 2 else 1
  {
    var compare := Step(map[i := Green][j := Red][m := Blue], 1, 0);
    Looked(a[..], [], [], compare, Exchange);
    steps, states := [compare], [a[..]];
    RecordIff(a[..], i, j, m, ascending);
    best := m;
    if !InOrder(a[best], a[j], ascending) {
      best := j;
      var view := Step(map[i := Green][j := Blue][best := Blue], 0, 0);
      Looked(a[..], steps, states, view, Exchange);
      steps, states := steps + [view], states + [a[..]];
    }
  }

  /** The inner loop of pass `i`: scans `a[i + 1..]` for the first extreme
      value of `a[i..]`. Every index visited yields a comparison step, and
      every new running best a view step; the buffer is only read. */
  method FindBest(a: array<int>, i: int, ascending: bool) returns (m: int, steps: seq<Step>, ghost states: seq<seq<int>>)
    requires 0 <= i < a.Length
    ensures i <= m < a.Length
    ensures forall k :: i <= k < a.Length ==> InOrder(a[m], a[k], ascending)
    ensures forall k :: i <= k < m ==> !InOrder(a[k], a[m], ascending)
    ensures Recorded(a[..], steps, states, Exchange) && Current(a[..], states) == a[..]
    ensures Comparisons(steps) == a.Length - 1 - i && Swaps(steps) == 0
    ensures |steps| == a.Length - 1 - i + Records(a[..], i, a.Length, ascending)
  {
    m := i;
    steps, states := [], [];
    var j := i + 1;
    while j < a.Length
      invariant i < j <= a.Length && i <= m < j
      invariant forall k :: i <= k < j ==> InOrder(a[m], a[k], ascending)
      invariant forall k :: i <= k < m ==> !InOrder(a[k], a[m], ascending)
      invariant Recorded(a[..], steps, states, Exchange) && Current(a[..], states) == a[..]
      invariant Comparisons(steps) == j - 1 - i && Swaps(steps) == 0
      invariant |steps| == j - 1 - i + Records(a[..], i, j, ascending)
    {
      var more;
      ghost var moreStates;
      m, more, moreStates := Consider(a, i, j, m, ascending);
      Chained(a[..], steps, states, more, moreStates, Exchange);
      steps, states := steps + more, states + moreStates;
      j := j + 1;
    }
  }

  /** Pass `i`: finds the first extreme value of `a[i..]`, at index `m`, and
      exchanges it with `a[i]`; the exchange yields a write step even when
      `m == i`. */
  method SelectPass(a: array<int>, i: int, ascending: bool) returns (m: int, steps: seq<Step>, ghost states: seq<seq<int>>)
    requires 0 <= i < a.Length && Placed(a[..], i, ascending)
    modifies a
    ensures i <= m < a.Length
    ensures forall k :: i <= k < m ==> !InOrder(old(a[k]), old(a[m]), ascending)
    ensures a[..] == old(a[..])[i := old(a[m])][m := old(a[i])]
    ensures Placed(a[..], i + 1, ascending)
    ensures Recorded(old(a[..]), steps, states, Exchange) && Current(old(a[..]), states) == a[..]
    ensures Comparisons(steps) == a.Length - 1 - i && Swaps(steps) == 1
    ensures |steps| == a.Length - i + Records(old(a[..]), i, a.Length, ascending)
    ensures steps[|steps| - 1] == Step(map[i := Yellow][m := Yellow], 0, 1)
  {
    m, steps, states := FindBest(a, i, ascending);
    var exchange := Step(map[i := Yellow][m := Yellow], 0, 1);
    states := Swap(a, i, m, exchange, old(a[..]), steps, states);
    steps := steps + [exchange];
    SelectStep(old(a[..]), a[..], i, m, ascending);
  }

  /** Sorts `a` in place. Every pass compares each index after `i` once,
      n(n-1)/2 comparisons in all, and ends with one write step, so a buffer
      of one value still yields one. */
  method SelectionSort(a: array<int>, ascending: bool) returns (trace: seq<Step>, ghost states: seq<seq<int>>)
    modifies a
    ensures Sorted(a[..], ascending)
    ensures multiset(a[..]) == multiset(old(a[..]))
    ensures Recorded(old(a[..]), trace, states, Exchange) && Current(old(a[..]), states) == a[..]
    ensures Comparisons(trace) == a.Length * (a.Length - 1) / 2 && Swaps(trace) == a.Length
    ensures a.Length == 0 ==> trace == []
    ensures a.Length == 1 ==> |trace| == 1
  {
    ghost var init := a[..];
    var n := a.Length;
    trace, states := [], [];
    var i := 0;
    while i < n
      invariant 0 <= i <= n
      invariant Recorded(init, trace, states, Exchange) && Current(init, states) == a[..]
      invariant Comparisons(trace) == Pairs(n) - Pairs(n - i) && Swaps(trace) == i
      invariant i == 0 ==> trace == []
      invariant n == 1 && i == 1 ==> |trace| == 1
      invariant Placed(a[..], i, ascending)
    {
      var m, steps;
      ghost var more;
      m, steps, more := SelectPass(a, i, ascending);
      Chained(init, trace, states, steps, more, Exchange);
      PassCounted(trace, steps, n, i);
      trace, states := trace + steps, states + more;
      i := i + 1;
    }
    PairsClosedForm(n);
    ExchangesPermute(init, trace, states, Exchange);
  }
}
