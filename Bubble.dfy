/** Bubble sort: passes of neighbour comparisons, exchanging a pair only when
    it is strictly out of order. */
module Bubble {
  import opened Steps
  import opened Ordering

  /** Positions `m ..` hold their final values: they are in order, and no value
      before `m` belongs after any of them. */
  ghost predicate Settled(s: seq<int>, m: int, ascending: bool)
    requires 0 <= m <= |s|
  {
    SortedBetween(s, m, |s|, ascending) && Partitioned(s, m, ascending)
  }

  /** The pass has carried the extreme value of `s[..j + 1]` to index `j`. */
  ghost predicate Carried(s: seq<int>, j: int, ascending: bool)
    requires 0 <= j < |s|
  {
    forall x :: 0 <= x < j ==> InOrder(s[x], s[j], ascending)
  }

  /** The buffer after the pair `j`, `j + 1` of `s` is visited: exchanged
      when strictly out of order, untouched otherwise. */
  ghost function Visited(s: seq<int>, j: int, ascending: bool): seq<int>
    requires 0 <= j < |s| - 1
  {
    if InOrder(s[j], s[j + 1], ascending) then s else s[j := s[j + 1]][j + 1 := s[j]]
  }

  /** The buffer after the pairs `(0, 1) .. (j-1, j)` of `s` are visited in
      turn: a pass stopped after `j` comparisons. */
  ghost function Bubbled(s: seq<int>, j: nat, ascending: bool): (r: seq<int>)
    requires j < |s|
    ensures |r| == |s|
  {
    if j == 0 then s else Visited(Bubbled(s, j - 1, ascending), j - 1, ascending)
  }

  /** One comparison of a pass, followed by the exchange when the pair is
      strictly out of order, carries the extreme value one index further and
      leaves the settled suffix alone. */
  lemma {:induction false} PassStep(s: seq<int>, t: seq<int>, j: int, m: int, ascending: bool)
    requires 0 <= j && j + 1 < m <= |s|
    requires Settled(s, m, ascending) && Carried(s, j, ascending)
    requires t == Visited(s, j, ascending)
    ensures Settled(t, m, ascending) && Carried(t, j + 1, ascending)
  {
    if !InOrder(s[j], s[j + 1], ascending) {
      forall x, y | 0 <= x < m <= y < |s| ensures InOrder(t[x], t[y], ascending) {
        if x == j { assert t[x] == s[j + 1]; } else if x == j + 1 { assert t[x] == s[j]; }
      }
      forall x | 0 <= x < j + 1 ensures InOrder(t[x], t[j + 1], ascending) {
        if x < j { assert InOrder(s[x], s[j], ascending); }
      }
    }
  }

  /** At the end of a pass the carried value joins the settled suffix. */
  lemma {:induction false} PassDone(s: seq<int>, m: int, ascending: bool)
    requires 0 < m <= |s|
    requires Settled(s, m, ascending) && Carried(s, m - 1, ascending)
    ensures Settled(s, m - 1, ascending)
  {
    forall x, y | m - 1 <= x < y < |s| ensures InOrder(s[x], s[y], ascending) {
      if x >= m { } else { assert x == m - 1; }
    }
  }

  /** The first `j` visits of a pass over `s[..m]` carry the extreme value of
      `s[..j + 1]` to index `j` and leave the settled suffix `s[m..]` alone. */
  lemma {:induction false} PassCarries(s: seq<int>, j: nat, m: int, ascending: bool)
    requires j < m <= |s|
    requires Settled(s, m, ascending)
    ensures Settled(Bubbled(s, j, ascending), m, ascending) && Carried(Bubbled(s, j, ascending), j, ascending)
  {
    if j > 0 {
      PassCarries(s, j - 1, m, ascending);
      PassStep(Bubbled(s, j - 1, ascending), Bubbled(s, j, ascending), j - 1, m, ascending);
    }
  }

  /** A whole pass over `s[..m]`, the suffix `s[m..]` being settled, settles
      one more index. */
  lemma {:induction false} PassSettles(s: seq<int>, m: int, ascending: bool)
    requires 0 < m <= |s|
    requires Settled(s, m, ascending)
    ensures Settled(Bubbled(s, m - 1, ascending), m - 1, ascending)
  {
    PassCarries(s, m - 1, m, ascending);
    PassDone(Bubbled(s, m - 1, ascending), m, ascending);
  }

  /** Once every index but the first is settled, the buffer is sorted. */
  lemma SettledSorted(s: seq<int>, ascending: bool)
    requires |s| > 0 && Settled(s, 1, ascending)
    ensures Sorted(s, ascending)
  {
    forall x, y | 0 <= x < y < |s| ensures InOrder(s[x], s[y], ascending) {
      if x > 0 { assert SortedBetween(s, 1, |s|, ascending); }
    }
  }

  /** One visit of the neighbours `j`, `j + 1`: a comparison step, then, when
      they are strictly out of order, their exchange and a write step. */
  method VisitPair(a: array<int>, j: int, ascending: bool) returns (steps: seq<Step>, ghost states: seq<seq<int>>)
    requires 0 <= j < a.Length - 1
    modifies a
    ensures a[..] == Visited(old(a[..]), j, ascending)
    ensures |steps| == if InOrder(old(a[j]), old(a[j + 1]), ascending) then 1 else 2
    ensures steps[0] == Step(map[j := Red, j + 1 := Red], 1, 0)
    ensures Recorded(old(a[..]), steps, states, NeighbourExchange(ascending)) && Current(old(a[..]), states) == a[..]
    ensures Comparisons(steps) == 1
  {
    var num1, num2 := a[j], a[j + 1];
    var compare := Step(map[j := Red, j + 1 := Red], 1, 0);
    Looked(a[..], [], [], compare, NeighbourExchange(ascending));
    steps, states := [compare], [a[..]];
    if !InOrder(num1, num2, ascending) {
      ghost var before := a[..];
      a[j], a[j + 1] := a[j + 1], a[j];
      var exchange := Step(map[j := Yellow, j + 1 := Yellow], 0, 1);
      assert ExchangesInversion(before, a[..], exchange, j, ascending);
      NeighbourExchangeReports(before, a[..], exchange, j, ascending);
      Emitted(old(a[..]), steps, states, exchange, a[..], NeighbourExchange(ascending));
      steps, states := steps + [exchange], states + [a[..]];
    }
  }

  /** Pass `i`: visits the pairs `(0, 1) .. (n-2-i, n-1-i)`, carrying the
      extreme value of `a[..n - i]` to index `n - 1 - i`. */
  method Pass(a: array<int>, i: int, ascending: bool) returns (steps: seq<Step>, ghost states: seq<seq<int>>)
    requires 0 <= i < a.Length - 1
    modifies a
    ensures a[..] == Bubbled(old(a[..]), a.Length - 1 - i, ascending)
    ensures Recorded(old(a[..]), steps, states, NeighbourExchange(ascending)) && Current(old(a[..]), states) == a[..]
    ensures Comparisons(steps) == a.Length - 1 - i
  {
    ghost var init := a[..];
    var n := a.Length;
    steps, states := [], [];
    var j := 0;
    while j < n - 1 - i
      invariant 0 <= j <= n - 1 - i
      invariant a[..] == Bubbled(init, j, ascending)
      invariant Recorded(init, steps, states, NeighbourExchange(ascending)) && Current(init, states) == a[..]
      invariant Comparisons(steps) == j
    {
      var more;
      ghost var moreStates;
      more, moreStates := VisitPair(a, j, ascending);
      Chained(init, steps, states, more, moreStates, NeighbourExchange(ascending));
      steps, states := steps + more, states + moreStates;
      j := j + 1;
    }
  }

  /** Sorts `a` in place. One comparison step per neighbour pair visited,
      n(n-1)/2 in all, and one write step per exchange. */
  method BubbleSort(a: array<int>, ascending: bool) returns (trace: seq<Step>, ghost states: seq<seq<int>>)
    modifies a
    ensures Sorted(a[..], ascending)
    ensures multiset(a[..]) == multiset(old(a[..]))
    ensures Recorded(old(a[..]), trace, states, NeighbourExchange(ascending)) && Current(old(a[..]), states) == a[..]
    ensures Comparisons(trace) == a.Length * (a.Length - 1) / 2
    ensures a.Length <= 1 ==> trace == []
  {
    ghost var init := a[..];
    var n := a.Length;
    trace, states := [], [];
    var i := 0;
    while i < n - 1
      invariant 0 <= i <= n && (n > 0 ==> i <= n - 1)
      invariant Recorded(init, trace, states, NeighbourExchange(ascending)) && Current(init, states) == a[..]
      invariant Comparisons(trace) == Pairs(n) - Pairs(n - i)
      invariant n <= 1 ==> trace == []
      invariant Settled(a[..], n - i, ascending)
    {
      var steps;
      ghost var more;
      ghost var before := a[..];
      steps, more := Pass(a, i, ascending);
      PassSettles(before, n - i, ascending);
      Chained(init, trace, states, steps, more, NeighbourExchange(ascending));
      trace, states := trace + steps, states + more;
      i := i + 1;
    }
    if n > 0 {
      SettledSorted(a[..], ascending);
    }
    PairsClosedForm(n);
    ExchangesPermute(init, trace, states, NeighbourExchange(ascending));
  }
}
