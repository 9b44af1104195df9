/** Insertion sort: each new element is carried left by exchanges with the
    neighbours that strictly beat it. */
module Insertion {
  import opened Steps
  import opened Ordering

  /** The buffer while `c`, taken from index `i`, is being carried left and
      has reached index `pos`: the values it passed have each moved one index
      right, and everything else is where it was. */
  ghost function Shifted(s: seq<int>, pos: int, i: int, c: int): (r: seq<int>)
    requires 0 <= pos <= i < |s|
    ensures |r| == |s| && r[pos] == c
    ensures forall k :: 0 <= k < pos || i < k < |s| ==> r[k] == s[k]
    ensures forall k :: pos < k <= i ==> r[k] == s[k - 1]
  {
    s[..pos] + [c] + s[pos..i] + s[i + 1..]
  }

  /** Proof helper: before the first shift the buffer is unchanged. */
  lemma {:induction false} ShiftedStart(s: seq<int>, i: int)
    requires 0 <= i < |s|
    ensures Shifted(s, i, i, s[i]) == s
  {
    assert s == s[..i] + [s[i]] + s[i..i] + s[i + 1..];
  }

  /** One more shift exchanges `c` with its left neighbour. */
  lemma {:induction false} ShiftedStep(s: seq<int>, pos: int, i: int, c: int)
    requires 0 < pos <= i < |s|
    ensures Shifted(s, pos - 1, i, c) == Shifted(s, pos, i, c)[pos - 1 := c][pos := s[pos - 1]]
  {
    var t, u := Shifted(s, pos - 1, i, c), Shifted(s, pos, i, c)[pos - 1 := c][pos := s[pos - 1]];
    forall k | 0 <= k < |s| ensures t[k] == u[k] {
    }
  }

  /** When `c` stops at `pos`, the prefix `t[..i + 1]` is ordered: `s[..i]`
      was ordered, the values `c` passed all strictly beat it, and the one it
      stopped behind does not. */
  lemma {:induction false} Inserted(s: seq<int>, pos: int, i: int, c: int, ascending: bool)
    requires 0 <= pos <= i < |s|
    requires SortedBetween(s, 0, i, ascending)
    requires forall k :: pos <= k < i ==> !InOrder(s[k], c, ascending)
    requires pos > 0 ==> InOrder(s[pos - 1], c, ascending)
    ensures SortedBetween(Shifted(s, pos, i, c), 0, i + 1, ascending)
  {
    var t := Shifted(s, pos, i, c);
    forall x, y | 0 <= x < y < i + 1 ensures InOrder(t[x], t[y], ascending) {
      if y < pos {
        assert InOrder(s[x], s[y], ascending);
      } else if y == pos {
        assert InOrder(s[x], s[pos - 1], ascending) || x == pos - 1;
      } else if x < pos {
        assert InOrder(s[x], s[y - 1], ascending);
      } else if x == pos {
        assert !InOrder(s[y - 1], c, ascending);
      } else {
        assert InOrder(s[x - 1], s[y - 1], ascending);
      }
    }
  }

  /** The shift of `c` from index `pos` past its left neighbour, which
      strictly beats it: the neighbour moves right, `c` is stored in its
      place, and the write step reporting both indices is returned. */
  method Shift(a: array<int>, pos: int, c: int, ascending: bool) returns (shift: Step)
    requires 0 < pos < a.Length && a[pos] == c && !InOrder(a[pos - 1], c, ascending)
    modifies a
    ensures a[..] == old(a[..])[pos - 1 := c][pos := old(a[pos - 1])]
    ensures IsWrite(shift) && Reports(old(a[..]), a[..], shift, NeighbourExchange(ascending))
  {
    a[pos] := a[pos - 1];
    var left := pos - 1;
    a[left] := c;
    shift := Step(map[left := Yellow, left + 1 := Yellow], 0, 1);
    assert a[..] == old(a[..])[left := old(a[left + 1])][left + 1 := old(a[left])];
    assert ExchangesInversion(old(a[..]), a[..], shift, left, ascending);
    NeighbourExchangeReports(old(a[..]), a[..], shift, left, ascending);
  }

  /** One round of the inner loop with the element `c` at index `pos`: a
      comparison step when there is a left neighbour, then, when that
      neighbour strictly beats `c`, the shift that exchanges the two and its
      write step. `stop` tells whether the element has found its place. */
  method Visit(a: array<int>, pos: int, c: int, ascending: bool) returns (stop: bool, steps: seq<Step>, ghost states: seq<seq<int>>)
    requires 0 <= pos < a.Length && a[pos] == c
    modifies a
    ensures stop <==> pos == 0 || InOrder(old(a[pos - 1]), c, ascending)
    ensures a[..] == if stop then old(a[..]) else old(a[..])[pos - 1 := c][pos := old(a[pos - 1])]
    ensures Recorded(old(a[..]), steps, states, NeighbourExchange(ascending)) && Current(old(a[..]), states) == a[..]
    ensures Comparisons(steps) == (if pos > 0 then 1 else 0) && Swaps(steps) == (if stop then 0 else 1)
  {
    steps, states := [], [];
    if pos > 0 {
      var compare := Step(map[pos := Red, pos - 1 := Red], 1, 0);
      Looked(a[..], steps, states, compare, NeighbourExchange(ascending));
      steps, states := steps + [compare], states + [a[..]];
    }
    stop := pos == 0 || InOrder(a[pos - 1], c, ascending);
    if !stop {
      ghost var before := a[..];
      var shift := Shift(a, pos, c, ascending);
      Emitted(old(a[..]), steps, states, shift, a[..], NeighbourExchange(ascending));
      steps, states := steps + [shift], states + [a[..]];
    }
  }

  /** Inserts `a[i]` into the ordered prefix `a[..i]`. A comparison step is
      yielded while there is a left neighbour, and each shift past a
      neighbour that strictly beats the element is an exchange of the two,
      reported by a write step; at index 0 no comparison is yielded. */
  method Insert(a: array<int>, i: int, ascending: bool) returns (steps: seq<Step>, ghost states: seq<seq<int>>)
    requires 1 <= i < a.Length
    requires SortedBetween(a[..], 0, i, ascending)
    modifies a
    ensures SortedBetween(a[..], 0, i + 1, ascending)
    ensures a[i + 1..] == old(a[i + 1..])
    ensures Recorded(old(a[..]), steps, states, NeighbourExchange(ascending)) && Current(old(a[..]), states) == a[..]
    ensures Swaps(steps) <= i
    ensures Comparisons(steps) == if Swaps(steps) < i then Swaps(steps) + 1 else i
  {
    ghost var init := a[..];
    var current := a[i];
    var pos := i;
    steps, states := [], [];
    ShiftedStart(init, i);
    while true
      invariant 0 <= pos <= i
      invariant a[..] == Shifted(init, pos, i, current)
      invariant forall k :: pos <= k < i ==> !InOrder(init[k], current, ascending)
      invariant Recorded(init, steps, states, NeighbourExchange(ascending)) && Current(init, states) == a[..]
      invariant Comparisons(steps) == i - pos && Swaps(steps) == i - pos
      decreases pos
    {
      var stop, more;
      ghost var moreStates;
      stop, more, moreStates := Visit(a, pos, current, ascending);
      Chained(init, steps, states, more, moreStates, NeighbourExchange(ascending));
      steps, states := steps + more, states + moreStates;
      if stop {
        break;
      }
      ShiftedStep(init, pos, i, current);
      pos := pos - 1;
    }
    Inserted(init, pos, i, current, ascending);
  }

  /** Sorts `a` in place. Every write is an exchange of an out-of-order pair
      of neighbours; each insertion yields one comparison step per shift plus
      one more unless the element reached index 0. */
  method InsertionSort(a: array<int>, ascending: bool) returns (trace: seq<Step>, ghost states: seq<seq<int>>)
    modifies a
    ensures Sorted(a[..], ascending)
    ensures multiset(a[..]) == multiset(old(a[..]))
    ensures Recorded(old(a[..]), trace, states, NeighbourExchange(ascending)) && Current(old(a[..]), states) == a[..]
    ensures Swaps(trace) <= Comparisons(trace) && (a.Length > 0 ==> Comparisons(trace) <= Swaps(trace) + a.Length - 1)
    ensures a.Length <= 1 ==> trace == []
  {
    ghost var init := a[..];
    var n := a.Length;
    trace, states := [], [];
    if n == 0 {
      return;
    }
    var i := 1;
    while i < n
      invariant 1 <= i <= n
      invariant Recorded(init, trace, states, NeighbourExchange(ascending)) && Current(init, states) == a[..]
      invariant Swaps(trace) <= Comparisons(trace) <= Swaps(trace) + i - 1
      invariant n <= 1 ==> trace == []
      invariant SortedBetween(a[..], 0, i, ascending)
    {
      var steps;
      ghost var more;
      steps, more := Insert(a, i, ascending);
      Chained(init, trace, states, steps, more, NeighbourExchange(ascending));
      trace, states := trace + steps, states + more;
      i := i + 1;
    }
    ExchangesPermute(init, trace, states, NeighbourExchange(ascending));
  }
}
