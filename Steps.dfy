/** The steps a sorting procedure yields, what a recorded run of them promises
    about the buffer, and the driver's running totals. */
module Steps {
  import opened Ordering

  /** The colour role of a highlighted index. `Absent` is the heap's -1 marker
      on a child index that lies outside the heap. */
  datatype Role = Red | Yellow | Green | Blue | Absent

  /** One suspension point: the highlighted indices with their roles, and the
      comparison and swap increments of this step alone. */
  datatype Step = Step(highlights: map<int, Role>, comps: nat, swaps: nat)

  predicate IsComparison(s: Step) { s.comps == 1 && s.swaps == 0 }
  predicate IsWrite(s: Step) { s.comps == 0 && s.swaps == 1 }
  predicate IsView(s: Step) { s.comps == 0 && s.swaps == 0 }

  /** Step `k` of `t` is a write step marking index `lo + k` alone: a copy of
      `|t|` values over the indices from `lo`, front to back. */
  predicate WritesFrom(t: seq<Step>, lo: int)
  {
    forall k :: 0 <= k < |t| ==> t[k] == Step(map[lo + k := Green], 0, 1)
  }

  /** A step counts at most one operation: never both a comparison and a swap. */
  predicate WellFormed(s: Step) { IsComparison(s) || IsWrite(s) || IsView(s) }

  /** Sum of the comparison increments of a trace. */
  function Comparisons(t: seq<Step>): nat
  {
    if t == [] then 0 else Comparisons(t[..|t| - 1]) + t[|t| - 1].comps
  }

  /** Sum of the swap increments of a trace. */
  function Swaps(t: seq<Step>): nat
  {
    if t == [] then 0 else Swaps(t[..|t| - 1]) + t[|t| - 1].swaps
  }

  /** Write step `s` exchanged the neighbours `j` and `j + 1`, which were
      strictly out of order, and highlights exactly those two indices, as
      being exchanged. Equal values are never exchanged, which is what keeps
      such sorts stable. */
  ghost predicate ExchangesInversion(before: seq<int>, after: seq<int>, s: Step, j: int, ascending: bool)
  {
    && 0 <= j && j + 1 < |before|
    && !InOrder(before[j], before[j + 1], ascending)
    && after == before[j := before[j + 1]][j + 1 := before[j]]
    && s.highlights == map[j := Yellow, j + 1 := Yellow]
  }

  /** Write step `s` exchanged the values at two indices it highlights. */
  ghost predicate ExchangesPair(before: seq<int>, after: seq<int>, s: Step, i: int, j: int)
  {
    && 0 <= i < |before| && 0 <= j < |before|
    && i in s.highlights && j in s.highlights
    && after == before[i := before[j]][j := before[i]]
  }

  /** What the write steps of a procedure may do: store anything into the
      indices they highlight (merge and counting sort), exchange two of them
      (selection, quick and heap sort), or only exchange an out-of-order pair
      of neighbours under the direction flag (bubble and insertion sort). */
  datatype Discipline = AnyWrite | Exchange | NeighbourExchange(ascending: bool)

  /** The value at index `x`; kept as a function of its own so that facts
      about untouched indices are used only where they are asked for. */
  ghost function At(buf: seq<int>, x: int): int
    requires 0 <= x < |buf|
  {
    buf[x]
  }

  /** Step `s`, yielded while the buffer holds `after` when the previous step
      left it holding `before`, is honest: it is well formed, only a write step
      may have changed the buffer since the previous step, a write changes only
      indices it highlights, and an index outside the buffer is highlighted only
      with the `Absent` role; under `Exchange` a write is one exchange of two
      highlighted indices, under `NeighbourExchange` of an out-of-order pair
      of neighbours. */
  ghost predicate Reports(before: seq<int>, after: seq<int>, s: Step, d: Discipline)
  {
    && WellFormed(s)
    && |after| == |before|
    && (!IsWrite(s) ==> after == before)
    && (forall x :: 0 <= x < |before| && x !in s.highlights ==> At(after, x) == At(before, x))
    && (forall x :: x in s.highlights && !(0 <= x < |before|) ==> s.highlights[x] == Absent)
    && (d.Exchange? && IsWrite(s) ==> exists i, j :: ExchangesPair(before, after, s, i, j))
    && (d.NeighbourExchange? && IsWrite(s) ==> exists j :: ExchangesInversion(before, after, s, j, d.ascending))
  }

  /** The buffer as the step before step `k` left it. */
  ghost function Prior(init: seq<int>, states: seq<seq<int>>, k: nat): seq<int>
    requires k <= |states|
  {
    if k == 0 then init else states[k - 1]
  }

  /** The buffer as the last recorded step left it. */
  ghost function Current(init: seq<int>, states: seq<seq<int>>): seq<int>
  {
    Prior(init, states, |states|)
  }

  /** Step `k` of a run from `init` reports honestly on the buffer the step
      before it left. */
  ghost predicate Honest(init: seq<int>, trace: seq<Step>, states: seq<seq<int>>, d: Discipline, k: nat)
    requires k < |trace| == |states|
  {
    Reports(Prior(init, states, k), states[k], trace[k], d)
  }

  /** `states[k]` is the buffer at the moment `trace[k]` was yielded, in a run
      that started from `init`, and every step is honest. */
  ghost predicate Recorded(init: seq<int>, trace: seq<Step>, states: seq<seq<int>>, d: Discipline)
  {
    |states| == |trace| &&
    forall k :: 0 <= k < |trace| ==> Honest(init, trace, states, d, k)
  }

  lemma {:induction false} CountsAppend(t: seq<Step>, s: Step)
    ensures Comparisons(t + [s]) == Comparisons(t) + s.comps
    ensures Swaps(t + [s]) == Swaps(t) + s.swaps
  {
    assert (t + [s])[..|t|] == t;
  }

  /** Yielding one more honest step extends a recorded run. */
  lemma {:induction false} Emitted(init: seq<int>, trace: seq<Step>, states: seq<seq<int>>, s: Step, now: seq<int>, d: Discipline)
    requires Recorded(init, trace, states, d)
    requires Reports(Current(init, states), now, s, d)
    ensures Recorded(init, trace + [s], states + [now], d)
    ensures Current(init, states + [now]) == now
    ensures Comparisons(trace + [s]) == Comparisons(trace) + s.comps
    ensures Swaps(trace + [s]) == Swaps(trace) + s.swaps
  {
    CountsAppend(trace, s);
    var states' := states + [now];
    forall k | 0 <= k < |trace| + 1
      ensures Honest(init, trace + [s], states', d, k)
    {
      if k < |trace| {
        assert Prior(init, states', k) == Prior(init, states, k);
        assert states'[k] == states[k] && (trace + [s])[k] == trace[k];
        assert Honest(init, trace, states, d, k);
      } else {
        assert Prior(init, states', k) == Current(init, states);
        assert states'[k] == now && (trace + [s])[k] == s;
      }
    }
  }

  /** Totals of a concatenated trace are the sums of the parts' totals. */
  lemma {:induction false} CountsConcat(t1: seq<Step>, t2: seq<Step>)
    ensures Comparisons(t1 + t2) == Comparisons(t1) + Comparisons(t2)
    ensures Swaps(t1 + t2) == Swaps(t1) + Swaps(t2)
    decreases |t2|
  {
    if t2 == [] {
      assert t1 + t2 == t1;
    } else {
      var t2' := t2[..|t2| - 1];
      CountsConcat(t1, t2');
      assert (t1 + t2)[..|t1 + t2| - 1] == t1 + t2';
    }
  }

  /** A sub-procedure's recorded run, started where the parent's left off,
      continues the parent's recorded run (the `yield from` of the source). */
  lemma {:induction false} Chained(init: seq<int>, t1: seq<Step>, s1: seq<seq<int>>, t2: seq<Step>, s2: seq<seq<int>>, d: Discipline)
    requires Recorded(init, t1, s1, d)
    requires Recorded(Current(init, s1), t2, s2, d)
    ensures Recorded(init, t1 + t2, s1 + s2, d)
    ensures Current(init, s1 + s2) == Current(Current(init, s1), s2)
    ensures Comparisons(t1 + t2) == Comparisons(t1) + Comparisons(t2)
    ensures Swaps(t1 + t2) == Swaps(t1) + Swaps(t2)
  {
    CountsConcat(t1, t2);
    var mid := Current(init, s1);
    forall k | 0 <= k < |t1| + |t2|
      ensures Honest(init, t1 + t2, s1 + s2, d, k)
    {
      if k < |t1| {
        assert Prior(init, s1 + s2, k) == Prior(init, s1, k);
        assert (s1 + s2)[k] == s1[k] && (t1 + t2)[k] == t1[k];
        assert Honest(init, t1, s1, d, k);
      } else {
        assert Prior(init, s1 + s2, k) == Prior(mid, s2, k - |t1|);
        assert (s1 + s2)[k] == s2[k - |t1|] && (t1 + t2)[k] == t2[k - |t1|];
        assert Honest(mid, t2, s2, d, k - |t1|);
      }
    }
  }

  /** After passes `0 .. i - 1` over `n` values, pass `i` of which compares
      `n - 1 - i` times, the comparisons so far are the pairs of `n` values
      minus the pairs of the `n - i` values still to go. */
  lemma PassCounted(t: seq<Step>, more: seq<Step>, n: nat, i: nat)
    requires i < n
    requires Comparisons(t) == Pairs(n) - Pairs(n - i) && Comparisons(more) == n - 1 - i
    ensures Comparisons(t + more) == Pairs(n) - Pairs(n - (i + 1))
  {
    CountsConcat(t, more);
  }

  /** Since no step counts both a comparison and a swap, the two totals
      together never exceed the number of steps. */
  lemma {:induction false} TotalsBoundedBySteps(t: seq<Step>)
    requires forall k :: 0 <= k < |t| ==> WellFormed(t[k])
    ensures Comparisons(t) + Swaps(t) <= |t|
    decreases |t|
  {
    if t != [] {
      TotalsBoundedBySteps(t[..|t| - 1]);
    }
  }

  /** The totals after the first `k` steps never exceed the totals after the
      whole trace: the driver's counters only grow. */
  lemma {:induction false} TotalsMonotone(t: seq<Step>, k: nat)
    requires k <= |t|
    ensures Comparisons(t[..k]) <= Comparisons(t)
    ensures Swaps(t[..k]) <= Swaps(t)
    decreases |t|
  {
    if k < |t| {
      TotalsMonotone(t[..|t| - 1], k);
      assert t[..|t| - 1][..k] == t[..k];
    } else {
      assert t[..k] == t;
    }
  }

  /** Yielding a step that writes nothing, highlighting indices inside the
      buffer or marked `Absent`, extends a recorded run and leaves the buffer
      as it was. */
  lemma Looked(init: seq<int>, trace: seq<Step>, states: seq<seq<int>>, s: Step, d: Discipline)
    requires Recorded(init, trace, states, d)
    requires IsComparison(s) || IsView(s)
    requires forall x :: x in s.highlights && !(0 <= x < |Current(init, states)|) ==> s.highlights[x] == Absent
    ensures Recorded(init, trace + [s], states + [Current(init, states)], d)
    ensures Current(init, states + [Current(init, states)]) == Current(init, states)
    ensures Comparisons(trace + [s]) == Comparisons(trace) + s.comps
    ensures Swaps(trace + [s]) == Swaps(trace) + s.swaps
  {
    var now := Current(init, states);
    assert Reports(now, now, s, d);
    Emitted(init, trace, states, s, now, d);
  }

  /** A write step that exchanges two indices it highlights reports honestly. */
  lemma ExchangeReports(before: seq<int>, after: seq<int>, s: Step, i: int, j: int)
    requires IsWrite(s)
    requires ExchangesPair(before, after, s, i, j)
    requires forall x :: x in s.highlights ==> 0 <= x < |before|
    ensures Reports(before, after, s, Exchange)
  {
  }

  /** A write step that stores into one index it highlights reports honestly. */
  lemma StoreReports(before: seq<int>, after: seq<int>, s: Step, i: int, v: int)
    requires IsWrite(s)
    requires 0 <= i < |before| && i in s.highlights
    requires forall x :: x in s.highlights ==> 0 <= x < |before|
    requires after == before[i := v]
    ensures Reports(before, after, s, AnyWrite)
  {
  }

  /** A write step that exchanges an out-of-order pair of neighbours, and
      highlights exactly them, reports honestly under either discipline. */
  lemma NeighbourExchangeReports(before: seq<int>, after: seq<int>, s: Step, j: int, ascending: bool)
    requires IsWrite(s)
    requires ExchangesInversion(before, after, s, j, ascending)
    ensures Reports(before, after, s, NeighbourExchange(ascending))
  {
  }

  /** One honest step of a procedure whose writes are exchanges permutes the
      buffer. */
  lemma ExchangeStepPermutes(before: seq<int>, after: seq<int>, s: Step, d: Discipline)
    requires !d.AnyWrite? && Reports(before, after, s, d)
    ensures multiset(after) == multiset(before)
  {
    if IsWrite(s) {
      if d.Exchange? {
        var i, j :| ExchangesPair(before, after, s, i, j);
        ExchangePermutes(before, i, j);
      } else {
        var j :| ExchangesInversion(before, after, s, j, d.ascending);
        ExchangePermutes(before, j, j + 1);
      }
    }
  }

  /** A run whose every write exchanges two values holds, after any number
      of its steps, a permutation of the buffer it started from. */
  lemma {:induction false} ExchangesPermuteUpTo(init: seq<int>, trace: seq<Step>, states: seq<seq<int>>, d: Discipline, k: nat)
    requires !d.AnyWrite? && Recorded(init, trace, states, d)
    requires k <= |trace|
    ensures multiset(Prior(init, states, k)) == multiset(init)
  {
    if k > 0 {
      ExchangesPermuteUpTo(init, trace, states, d, k - 1);
      assert Honest(init, trace, states, d, k - 1);
      ExchangeStepPermutes(Prior(init, states, k - 1), states[k - 1], trace[k - 1], d);
    }
  }

  /** A run whose every write exchanges two values permutes the buffer. */
  lemma ExchangesPermute(init: seq<int>, trace: seq<Step>, states: seq<seq<int>>, d: Discipline)
    requires !d.AnyWrite? && Recorded(init, trace, states, d)
    ensures multiset(Current(init, states)) == multiset(init)
  {
    ExchangesPermuteUpTo(init, trace, states, d, |trace|);
  }

  /** Exchanges `a[i]` and `a[j]` (the source's tuple assignment) and
      records the write step `s` that reports it, extending a run that
      exchanges only. */
  method Swap(a: array<int>, i: int, j: int, s: Step, ghost init: seq<int>, ghost trace: seq<Step>, ghost states: seq<seq<int>>) returns (ghost states': seq<seq<int>>)
    requires 0 <= i < a.Length && 0 <= j < a.Length
    requires IsWrite(s) && i in s.highlights && j in s.highlights
    requires forall x :: x in s.highlights ==> 0 <= x < a.Length
    requires Recorded(init, trace, states, Exchange) && Current(init, states) == a[..]
    modifies a
    ensures a[..] == old(a[..])[i := old(a[j])][j := old(a[i])]
    ensures Recorded(init, trace + [s], states', Exchange) && Current(init, states') == a[..]
    ensures Comparisons(trace + [s]) == Comparisons(trace) && Swaps(trace + [s]) == Swaps(trace) + 1
  {
    a[i], a[j] := a[j], a[i];
    assert ExchangesPair(old(a[..]), a[..], s, i, j);
    ExchangeReports(old(a[..]), a[..], s, i, j);
    Emitted(init, trace, states, s, a[..], Exchange);
    states' := states + [a[..]];
  }

  /** Stores `v` into `a[i]` and records the write step `s` that reports it. */
  method Store(a: array<int>, i: int, v: int, s: Step, ghost init: seq<int>, ghost trace: seq<Step>, ghost states: seq<seq<int>>) returns (ghost states': seq<seq<int>>)
    requires 0 <= i < a.Length
    requires IsWrite(s) && i in s.highlights
    requires forall x :: x in s.highlights ==> 0 <= x < a.Length
    requires Recorded(init, trace, states, AnyWrite) && Current(init, states) == a[..]
    modifies a
    ensures a[..] == old(a[..])[i := v]
    ensures Recorded(init, trace + [s], states', AnyWrite) && Current(init, states') == a[..]
    ensures Comparisons(trace + [s]) == Comparisons(trace) && Swaps(trace + [s]) == Swaps(trace) + 1
  {
    a[i] := v;
    StoreReports(old(a[..]), a[..], s, i, v);
    Emitted(init, trace, states, s, a[..], AnyWrite);
    states' := states + [a[..]];
  }

  /** The driver's counters: reset to zero when a run starts, then each yielded
      step's increments are added in turn. */
  method Tally(trace: seq<Step>) returns (comps: nat, swaps: nat)
    ensures comps == Comparisons(trace) && swaps == Swaps(trace)
  {
    comps, swaps := 0, 0;
    var k := 0;
    while k < |trace|
      invariant 0 <= k <= |trace|
      invariant comps == Comparisons(trace[..k]) && swaps == Swaps(trace[..k])
    {
      assert trace[..k + 1][..k] == trace[..k];
      comps := comps + trace[k].comps;
      swaps := swaps + trace[k].swaps;
      k := k + 1;
    }
    assert trace[..k] == trace;
  }
}
