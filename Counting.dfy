/** Counting sort: the values are tallied per value between the least and
    the greatest, the tallies are accumulated towards the end of the output
    that the direction flag puts last, each value is placed into an output
    buffer by a scan from the back, and the output is copied over the buffer. */
module Counting {
  import opened Steps
  import opened Ordering

  /** The least value of a non-empty sequence (the source's `min`). */
  function Least(s: seq<int>): (m: int)
    requires s != []
    ensures m in s && forall k :: 0 <= k < |s| ==> m <= s[k]
  {
    if |s| == 1 then s[0]
    else
      var m := Least(s[..|s| - 1]);
      assert m in s[..|s| - 1];
      if s[|s| - 1] < m then s[|s| - 1] else m
  }

  /** The greatest value of a non-empty sequence (the source's `max`). */
  function Greatest(s: seq<int>): (m: int)
    requires s != []
    ensures m in s && forall k :: 0 <= k < |s| ==> s[k] <= m
  {
    if |s| == 1 then s[0]
    else
      var m := Greatest(s[..|s| - 1]);
      assert m in s[..|s| - 1];
      if s[|s| - 1] > m then s[|s| - 1] else m
  }

  /** Every value of `s` has a tally slot: it lies in `lo .. lo + size - 1`. */
  ghost predicate Within(s: seq<int>, lo: int, size: int)
  {
    forall k :: 0 <= k < |s| ==> lo <= s[k] < lo + size
  }

  /** How many values of `s` equal `x`. */
  ghost function Occ(s: seq<int>, x: int): nat
  {
    if s == [] then 0 else Occ(s[..|s| - 1], x) + if s[|s| - 1] == x then 1 else 0
  }

  /** How many values of `s` strictly precede `x` under the flag: in the
      sorted output, the index of the first copy of `x`. */
  ghost function Rank(s: seq<int>, x: int, ascending: bool): nat
  {
    if s == [] then 0 else Rank(s[..|s| - 1], x, ascending) + if !InOrder(x, s[|s| - 1], ascending) then 1 else 0
  }

  /** How many values of `s` may stand at or before `x`: in the sorted
      output, one past the index of the last copy of `x`. */
  ghost function End(s: seq<int>, x: int, ascending: bool): nat
  {
    Rank(s, x, ascending) + Occ(s, x)
  }

  lemma {:induction false} OccMultiset(s: seq<int>, x: int)
    ensures Occ(s, x) == multiset(s)[x]
    decreases |s|
  {
    if s != [] {
      OccMultiset(s[..|s| - 1], x);
      assert s == s[..|s| - 1] + [s[|s| - 1]];
    }
  }

  /** Copies of `x` are counted once whatever prefix they end. */
  lemma {:induction false} OccPrefix(s: seq<int>, i: int, x: int)
    requires 0 <= i <= |s|
    ensures Occ(s[..i], x) <= Occ(s, x)
    decreases |s| - i
  {
    if i < |s| {
      OccPrefix(s, i + 1, x);
      assert s[..i + 1][..i] == s[..i];
    } else {
      assert s[..i] == s;
    }
  }

  /** The value after `x` in the flag's order starts where `x` ends. */
  lemma {:induction false} RankNext(s: seq<int>, x: int, y: int, ascending: bool)
    requires y == if ascending then x + 1 else x - 1
    ensures Rank(s, y, ascending) == End(s, x, ascending)
    decreases |s|
  {
    if s != [] {
      RankNext(s[..|s| - 1], x, y, ascending);
    }
  }

  /** Nothing precedes a value that may stand before every value of `s`. */
  lemma {:induction false} RankNone(s: seq<int>, x: int, ascending: bool)
    requires forall k :: 0 <= k < |s| ==> InOrder(x, s[k], ascending)
    ensures Rank(s, x, ascending) == 0
    decreases |s|
  {
    if s != [] {
      RankNone(s[..|s| - 1], x, ascending);
    }
  }

  /** Everything stands at or before a value that no value of `s` belongs
      after. */
  lemma {:induction false} EndAll(s: seq<int>, x: int, ascending: bool)
    requires forall k :: 0 <= k < |s| ==> InOrder(s[k], x, ascending)
    ensures End(s, x, ascending) == |s|
    decreases |s|
  {
    if s != [] {
      EndAll(s[..|s| - 1], x, ascending);
    }
  }

  lemma {:induction false} EndBound(s: seq<int>, x: int, ascending: bool)
    ensures End(s, x, ascending) <= |s|
    decreases |s|
  {
    if s != [] {
      EndBound(s[..|s| - 1], x, ascending);
    }
  }

  /** The copies of `x` come no later than the first copy of a value `y`
      that `x` strictly precedes: distinct values get disjoint slots. */
  lemma {:induction false} RankMono(s: seq<int>, x: int, y: int, ascending: bool)
    requires !InOrder(y, x, ascending)
    ensures End(s, x, ascending) <= Rank(s, y, ascending)
    decreases |s|
  {
    if s != [] {
      RankMono(s[..|s| - 1], x, y, ascending);
    }
  }

  /** A sequence holds exactly `e - b` copies of `x` when those are the
      indices `b .. e - 1`; stated for each prefix of length `m`. */
  lemma {:induction false} OccRun(o: seq<int>, x: int, b: int, e: int, m: int)
    requires 0 <= b <= e <= |o| && 0 <= m <= |o|
    requires forall p :: 0 <= p < |o| ==> (o[p] == x <==> b <= p < e)
    ensures Occ(o[..m], x) == if m <= b then 0 else if m <= e then m - b else e - b
    decreases m
  {
    if m > 0 {
      OccRun(o, x, b, e, m - 1);
      assert o[..m][..m - 1] == o[..m - 1];
    }
  }

  /** Every value `x` with a tally slot fills the indices `Rank .. End - 1`
      of `o`: its slots in the sorted output. */
  ghost predicate Blocks(s: seq<int>, lo: int, size: int, o: seq<int>, ascending: bool)
  {
    forall x, p :: lo <= x < lo + size && Rank(s, x, ascending) <= p < End(s, x, ascending) && 0 <= p < |o| ==> o[p] == x
  }

  /** Every index of the output lies in the slots of the value it holds:
      walking from `x` towards the first value of the flag's order, the
      slots of the values met cover `0 .. End(s, x) - 1`. */
  lemma {:induction false} Covered(s: seq<int>, lo: int, size: int, o: seq<int>, x: int, p: int, ascending: bool)
    requires |o| == |s| && Within(s, lo, size) && Blocks(s, lo, size, o, ascending)
    requires lo <= x < lo + size && 0 <= p < End(s, x, ascending) && p < |o|
    ensures lo <= o[p] < lo + size && Rank(s, o[p], ascending) <= p < End(s, o[p], ascending)
    decreases if ascending then x - lo else lo + size - x
  {
    EndBound(s, x, ascending);
    if p >= Rank(s, x, ascending) {
      assert o[p] == x;
    } else {
      var y := if ascending then x - 1 else x + 1;
      if !(lo <= y < lo + size) {
        RankNone(s, x, ascending);
        assert false;
      }
      RankNext(s, y, x, ascending);
      Covered(s, lo, size, o, y, p, ascending);
    }
  }

  /** An output that gives every value its slots is the buffer sorted: it is
      ordered, and it holds each value as often as the buffer does. */
  lemma BlocksSorted(s: seq<int>, lo: int, size: int, o: seq<int>, ascending: bool)
    requires |o| == |s| && 0 < size && Within(s, lo, size) && Blocks(s, lo, size, o, ascending)
    ensures Sorted(o, ascending) && multiset(o) == multiset(s)
  {
    var last := if ascending then lo + size - 1 else lo;
    EndAll(s, last, ascending);
    forall p | 0 <= p < |o|
      ensures lo <= o[p] < lo + size && Rank(s, o[p], ascending) <= p < End(s, o[p], ascending)
    {
      Covered(s, lo, size, o, last, p, ascending);
    }
    forall p, q | 0 <= p < q < |o| ensures InOrder(o[p], o[q], ascending) {
      if !InOrder(o[p], o[q], ascending) {
        RankMono(s, o[q], o[p], ascending);
      }
    }
    forall x ensures multiset(o)[x] == multiset(s)[x] {
      OccMultiset(o, x);
      OccMultiset(s, x);
      if lo <= x < lo + size {
        EndBound(s, x, ascending);
        OccRun(o, x, Rank(s, x, ascending), End(s, x, ascending), |o|);
        assert o[..|o|] == o;
      } else {
        assert x !in s && x !in o;
      }
    }
  }

  /** Midway through the placement scan, before index `i - 1` is placed:
      each tally is the start of its value's slots plus the copies of the
      value still to place, those in `s[..i]`. */
  ghost predicate Pending(s: seq<int>, lo: int, count: seq<int>, i: int, ascending: bool)
    requires 0 <= i <= |s|
  {
    forall v :: 0 <= v < |count| ==> count[v] == Rank(s, lo + v, ascending) + Occ(s[..i], lo + v)
  }

  /** The slots of each value from its tally on are filled with it. */
  ghost predicate Filled(s: seq<int>, lo: int, count: seq<int>, o: seq<int>, ascending: bool)
  {
    forall v, p :: 0 <= v < |count| && count[v] <= p < End(s, lo + v, ascending) && 0 <= p < |o| ==> o[p] == lo + v
  }

  /** Once every value is placed, each tally is back at the start of its
      value's slots, and all slots are filled. */
  lemma Finished(s: seq<int>, lo: int, count: seq<int>, o: seq<int>, ascending: bool)
    requires Pending(s, lo, count, 0, ascending) && Filled(s, lo, count, o, ascending)
    ensures Blocks(s, lo, |count|, o, ascending)
  {
    assert s[..0] == [];
    forall x, p | lo <= x < lo + |count| && Rank(s, x, ascending) <= p < End(s, x, ascending) && 0 <= p < |o|
      ensures o[p] == x
    {
      var v := x - lo;
      assert lo + v == x;
      assert count[v] == Rank(s, x, ascending) + Occ(s[..0], x);
      assert Occ(s[..0], x) == 0;
    }
  }

  /** The index the scan copied `s[i]` to is the last free slot of its
      value. */
  lemma Slot(s: seq<int>, lo: int, count: seq<int>, i: int, ascending: bool)
    requires 0 <= i < |s| && Within(s, lo, |count|) && Pending(s, lo, count, i + 1, ascending)
    ensures Rank(s, s[i], ascending) <= count[s[i] - lo] - 1 < End(s, s[i], ascending) <= |s|
  {
    var v := s[i] - lo;
    assert lo + v == s[i];
    assert s[..i + 1][..i] == s[..i];
    OccPrefix(s, i + 1, s[i]);
    EndBound(s, s[i], ascending);
  }

  /** Placing `s[i]` into the last free slot of its value and lowering its
      tally keeps the placement invariant. */
  lemma {:induction false} PlaceStep(s: seq<int>, lo: int, count: seq<int>, o: seq<int>, count': seq<int>, o': seq<int>, i: int, ascending: bool)
    requires 0 <= i < |s| == |o| && Within(s, lo, |count|)
    requires Pending(s, lo, count, i + 1, ascending) && Filled(s, lo, count, o, ascending)
    requires Rank(s, s[i], ascending) <= count[s[i] - lo] - 1 < End(s, s[i], ascending) <= |s|
    requires count' == count[s[i] - lo := count[s[i] - lo] - 1]
    requires o' == o[count[s[i] - lo] - 1 := s[i]]
    ensures Pending(s, lo, count', i, ascending) && Filled(s, lo, count', o', ascending)
  {
    var x := s[i];
    var idx := count[x - lo] - 1;
    assert s[..i + 1][..i] == s[..i];
    forall v, p | 0 <= v < |count'| && count'[v] <= p < End(s, lo + v, ascending) && 0 <= p < |o'|
      ensures o'[p] == lo + v
    {
      if lo + v == x {
        if p != idx {
          assert o[p] == lo + v;
        }
      } else {
        if InOrder(lo + v, x, ascending) {
          RankMono(s, lo + v, x, ascending);
        } else {
          RankMono(s, x, lo + v, ascending);
        }
        assert o[p] == lo + v;
      }
    }
  }

  /** Step `k` of `t` is a read step marking index `k`: a scan front to
      back. */
  predicate ReadsUp(t: seq<Step>)
  {
    forall k :: 0 <= k < |t| ==> t[k] == Step(map[k := Red], 0, 0)
  }

  /** Step `k` of `t` is a read step marking index `top - k`: a scan back to
      front from `top`. */
  predicate ReadsDown(t: seq<Step>, top: int)
  {
    forall k :: 0 <= k < |t| ==> t[k] == Step(map[top - k := Red], 0, 0)
  }

  /** One round of the tallying pass: the copy of `a[i]` is added to the
      tally of its value. */
  method Count(a: array<int>, count: array<int>, lo: int, i: int)
    requires count != a && 0 <= i < a.Length && Within(a[..], lo, count.Length)
    requires forall v :: 0 <= v < count.Length ==> count[v] == Occ(a[..i], lo + v)
    modifies count
    ensures forall v :: 0 <= v < count.Length ==> count[v] == Occ(a[..i + 1], lo + v)
  {
    assert a[..i + 1][..i] == a[..i];
    count[a[i] - lo] := count[a[i] - lo] + 1;
  }

  /** The tallying pass: one read step per index, front to back, while
      `count[v]` collects the copies of `lo + v`. The buffer is only read. */
  method Histogram(a: array<int>, lo: int, size: int) returns (count: array<int>, steps: seq<Step>, ghost states: seq<seq<int>>)
    requires 0 < size && Within(a[..], lo, size)
    ensures fresh(count) && count.Length == size
    ensures forall v :: 0 <= v < size ==> count[v] == Occ(a[..], lo + v)
    ensures Recorded(a[..], steps, states, AnyWrite) && Current(a[..], states) == a[..]
    ensures Comparisons(steps) == 0 && Swaps(steps) == 0 && |steps| == a.Length
    ensures ReadsUp(steps)
  {
    count := new int[size](_ => 0);
    steps, states := [], [];
    var i := 0;
    while i < a.Length
      invariant 0 <= i <= a.Length
      invariant forall v :: 0 <= v < size ==> count[v] == Occ(a[..i], lo + v)
      invariant Recorded(a[..], steps, states, AnyWrite) && Current(a[..], states) == a[..]
      invariant Comparisons(steps) == 0 && Swaps(steps) == 0 && |steps| == i
      invariant ReadsUp(steps)
    {
      var read := Step(map[i := Red], 0, 0);
      Looked(a[..], steps, states, read, AnyWrite);
      steps, states := steps + [read], states + [a[..]];
      Count(a, count, lo, i);
      i := i + 1;
    }
    assert a[..i] == a[..];
  }

  /** Accumulates the tallies towards the end the flag puts last: prefix
      sums when ascending, suffix sums otherwise, so that `count[v]` becomes
      the number of values that may stand at or before `lo + v`. */
  method Accumulate(count: array<int>, lo: int, ghost s: seq<int>, ascending: bool)
    requires 0 < count.Length && Within(s, lo, count.Length)
    requires forall v :: 0 <= v < count.Length ==> count[v] == Occ(s, lo + v)
    modifies count
    ensures forall v :: 0 <= v < count.Length ==> count[v] == End(s, lo + v, ascending)
  {
    var size := count.Length;
    if ascending {
      RankNone(s, lo, true);
      var i := 1;
      while i < size
        invariant 1 <= i <= size
        invariant forall v :: 0 <= v < i ==> count[v] == End(s, lo + v, true)
        invariant forall v :: i <= v < size ==> count[v] == Occ(s, lo + v)
      {
        ghost var x, y := lo + (i - 1), lo + i;
        RankNext(s, x, y, true);
        count[i] := count[i] + count[i - 1];
        i := i + 1;
      }
    } else {
      RankNone(s, lo + (size - 1), false);
      var i := size - 2;
      while i >= 0
        invariant -1 <= i <= size - 2
        invariant forall v :: i < v < size ==> count[v] == End(s, lo + v, false)
        invariant forall v :: 0 <= v <= i ==> count[v] == Occ(s, lo + v)
      {
        ghost var x, y := lo + (i + 1), lo + i;
        RankNext(s, x, y, false);
        count[i] := count[i] + count[i + 1];
        i := i - 1;
      }
    }
  }

  /** One round of the placement scan: `a[i]` goes to the last free slot of
      its value in `output`, and its tally drops by one. */
  method PlaceValue(a: array<int>, count: array<int>, output: array<int>, lo: int, i: int, ascending: bool)
    requires count != a && output != a && output != count
    requires 0 <= i < a.Length == output.Length && Within(a[..], lo, count.Length)
    requires Pending(a[..], lo, count[..], i + 1, ascending) && Filled(a[..], lo, count[..], output[..], ascending)
    modifies count, output
    ensures Pending(a[..], lo, count[..], i, ascending) && Filled(a[..], lo, count[..], output[..], ascending)
  {
    var x := a[i];
    Slot(a[..], lo, count[..], i, ascending);
    var idx := count[x - lo] - 1;
    ghost var before, out := count[..], output[..];
    output[idx] := x;
    count[x - lo] := count[x - lo] - 1;
    PlaceStep(a[..], lo, before, out, count[..], output[..], i, ascending);
  }

  /** The placement scan, back to front: each value goes to the last free
      slot of its value in a fresh output buffer, then a read step marks its
      index. The buffer is only read. */
  method Place(a: array<int>, count: array<int>, lo: int, ascending: bool) returns (output: array<int>, steps: seq<Step>, ghost states: seq<seq<int>>)
    requires count != a && 0 < count.Length && Within(a[..], lo, count.Length)
    requires forall v :: 0 <= v < count.Length ==> count[v] == End(a[..], lo + v, ascending)
    modifies count
    ensures fresh(output) && output.Length == a.Length
    ensures Blocks(a[..], lo, count.Length, output[..], ascending)
    ensures Recorded(a[..], steps, states, AnyWrite) && Current(a[..], states) == a[..]
    ensures Comparisons(steps) == 0 && Swaps(steps) == 0 && |steps| == a.Length
    ensures ReadsDown(steps, a.Length - 1)
  {
    ghost var s := a[..];
    output := new int[a.Length](_ => 0);
    steps, states := [], [];
    assert s[..a.Length] == s;
    var i := a.Length - 1;
    while i >= 0
      invariant -1 <= i < a.Length
      invariant a[..] == s
      invariant Pending(s, lo, count[..], i + 1, ascending) && Filled(s, lo, count[..], output[..], ascending)
      invariant Recorded(s, steps, states, AnyWrite) && Current(s, states) == s
      invariant Comparisons(steps) == 0 && Swaps(steps) == 0 && |steps| == a.Length - 1 - i
      invariant ReadsDown(steps, a.Length - 1)
    {
      PlaceValue(a, count, output, lo, i, ascending);
      var read := Step(map[i := Red], 0, 0);
      Looked(s, steps, states, read, AnyWrite);
      steps, states := steps + [read], states + [s];
      i := i - 1;
    }
    Finished(s, lo, count[..], output[..], ascending);
  }

  /** Copies the output over the buffer, front to back, with one write step
      per index. */
  method WriteOut(a: array<int>, output: array<int>) returns (steps: seq<Step>, ghost states: seq<seq<int>>)
    requires output != a && output.Length == a.Length
    modifies a
    ensures a[..] == output[..]
    ensures Recorded(old(a[..]), steps, states, AnyWrite) && Current(old(a[..]), states) == a[..]
    ensures Comparisons(steps) == 0 && Swaps(steps) == a.Length && |steps| == a.Length
    ensures WritesFrom(steps, 0)
  {
    ghost var init := a[..];
    steps, states := [], [];
    var i := 0;
    while i < a.Length
      invariant 0 <= i <= a.Length
      invariant forall k :: 0 <= k < i ==> a[k] == output[k]
      invariant Recorded(init, steps, states, AnyWrite) && Current(init, states) == a[..]
      invariant Comparisons(steps) == 0 && Swaps(steps) == i && |steps| == i
      invariant WritesFrom(steps, 0)
    {
      var write := Step(map[i := Green], 0, 1);
      states := Store(a, i, output[i], write, init, steps, states);
      steps := steps + [write];
      i := i + 1;
    }
  }

  /** The runs of the three scans, each started from the buffer `s`, which
      the two reading scans leave alone, form one recorded run: reads front to
      back, reads back to front, then writes front to back. */
  lemma {:induction false} Phases(s: seq<int>, tallied: seq<Step>, r1: seq<seq<int>>, placed: seq<Step>, r2: seq<seq<int>>, copied: seq<Step>, r3: seq<seq<int>>, n: int)
    requires Recorded(s, tallied, r1, AnyWrite) && Current(s, r1) == s
    requires Recorded(s, placed, r2, AnyWrite) && Current(s, r2) == s
    requires Recorded(s, copied, r3, AnyWrite)
    requires Comparisons(tallied) == 0 && Swaps(tallied) == 0 && |tallied| == n
    requires Comparisons(placed) == 0 && Swaps(placed) == 0 && |placed| == n
    requires Comparisons(copied) == 0 && Swaps(copied) == n && |copied| == n
    requires ReadsUp(tallied) && ReadsDown(placed, n - 1) && WritesFrom(copied, 0)
    ensures var t, r := tallied + placed + copied, r1 + r2 + r3;
      && Recorded(s, t, r, AnyWrite) && Current(s, r) == Current(s, r3)
      && Comparisons(t) == 0 && Swaps(t) == n && |t| == 3 * n
      && ReadsUp(t[..n]) && ReadsDown(t[n..2 * n], n - 1) && WritesFrom(t[2 * n..], 0)
  {
    Chained(s, tallied, r1, placed, r2, AnyWrite);
    Chained(s, tallied + placed, r1 + r2, copied, r3, AnyWrite);
    var t := tallied + placed + copied;
    assert t[..n] == tallied && t[n..2 * n] == placed && t[2 * n..] == copied;
  }

  /** Sorts `a`: an empty buffer yields nothing; otherwise `n` read steps
      while tallying, `n` read steps while placing and `n` write steps while
      copying back, and no comparison at all. */
  method CountingSort(a: array<int>, ascending: bool) returns (trace: seq<Step>, ghost states: seq<seq<int>>)
    modifies a
    ensures Sorted(a[..], ascending)
    ensures multiset(a[..]) == multiset(old(a[..]))
    ensures Recorded(old(a[..]), trace, states, AnyWrite) && Current(old(a[..]), states) == a[..]
    ensures Comparisons(trace) == 0 && Swaps(trace) == a.Length && |trace| == 3 * a.Length
    ensures ReadsUp(trace[..a.Length]) && ReadsDown(trace[a.Length..2 * a.Length], a.Length - 1) && WritesFrom(trace[2 * a.Length..], 0)
  {
    trace, states := [], [];
    if a.Length == 0 {
      return;
    }
    ghost var s := a[..];
    var lo, hi := Least(a[..]), Greatest(a[..]);
    var size := hi - lo + 1;
    var count, tallied;
    ghost var readStates;
    count, tallied, readStates := Histogram(a, lo, size);
    Accumulate(count, lo, a[..], ascending);
    var output, placed;
    ghost var placeStates;
    output, placed, placeStates := Place(a, count, lo, ascending);
    BlocksSorted(s, lo, size, output[..], ascending);
    var copied;
    ghost var writeStates;
    copied, writeStates := WriteOut(a, output);
    Phases(s, tallied, readStates, placed, placeStates, copied, writeStates, a.Length);
    trace, states := tallied + placed + copied, readStates + placeStates + writeStates;
  }
}
