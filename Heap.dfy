/** Heap sort: a binary heap is built over the whole buffer by sifting down
    every inner node from the last one, then the top of the heap is
    repeatedly exchanged to the end of the shrinking heap and the new root
    is sifted down. Under the descending flag the heap is a min-heap. */
module Heap {
  import opened Steps
  import opened Ordering

  /** The children and the parent of a node of the implicit binary tree. */
  function Left(k: int): int { 2 * k + 1 }
  function Right(k: int): int { 2 * k + 2 }
  function Parent(k: int): int { (k - 1) / 2 }

  /** How many children of `k` lie inside the heap of size `n`. */
  function Kids(k: int, n: int): nat
  {
    (if Left(k) < n then 1 else 0) + (if Right(k) < n then 1 else 0)
  }

  /** The node view step that opens a sift-down of `k`: the node is marked,
      and each child is marked for comparison when it lies inside the heap
      of size `n` and with the `Absent` marker otherwise. */
  function NodeView(k: int, n: int): Step
  {
    Step(map[k := Blue][Left(k) := if Left(k) < n then Red else Absent][Right(k) := if Right(k) < n then Red else Absent], 0, 0)
  }

  /** Every step of `t` is a bare comparison step, with no highlight. */
  predicate Compares(t: seq<Step>)
  {
    forall j :: 0 <= j < |t| ==> t[j] == Step(map[], 1, 0)
  }

  /** Both children of `k` inside the heap of size `n` may stand below `v`:
      each is in order before it under the flag. */
  ghost predicate Covers(s: seq<int>, n: int, k: int, v: int, ascending: bool)
    requires 0 <= k && n <= |s|
  {
    && (Left(k) < n ==> InOrder(s[Left(k)], v, ascending))
    && (Right(k) < n ==> InOrder(s[Right(k)], v, ascending))
  }

  /** Node `p` of the heap `s[..n]` dominates its children. */
  ghost predicate HeapAt(s: seq<int>, n: int, p: int, ascending: bool)
    requires 0 <= p < n <= |s|
  {
    Covers(s, n, p, s[p], ascending)
  }

  /** Every node from `lo` on of the heap `s[..n]` dominates its children;
      with `lo == 0`, `s[..n]` is a heap. */
  ghost predicate HeapFrom(s: seq<int>, lo: int, n: int, ascending: bool)
    requires 0 <= lo && n <= |s|
  {
    forall p :: lo <= p < n ==> HeapAt(s, n, p, ascending)
  }

  /** A heap from `lo` on, except possibly at node `k`: the state a sift-down
      of `k` starts from. */
  ghost predicate HeapExcept(s: seq<int>, lo: int, n: int, k: int, ascending: bool)
    requires 0 <= lo && n <= |s|
  {
    forall p :: lo <= p < n && p != k ==> HeapAt(s, n, p, ascending)
  }

  /** The number of levels below `k` in a heap of size `n`, counted down the
      leftmost path: a bound on the exchanges of one sift-down. */
  function Height(k: nat, n: nat): nat
    decreases n - k
  {
    if Left(k) >= n then 0 else 1 + Height(Left(k), n)
  }

  /** A node further right lies at most as deep above the bottom. */
  lemma {:induction false} HeightAntitone(x: nat, y: nat, n: nat)
    requires x <= y
    ensures Height(y, n) <= Height(x, n)
    decreases n - x
  {
    if Left(y) < n {
      HeightAntitone(Left(x), Left(y), n);
    }
  }

  /** Every node of a heap sits below its root. */
  lemma {:induction false} BelowRoot(s: seq<int>, n: int, x: int, ascending: bool)
    requires 0 <= x < n <= |s| && HeapFrom(s, 0, n, ascending)
    ensures InOrder(s[x], s[0], ascending)
    decreases x
  {
    if x > 0 {
      var p := Parent(x);
      BelowRoot(s, n, p, ascending);
      assert HeapAt(s, n, p, ascending);
      assert x == Left(p) || x == Right(p);
    }
  }

  /** The root of a heap is the extreme value of the heap: no other value of
      `s[..n]` belongs after it. */
  lemma RootIsTop(s: seq<int>, n: int, ascending: bool)
    requires 0 < n <= |s| && HeapFrom(s, 0, n, ascending)
    ensures forall x :: 0 <= x < n ==> InOrder(s[x], s[0], ascending)
  {
    forall x | 0 <= x < n ensures InOrder(s[x], s[0], ascending) {
      BelowRoot(s, n, x, ascending);
    }
  }

  /** The nodes from `n / 2` on have no children: any buffer is a heap from
      there, which is where building starts. */
  lemma Leaves(s: seq<int>, n: int, ascending: bool)
    requires 0 <= n <= |s|
    ensures HeapFrom(s, n / 2, n, ascending)
  {
    forall p | n / 2 <= p < n ensures HeapAt(s, n, p, ascending) {
      assert Left(p) >= n;
    }
  }

  /** A node whose value and children's values are unchanged still
      dominates its children. */
  lemma Kept(s: seq<int>, t: seq<int>, n: int, p: int, ascending: bool)
    requires 0 <= p < n <= |s| == |t| && HeapAt(s, n, p, ascending)
    requires t[p] == s[p]
    requires Left(p) < n ==> t[Left(p)] == s[Left(p)]
    requires Right(p) < n ==> t[Right(p)] == s[Right(p)]
    ensures HeapAt(t, n, p, ascending)
  {
  }

  /** After the exchange of `k` with its dominant child `c`, node `k`
      dominates its children. */
  lemma Repaired(s: seq<int>, t: seq<int>, n: int, k: int, c: int, ascending: bool)
    requires 0 <= k < c < n <= |s| && (c == Left(k) || c == Right(k))
    requires InOrder(s[k], s[c], ascending) && Covers(s, n, k, s[c], ascending)
    requires t == s[k := s[c]][c := s[k]]
    ensures HeapAt(t, n, k, ascending)
  {
  }

  /** After the exchange of `k` with its child `c`, the parent `q` of `k`
      still dominates its children when it covered `k`'s children. */
  lemma Lifted(s: seq<int>, t: seq<int>, n: int, q: int, k: int, c: int, ascending: bool)
    requires 0 <= q < k < c < n <= |s| && (k == Left(q) || k == Right(q)) && (c == Left(k) || c == Right(k))
    requires HeapAt(s, n, q, ascending) && Covers(s, n, k, s[q], ascending)
    requires t == s[k := s[c]][c := s[k]]
    ensures HeapAt(t, n, q, ascending)
  {
  }

  /** Exchanging node `k` with its dominant child `c` repairs `k` and moves the
      only possible fault down to `c`, where the value now at `k` still covers
      `c`'s children. */
  lemma {:induction false} SiftStep(s: seq<int>, t: seq<int>, lo: int, n: int, k: int, c: int, ascending: bool)
    requires 0 <= lo <= k < n <= |s|
    requires HeapExcept(s, lo, n, k, ascending)
    requires k > lo ==> lo <= Parent(k) && Covers(s, n, k, s[Parent(k)], ascending)
    requires c == Left(k) || c == Right(k)
    requires c < n && InOrder(s[k], s[c], ascending) && Covers(s, n, k, s[c], ascending)
    requires t == s[k := s[c]][c := s[k]]
    ensures HeapExcept(t, lo, n, c, ascending)
    ensures lo <= Parent(c) == k < c && Covers(t, n, c, t[Parent(c)], ascending)
  {
    assert HeapAt(s, n, c, ascending);
    forall p | lo <= p < n && p != c ensures HeapAt(t, n, p, ascending) {
      if p == k {
        Repaired(s, t, n, k, c, ascending);
      } else if k > lo && p == Parent(k) {
        Lifted(s, t, n, p, k, c, ascending);
      } else {
        assert HeapAt(s, n, p, ascending);
        assert p < k ==> Left(p) != k && Right(p) != k;
        Kept(s, t, n, p, ascending);
      }
    }
  }

  /** The node a sift-down of `k` exchanges with: the left child when it is
      inside the heap and strictly beats `s[k]`, then the right child when it
      is inside the heap and strictly beats the winner so far; `k` itself
      when neither does. */
  function Pick(s: seq<int>, n: int, k: int, ascending: bool): (m: int)
    requires 0 <= k < n <= |s|
    ensures m == k || (m == Left(k) && Left(k) < n) || (m == Right(k) && Right(k) < n)
  {
    var l := if Left(k) < n && !InOrder(s[Left(k)], s[k], ascending) then Left(k) else k;
    if Right(k) < n && !InOrder(s[Right(k)], s[l], ascending) then Right(k) else l
  }

  /** The chosen node dominates `k` and both its children; it differs from
      `k` exactly when `k` does not already dominate its children, and then
      strictly beats `s[k]`; the right child is chosen only when it strictly
      beats the left one. */
  lemma PickDominates(s: seq<int>, n: int, k: int, ascending: bool)
    requires 0 <= k < n <= |s|
    ensures var m := Pick(s, n, k, ascending);
      && InOrder(s[k], s[m], ascending) && Covers(s, n, k, s[m], ascending)
      && (m == k <==> HeapAt(s, n, k, ascending))
      && (m != k ==> !InOrder(s[m], s[k], ascending))
      && (m == Right(k) ==> !InOrder(s[Right(k)], s[Left(k)], ascending))
  {
  }

  /** The buffer a sift-down of `k` in the heap of size `n` leaves: exchange
      `k` with the chosen child and continue from that child, until a node
      already dominates its children. */
  ghost function SiftDown(s: seq<int>, n: int, k: int, ascending: bool): (r: seq<int>)
    requires 0 <= k < n <= |s|
    ensures |r| == |s|
    decreases n - k
  {
    var c := Pick(s, n, k, ascending);
    if c == k then s else SiftDown(s[k := s[c]][c := s[k]], n, c, ascending)
  }

  /** A sift-down of the only fault of a heap repairs it: the result is a
      heap from `lo` on, a permutation of the buffer, and equal to it outside
      `k .. n - 1`. */
  lemma {:induction false} SiftDownHeap(s: seq<int>, lo: int, n: int, k: int, ascending: bool)
    requires 0 <= lo <= k < n <= |s|
    requires HeapExcept(s, lo, n, k, ascending)
    requires k > lo ==> lo <= Parent(k) && Covers(s, n, k, s[Parent(k)], ascending)
    ensures HeapFrom(SiftDown(s, n, k, ascending), lo, n, ascending)
    ensures SameOutside(SiftDown(s, n, k, ascending), s, k, n)
    ensures multiset(SiftDown(s, n, k, ascending)) == multiset(s)
    decreases n - k
  {
    var c := Pick(s, n, k, ascending);
    PickDominates(s, n, k, ascending);
    if c != k {
      var t := s[k := s[c]][c := s[k]];
      SiftStep(s, t, lo, n, k, c, ascending);
      SiftDownHeap(t, lo, n, c, ascending);
      Below(s, t, SiftDown(t, n, c, ascending), k, c, n);
      ExchangePermutes(s, k, c);
    }
  }

  /** One comparison step: child `c` inside the heap is compared with the
      dominant value so far, `a[best]`, and replaces it only when it strictly
      belongs after it. The buffer is only read. */
  method Weigh(a: array<int>, c: int, best: int, ascending: bool) returns (best': int, steps: seq<Step>, ghost states: seq<seq<int>>)
    requires 0 <= best < c < a.Length
    ensures best' == if InOrder(a[c], a[best], ascending) then best else c
    ensures Recorded(a[..], steps, states, Exchange) && Current(a[..], states) == a[..]
    ensures Comparisons(steps) == 1 && Swaps(steps) == 0 && steps == [Step(map[], 1, 0)]
  {
    var compare := Step(map[], 1, 0);
    Looked(a[..], [], [], compare, Exchange);
    steps, states := [compare], [a[..]];
    best' := best;
    if !InOrder(a[c], a[best], ascending) {
      best' := c;
    }
  }

  /** The comparison steps of a sift-down of `k`: each child inside the heap
      is weighed against the dominant value so far, the left child first.
      The result dominates `k` and both its children, and differs from `k`
      only when it strictly belongs after `a[k]`. */
  method Choose(a: array<int>, n: int, k: int, ascending: bool) returns (largest: int, steps: seq<Step>, ghost states: seq<seq<int>>)
    requires 0 <= k < n <= a.Length
    ensures largest == k || (Left(k) < n && largest == Left(k)) || (Right(k) < n && largest == Right(k))
    ensures InOrder(a[k], a[largest], ascending) && Covers(a[..], n, k, a[largest], ascending)
    ensures largest != k ==> !InOrder(a[largest], a[k], ascending)
    ensures largest == Right(k) ==> !InOrder(a[Right(k)], a[Left(k)], ascending)
    ensures Recorded(a[..], steps, states, Exchange) && Current(a[..], states) == a[..]
    ensures Comparisons(steps) == (if Left(k) < n then 1 else 0) + (if Right(k) < n then 1 else 0)
    ensures Swaps(steps) == 0 && |steps| == Comparisons(steps) && Compares(steps)
    ensures largest == Pick(a[..], n, k, ascending)
  {
    largest := k;
    steps, states := [], [];
    var left, right := Left(k), Right(k);
    if left < n {
      largest, steps, states := Weigh(a, left, largest, ascending);
    }
    if right < n {
      var more;
      ghost var moreStates;
      largest, more, moreStates := Weigh(a, right, largest, ascending);
      Chained(a[..], steps, states, more, moreStates, Exchange);
      steps, states := steps + more, states + moreStates;
    }
  }

  /** The node view step of a sift-down of `k` followed by its comparison
      steps: the view marks the node and its children, an index outside the
      heap getting the `Absent` marker. */
  method Inspect(a: array<int>, n: int, k: int, ascending: bool) returns (largest: int, steps: seq<Step>, ghost states: seq<seq<int>>)
    requires 0 <= k < n <= a.Length
    ensures largest == k || largest == Left(k) || largest == Right(k)
    ensures k <= largest < n
    ensures InOrder(a[k], a[largest], ascending) && Covers(a[..], n, k, a[largest], ascending)
    ensures largest != k ==> !InOrder(a[largest], a[k], ascending)
    ensures largest == Right(k) ==> !InOrder(a[Right(k)], a[Left(k)], ascending)
    ensures Recorded(a[..], steps, states, Exchange) && Current(a[..], states) == a[..]
    ensures Comparisons(steps) == Kids(k, n) && Swaps(steps) == 0 && |steps| == 1 + Kids(k, n)
    ensures steps[0] == NodeView(k, n) && Compares(steps[1..])
    ensures largest == Pick(a[..], n, k, ascending)
  {
    var view := NodeView(k, n);
    ghost var s := a[..];
    Looked(s, [], [], view, Exchange);
    steps, states := [view], [s];
    var more;
    ghost var moreStates;
    largest, more, moreStates := Choose(a, n, k, ascending);
    Chained(a[..], steps, states, more, moreStates, Exchange);
    steps, states := steps + more, states + moreStates;
    assert steps[1..] == more;
  }

  /** At most one child of `k` strictly beats `s[k]`, dominates both
      children and, when it is the right child, strictly beats the left one:
      the child a sift-down exchanges with is determined. */
  lemma OneWinner(s: seq<int>, n: int, k: int, c: int, d: int, ascending: bool)
    requires 0 <= k < n <= |s|
    requires k < c < n && (c == Left(k) || c == Right(k)) && !InOrder(s[c], s[k], ascending)
    requires Covers(s, n, k, s[c], ascending) && (c == Right(k) ==> !InOrder(s[Right(k)], s[Left(k)], ascending))
    requires k < d < n && (d == Left(k) || d == Right(k)) && !InOrder(s[d], s[k], ascending)
    requires Covers(s, n, k, s[d], ascending) && (d == Right(k) ==> !InOrder(s[Right(k)], s[Left(k)], ascending))
    ensures c == d
  {
  }

  /** Proof helper: a sift-down below `c` changes nothing before `c`, so
      after the exchange of `k` and `c` nothing before `k` has changed. */
  lemma Below(s: seq<int>, t: seq<int>, u: seq<int>, k: int, c: int, n: int)
    requires 0 <= k < c < n <= |s|
    requires t == s[k := s[c]][c := s[k]]
    requires SameOutside(u, t, c, n)
    ensures SameOutside(u, s, k, n)
  {
  }

  /** Proof helper: a sift-down that exchanges keeps its opening steps, the
      node view and the comparison steps, at the front, followed by the
      exchange. */
  lemma Opened(opening: seq<Step>, exchange: Step, rest: seq<Step>, k: int, n: int)
    requires |opening| == 1 + Kids(k, n) && opening[0] == NodeView(k, n) && Compares(opening[1..])
    ensures var t := opening + [exchange] + rest;
      |t| > 1 + Kids(k, n) && t[0] == NodeView(k, n) && Compares(t[1..1 + Kids(k, n)]) && t[1 + Kids(k, n)] == exchange
    ensures |rest| >= 1 ==> var t := opening + [exchange] + rest; |t| > 2 + Kids(k, n) && t[2 + Kids(k, n)] == rest[0]
  {
    var t := opening + [exchange] + rest;
    assert t[1..1 + Kids(k, n)] == opening[1..];
  }

  /** Sifts node `k` down the heap `a[..n]`, which is a heap from `lo` on
      except possibly at `k`; when `k` has a parent in that part, the parent
      covers `k`'s children. Afterwards `a[..n]` is a heap from `lo` on and
      only indices `k .. n - 1` have changed. A view step marks the node and
      its children, one comparison step follows per child inside the heap,
      and each exchange with the dominant child yields a write step: at most
      one per level below `k`. */
  method Heapify(a: array<int>, n: int, k: int, ghost lo: int, ascending: bool) returns (steps: seq<Step>, ghost states: seq<seq<int>>)
    requires 0 <= lo <= k < n <= a.Length
    requires HeapExcept(a[..], lo, n, k, ascending)
    requires k > lo ==> lo <= Parent(k) && Covers(a[..], n, k, a[Parent(k)], ascending)
    modifies a
    ensures a[..] == SiftDown(old(a[..]), n, k, ascending)
    ensures HeapFrom(a[..], lo, n, ascending)
    ensures SameOutside(a[..], old(a[..]), k, n)
    ensures Recorded(old(a[..]), steps, states, Exchange) && Current(old(a[..]), states) == a[..]
    ensures Swaps(steps) <= Height(k, n)
    ensures Comparisons(steps) <= 2 * Swaps(steps) + 2
    ensures |steps| >= 1 + Kids(k, n) && steps[0] == NodeView(k, n) && Compares(steps[1..1 + Kids(k, n)])
    ensures |steps| == 1 + Kids(k, n) <==> HeapAt(old(a[..]), n, k, ascending)
    ensures |steps| > 1 + Kids(k, n) ==>
      exists c :: k < c < n && (c == Left(k) || c == Right(k)) && !InOrder(old(a[c]), old(a[k]), ascending) &&
        Covers(old(a[..]), n, k, old(a[c]), ascending) &&
        (c == Right(k) ==> !InOrder(old(a[Right(k)]), old(a[Left(k)]), ascending)) && steps[1 + Kids(k, n)] == Step(map[k := Yellow][c := Yellow], 0, 1) &&
        |steps| > 2 + Kids(k, n) && steps[2 + Kids(k, n)] == NodeView(c, n)
    decreases n - k
  {
    ghost var init := a[..];
    var largest;
    largest, steps, states := Inspect(a, n, k, ascending);
    ghost var opening := steps;
    if largest != k {
      var exchange := Step(map[k := Yellow][largest := Yellow], 0, 1);
      states := Swap(a, k, largest, exchange, init, steps, states);
      steps := steps + [exchange];
      ghost var swapped := a[..];
      SiftStep(init, swapped, lo, n, k, largest, ascending);
      var rest;
      ghost var restStates;
      rest, restStates := Heapify(a, n, largest, lo, ascending);
      Below(init, swapped, a[..], k, largest, n);
      Chained(init, steps, states, rest, restStates, Exchange);
      Opened(opening, exchange, rest, k, n);
      steps, states := steps + rest, states + restStates;
      HeightAntitone(Left(k), largest, n);
    }
  }

  /** Builds a heap over the whole buffer by sifting down the inner nodes
      from the last one to the root. */
  method Build(a: array<int>, ascending: bool) returns (steps: seq<Step>, ghost states: seq<seq<int>>)
    modifies a
    ensures HeapFrom(a[..], 0, a.Length, ascending)
    ensures Recorded(old(a[..]), steps, states, Exchange) && Current(old(a[..]), states) == a[..]
    ensures steps == [] <==> a.Length <= 1
  {
    ghost var init := a[..];
    var n := a.Length;
    steps, states := [], [];
    Leaves(a[..], n, ascending);
    var i := n / 2 - 1;
    while i >= 0
      invariant -1 <= i <= n / 2 - 1
      invariant HeapFrom(a[..], i + 1, n, ascending)
      invariant Recorded(init, steps, states, Exchange) && Current(init, states) == a[..]
      invariant steps == [] <==> i == n / 2 - 1
    {
      var more;
      ghost var moreStates;
      more, moreStates := Heapify(a, n, i, i, ascending);
      Chained(init, steps, states, more, moreStates, Exchange);
      steps, states := steps + more, states + moreStates;
      i := i - 1;
    }
  }

  /** No value of `s[..j]` belongs after `s[j]`, the first value of the
      sorted tail. */
  ghost predicate Capped(s: seq<int>, j: int, ascending: bool)
    requires 0 <= j
  {
    j < |s| ==> forall x :: 0 <= x < j ==> InOrder(s[x], s[j], ascending)
  }

  /** A value that belongs before the first value of a sorted tail extends
      the tail. */
  lemma Extended(s: seq<int>, j: int, ascending: bool)
    requires 0 < j <= |s| && SortedBetween(s, j, |s|, ascending) && Capped(s, j, ascending)
    ensures SortedBetween(s, j - 1, |s|, ascending)
  {
    forall x, y | j - 1 <= x < y < |s| ensures InOrder(s[x], s[y], ascending) {
      if x == j - 1 && y > j {
        assert InOrder(s[x], s[j], ascending);
      }
    }
  }

  /** After the root of the heap `s0[..i + 1]` is exchanged with its last
      value, the nodes below the root still form a heap of size `i`. */
  lemma Shrunk(s0: seq<int>, s1: seq<int>, i: int, ascending: bool)
    requires 0 < i < |s0| && HeapFrom(s0, 0, i + 1, ascending)
    requires s1 == s0[i := s0[0]][0 := s0[i]]
    ensures HeapExcept(s1, 0, i, 0, ascending)
  {
    forall p | 0 <= p < i && p != 0 ensures HeapAt(s1, i, p, ascending) {
      assert HeapAt(s0, i + 1, p, ascending);
      assert Left(p) != 0 && Right(p) != 0;
    }
  }

  /** One extraction keeps the invariant of the extraction loop: the heap
      shrinks by one, and its former root, the extreme value of the heap,
      heads the sorted tail. */
  lemma {:induction false} Settled(s0: seq<int>, s1: seq<int>, s2: seq<int>, i: int, ascending: bool)
    requires 0 < i < |s0|
    requires HeapFrom(s0, 0, i + 1, ascending) && SortedBetween(s0, i + 1, |s0|, ascending) && Capped(s0, i + 1, ascending)
    requires s1 == s0[i := s0[0]][0 := s0[i]]
    requires SameOutside(s2, s1, 0, i) && multiset(s2) == multiset(s1)
    ensures SortedBetween(s2, i, |s2|, ascending) && Capped(s2, i, ascending)
  {
    var top := s0[0];
    RootIsTop(s0, i + 1, ascending);
    assert Capped(s1, i + 1, ascending) by {
      if i + 1 < |s0| {
        forall x | 0 <= x < i + 1 ensures InOrder(s1[x], s1[i + 1], ascending) {
          assert InOrder(s1[x], top, ascending) by {
            if x == 0 {
              assert s1[x] == s0[i];
            } else if x < i {
              assert s1[x] == s0[x];
            }
          }
        }
      }
    }
    Extended(s1, i + 1, ascending);
    RangePermutation(s2, s1, 0, i);
    assert forall x :: 0 <= x < i ==> InOrder(s1[x], top, ascending) by {
      forall x | 0 <= x < i ensures InOrder(s1[x], top, ascending) {
        if x == 0 {
          assert s1[x] == s0[i];
        } else {
          assert s1[x] == s0[x];
        }
      }
    }
    RangeCarries(s1, s2, 0, i, v => InOrder(v, top, ascending));
    assert s2[i] == top;
  }

  /** One round of the extraction loop: the root is exchanged with `a[i]`,
      the last value of the heap `a[..i + 1]`, with a write step, and the
      new root is sifted down the heap of size `i`. */
  method Extract(a: array<int>, i: int, ascending: bool) returns (steps: seq<Step>, ghost states: seq<seq<int>>)
    requires 0 < i < a.Length
    requires HeapFrom(a[..], 0, i + 1, ascending) && SortedBetween(a[..], i + 1, a.Length, ascending) && Capped(a[..], i + 1, ascending)
    modifies a
    ensures HeapFrom(a[..], 0, i, ascending) && SortedBetween(a[..], i, a.Length, ascending) && Capped(a[..], i, ascending)
    ensures Recorded(old(a[..]), steps, states, Exchange) && Current(old(a[..]), states) == a[..]
    ensures |steps| >= 2 && steps[0] == Step(map[i := Green][0 := Yellow], 0, 1) && steps[1] == NodeView(0, i)
    ensures Swaps(steps) >= 1
  {
    ghost var s0 := a[..];
    var exchange := Step(map[i := Green][0 := Yellow], 0, 1);
    states := Swap(a, i, 0, exchange, s0, [], []);
    steps := [exchange];
    ghost var s1 := a[..];
    Shrunk(s0, s1, i, ascending);
    var more;
    ghost var moreStates;
    more, moreStates := Heapify(a, i, 0, 0, ascending);
    ExchangesPermute(s1, more, moreStates, Exchange);
    Settled(s0, s1, a[..], i, ascending);
    Chained(s0, steps, states, more, moreStates, Exchange);
    steps, states := steps + more, states + moreStates;
  }

  /** Sorts `a` in place: builds the heap, then moves its top to the end of
      the shrinking heap `n - 1` times. A buffer of at most one value yields
      nothing. */
  method HeapSort(a: array<int>, ascending: bool) returns (trace: seq<Step>, ghost states: seq<seq<int>>)
    modifies a
    ensures Sorted(a[..], ascending)
    ensures multiset(a[..]) == multiset(old(a[..]))
    ensures Recorded(old(a[..]), trace, states, Exchange) && Current(old(a[..]), states) == a[..]
    ensures trace == [] <==> a.Length <= 1
  {
    ghost var init := a[..];
    var n := a.Length;
    trace, states := Build(a, ascending);
    var i := n - 1;
    while i > 0
      invariant -1 <= i < n
      invariant HeapFrom(a[..], 0, i + 1, ascending) && SortedBetween(a[..], i + 1, n, ascending) && Capped(a[..], i + 1, ascending)
      invariant Recorded(init, trace, states, Exchange) && Current(init, states) == a[..]
      invariant trace == [] <==> n <= 1
    {
      var more;
      ghost var moreStates;
      more, moreStates := Extract(a, i, ascending);
      Chained(init, trace, states, more, moreStates, Exchange);
      trace, states := trace + more, states + moreStates;
      i := i - 1;
    }
    if i == 0 {
      Extended(a[..], 1, ascending);
    }
    ExchangesPermute(init, trace, states, Exchange);
  }
}
