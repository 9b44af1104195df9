# Stepwise sorting procedures of a sorting visualizer

This project models the seven step-emitting sort procedures of a Python
sorting visualizer (`sorting_algorithms.py`): bubble, insertion, selection,
quick, merge, heap and counting sort. Each procedure sorts one shared list of
integers in place and, at every primitive operation, yields a step: a map
from list indices to colour roles plus a comparison increment and a swap
increment. The driver adds the increments to two running counters.

In the model:

- the list is an `array<int>`, and every procedure is a `method` that
  changes it in place exactly where the source does;
- instead of suspending, a procedure returns the steps it would have yielded,
  in order, as `trace: seq<Step>`, together with a ghost snapshot of the list
  at each step (`states`);
- `Steps.Recorded(init, trace, states, d)` says the run is honest:
  - every step is a comparison (1, 0), a write (0, 1) or a view (0, 0);
  - only a write step may change the list since the previous step, and only
    at indices it highlights;
  - an index outside the list is highlighted only with the `Absent` role,
    which stands for the heap's `-1` marker;
  - under `Exchange` (selection, quick and heap sort) every write is one
    exchange of two highlighted indices;
  - under `NeighbourExchange` (bubble and insertion sort) every write is an
    exchange of two neighbours that were strictly out of order;
  - merge and counting sort store arbitrary values (`AnyWrite`);
- the direction flag is `ascending`, and `Ordering.InOrder(x, y, ascending)`
  is `x <= y` or `x >= y`. The source's strict tests are `!InOrder`;
- a Python dict literal whose keys coincide (quick sort's `i + 1 == j`,
  selection's `i == min_idx` in the comparison step, where `BLUE` replaces
  `GREEN`) keeps the last value, as a chain of map updates does;
- the recursive helpers are recursive methods on sub-ranges, and `yield from`
  is the concatenation of traces (`Steps.Chained`).

The modules are:

- `Ordering.dfy`: the direction flag, sortedness and permutation facts.
- `Steps.dfy`: steps, honest runs, the driver's counter fold, and the write
  primitives `Swap` and `Store`.
- one file per procedure: `Bubble.dfy`, `Insertion.dfy`, `Selection.dfy`,
  `Quick.dfy`, `Merge.dfy`, `Heap.dfy` and `Counting.dfy`.

A one-element list still yields steps:

- selection sort yields its final exchange step
  (`sorting_algorithms.py:57-70`);
- counting sort yields its three steps, a read while tallying, a read while
  placing and a write (`sorting_algorithms.py:219-249`).

`Selection.SelectionSort` and `Counting.CountingSort` state these counts.

## Model

| member | source | states |
|---|---|---|
| Ordering.PairsClosedForm | sorting_algorithms.py:12-13 | the number of index pairs visited by the two nested passes, `Pairs(n)`, is n(n-1)/2 |
| Ordering.ExchangePermutes | sorting_algorithms.py:21 | exchanging two entries of the list leaves the same multiset of values |
| Ordering.RangePermutation | sorting_algorithms.py:79-84 | when a recursive call only permutes the list and changes nothing outside its range, the range itself holds the same values |
| Steps.CountsConcat | main.py:77-79 | the counter totals of two traces run one after the other are the sums of their totals |
| Steps.Emitted | sorting_algorithms.py:18-24 | yielding one more honest step extends an honest run, and adds that step's increments to the totals |
| Steps.Chained | sorting_algorithms.py:82-84 | a sub-procedure's run started where the parent's run left the list (`yield from`) continues the parent's honest run; the totals add up |
| Steps.TotalsBoundedBySteps | main.py:77-79 | since no step counts both a comparison and a swap, the two totals together never exceed the number of steps |
| Steps.TotalsMonotone | main.py:77-79 | the totals after any prefix of the trace never exceed the final totals: the counters only grow |
| Steps.Looked | sorting_algorithms.py:18 | a comparison or view step leaves the list unchanged and extends the honest run |
| Steps.ExchangeReports | sorting_algorithms.py:67-70 | a write step that exchanges two highlighted indices is honest under `Exchange` |
| Steps.StoreReports | sorting_algorithms.py:149-152 | a write step that stores into one highlighted index is honest under `AnyWrite` |
| Steps.NeighbourExchangeReports | sorting_algorithms.py:20-24 | exchanging an out-of-order pair of neighbours, highlighting exactly them, is honest under `NeighbourExchange` |
| Steps.ExchangeStepPermutes | sorting_algorithms.py:96 | one honest step of an exchanging procedure permutes the list |
| Steps.ExchangesPermuteUpTo | sorting_algorithms.py:164 | after any number of steps of an exchanging procedure, the list is a permutation of the initial one |
| Steps.ExchangesPermute | sorting_algorithms.py:201 | an exchanging procedure's whole run permutes the list |
| Steps.PassCounted | sorting_algorithms.py:57-59 | after passes `0 .. i`, each comparing the indices after its own, the comparisons are `Pairs(n) - Pairs(n - i - 1)` |
| Steps.Swap | sorting_algorithms.py:67-70 | exchanges two indices (the tuple assignment) and records the write step that reports it; the new list is the old one with the two values exchanged |
| Steps.Store | sorting_algorithms.py:149-152 | stores one value and records the write step that reports it; the new list differs from the old one only at that index |
| Steps.Tally | main.py:77-79 | counters reset to zero and then fed every step's increments end equal to the sums of the trace's comparison and swap increments |
| Bubble.PassStep | sorting_algorithms.py:14-24 | visiting pair `j` carries the extreme value seen so far to index `j + 1` and keeps the sorted tail |
| Bubble.PassDone | sorting_algorithms.py:13 | a pass that carried the extreme value to the last unsorted index grows the sorted tail by one |
| Bubble.PassCarries | sorting_algorithms.py:13-24 | the first `j` visits of a pass keep the sorted tail and carry the extreme value of the prefix to index `j` |
| Bubble.PassSettles | sorting_algorithms.py:12-24 | a full pass over the unsorted prefix grows the sorted tail by one |
| Bubble.SettledSorted | sorting_algorithms.py:12 | once the tail from index 1 is settled, the list is sorted |
| Bubble.VisitPair | sorting_algorithms.py:14-24 | one comparison step for the pair `j, j + 1`, then an exchange step exactly when the pair is strictly out of order |
| Bubble.Pass | sorting_algorithms.py:13-24 | pass `i` compares `n - 1 - i` pairs and leaves the list as the pass function prescribes |
| Bubble.BubbleSort | sorting_algorithms.py:10-26 | sorted, a permutation, honest with neighbour exchanges only, exactly n(n-1)/2 comparisons, and no step for fewer than two values |
| Insertion.Shifted | sorting_algorithms.py:45-47 | shifting `s[pos .. i - 1]` one place right and writing `c` at `pos` changes nothing else |
| Insertion.ShiftedStep | sorting_algorithms.py:45-47 | one more shift is one exchange of neighbours |
| Insertion.Inserted | sorting_algorithms.py:34-43 | inserting `c` after the last value that may stand before it extends the sorted prefix by one |
| Insertion.Shift | sorting_algorithms.py:45-50 | one shift exchanges `pos - 1` and `pos` and its step is honest under `NeighbourExchange` |
| Insertion.Visit | sorting_algorithms.py:35-50 | one comparison step (none at index 0); it stops exactly when the left neighbour may stand before `current`, and otherwise shifts |
| Insertion.Insert | sorting_algorithms.py:31-50 | inserts `a[i]` into the sorted prefix, leaving the rest alone; one comparison per shift plus one for the failing check unless it reached index 0 |
| Insertion.InsertionSort | sorting_algorithms.py:28-52 | sorted, a permutation, honest with neighbour exchanges only, swaps no more than comparisons, and no step for fewer than two values |
| Selection.RecordIff | sorting_algorithms.py:63-65 | against the best value so far, one test decides whether `j` is a new running best |
| Selection.SelectStep | sorting_algorithms.py:67 | exchanging the best value of the suffix into index `i` places one more value |
| Selection.Consider | sorting_algorithms.py:61-65 | one comparison step, plus a view step exactly when `j` strictly beats the best so far, which then moves to `j` |
| Selection.FindBest | sorting_algorithms.py:59-65 | finds the first extreme value of `a[i..]` with `n - 1 - i` comparisons and one view step per new running best |
| Selection.SelectPass | sorting_algorithms.py:57-70 | exchanges the first extreme value into `i`, ending with a write step even when it is already there |
| Selection.SelectionSort | sorting_algorithms.py:54-72 | sorted, a permutation, honest with exchanges only, n(n-1)/2 comparisons and exactly n swaps; one step for one value |
| Quick.SplitStep | sorting_algorithms.py:94-99 | classifying `lst[j]` keeps the partition invariant |
| Quick.PivotPlaced | sorting_algorithms.py:101-104 | the final exchange puts the pivot in its place within the range |
| Quick.Joined | sorting_algorithms.py:80-84 | partitioning and then sorting both sides of the pivot sorts and permutes the range |
| Quick.PairsSplit | sorting_algorithms.py:80-84 | the comparisons of the two sides plus those of the partition never exceed the pairs of the range |
| Quick.RangeBound | sorting_algorithms.py:80-84 | the comparison bound of a range follows from those of its partition and its two sides |
| Quick.Classify | sorting_algorithms.py:92-99 | one comparison step, then an exchange into the low side exactly when `lst[j]` may stand before the pivot |
| Quick.Partition | sorting_algorithms.py:86-106 | returns `p` in `[low, high]` holding the old `lst[high]`; everything before it may stand before it, everything after strictly may not; nothing outside the range changes; `high - low` comparisons; the last step is the pivot exchange `{p: Yellow, high: Yellow}` |
| Quick.QuickSortRange | sorting_algorithms.py:79-84 | sorts the range and permutes the list, changing nothing outside the range; at most m(m-1)/2 comparisons; no step for fewer than two values |
| Quick.QuickSort | sorting_algorithms.py:74-77 | sorted, a permutation, honest with exchanges only, at most n(n-1)/2 comparisons, no step for fewer than two values |
| Merge.MergedPermutes | sorting_algorithms.py:127-146 | the merge of two runs holds exactly their values |
| Merge.MergedTake | sorting_algorithms.py:127-136 | one round of the merge loop takes the left value on ties and costs one comparison |
| Merge.MergedSorted | sorting_algorithms.py:127-146 | merging two sorted runs gives a sorted run |
| Merge.MergeComparisonsBounds | sorting_algorithms.py:127-136 | merging non-empty runs costs at least the shorter length and at most `right - left` comparisons |
| Merge.Written | sorting_algorithms.py:148-152 | the write-back replaces `lst[left .. left + idx - 1]` by the merged values and nothing else |
| Merge.Take | sorting_algorithms.py:127-136 | one comparison step, then takes the left value when it may stand first, else the right one |
| Merge.Compare | sorting_algorithms.py:123-136 | the comparison loop builds the merged prefix until one run is exhausted, with one comparison per round |
| Merge.Drain | sorting_algorithms.py:138-146 | copies the rest of a run into `temp` with one view step per value |
| Merge.WriteBack | sorting_algorithms.py:148-152 | writes `temp` back from `left`; the steps before are kept, and the new step `k` is the write step marking `left + k` alone, so the writes go left to right |
| Merge.MergeStepCorrect | sorting_algorithms.py:122-152 | merging two sorted halves sorts `[left, right]`, permutes it, and changes nothing outside it |
| Merge.LowerHalfKept | sorting_algorithms.py:118-119 | sorting the upper half leaves the sorted lower half sorted |
| Merge.HalvesPermuted | sorting_algorithms.py:118-120 | three range permutations in a row permute the whole range |
| Merge.Combined | sorting_algorithms.py:113-120 | sorting both halves and merging them sorts and permutes the range |
| Merge.Sequenced | sorting_algorithms.py:118-120 | the three sub-runs of a range form one honest run, with two steps per write |
| Merge.MergeHalves | sorting_algorithms.py:122-152 | leaves the list as the merge step prescribes; comparisons as the merge of the halves; `right - left + 1` writes and as many view and comparison steps; the last `right - left + 1` steps write the range from `left`, left to right |
| Merge.MergeSortRange | sorting_algorithms.py:113-120 | sorts `[left, right]`, permutes it, and changes nothing outside it; no step for fewer than two values |
| Merge.MergeSort | sorting_algorithms.py:108-111 | sorted, a permutation, honest, two steps per write, no step for fewer than two values |
| Heap.HeightAntitone | sorting_algorithms.py:175-176 | a node further right has no more levels below it |
| Heap.BelowRoot | sorting_algorithms.py:163-164 | every node of a heap sits below its root |
| Heap.RootIsTop | sorting_algorithms.py:163-164 | the root of a heap is its extreme value |
| Heap.Leaves | sorting_algorithms.py:159 | nodes from `n // 2` on have no children, so building may start at `n // 2 - 1` |
| Heap.Kept | sorting_algorithms.py:200-201 | a node whose value and children are unchanged still dominates its children |
| Heap.Repaired | sorting_algorithms.py:200-201 | after the exchange with its dominant child, a node dominates its children |
| Heap.Lifted | sorting_algorithms.py:200-201 | after that exchange, the parent still dominates its children |
| Heap.SiftStep | sorting_algorithms.py:200-205 | the exchange repairs node `i` and moves the only possible fault down to `largest` |
| Heap.Weigh | sorting_algorithms.py:182-189 | one bare comparison step `({}, 1, 0)`; the child replaces the best so far only when it strictly beats it |
| Heap.Choose | sorting_algorithms.py:181-198 | one bare comparison step per child inside the heap; `largest` is `i` or a child, dominates all three, differs from `i` only when strictly better, and takes the right child only when it strictly beats the left; `largest` equals `Heap.Pick` of the list |
| Heap.Inspect | sorting_algorithms.py:178-198 | the first step is the node view `NodeView(k, n)`: the node `Blue`, each child inside the heap `Red` and each child outside it `Absent`; then exactly one bare comparison step per child inside the heap; the right child is chosen only when it strictly beats the left one; `largest` equals `Heap.Pick` of the list |
| Heap.OneWinner | sorting_algorithms.py:181-198 | at most one child strictly beats the node, dominates both children and, if it is the right child, strictly beats the left one, so the child a sift-down exchanges with is determined |
| Heap.Pick | sorting_algorithms.py:181-198 | the child a sift-down chooses, following the source's order: the left child replaces `i` when it strictly beats it, then the right child replaces the best so far when it strictly beats that; the result is `i` or a child inside the heap |
| Heap.PickDominates | sorting_algorithms.py:181-200 | the chosen index dominates the node and both children inside the heap; it is the node itself exactly when the node already dominates its children; otherwise it strictly beats the node; it is the right child only when that child strictly beats the left one |
| Heap.SiftDownHeap | sorting_algorithms.py:173-205 | the reference sift-down (pick, exchange, recurse at the chosen child) turns a subtree that is a heap except at its root into a heap, keeps the values, and changes only indices `i .. n - 1` |
| Heap.Heapify | sorting_algorithms.py:173-205 | if the subtree at `i` is a heap except at `i`, it becomes one; only indices `i .. n - 1` change; the run opens with the node view and one comparison step per child inside the heap; it stops there exactly when `i` already dominates its children, and otherwise the next step exchanges `i` with a child that strictly beats it and dominates both children, the right child only when it strictly beats the left one; at most one exchange per level and two comparisons per exchange, plus two; the list afterwards equals the reference sift-down `Heap.SiftDown` of the list before; after the exchange step, the next step is the node view of the chosen child, which opens the recursive sift-down of line 205 |
| Heap.Build | sorting_algorithms.py:158-160 | the whole list becomes a heap; no step for fewer than two values |
| Heap.Extended | sorting_algorithms.py:163-167 | the extracted root extends the sorted tail |
| Heap.Shrunk | sorting_algorithms.py:163-169 | after the root exchange, the nodes below the root still form a heap of size `i` |
| Heap.Settled | sorting_algorithms.py:162-169 | one extraction keeps the loop invariant: heap, sorted tail, nothing in the heap belonging after the tail |
| Heap.Extract | sorting_algorithms.py:163-169 | the first step is the write step `{i: Green, 0: Yellow}` exchanging the root with `lst[i]`, the second the node view of the root in the heap of size `i`; afterwards the heap has size `i`, the sorted tail starts at `i` and no heap value belongs after it |
| Heap.HeapSort | sorting_algorithms.py:154-171 | sorted, a permutation, honest with exchanges only, no step exactly when fewer than two values |
| Counting.Least | sorting_algorithms.py:212 | a value of the list no greater than any other |
| Counting.Greatest | sorting_algorithms.py:213 | a value of the list no smaller than any other |
| Counting.OccMultiset | sorting_algorithms.py:219-221 | the tally of `x` is its multiplicity in the list |
| Counting.RankNext | sorting_algorithms.py:223-228 | one accumulation step: the next value in the flag's order starts where `x` ends |
| Counting.RankNone | sorting_algorithms.py:224 | nothing precedes the first value in the flag's order, so the first accumulated tally is its own count |
| Counting.EndAll | sorting_algorithms.py:214 | every value stands at or before the last value in the flag's order |
| Counting.EndBound | sorting_algorithms.py:233 | a value's slots end inside the output |
| Counting.RankMono | sorting_algorithms.py:233-234 | distinct values get disjoint slots, in the flag's order |
| Counting.OccPrefix | sorting_algorithms.py:231 | a prefix of the list holds no more copies of `x` than the whole list |
| Counting.OccRun | sorting_algorithms.py:230-243 | a list whose copies of `x` are exactly the indices `b .. e - 1` holds `e - b` of them |
| Counting.Covered | sorting_algorithms.py:230-243 | every output index lies in the slots of the value it holds |
| Counting.BlocksSorted | sorting_algorithms.py:230-249 | an output giving every value its slots is sorted and a permutation of the list |
| Counting.Finished | sorting_algorithms.py:231-235 | when the placement scan ends, every slot is filled |
| Counting.Slot | sorting_algorithms.py:233 | the index a value is placed at is the last free slot of its value |
| Counting.PlaceStep | sorting_algorithms.py:232-235 | placing one value and lowering its tally keeps the placement invariant |
| Counting.Count | sorting_algorithms.py:221 | adding `lst[i]` to its tally turns the tallies of `lst[..i]` into those of `lst[..i + 1]` |
| Counting.Histogram | sorting_algorithms.py:216-221 | `count[v]` becomes the number of copies of `min + v`, with one read step per index, step `k` marking index `k`, and the list only read |
| Counting.Accumulate | sorting_algorithms.py:223-228 | prefix sums when ascending, suffix sums otherwise: `count[v]` becomes the number of values that may stand at or before `min + v` |
| Counting.PlaceValue | sorting_algorithms.py:232-235 | putting `lst[i]` at the last free slot of its value and lowering its tally keeps every slot from the tally on filled |
| Counting.Place | sorting_algorithms.py:230-243 | back-to-front placement gives every value its slots in a fresh output, with one read step per index, step `k` marking index `n - 1 - k`, and the list only read |
| Counting.WriteOut | sorting_algorithms.py:245-249 | copies the output over the list; step `k` is the write step marking index `k` alone, so the writes go left to right |
| Counting.Phases | sorting_algorithms.py:219-249 | the runs of the three scans, each started from the list, which the reading scans leave alone, form one recorded run with no comparison and `n` writes: reads front to back, reads back to front, then writes front to back |
| Counting.CountingSort | sorting_algorithms.py:207-251 | sorted, a permutation, honest, no comparison step, n writes and 3n steps in all, so an empty list yields nothing; the first `n` steps read the list front to back, the next `n` read it back to front, and the last `n` write it front to back |

## Left out

- `draw.py` is not part of this model. Its rendering, colours and float bar geometry are outside the sorting core; colours become the abstract `Role`.
- `main.py` is not part of this model beyond its counter fold. Its event loop, clock, random list generation and key dispatch are I/O. The reset to zero and the fold (`main.py:77-79`, `main.py:122-127`) are `Steps.Tally`.
- Generator suspension is not modelled. A procedure returns its whole trace rather than pausing after each step, so the driver's resumption, termination signal and idempotent termination are not represented.
- The `draw_info.list = lst` assignments are not modelled. They rebind the same list object and change nothing.
- Stability of merge, counting, bubble and insertion sort is not stated as a theorem. The list holds bare integers, so equal values cannot be told apart. The model does keep the tie-breaking that makes them stable: `Merge.MergedTake` takes the left value on ties, and bubble and insertion exchange only strictly out-of-order neighbours (`NeighbourExchange`).
- Counting.Place: the two identical placement branches of the source (`sorting_algorithms.py:230-243`) are modelled as one loop.
- Merge.MergeSortRange: its comparison total is not bounded by a closed form. Each merge's comparisons are bounded by `Merge.MergeComparisonsBounds`.
- Heap.HeapSort: its comparison and swap totals are not stated in closed form. Each sift-down is bounded by `Heap.Heapify`'s height bound.
