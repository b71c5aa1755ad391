# Sorting visualiser: verified step sources and controller

This project models the core of a small pygame program (`main.py`). The
program animates bubble, insertion, merge and quick sort on a list of random
integers. Each sort is a Python generator that mutates the shared list in
place and suspends after every single swap or overwrite. The main loop pulls
`max(1, slider // 50)` steps per frame from the running generator. The
buttons (Reset, Start, Ascending, Descending and the four routines) and the
size slider reconfigure it, guarded by the `sorting` flag.

The model has one Dafny module per part of the program:

- `Order` (`order.dfy`) holds the direction-aware comparison. `Ord(ascending, x, y)`
  is "x may stay before y": `<=` ascending, `>=` descending. It also holds
  sortedness, the exchange of two slots, inversion counting, and a reference
  sort (`InsertAll`, a pure recursive insertion sort). It proves that any
  sorted rearrangement of a list is that reference sort.
- `Steps` (`steps.dfy`) holds the record one call of `next` reports back:
  `Done`, `Swapped(i, j)` or `Wrote(k)`. These are the slots that were
  mutated. It also holds the routine choice.
- `Bubble`, `Insertion`, `Merge` and `Quick` each model one generator as a
  class over an `array<int>` plus the `ascending` flag. The generator's
  suspended position becomes explicit fields:
  - bubble: the two loop indices;
  - insertion: the `for` index, the shifting position and `current`;
  - merge: a stack of pending recursive calls (`SortFrame`) and merges
    (`MergeFrame`), plus the merge cursor `L, R, i, j, k`;
  - quick: a stack of pending `(low, high)` calls, plus the Lomuto cursor
    `pivot, i, j`.

  `Next()` resumes the silent part of the loops (`Seek`). It then performs
  exactly one mutation and reports it, or reports `Done` without touching the
  list. `Run()` drives a source to exhaustion.
- `MergeSpec` (`merge_spec.dfy`) is the pure reference for merge sort:
  - `Merged`, the merge loop as a function;
  - `MSort`, `merge_sort_recursive` as a function;
  - `Schedule`, the order in which that recursion performs its merges.

  The stepped merge sort is proved to follow the schedule one merge at a
  time.
- `Visualizer` (`session.dfy`) models the state `main()` keeps: list, sorting
  flag, direction, routine, generator, slider and last sized value. It has one
  method per part of a frame and one per button.

The sorts keep these invariants between steps:

- Bubble and insertion sort keep the loop invariants of their loops. Every
  step removes exactly one inversion, so the number of steps equals the
  number of inversions of the input.
- Quick sort keeps the Lomuto loop invariant for the partition under way.
  The pending ranges stay ordered left to right, and every boundary outside
  a pending range stays a cut (everything left of it may precede everything
  right of it). The number of steps is bounded by `n * n`.
- Merge sort keeps "the list is the original after the first `completed`
  scheduled merges". While a merge runs, it also keeps "the written slots
  followed by the merge of what is left of the copies equal the merge of the
  copies".

All four `Run` methods and `Visualizer.Session.Play` end with the reference
sort of the starting list.

Behaviours of `main.py` worth noting:

- **The slider while sorting.** The slider can be dragged while a sort runs,
  and its value feeds the steps per frame at once (main.py:275). The list is
  resized only at the first frame in which no sort runs (main.py:268-272).
  The resize does not stop a sort.
- **Reset and the generator.** Reset clears `sorting` but keeps the generator
  object (main.py:295-299). The next Start replaces it.
- **Generator binding.** Python binds `lst = draw_info.lst` at the
  generator's first `next`, one frame after Start. The model binds the list
  at Start. The two are equivalent: nothing can replace the list in between
  while `sorting` holds, because resizing requires `not sorting` and Reset
  clears it.
- **Reported slots.** `Next` reports the slots it mutated. Insertion sort's
  highlight at main.py:150 names different slots; see "Left out".

## Model

| member | source | states |
|---|---|---|
| Order.OrdFacts | main.py:131 | `Ord`, the comparison every routine makes (`<=` ascending, `>=` descending) lets equal values stay as they are, and a pair it rejects is strictly ordered the other way |
| Order.Swap | main.py:132 | the tuple assignment exchanges exactly the two slots and leaves the rest of the list alone |
| Order.SwapAtPermutes | main.py:132 | an exchange neither adds nor loses an element |
| Order.AdjacentSwapInversions | main.py:131-132 | exchanging an adjacent pair that violates the direction removes exactly one inversion |
| Order.SortedIffNoInversions | main.py:129-134 | a list is sorted in the chosen direction exactly when it has no inversion, in both directions of the equivalence |
| Order.SortedPermutationUnique | main.py:127-216 | two sorted rearrangements of the same multiset are the same list, so all four routines end with the same list |
| Order.InsertPermutes | main.py:127-216 | the reference insertion adds exactly one occurrence of the inserted value |
| Order.InsertSorted | main.py:127-216 | inserting into a sorted list keeps it sorted |
| Order.InsertAllCorrect | main.py:127-216 | the reference sort is sorted in the chosen direction and a rearrangement of its input |
| Order.SortedIsReference | main.py:127-216 | any sorted rearrangement of a list equals the reference sort of it |
| Order.AscendingExample | main.py:127-216 | a sorted ascending rearrangement of [5,3,1,4,2] is [1,2,3,4,5] |
| Order.DescendingExample | main.py:127-216 | a sorted descending rearrangement of [5,3,1,4,2] is [5,4,3,2,1] |
| Order.DuplicatesExample | main.py:127-216 | a sorted ascending rearrangement of [4,2,2,3,1] is [1,2,2,3,4], both 2s kept |
| Bubble.SwapKeepsPass | main.py:130-132 | swapping an out-of-order pair (j, j+1) carries the extreme of the pass one slot on and keeps the sorted tail |
| Bubble.SkipKeepsPass | main.py:130-131 | a comparison that finds the pair in order also carries the extreme one slot on, without a step |
| Bubble.PassEnd | main.py:129-130 | at the end of pass i the extreme joins the tail: the last i+1 slots are final |
| Bubble.SwapKeeps | main.py:131-134 | one swap keeps the pass invariant and the multiset and removes one inversion, so steps + inversions stays constant |
| Bubble.BubbleSort.constructor | main.py:127-129 | a new source starts at pass 0, position 0, over the given list and direction; it is exhausted at once exactly when the list has at most one slot |
| Bubble.BubbleSort.Seek | main.py:129-131 | the silent loop never moves back in the scan order (pass, then position); every comparison it passes over, from where it resumed to where it stops, finds its pair in order; it stops at an out-of-order adjacent pair within the current pass, or when the passes run out |
| Bubble.BubbleSort.SwapPair | main.py:132-134 | `lst[j], lst[j+1] = lst[j+1], lst[j]` and the inner loop moves on, keeping every invariant |
| Bubble.BubbleSort.Next | main.py:129-135 | one step: a swap of an adjacent out-of-order pair (j, j+1), the first one at or after the resume position in scan order, every comparison before it having found its pair in order, after which the inner loop resumes at j+1; or Done with the list untouched and sorted; Done exactly at exhaustion, and again on every later call |
| Bubble.BubbleSort.FinishedIsSorted | main.py:129-135 | once the passes are over the list is sorted |
| Bubble.BubbleSort.Run | main.py:127-135 | driven to exhaustion, the list is sorted, a rearrangement of the input and its reference sort, after exactly as many steps as the input has inversions |
| Insertion.ShiftStep | main.py:143-149 | moving `current` left past an element that must follow it keeps the insertion invariant |
| Insertion.ShiftKeeps | main.py:147-151 | one shift keeps the invariant and the multiset, leaves `current` at its new slot and removes one inversion |
| Insertion.ShiftStop | main.py:142-146 | when the inner loop stops, at slot 0 or beside an element that may precede `current`, `lst[0..i]` is sorted |
| Insertion.InsertionSort.constructor | main.py:138-141 | a new source starts the `for` loop at 1 with `current = lst[1]` and the shifting position at 1; it is exhausted at once exactly when the list has at most one slot |
| Insertion.InsertionSort.Seek | main.py:140-146 | the silent part stops when `current`'s left neighbour violates the order, or when the `for` loop ends |
| Insertion.InsertionSort.ShiftLeft | main.py:147-149 | the two writes `lst[i] = lst[i-1]; i -= 1; lst[i] = current` amount to exchanging `current` with its left neighbour |
| Insertion.InsertionSort.ShiftPair | main.py:147-151 | one shift moves `current` one slot left and keeps every invariant |
| Insertion.InsertionSort.Next | main.py:140-152 | one step exchanges `current` with its out-of-order left neighbour, reporting the two slots changed; or Done with the list untouched and sorted |
| Insertion.InsertionSort.Run | main.py:138-152 | driven to exhaustion, the list is sorted, a rearrangement of the input and its reference sort, after exactly as many steps as the input has inversions |
| MergeSpec.Merged | main.py:169-190 | the merge of the copies has exactly `len(L) + len(R)` elements: one write per output slot |
| MergeSpec.MergedStep | main.py:169-176 | the next output is L's head when it may precede R's head, ties included, or when R is used up; otherwise R's head |
| MergeSpec.MergedPermutes | main.py:169-190 | the merge keeps every element of both copies |
| MergeSpec.MergedSorted | main.py:169-190 | merging two sorted copies gives a sorted run |
| MergeSpec.MergeAtFacts | main.py:163-190 | `merge(left, mid, right)` leaves slots outside [left, right) untouched, puts the merge of the two halves inside, and keeps the multiset |
| MergeSpec.MSort | main.py:157-162 | `merge_sort_recursive(l, r)` as a function on the list: it keeps the list's length (its other properties are the lemmas below) |
| MergeSpec.ScheduleLength | main.py:157-162 | `Schedule(l, r)`, the merges the recursion on [l, r) performs in order, has one merge fewer than the range has slots, and none for at most one slot |
| MergeSpec.ScheduleValid | main.py:157-162 | every merge the recursion performs lies in its range, has two non-empty halves, and splits at `(left + right) // 2` |
| MergeSpec.MergeAllPermutes | main.py:157-162 | any run of merges only rearranges the list |
| MergeSpec.MSortFrame | main.py:157-162 | `merge_sort_recursive(l, r)` leaves slots outside [l, r) alone |
| MergeSpec.MSortPermutes | main.py:157-162 | `merge_sort_recursive(l, r)` only rearranges the list |
| MergeSpec.MSortSorts | main.py:157-162 | `merge_sort_recursive(l, r)` sorts the slots [l, r) |
| MergeSpec.MSortHalves | main.py:157-162 | both halves are sorted when the merge of [l, r) begins |
| MergeSpec.ScheduleIsMSort | main.py:157-162 | performing the scheduled merges in order is the recursion |
| MergeSpec.HalvesSortedAt | main.py:157-165 | whichever scheduled merge the stepped sort reaches, both of its halves are already sorted |
| MergeSpec.MergeSortCorrect | main.py:155-192 | the recursive merge sort of a list is sorted and a rearrangement of it |
| MergeSpec.MSortIsReference | main.py:155-192 | the recursive merge sort equals the reference sort |
| Merge.SplitFrame | main.py:158-162 | replacing a call on more than one slot by its two halves and its merge keeps the pending merges and lowers the weight of the stack |
| Merge.WriteLeft | main.py:169-184 | `lst[k] = L[i]` keeps the merge state: slots outside untouched, written prefix plus pending merge equals the merge of the copies |
| Merge.WriteRight | main.py:169-190 | `lst[k] = R[j]` keeps the merge state |
| Merge.MergeComplete | main.py:163-190 | when k reaches `right` both copies are used up and the list is the list the merge began on, with the merge performed |
| Merge.FinishStep | main.py:160-162 | a merge whose slots are all written completes the next scheduled merge |
| Merge.BeginPending | main.py:162 | the merge frame popped is the next scheduled merge, and the frames below hold the merges after it |
| Merge.BeginHalves | main.py:160-168 | when a scheduled merge begins, its halves are sorted and copying them starts a merge with nothing written |
| Merge.AllDone | main.py:191 | with every frame popped the list is the recursive merge sort of the original |
| Merge.Put | main.py:171 | `lst[k] = v` overwrites exactly slot k |
| Merge.MergeSort.constructor | main.py:191 | a new source holds the single call `merge_sort_recursive(0, len(lst))` and is not yet exhausted; the writes to come are the widths of all scheduled merges |
| Merge.MergeSort.Seek | main.py:157-162 | the silent part closes a finished merge and pops calls until a merge with a slot to write begins, or nothing is left; it writes nothing |
| Merge.MergeSort.SplitTop | main.py:158-162 | a call on more than one slot is replaced by its left half, right half and merge, left half on top |
| Merge.MergeSort.DropTop | main.py:158 | a call on at most one slot returns at once |
| Merge.MergeSort.BeginMerge | main.py:162-168 | popping a merge frame starts the next scheduled merge, with a slot to write |
| Merge.MergeSort.StartMerge | main.py:163-168 | `L = lst[left:mid]; R = lst[mid:right]; i = j = 0; k = left`: the copies are taken before any write |
| Merge.MergeSort.FinishMerge | main.py:162 | a merge whose slots are all written returns; one more scheduled merge is complete |
| Merge.MergeSort.CloseMerge | main.py:162 | the completed count moves on and the list becomes the new base |
| Merge.MergeSort.WriteNext | main.py:169-190 | one iteration of whichever of the three loops is running writes slot k, and k moves on by one |
| Merge.MergeSort.TakeLeft | main.py:170-172 | slot k receives `L[i]` |
| Merge.MergeSort.TakeRight | main.py:173-175 | slot k receives `R[j]`, and R has an element left |
| Merge.MergeSort.Advance | main.py:169-190 | one write of the merge under way, inside [left, right), one fewer write to come |
| Merge.MergeSort.Next | main.py:157-191 | one step overwrites exactly slot k-1 of the running merge; or Done, with the list untouched and equal to the recursive merge sort of the original |
| Merge.MergeSort.FinishedIsSorted | main.py:191-192 | once exhausted, the list is the recursive merge sort of the original: sorted and a rearrangement of it |
| Merge.MergeSort.Run | main.py:155-192 | driven to exhaustion, the list is sorted, a rearrangement of the original and its reference sort, after exactly one step per slot written by all the merges |
| Quick.CutsSorted | main.py:197-201 | with no range left to sort every boundary is a cut, so the list is sorted |
| Quick.SwapKeepsCuts | main.py:208 | an exchange inside the range being partitioned keeps every cut outside the pending ranges |
| Quick.AcceptKeeps | main.py:205-208 | an accepted `lst[j]` swapped to slot i+1 keeps the Lomuto invariant: lo..i may precede the pivot, i+1..j-1 may not |
| Quick.SkipKeeps | main.py:205-206 | a rejected `lst[j]` stays, and the invariant holds with j+1 |
| Quick.FinalSwap | main.py:211-214 | the final swap puts the pivot at p = i+1; everything in lo..p-1 may precede it and nothing in p+1..hi may |
| Quick.PivotCuts | main.py:199-201 | after a partition the boundaries on both sides of the pivot are cuts |
| Quick.SplitCuts | main.py:199-201 | after a partition only lo..p-1 and p+1..hi remain to be sorted |
| Quick.InitInv | main.py:215 | before the first step only the whole list 0..n-1 is pending, and the step bound is n * n |
| Quick.AcceptStep | main.py:206-210 | an accepted comparison keeps the whole invariant, counts one more step for this partition and lowers the bound |
| Quick.SkipStep | main.py:205-206 | a rejected comparison keeps the invariant and lowers the bound, without a step |
| Quick.FinishStep | main.py:211-214 | the final swap keeps the invariant, partitions the range around the pivot and pushes the two sides, left on top |
| Quick.BeginStep | main.py:198-205 | popping a call on more than one slot starts its partition with `pivot = lst[high]; i = low - 1; j = low` |
| Quick.DropStep | main.py:198 | popping a call on at most one slot keeps the invariant |
| Quick.SplitCost | main.py:199-201 | the two calls after a partition cost less than the call they replace |
| Quick.SuffixPop | main.py:197-201 | popping calls only shortens the pending stack from the top |
| Quick.PoppedDrop | main.py:197-198 | dropping one more call on at most one slot keeps "everything popped covered at most one slot, the rest is still pending" |
| Quick.PoppedSuffix | main.py:197-198 | what is left after dropping calls is a suffix of the stack |
| Quick.PoppedAll | main.py:197-198 | once every call is dropped, every one of them covered at most one slot |
| Quick.QuickSort.constructor | main.py:215 | a new source holds the single call `quick_sort_recursive(0, len(lst) - 1)` with bound n * n |
| Quick.QuickSort.Seek | main.py:198-206 | the silent part: a partition under way keeps its range, pivot and i, and j only moves on past rejected comparisons; otherwise the calls it drops all cover at most one slot, and the partition it starts is on the first pending call on a longer range, with the calls below it left pending and its loop run from `low` past rejected comparisons; it stops where a swap is due or, with every call dropped, when nothing is left |
| Quick.QuickSort.Skip | main.py:205-206 | a rejected comparison moves j on |
| Quick.QuickSort.PopCalls | main.py:197-205 | pops calls until one covers more than one slot, every popped one before it covering at most one slot, and starts its partition with `pivot = lst[high]; i = low - 1; j = low`; or pops them all |
| Quick.QuickSort.SkipRejected | main.py:205-206 | the `for j` loop moves on, past rejected comparisons only, to the next accepted one or to `high` |
| Quick.QuickSort.Begin | main.py:202-205 | `partition(low, high)` begins on the call on top |
| Quick.QuickSort.Drop | main.py:198 | a call on at most one slot returns at once |
| Quick.QuickSort.Accept | main.py:207-210 | `i += 1; lst[i], lst[j] = lst[j], lst[i]`, self-swaps included, is one step |
| Quick.QuickSort.Finish | main.py:211-214 | the final swap is one step; it returns p = i+1 with the range partitioned around the pivot, and pushes (low, p-1) above (p+1, high) |
| Quick.QuickSort.Act | main.py:205-213 | performs the swap the loops stopped at, `lst[i+1]` with `lst[j]` (`lst[high]` at the end of the loop), keeping range, pivot and pending calls; reports Done exactly when no partition is under way and no call is left |
| Quick.QuickSort.Next | main.py:197-215 | one step is an accepted comparison, swapping slot j to slot i with `lst[i]` allowed before the pivot, or the final pivot swap, which partitions its range and pushes the left side on top; a resumed partition keeps its range and pivot, moves i on by one, and passes over only rejected comparisons; a new partition is on the first pending call on more than one slot, the shorter calls above it dropped, and starts at `low`; Done, with the list untouched and sorted, only when every pending call covers at most one slot |
| Quick.QuickSort.Run | main.py:195-216 | driven to exhaustion, the list is sorted, a rearrangement of the input and its reference sort, after at most n * n steps |
| Visualizer.StepsPerFrame | main.py:275 | the steps per frame are at least 1, the number of whole 50s in the slider value, and between 2 and 10 on the slider's range |
| Visualizer.Clamp | main.py:91-93 | a drag leaves the slider within 100..500, taking a value on the track as it is |
| Visualizer.Session.constructor | main.py:219-263 | the loop starts with a list of 250 values, not sorting, ascending, bubble sort, no generator, and the slider at 250 |
| Visualizer.Session.Resize | main.py:268-272 | a fresh list replaces the list exactly when no sort runs and the slider moved; the sized value then follows the slider |
| Visualizer.Session.Take | main.py:278 | one `next` of the running generator: Done exactly when it is exhausted, with the list sorted in the chosen direction and a rearrangement of where the sort started; otherwise fewer steps remain |
| Visualizer.Session.Burst | main.py:275-281 | up to `StepsPerFrame(slider)` steps, exactly that many unless the generator ran out, in which case the list is sorted |
| Visualizer.Session.Advance | main.py:274-281 | while sorting, one frame's steps, clearing `sorting` exactly at exhaustion; when not sorting, no step is taken and the list, the flag, the generator and its state stay as they were |
| Visualizer.Session.Frame | main.py:268-281 | one frame does either the resize or the steps; the generator always works on the list shown, in the direction and with the routine shown |
| Visualizer.Session.Play | main.py:265-281 | with no further input the sort stops within Measure() + 1 frames, leaving the reference sort of the list it started from |
| Visualizer.Session.Reset | main.py:295-299 | Reset always installs a fresh list of the slider's length and clears `sorting` |
| Visualizer.Session.Start | main.py:300-302 | Start does nothing while sorting; otherwise it makes a new generator of the chosen routine and direction over the list shown, and sets `sorting` |
| Visualizer.Session.LaunchBubble | main.py:300-302 | with bubble sort chosen, a new generator at pass 0, position 0 works on the list shown, has not finished unless the list has at most one slot, and has as many steps ahead as the list has inversions |
| Visualizer.Session.LaunchInsertion | main.py:300-302 | with insertion sort chosen, a new generator at i = 1 works on the list shown, again with as many steps ahead as the list has inversions |
| Visualizer.Session.LaunchMerge | main.py:300-302 | with merge sort chosen, a new generator with no merge done works on the list shown and has ahead one write per slot of every scheduled merge |
| Visualizer.Session.LaunchQuick | main.py:300-302 | with quick sort chosen, a new generator holding the single call (0, n-1) works on the list shown with the step bound n * n |
| Visualizer.Session.ChooseDirection | main.py:303-306 | Ascending and Descending take effect only when not sorting |
| Visualizer.Session.ChooseAlgorithm | main.py:307-318 | the four routine buttons take effect only when not sorting |
| Visualizer.Session.Drag | main.py:88-93 | dragging the handle sets the slider whether or not a sort runs |
| Visualizer.Session.Quit | main.py:286-287 | the close event ends the main loop |

## Left out

- Drawing is not modelled. This covers `DrawInformation` and its layout, `draw`, `draw_list`, `Button`, `Slider.draw`, fonts, colours, `clock.tick` and the redraw of an idle frame at main.py:283. All of these are screen output.
- Highlight maps: a step reports the slots it mutated, not the colour map drawn with it. For insertion sort the map at main.py:150 names slots `i-1` and `i` after `i` was decremented, while the slots changed are `i` and `i+1`. The model does not claim the map equals the mutated slots.
- Slider hit-testing and the float mapping from mouse position to value (main.py:80-93): `Drag` takes the resulting value. `Clamp` keeps only the clamping of the handle to the track, in value terms.
- `generate_starting_list` (main.py:123-124) is random. Its result comes in as a parameter, constrained by `RandomList`: the requested length, values in 0..100.
- `DrawInformation.set_list` (main.py:35-40) computes the bar layout with float division. It divides by zero when all values are equal. This is part of drawing and is not modelled.
- Event polling and the `collidepoint` dispatch (main.py:285-294) are not modelled. Each click is the call of the matching method. The order of events within a frame is the order of the calls.
- `pygame.quit()` and window creation are not modelled.
- Merge.MergeSort.Next: during a merge the list is not a rearrangement of the original, because slots are overwritten from the copies. The model states the multiset only at merge boundaries and at the end.
- Quick.QuickSort.Run: the step count is bounded by n * n (`Potential`) rather than stated exactly. The exact count depends on every pivot's final position.
- Visualizer.Session.Play: for quick sort `Measure()` is the n * n bound above, not the exact number of steps left.
- Python's recursion limit on deeply nested generators (quick sort on an already sorted list of 500) is not modelled. The explicit stacks are unbounded.
- Integers in the sorts are Python integers, which do not overflow. The model uses unbounded `int` as well.
