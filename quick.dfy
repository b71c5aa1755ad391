/** Quick sort as a resumable step source. The recursion of
    `quick_sort_recursive` becomes a stack of pending calls (low, high), top
    first; the `for j` loop of `partition` (Lomuto's scheme, pivot `lst[high]`)
    becomes the cursor (pivot, i, j). Every swap of the loop is a step, the
    swap of a slot with itself included, and so is the final swap that puts
    the pivot in place. */
module Quick {
  import opened Order
  import opened Steps

  /** A call `quick_sort_recursive(low, high)` on the inclusive range low..high;
      it does something only when low < high. */
  datatype Range = Range(low: int, high: int)

  /** The number of slots of a range. */
  function Size(r: Range): nat
  {
    if r.low <= r.high then r.high - r.low + 1 else 0
  }

  /** m * m, written as a sum of odd numbers so that the solver does not
      reason about products. */
  function Sq(m: nat): nat
  {
    if m == 0 then 0 else Sq(m - 1) + 2 * m - 1
  }

  /** A call on m slots makes at most m * m steps: at most m in its partition,
      then calls on two ranges whose sizes add up to m - 1. */
  function StackCost(stack: seq<Range>): nat
  {
    if stack == [] then 0 else Sq(Size(stack[0])) + StackCost(stack[1..])
  }

  lemma {:induction false} SqIsSquare(m: nat)
    ensures Sq(m) == m * m
  {
    if m > 0 {
      SqIsSquare(m - 1);
      assert m * m == (m - 1) * (m - 1) + 2 * m - 1;
    }
  }

  /** Splitting a range never raises the bound. */
  lemma {:induction false} SqSplit(x: nat, y: nat)
    ensures Sq(x) + Sq(y) <= Sq(x + y)
  {
    if y > 0 {
      SqSplit(x, y - 1);
    }
  }

  lemma SqStep(d: nat)
    requires d > 0
    ensures d + 1 + Sq(d) < Sq(d + 1)
  {
  }

  lemma StackCostPush(A: Range, B: Range, rest: seq<Range>)
    ensures StackCost([A, B] + rest) == Sq(Size(A)) + Sq(Size(B)) + StackCost(rest)
  {
    assert ([A, B] + rest)[1..] == [B] + rest;
    assert ([B] + rest)[1..] == rest;
  }

  /** Boundary c (between slots c - 1 and c) splits s in order: everything
      before it may precede everything from it on. */
  ghost predicate Cut(ascending: bool, s: seq<int>, c: int)
  {
    forall x, y :: 0 <= x < c <= y < |s| ==> Ord(ascending, s[x], s[y])
  }

  /** Boundary c lies inside one of the ranges: slots c - 1 and c both belong to it. */
  ghost predicate Interior(ranges: seq<Range>, c: int)
  {
    exists k :: 0 <= k < |ranges| && ranges[k].low < c <= ranges[k].high
  }

  /** Every boundary not inside a range still to be sorted is already a cut. */
  ghost predicate CutsOutside(ascending: bool, s: seq<int>, ranges: seq<Range>)
  {
    forall c :: 0 <= c <= |s| && !Interior(ranges, c) ==> Cut(ascending, s, c)
  }

  /** A range of a list of n slots, possibly empty. */
  predicate InBounds(r: Range, n: int)
  {
    0 <= r.low <= r.high + 1 <= n
  }

  /** The pending ranges lie in the list, each right of the one above it and
      the top one right of `bound`: the stack is sorted left part first. */
  ghost predicate Ordered(stack: seq<Range>, bound: int, n: int)
  {
    stack != [] ==> InBounds(stack[0], n) && bound < stack[0].low && Ordered(stack[1..], stack[0].high, n)
  }

  /** Every pending range starts right of the bound. */
  lemma {:induction false} OrderedRight(stack: seq<Range>, bound: int, n: int)
    requires Ordered(stack, bound, n)
    ensures forall k :: 0 <= k < |stack| ==> bound < stack[k].low
  {
    if stack != [] {
      OrderedRight(stack[1..], stack[0].high, n);
      forall k | 0 < k < |stack| ensures bound < stack[k].low {
        assert stack[k] == stack[1..][k - 1];
      }
    }
  }

  /** Pushing two ranges that lie, in order, left of the stack. */
  lemma OrderedPush(A: Range, B: Range, rest: seq<Range>, bound: int, n: int)
    requires InBounds(A, n) && InBounds(B, n) && A.high < B.low && Ordered(rest, B.high, n)
    ensures Ordered([A, B] + rest, bound, n) || bound >= A.low
  {
    assert ([A, B] + rest)[1..] == [B] + rest;
    assert ([B] + rest)[1..] == rest;
  }

  /** `partition(lo, hi)` part-way through its loop: the pivot is lst[hi];
      slots lo..i hold elements that may precede it, slots i+1..j-1 elements
      that may not. */
  ghost predicate Partitioning(ascending: bool, s: seq<int>, lo: int, hi: int, pivot: int, i: int, j: int)
  {
    && 0 <= lo < hi < |s| && lo - 1 <= i < j <= hi
    && s[hi] == pivot
    && (forall x :: lo <= x <= i ==> Ord(ascending, s[x], pivot))
    && (forall x :: i < x < j ==> !Ord(ascending, s[x], pivot))
  }

  /** What `partition(lo, hi)` leaves behind when it returns p: everything in
      lo..p-1 may precede lst[p], and nothing in p+1..hi may. */
  ghost predicate Partitioned(ascending: bool, s: seq<int>, lo: int, hi: int, p: int)
  {
    && 0 <= lo <= p <= hi < |s|
    && (forall x :: lo <= x < p ==> Ord(ascending, s[x], s[p]))
    && (forall x :: p < x <= hi ==> !Ord(ascending, s[x], s[p]))
  }

  /** With no range left to sort, every boundary is a cut: the list is sorted. */
  lemma CutsSorted(ascending: bool, s: seq<int>)
    requires CutsOutside(ascending, s, [])
    ensures Sorted(ascending, s)
  {
    forall x, y | 0 <= x < y < |s| ensures Ord(ascending, s[x], s[y]) {
      assert Cut(ascending, s, y);
    }
  }

  /** An exchange of two slots on the same side of a cut keeps the cut. */
  lemma SwapKeepsCut(ascending: bool, s: seq<int>, c: int, x: nat, y: nat)
    requires x < |s| && y < |s| && ((x < c && y < c) || (c <= x && c <= y))
    requires Cut(ascending, s, c)
    ensures Cut(ascending, SwapAt(s, x, y), c)
  {
    var t := SwapAt(s, x, y);
    forall u, v | 0 <= u < c <= v < |t| ensures Ord(ascending, t[u], t[v]) {
      var u' := if u == x then y else if u == y then x else u;
      var v' := if v == x then y else if v == y then x else v;
      assert t[u] == s[u'] && t[v] == s[v'];
    }
  }

  /** An exchange inside the range on top keeps every cut outside the ranges. */
  lemma SwapKeepsCuts(ascending: bool, s: seq<int>, ranges: seq<Range>, x: nat, y: nat)
    requires ranges != [] && ranges[0].low <= x <= ranges[0].high && ranges[0].low <= y <= ranges[0].high
    requires x < |s| && y < |s| && CutsOutside(ascending, s, ranges)
    ensures CutsOutside(ascending, SwapAt(s, x, y), ranges)
  {
    forall c | 0 <= c <= |s| && !Interior(ranges, c) ensures Cut(ascending, SwapAt(s, x, y), c) {
      SwapKeepsCut(ascending, s, c, x, y);
    }
  }

  /** A range of at most one slot has no boundary inside it. */
  lemma DropKeepsCuts(ascending: bool, s: seq<int>, ranges: seq<Range>)
    requires ranges != [] && ranges[0].high <= ranges[0].low
    requires CutsOutside(ascending, s, ranges)
    ensures CutsOutside(ascending, s, ranges[1..])
  {
    forall c | 0 <= c <= |s| && !Interior(ranges[1..], c) ensures Cut(ascending, s, c) {
      assert !Interior(ranges, c);
    }
  }

  /** No boundary at or left of the start of every range is inside one. */
  lemma NotInterior(ranges: seq<Range>, c: int)
    requires forall k :: 0 <= k < |ranges| ==> c <= ranges[k].low
    ensures !Interior(ranges, c)
  {
  }

  /** Interior of a range pushed on top. */
  lemma InteriorCons(r: Range, rest: seq<Range>, c: int)
    ensures Interior([r] + rest, c) <==> (r.low < c <= r.high || Interior(rest, c))
  {
    var rs := [r] + rest;
    if Interior(rest, c) {
      var k :| 0 <= k < |rest| && rest[k].low < c <= rest[k].high;
      assert rs[k + 1] == rest[k];
    }
    if Interior(rs, c) && !(r.low < c <= r.high) {
      var k :| 0 <= k < |rs| && rs[k].low < c <= rs[k].high;
      assert k > 0 && rs[k] == rest[k - 1];
    }
  }

  /** An accepted comparison, on values: lst[j] may precede the pivot, so it is
      swapped to slot i + 1 and both cursors move on. */
  lemma AcceptKeeps(ascending: bool, s: seq<int>, lo: int, hi: int, pivot: int, i: int, j: int)
    requires Partitioning(ascending, s, lo, hi, pivot, i, j) && j < hi && Ord(ascending, s[j], pivot)
    ensures Partitioning(ascending, SwapAt(s, i + 1, j), lo, hi, pivot, i + 1, j + 1)
  {
    var t := SwapAt(s, i + 1, j);
    forall x | i + 1 < x < j + 1 ensures !Ord(ascending, t[x], pivot) {
      if x == j {
        assert t[j] == s[i + 1];
      } else {
        assert t[x] == s[x];
      }
    }
  }

  /** A rejected comparison: lst[j] may not precede the pivot and stays where it is. */
  lemma SkipKeeps(ascending: bool, s: seq<int>, lo: int, hi: int, pivot: int, i: int, j: int)
    requires Partitioning(ascending, s, lo, hi, pivot, i, j) && j < hi && !Ord(ascending, s[j], pivot)
    ensures Partitioning(ascending, s, lo, hi, pivot, i, j + 1)
  {
  }

  /** The final swap `lst[i + 1], lst[high] = lst[high], lst[i + 1]` puts the
      pivot at p = i + 1 and completes the partition. */
  lemma FinalSwap(ascending: bool, s: seq<int>, lo: int, hi: int, pivot: int, i: int)
    requires Partitioning(ascending, s, lo, hi, pivot, i, hi)
    ensures var t := SwapAt(s, i + 1, hi);
      t[i + 1] == pivot && Partitioned(ascending, t, lo, hi, i + 1)
  {
    var t := SwapAt(s, i + 1, hi);
    forall x | i + 1 < x <= hi ensures !Ord(ascending, t[x], t[i + 1]) {
      assert x < hi ==> t[x] == s[x];
    }
  }

  /** After a partition of lo..hi with the pivot at p, the boundaries on both
      sides of p are cuts, so only lo..p-1 and p+1..hi remain to be sorted. */
  lemma SplitCuts(ascending: bool, s: seq<int>, lo: int, hi: int, p: int, rest: seq<Range>)
    requires Partitioned(ascending, s, lo, hi, p)
    requires forall k :: 0 <= k < |rest| ==> hi < rest[k].low
    requires CutsOutside(ascending, s, [Range(lo, hi)] + rest)
    ensures CutsOutside(ascending, s, [Range(lo, p - 1), Range(p + 1, hi)] + rest)
  {
    NotInterior(rest, lo);
    NotInterior(rest, hi + 1);
    InteriorCons(Range(lo, hi), rest, lo);
    InteriorCons(Range(lo, hi), rest, hi + 1);
    assert Cut(ascending, s, lo) && Cut(ascending, s, hi + 1);
    PivotCuts(ascending, s, lo, hi, p);
    var ranges := [Range(lo, p - 1), Range(p + 1, hi)] + rest;
    forall c | 0 <= c <= |s| && !Interior(ranges, c) ensures Cut(ascending, s, c) {
      InteriorCons(Range(lo, p - 1), [Range(p + 1, hi)] + rest, c);
      InteriorCons(Range(p + 1, hi), rest, c);
      assert ranges == [Range(lo, p - 1)] + ([Range(p + 1, hi)] + rest);
      if c != p && c != p + 1 {
        InteriorCons(Range(lo, hi), rest, c);
      }
    }
  }

  /** The boundaries just before and just after the pivot are cuts once the
      boundaries around the whole range are. */
  lemma PivotCuts(ascending: bool, s: seq<int>, lo: int, hi: int, p: int)
    requires Partitioned(ascending, s, lo, hi, p)
    requires Cut(ascending, s, lo) && Cut(ascending, s, hi + 1)
    ensures Cut(ascending, s, p) && Cut(ascending, s, p + 1)
  {
    forall x, y | 0 <= x < y < |s| && lo <= x <= p <= y <= hi ensures Ord(ascending, s[x], s[y]) {
      if x < p && p < y {
        assert Ord(ascending, s[x], s[p]) && Ord(ascending, s[p], s[y]);
      }
    }
  }

  /** `rest` is `stack` with some calls popped off its top. */
  ghost predicate IsSuffix(rest: seq<Range>, stack: seq<Range>)
    decreases |stack|
  {
    rest == stack || (stack != [] && IsSuffix(rest, stack[1..]))
  }

  /** Popping one more call off the top keeps a suffix. */
  lemma {:induction false} SuffixPop(rest: seq<Range>, stack: seq<Range>)
    requires IsSuffix(rest, stack) && rest != []
    ensures IsSuffix(rest[1..], stack)
    decreases |stack|
  {
    if rest != stack {
      SuffixPop(rest, stack[1..]);
    }
  }

  /** Every call in the list covers at most one slot, so it returns at once. */
  predicate AllShort(calls: seq<Range>)
  {
    forall k :: 0 <= k < |calls| ==> calls[k].high <= calls[k].low
  }

  /** `after` is what is left of `before` once calls on at most one slot have
      been popped off its top. */
  predicate Popped(before: seq<Range>, after: seq<Range>)
  {
    && |after| <= |before|
    && (forall k :: 0 <= k < |before| - |after| ==> before[k].high <= before[k].low)
    && (forall k :: 0 <= k < |after| ==> before[|before| - |after| + k] == after[k])
  }

  /** Popping one more call on at most one slot. */
  lemma PoppedDrop(before: seq<Range>, after: seq<Range>)
    requires Popped(before, after) && after != [] && after[0].high <= after[0].low
    ensures Popped(before, after[1..])
  {
    assert before[|before| - |after|] == after[0];
  }

  /** Popping calls keeps a suffix of the stack. */
  lemma {:induction false} PoppedSuffix(before: seq<Range>, after: seq<Range>)
    requires Popped(before, after)
    ensures IsSuffix(after, before)
    decreases |before|
  {
    if |after| < |before| {
      assert Popped(before[1..], after) by {
        forall k | 0 <= k < |after|
          ensures before[1..][|before| - 1 - |after| + k] == after[k]
        {
          assert before[|before| - |after| + k] == after[k];
        }
      }
      PoppedSuffix(before[1..], after);
    } else {
      assert before == after;
    }
  }

  /** With nothing left, every popped call covered at most one slot. */
  lemma PoppedAll(before: seq<Range>)
    requires Popped(before, [])
    ensures AllShort(before)
  {
  }

  /** The ranges still to be sorted: the one being partitioned, then the stack. */
  function ActiveRanges(partitioning: bool, lo: int, hi: int, stack: seq<Range>): seq<Range>
  {
    if partitioning then [Range(lo, hi)] + stack else stack
  }

  /** Everything the step source keeps true between steps, on the values of
      its fields: the pending ranges lie left to right, right of the range being
      partitioned; the partition under way is part-way through its loop, with
      one step per element it has moved before the pivot; every boundary outside
      the ranges still to be sorted is a cut; and the list is a rearrangement
      of the original. */
  ghost predicate Inv(ascending: bool, s: seq<int>, original: seq<int>, stack: seq<Range>, partitioning: bool,
                      lo: int, hi: int, pivot: int, i: int, j: int, swaps: nat)
  {
    && Ordered(stack, if partitioning then hi else -1, |s|)
    && (partitioning ==> Partitioning(ascending, s, lo, hi, pivot, i, j) && swaps == i + 1 - lo)
    && CutsOutside(ascending, s, ActiveRanges(partitioning, lo, hi, stack))
    && multiset(s) == multiset(original)
  }

  /** A bound on the steps still to come: those of the calls on the stack,
      and for a partition under way one per comparison left and one for the
      final swap, then those of the two calls it makes. */
  ghost function Cost(stack: seq<Range>, partitioning: bool, lo: int, hi: int, j: int): nat
  {
    StackCost(stack) + (if partitioning && lo <= j <= hi then hi - j + 1 + Sq(hi - lo) else 0)
  }

  /** Before the first step only the whole list, 0..n-1, is to be sorted. */
  lemma InitInv(ascending: bool, s: seq<int>)
    ensures Inv(ascending, s, s, [Range(0, |s| - 1)], false, 0, 0, 0, 0, 0, 0)
    ensures Cost([Range(0, |s| - 1)], false, 0, 0, 0) == Sq(|s|)
  {
    assert [Range(0, |s| - 1)][1..] == [];
    assert StackCost([Range(0, |s| - 1)]) == Sq(|s|);
  }

  /** Each comparison of the partition loop uses up one step of the bound. */
  lemma ComparisonCost(stack: seq<Range>, lo: int, hi: int, j: int)
    requires lo <= j < hi
    ensures Cost(stack, true, lo, hi, j + 1) < Cost(stack, true, lo, hi, j)
  {
  }

  /** An accepted comparison `i += 1; lst[i], lst[j] = lst[j], lst[i]`. */
  lemma AcceptStep(ascending: bool, s: seq<int>, t: seq<int>, original: seq<int>, stack: seq<Range>,
                   lo: int, hi: int, pivot: int, i: int, j: int, swaps: nat)
    requires Inv(ascending, s, original, stack, true, lo, hi, pivot, i, j, swaps)
    requires j < hi && Ord(ascending, s[j], pivot) && t == SwapAt(s, i + 1, j)
    ensures Inv(ascending, t, original, stack, true, lo, hi, pivot, i + 1, j + 1, swaps + 1)
    ensures Cost(stack, true, lo, hi, j + 1) < Cost(stack, true, lo, hi, j)
  {
    AcceptKeeps(ascending, s, lo, hi, pivot, i, j);
    ComparisonCost(stack, lo, hi, j);
    SwapKeepsCuts(ascending, s, [Range(lo, hi)] + stack, i + 1, j);
    SwapAtPermutes(s, i + 1, j);
  }

  /** A rejected comparison: the loop moves on and nothing else changes. */
  lemma SkipStep(ascending: bool, s: seq<int>, original: seq<int>, stack: seq<Range>,
                 lo: int, hi: int, pivot: int, i: int, j: int, swaps: nat)
    requires Inv(ascending, s, original, stack, true, lo, hi, pivot, i, j, swaps)
    requires j < hi && !Ord(ascending, s[j], pivot)
    ensures Inv(ascending, s, original, stack, true, lo, hi, pivot, i, j + 1, swaps)
    ensures Cost(stack, true, lo, hi, j + 1) < Cost(stack, true, lo, hi, j)
  {
    SkipKeeps(ascending, s, lo, hi, pivot, i, j);
    ComparisonCost(stack, lo, hi, j);
  }

  /** Replacing a range lo..hi by the two sides of a pivot p lowers the cost of
      the calls still to come by more than the one step of the final swap. */
  lemma SplitCost(lo: int, hi: int, p: int, stack: seq<Range>)
    requires lo <= p <= hi
    ensures StackCost([Range(lo, p - 1), Range(p + 1, hi)] + stack) < 1 + Sq(hi - lo) + StackCost(stack)
  {
    StackCostPush(Range(lo, p - 1), Range(p + 1, hi), stack);
    SqSplit(p - lo, hi - p);
  }

  /** The final swap, on values: everything the sort keeps true survives it,
      with the two halves of the range pushed in its place, left on top. */
  lemma FinishStep(ascending: bool, s: seq<int>, t: seq<int>, original: seq<int>, stack: seq<Range>, st: seq<Range>,
                   lo: int, hi: int, pivot: int, i: int, swaps: nat)
    requires Inv(ascending, s, original, stack, true, lo, hi, pivot, i, hi, swaps)
    requires t == SwapAt(s, i + 1, hi) && st == [Range(lo, i), Range(i + 2, hi)] + stack
    ensures Inv(ascending, t, original, st, false, lo, hi, pivot, i, hi, swaps + 1)
    ensures t[i + 1] == pivot && Partitioned(ascending, t, lo, hi, i + 1)
    ensures Cost(st, false, lo, hi, hi) < Cost(stack, true, lo, hi, hi)
  {
    OrderedRight(stack, hi, |s|);
    OrderedPush(Range(lo, i), Range(i + 2, hi), stack, -1, |s|);
    FinalSwap(ascending, s, lo, hi, pivot, i);
    SwapKeepsCuts(ascending, s, [Range(lo, hi)] + stack, i + 1, hi);
    SplitCuts(ascending, t, lo, hi, i + 1, stack);
    SwapAtPermutes(s, i + 1, hi);
    SplitCost(lo, hi, i + 1, stack);
  }

  /** Popping a call on a longer range starts its partition:
      `pivot = lst[high]; i = low - 1`, and the loop starts at j = low. */
  lemma BeginStep(ascending: bool, s: seq<int>, original: seq<int>, stack: seq<Range>, st: seq<Range>,
                  lo: int, hi: int, pivot: int, i: int, j: int, swaps: nat)
    requires Inv(ascending, s, original, stack, false, lo, hi, pivot, i, j, swaps)
    requires stack != [] && stack[0].low < stack[0].high && st == stack[1..]
    ensures var r := stack[0];
      && 0 <= r.high < |s|
      && Inv(ascending, s, original, st, true, r.low, r.high, s[r.high], r.low - 1, r.low, 0)
      && Cost(st, true, r.low, r.high, r.low) < Cost(stack, false, lo, hi, j)
  {
    var r := stack[0];
    assert ActiveRanges(true, r.low, r.high, st) == stack;
    SqStep(r.high - r.low);
  }

  /** Popping a call on a range of at most one slot does nothing. */
  lemma DropStep(ascending: bool, s: seq<int>, original: seq<int>, stack: seq<Range>, st: seq<Range>,
                 lo: int, hi: int, pivot: int, i: int, j: int, swaps: nat)
    requires Inv(ascending, s, original, stack, false, lo, hi, pivot, i, j, swaps)
    requires stack != [] && stack[0].high <= stack[0].low && st == stack[1..]
    ensures Inv(ascending, s, original, st, false, lo, hi, pivot, i, j, swaps)
    ensures Cost(st, false, lo, hi, j) <= Cost(stack, false, lo, hi, j)
  {
    assert Ordered(stack[1..], stack[0].high, |s|);
    DropKeepsCuts(ascending, s, stack);
  }

  class QuickSort {
    const a: array<int>
    const ascending: bool
    /** Calls `quick_sort_recursive(low, high)` not yet begun, top first. */
    var stack: seq<Range>
    /** A `partition(lo, hi)` is under way. */
    var partitioning: bool
    var lo: int
    var hi: int
    /** The cursor of `partition`: `pivot = lst[high]`, the last slot `i` of
        the part that may precede the pivot, and the loop index `j`. */
    var pivot: int
    var i: int
    var j: int
    /** The list as it was when the sort started. */
    ghost const original: seq<int>
    /** The steps the current (or last) partition has produced. */
    ghost var swaps: nat

    ghost predicate Valid()
      reads this, a
    {
      Inv(ascending, a[..], original, stack, partitioning, lo, hi, pivot, i, j, swaps)
    }

    /** The outermost call has returned. */
    predicate Exhausted()
      reads this
    {
      !partitioning && stack == []
    }

    /** A bound on the steps still to come. */
    ghost function Potential(): nat
      reads this`stack, this`partitioning, this`lo, this`hi, this`j
    {
      Cost(stack, partitioning, lo, hi, j)
    }

    constructor (lst: array<int>, ascending: bool)
      ensures Valid() && a == lst && this.ascending == ascending
      ensures original == lst[..] && stack == [Range(0, lst.Length - 1)] && !partitioning
      ensures Potential() == Sq(lst.Length)
    {
      a := lst;
      this.ascending := ascending;
      stack := [Range(0, lst.Length - 1)];
      partitioning := false;
      lo, hi, pivot, i, j := 0, 0, 0, 0, 0;
      original := lst[..];
      swaps := 0;
      new;
      InitInv(ascending, lst[..]);
    }

    /** Resume until the next swap, perform it and report it; report `Done`
        once the outermost call has returned, without touching the list. */
    method Next() returns (step: Step)
      requires Valid()
      modifies this, a
      ensures Valid()
      ensures step.Done? <==> Exhausted()
      ensures old(Exhausted()) ==> step.Done?
      ensures step.Done? ==> a[..] == old(a[..]) && Sorted(ascending, a[..])
      ensures !step.Wrote?
      ensures step.Swapped? ==>
                && step.i <= step.j < a.Length
                && a[..] == SwapAt(old(a[..]), step.i, step.j)
                && Potential() < old(Potential())
      // An accepted comparison: lst[j] may precede the pivot and goes to slot i.
      ensures step.Swapped? && partitioning ==>
                && step.i == i && step.j + 1 == j && lo <= step.i && step.j < hi
                && Ord(ascending, a[step.i], pivot)
      // The final swap: the pivot lands at p, the partition made one step per
      // slot left of p plus this one, and the two sides are pushed, left on top.
      ensures step.Swapped? && !partitioning ==>
                && step.j == hi && a[step.i] == pivot
                && Partitioned(ascending, a[..], lo, hi, step.i)
                && swaps == step.i - lo + 1
                && |stack| >= 2 && stack[0] == Range(lo, step.i - 1) && stack[1] == Range(step.i + 1, hi)
                && IsSuffix(stack[2..], old(stack))
      // Done only when every pending call covers at most one slot.
      ensures step.Done? ==> !old(partitioning) && AllShort(old(stack))
      // Resuming a partition: the swap is its next accepted comparison, every
      // comparison passed over having been rejected, or its final swap.
      ensures step.Swapped? && old(partitioning) ==>
                && lo == old(lo) && hi == old(hi) && pivot == old(pivot)
                && step.i == old(i) + 1 && old(j) <= step.j
                && (forall x :: old(j) <= x < step.j ==> !Ord(ascending, old(a[..])[x], pivot))
                && (partitioning ==> stack == old(stack))
                && (!partitioning ==> stack[2..] == old(stack))
      // Otherwise the first pending call on more than one slot is popped, the
      // shorter ones above it dropped, and its partition runs from the start.
      ensures step.Swapped? && !old(partitioning) ==>
                && Popped(old(stack), [Range(lo, hi)] + (if partitioning then stack else stack[2..]))
                && lo < hi && pivot == old(a[..])[hi] && step.i == lo
                && (forall x :: lo <= x < step.j ==> !Ord(ascending, old(a[..])[x], pivot))
    {
      ghost var resumed, entry := partitioning, stack;
      Seek();
      step := Act();
      if step.Swapped? && !partitioning && !resumed {
        var rest := [Range(lo, hi)] + stack[2..];
        PoppedSuffix(entry, rest);
        SuffixPop(rest, entry);
        assert rest[1..] == stack[2..];
      }
    }

    /** Perform the swap the loops have stopped at, or report `Done` when no
        call is left. */
    method Act() returns (step: Step)
      requires Valid() && (partitioning || stack == [])
      requires partitioning ==> j == hi || Ord(ascending, a[j], pivot)
      modifies this, a
      ensures Valid()
      ensures step.Done? <==> Exhausted()
      ensures step.Done? ==> a[..] == old(a[..]) && Sorted(ascending, a[..])
      ensures !step.Wrote?
      ensures step.Swapped? ==>
                && step.i <= step.j < a.Length
                && a[..] == SwapAt(old(a[..]), step.i, step.j)
                && Potential() < old(Potential())
      ensures step.Swapped? && partitioning ==>
                && step.i == i && step.j + 1 == j && lo <= step.i && step.j < hi
                && Ord(ascending, a[step.i], pivot)
      ensures step.Swapped? && !partitioning ==>
                && step.j == hi && a[step.i] == pivot
                && Partitioned(ascending, a[..], lo, hi, step.i)
                && swaps == step.i - lo + 1
                && |stack| >= 2 && stack[0] == Range(lo, step.i - 1) && stack[1] == Range(step.i + 1, hi)
                && stack[2..] == old(stack)
      ensures step.Done? <==> !old(partitioning)
      ensures step.Swapped? ==>
                && step.i == old(i) + 1 && step.j == old(j)
                && lo == old(lo) && hi == old(hi) && pivot == old(pivot)
                && (partitioning ==> stack == old(stack))
    {
      if !partitioning {
        CutsSorted(ascending, a[..]);
        step := Done;
      } else if j < hi {
        step := Swapped(i + 1, j);
        Accept();
      } else {
        step := Swapped(i + 1, hi);
        ghost var pending := stack;
        Finish();
        assert stack[2..] == pending;
      }
    }

    /** `i += 1; lst[i], lst[j] = lst[j], lst[i]`, and the loop moves on. */
    method Accept()
      requires Valid() && partitioning && j < hi && Ord(ascending, a[j], pivot)
      modifies a, this`i, this`j, this`swaps
      ensures Valid() && i == old(i) + 1 && j == old(j) + 1
      ensures a[..] == SwapAt(old(a[..]), i, old(j))
      ensures Potential() < old(Potential())
    {
      ghost var s, i0, j0, swaps0 := a[..], i, j, swaps;
      i, j, swaps := i + 1, j + 1, swaps + 1;
      Swap(a, i, j - 1);
      AcceptStep(ascending, s, a[..], original, stack, lo, hi, pivot, i0, j0, swaps0);
    }

    /** `lst[i + 1], lst[high] = lst[high], lst[i + 1]`; `partition` returns
        p = i + 1 and the calls on (low, p - 1) and (p + 1, high) follow. */
    method Finish()
      requires Valid() && partitioning && j == hi
      modifies a, this`stack, this`partitioning, this`swaps
      ensures Valid() && !partitioning && lo == old(lo) && hi == old(hi) && pivot == old(pivot)
      ensures a[..] == SwapAt(old(a[..]), old(i) + 1, hi)
      ensures a[old(i) + 1] == pivot && Partitioned(ascending, a[..], lo, hi, old(i) + 1)
      ensures swaps == old(swaps) + 1
      ensures stack == [Range(lo, old(i)), Range(old(i) + 2, hi)] + old(stack)
      ensures Potential() < old(Potential())
    {
      ghost var s, stack0, swaps0 := a[..], stack, swaps;
      stack, partitioning, swaps := [Range(lo, i), Range(i + 2, hi)] + stack, false, swaps + 1;
      Swap(a, i + 1, hi);
      FinishStep(ascending, s, a[..], original, stack0, stack, lo, hi, pivot, i, swaps0);
    }

    /** The silent part: drop calls on ranges of at most one slot and start
        the partition of the next longer range, then skip rejected
        comparisons, until a swap is due or nothing is left. */
    method Seek()
      requires Valid()
      modifies this`stack, this`partitioning, this`lo, this`hi, this`pivot, this`i, this`j, this`swaps
      ensures Valid() && Potential() <= old(Potential())
      ensures partitioning || stack == []
      ensures partitioning ==> j == hi || Ord(ascending, a[j], pivot)
      ensures old(partitioning) ==>
                && partitioning && stack == old(stack) && lo == old(lo) && hi == old(hi) && i == old(i)
                && pivot == old(pivot) && old(j) <= j
                && forall x :: old(j) <= x < j ==> !Ord(ascending, a[x], pivot)
      ensures !old(partitioning) && partitioning ==>
                && Popped(old(stack), [Range(lo, hi)] + stack) && lo < hi && i == lo - 1 && pivot == a[hi]
                && forall x :: lo <= x < j ==> !Ord(ascending, a[x], pivot)
      ensures !partitioning ==> AllShort(old(stack))
    {
      if !partitioning {
        PopCalls();
      }
      if partitioning {
        SkipRejected();
      }
    }

    /** Pop calls off the stack: those on at most one slot return at once;
        the first on a longer range starts its partition. */
    method PopCalls()
      requires Valid() && !partitioning
      modifies this`stack, this`partitioning, this`lo, this`hi, this`pivot, this`i, this`j, this`swaps
      ensures Valid() && Potential() <= old(Potential())
      ensures partitioning || stack == []
      ensures partitioning ==>
                && Popped(old(stack), [Range(lo, hi)] + stack)
                && lo < hi && i == lo - 1 && j == lo && pivot == a[hi]
      ensures !partitioning ==> AllShort(old(stack))
    {
      while !partitioning && stack != []
        invariant Valid() && Potential() <= old(Potential())
        invariant !partitioning ==> Popped(old(stack), stack)
        invariant partitioning ==>
                    && Popped(old(stack), [Range(lo, hi)] + stack)
                    && lo < hi && i == lo - 1 && j == lo && pivot == a[hi]
        decreases |stack|, !partitioning
      {
        if stack[0].low < stack[0].high {
          ghost var pending := stack;
          Begin();
          assert [Range(lo, hi)] + stack == pending;
        } else {
          PoppedDrop(old(stack), stack);
          Drop();
        }
      }
      if !partitioning {
        PoppedAll(old(stack));
      }
    }

    /** The `for j` loop passes over the comparisons that reject `lst[j]`. */
    method SkipRejected()
      requires Valid() && partitioning
      modifies this`j
      ensures Valid() && Potential() <= old(Potential())
      ensures j == hi || Ord(ascending, a[j], pivot)
      ensures old(j) <= j && forall x :: old(j) <= x < j ==> !Ord(ascending, a[x], pivot)
    {
      while j < hi && !Ord(ascending, a[j], pivot)
        invariant Valid() && Potential() <= old(Potential())
        invariant old(j) <= j && forall x :: old(j) <= x < j ==> !Ord(ascending, a[x], pivot)
        decreases Potential()
      {
        Skip();
      }
    }

    /** A rejected comparison: `lst[j]` may not precede the pivot; the loop moves on. */
    method Skip()
      requires Valid() && partitioning && j < hi && !Ord(ascending, a[j], pivot)
      modifies this`j
      ensures Valid() && j == old(j) + 1 && Potential() < old(Potential())
    {
      ghost var j0 := j;
      j := j + 1;
      SkipStep(ascending, a[..], original, stack, lo, hi, pivot, i, j0, swaps);
    }

    /** The call on top covers more than one slot: `partition(low, high)` starts,
        with `pivot = lst[high]; i = low - 1` and the loop at j = low. */
    method Begin()
      requires Valid() && !partitioning && stack != [] && stack[0].low < stack[0].high
      modifies this`stack, this`partitioning, this`lo, this`hi, this`pivot, this`i, this`j, this`swaps
      ensures Valid() && partitioning && stack == old(stack)[1..]
      ensures lo == old(stack)[0].low && hi == old(stack)[0].high && pivot == a[hi]
      ensures i == lo - 1 && j == lo && swaps == 0
      ensures Potential() < old(Potential())
    {
      ghost var stack0, lo0, hi0, pivot0, i0, j0, swaps0 := stack, lo, hi, pivot, i, j, swaps;
      var r := stack[0];
      stack, partitioning := stack[1..], true;
      lo, hi, pivot, i, j, swaps := r.low, r.high, a[r.high], r.low - 1, r.low, 0;
      BeginStep(ascending, a[..], original, stack0, stack, lo0, hi0, pivot0, i0, j0, swaps0);
    }

    /** The call on top covers at most one slot and returns at once. */
    method Drop()
      requires Valid() && !partitioning && stack != [] && stack[0].high <= stack[0].low
      modifies this`stack
      ensures Valid() && stack == old(stack)[1..] && Potential() <= old(Potential())
    {
      ghost var stack0 := stack;
      stack := stack[1..];
      DropStep(ascending, a[..], original, stack0, stack, lo, hi, pivot, i, j, swaps);
    }

    /** Drive the source to exhaustion: the list ends sorted and is a
        permutation of what it was (so it is the reference sort of it), after
        at most Potential() steps (n * n for a fresh sort of n slots). */
    method Run() returns (steps: nat)
      requires Valid()
      modifies this, a
      ensures Valid() && Exhausted()
      ensures Sorted(ascending, a[..]) && multiset(a[..]) == multiset(old(a[..]))
      ensures steps <= old(Potential())
      ensures a[..] == InsertAll(ascending, old(a[..]))
    {
      steps := 0;
      var done := false;
      while !done
        invariant Valid() && (done ==> Exhausted() && Sorted(ascending, a[..]))
        invariant multiset(a[..]) == multiset(old(a[..]))
        invariant steps + Potential() <= old(Potential())
        decreases Potential() + (if done then 0 else 1)
      {
        var step := Next();
        if step.Done? {
          done := true;
        } else {
          steps := steps + 1;
        }
      }
      SortedIsReference(ascending, old(a[..]), a[..]);
    }
  }
}
