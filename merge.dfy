/** Merge sort as a resumable step source. The recursion of
    `merge_sort_recursive` becomes an explicit stack of pending frames (the
    top is at the front): a `SortFrame(l, r)` is a call not yet started, a
    `MergeFrame` is the `merge(left, mid, right)` that a call runs after both
    of its halves. While a merge runs, its copies L and R, the cursors into
    them and the output slot k are fields. Each step writes one slot. */
module Merge {
  import opened Order
  import opened Steps
  import opened MergeSpec

  datatype Frame = SortFrame(l: nat, r: nat) | MergeFrame(m: Span)

  /** The merges a frame still has to perform, in order. */
  function FrameSpans(f: Frame): seq<Span>
  {
    match f
    case SortFrame(l, r) => Schedule(l, r)
    case MergeFrame(m) => [m]
  }

  /** The merges a stack of frames still has to perform, in order. */
  function Expand(stack: seq<Frame>): seq<Span>
  {
    if stack == [] then [] else FrameSpans(stack[0]) + Expand(stack[1..])
  }

  /** A measure that drops whenever a frame is popped, even when a call is
      replaced by its two halves and its merge. */
  function FrameWeight(f: Frame): nat
  {
    match f
    case SortFrame(l, r) => if r - l > 1 then 4 * (r - l) - 3 else 1
    case MergeFrame(_) => 1
  }

  function Weight(stack: seq<Frame>): nat
  {
    if stack == [] then 0 else FrameWeight(stack[0]) + Weight(stack[1..])
  }

  function SpanSize(m: Span): nat
  {
    if m.left <= m.right then m.right - m.left else 0
  }

  /** The number of slots a list of merges writes. */
  function Width(ms: seq<Span>): nat
  {
    if ms == [] then 0 else SpanSize(ms[0]) + Width(ms[1..])
  }

  /** The number of slots the merges from index i on write, counted by index. */
  function WidthFrom(ms: seq<Span>, i: nat): nat
    decreases |ms| - i
  {
    if i < |ms| then SpanSize(ms[i]) + WidthFrom(ms, i + 1) else 0
  }

  /** Counting by index agrees with counting the suffix. */
  lemma {:induction false} WidthFromSuffix(ms: seq<Span>, i: nat)
    requires i <= |ms|
    ensures WidthFrom(ms, i) == Width(ms[i..])
    decreases |ms| - i
  {
    if i < |ms| {
      WidthFromSuffix(ms, i + 1);
      assert ms[i..][1..] == ms[i + 1..];
    } else {
      assert ms[i..] == [];
    }
  }

  /** The frames that replace the call `merge_sort_recursive(l, r)`: its two
      halves, then its own merge. */
  function Split(l: nat, r: nat): seq<Frame>
  {
    var mid := (l + r) / 2;
    [SortFrame(l, mid), SortFrame(mid, r), MergeFrame(Span(l, mid, r))]
  }

  lemma ExpandCons(f: Frame, rest: seq<Frame>)
    ensures Expand([f] + rest) == FrameSpans(f) + Expand(rest)
    ensures Weight([f] + rest) == FrameWeight(f) + Weight(rest)
  {
    assert ([f] + rest)[1..] == rest;
  }

  lemma Associate(A: seq<Span>, B: seq<Span>, C: seq<Span>, D: seq<Span>)
    ensures A + (B + (C + D)) == (A + B + C) + D
  {
  }

  /** Replacing a call by its two halves and its merge keeps the pending
      merges, and lowers the weight of the stack. */
  lemma SplitFrame(l: nat, r: nat, rest: seq<Frame>)
    requires r - l > 1
    ensures Expand(Split(l, r) + rest) == Schedule(l, r) + Expand(rest)
    ensures Weight(Split(l, r) + rest) < FrameWeight(SortFrame(l, r)) + Weight(rest)
  {
    var mid := (l + r) / 2;
    var m := Span(l, mid, r);
    var st2 := [MergeFrame(m)] + rest;
    var st1 := [SortFrame(mid, r)] + st2;
    var st := [SortFrame(l, mid)] + st1;
    var A, B := Schedule(l, mid), Schedule(mid, r);
    assert Split(l, r) + rest == st;
    calc {
      Expand(st);
      { ExpandCons(SortFrame(l, mid), st1); }
      A + Expand(st1);
      { ExpandCons(SortFrame(mid, r), st2); }
      A + (B + Expand(st2));
      { ExpandCons(MergeFrame(m), rest); }
      A + (B + ([m] + Expand(rest)));
      { Associate(A, B, [m], Expand(rest)); }
      (A + B + [m]) + Expand(rest);
      Schedule(l, r) + Expand(rest);
    }
    ExpandCons(MergeFrame(m), rest);
    ExpandCons(SortFrame(mid, r), st2);
    ExpandCons(SortFrame(l, mid), st1);
    assert FrameWeight(SortFrame(l, mid)) <= 4 * (mid - l) - 3;
    assert FrameWeight(SortFrame(mid, r)) <= 4 * (r - mid) - 3;
  }

  /** The merges scheduled for a list of n slots, all within it. */
  ghost predicate Scheduled(schedule: seq<Span>, n: nat)
  {
    schedule == Schedule(0, n) && AllWithin(schedule, n)
  }

  /** The state of `merge(left, mid, right)` under way on list s, begun on list
      base: the copies are the halves of base, both sorted, nothing outside
      [left, right) has changed, and the written slots a[left..k] followed by
      the merge of what remains of the copies make up the merge of the copies. */
  ghost predicate MergeState(ascending: bool, s: seq<int>, base: seq<int>, L: seq<int>, R: seq<int>,
                             left: nat, mid: nat, right: nat, li: nat, ri: nat, k: nat)
  {
    && left < mid < right <= |s| == |base|
    && L == base[left..mid] && R == base[mid..right]
    && Sorted(ascending, L) && Sorted(ascending, R)
    && li <= |L| && ri <= |R| && k == left + li + ri
    && s[..left] == base[..left] && s[right..] == base[right..]
    && s[left..k] + Merged(ascending, L[li..], R[ri..]) == Merged(ascending, L, R)
  }

  /** Whether the merge loop takes its next element from L: L's head may
      precede R's head (ties take L), or R is used up. */
  predicate TakesLeft(ascending: bool, L: seq<int>, R: seq<int>, li: nat, ri: nat)
  {
    li < |L| && (ri >= |R| || Ord(ascending, L[li], R[ri]))
  }

  /** Writing one slot of [left, right) leaves everything outside it alone. */
  lemma WriteFrame(s: seq<int>, base: seq<int>, left: nat, right: nat, k: nat, v: int)
    requires left <= k < right <= |s| == |base|
    requires s[..left] == base[..left] && s[right..] == base[right..]
    ensures s[k := v][..left] == base[..left] && s[k := v][right..] == base[right..]
  {
    assert s[k := v][..left] == s[..left];
    assert s[k := v][right..] == s[right..];
  }

  /** Writing the next element of the merge into slot k moves it from the
      pending part to the written part. */
  lemma WriteOutput(s: seq<int>, left: nat, k: nat, v: int, pending: seq<int>, rest: seq<int>, whole: seq<int>)
    requires left <= k < |s|
    requires s[left..k] + pending == whole && pending == [v] + rest
    ensures s[k := v][left..k + 1] + rest == whole
  {
    assert s[k := v][left..k + 1] == s[left..k] + [v];
  }

  /** Taking the head of L into slot k keeps the merge state. */
  lemma WriteLeft(ascending: bool, s: seq<int>, base: seq<int>, L: seq<int>, R: seq<int>,
                  left: nat, mid: nat, right: nat, li: nat, ri: nat, k: nat, t: seq<int>)
    requires MergeState(ascending, s, base, L, R, left, mid, right, li, ri, k) && k < right
    requires TakesLeft(ascending, L, R, li, ri) && t == s[k := L[li]]
    ensures MergeState(ascending, t, base, L, R, left, mid, right, li + 1, ri, k + 1)
  {
    var X, Y := L[li..], R[ri..];
    MergedStep(ascending, X, Y);
    assert X[1..] == L[li + 1..];
    WriteFrame(s, base, left, right, k, L[li]);
    WriteOutput(s, left, k, L[li], Merged(ascending, X, Y), Merged(ascending, X[1..], Y), Merged(ascending, L, R));
  }

  /** Otherwise R has an element left, and taking its head keeps the merge state. */
  lemma WriteRight(ascending: bool, s: seq<int>, base: seq<int>, L: seq<int>, R: seq<int>,
                   left: nat, mid: nat, right: nat, li: nat, ri: nat, k: nat, t: seq<int>)
    requires MergeState(ascending, s, base, L, R, left, mid, right, li, ri, k) && k < right
    requires !TakesLeft(ascending, L, R, li, ri) && ri < |R| && t == s[k := R[ri]]
    ensures MergeState(ascending, t, base, L, R, left, mid, right, li, ri + 1, k + 1)
  {
    var X, Y := L[li..], R[ri..];
    MergedStep(ascending, X, Y);
    assert Y[1..] == R[ri + 1..];
    WriteFrame(s, base, left, right, k, R[ri]);
    WriteOutput(s, left, k, R[ri], Merged(ascending, X, Y), Merged(ascending, X, Y[1..]), Merged(ascending, L, R));
  }

  /** When L may not supply the next slot, R still has an element. */
  lemma RightLeft(ascending: bool, s: seq<int>, base: seq<int>, L: seq<int>, R: seq<int>,
                  left: nat, mid: nat, right: nat, li: nat, ri: nat, k: nat)
    requires MergeState(ascending, s, base, L, R, left, mid, right, li, ri, k) && k < right
    requires !TakesLeft(ascending, L, R, li, ri)
    ensures ri < |R|
  {
  }

  /** A merge whose slots are all written has performed one more scheduled merge. */
  lemma FinishStep(ascending: bool, original: seq<int>, schedule: seq<Span>, completed: nat,
                   s: seq<int>, base: seq<int>, L: seq<int>, R: seq<int>,
                   left: nat, mid: nat, right: nat, li: nat, ri: nat)
    requires Scheduled(schedule, |original|) && completed < |schedule|
    requires schedule[completed] == Span(left, mid, right)
    requires base == MergeAll(ascending, original, schedule[..completed])
    requires MergeState(ascending, s, base, L, R, left, mid, right, li, ri, right)
    ensures AllWithin(schedule[..completed + 1], |original|)
    ensures s == MergeAll(ascending, original, schedule[..completed + 1])
  {
    MergeComplete(ascending, s, base, L, R, left, mid, right, li, ri);
    MergeAllStep(ascending, original, schedule, completed);
  }

  /** When k reaches right both copies are used up, and the list is base with
      the merge performed. */
  lemma MergeComplete(ascending: bool, s: seq<int>, base: seq<int>, L: seq<int>, R: seq<int>,
                      left: nat, mid: nat, right: nat, li: nat, ri: nat)
    requires MergeState(ascending, s, base, L, R, left, mid, right, li, ri, right)
    ensures SpanWithin(Span(left, mid, right), |base|)
    ensures s == MergeAt(ascending, base, Span(left, mid, right))
  {
    assert L[li..] == [] && R[ri..] == [];
    Reassemble(s, base, left, right, Merged(ascending, L, R));
  }

  /** A list that agrees with base outside [left, right) and holds M inside it. */
  lemma Reassemble(s: seq<int>, base: seq<int>, left: nat, right: nat, M: seq<int>)
    requires left <= right <= |s| == |base|
    requires s[..left] == base[..left] && s[right..] == base[right..] && s[left..right] == M
    ensures s == base[..left] + M + base[right..]
  {
    assert s == s[..left] + s[left..right] + s[right..];
  }

  /** A merge frame on top contributes its merge first, and popping it lowers
      the weight. */
  lemma PopMerge(stack: seq<Frame>, span: Span)
    requires stack != [] && stack[0] == MergeFrame(span)
    ensures Expand(stack) == [span] + Expand(stack[1..])
    ensures Weight(stack[1..]) < Weight(stack)
  {
    assert stack == [MergeFrame(span)] + stack[1..];
    ExpandCons(MergeFrame(span), stack[1..]);
  }

  /** Popping a merge frame: it is the next scheduled merge, and the frames
      below it hold the merges after it. */
  lemma BeginPending(schedule: seq<Span>, started: nat, span: Span, rest: seq<Span>)
    requires started <= |schedule| && schedule[started..] == [span] + rest
    ensures started < |schedule| && schedule[started] == span
    ensures rest == schedule[started + 1..]
  {
    assert schedule[started..][0] == span;
    assert schedule[started..][1..] == rest;
  }

  /** When the next scheduled merge begins its halves are sorted, and copying
      them starts a merge with nothing written yet. */
  lemma BeginHalves(ascending: bool, original: seq<int>, schedule: seq<Span>, started: nat, s: seq<int>)
    requires Scheduled(schedule, |original|) && started < |schedule|
    requires AllWithin(schedule[..started], |original|)
    requires s == MergeAll(ascending, original, schedule[..started])
    ensures var m := schedule[started];
      MergeState(ascending, s, s, s[m.left..m.mid], s[m.mid..m.right], m.left, m.mid, m.right, 0, 0, m.left)
  {
    HalvesSortedAt(ascending, original, 0, |original|, started);
    ScheduleValid(0, |original|);
    assert ValidMerge(schedule[started], 0, |original|);
  }

  /** With every frame popped, the scheduled merges are all done: the list is
      the recursive merge sort of the original. */
  lemma AllDone(ascending: bool, original: seq<int>, schedule: seq<Span>, started: nat, s: seq<int>)
    requires Scheduled(schedule, |original|) && started <= |schedule|
    requires Expand([]) == schedule[started..]
    requires AllWithin(schedule[..started], |original|)
    requires s == MergeAll(ascending, original, schedule[..started])
    ensures s == MSort(ascending, original, 0, |original|)
  {
    assert schedule[..started] == schedule;
    ScheduleIsMSort(ascending, original, 0, |original|);
  }

  /** `lst[k] = v`: the only mutation merge sort makes. */
  method Put(a: array<int>, k: nat, v: int)
    requires k < a.Length
    modifies a
    ensures a[..] == old(a[..])[k := v]
  {
    a[k] := v;
  }

  /** A merge sort whose fields and list are untouched stays consistent. */
  twostate lemma ValidUnchanged(m: MergeSort)
    requires old(m.Valid()) && unchanged(m, m.a)
    ensures m.Valid() && m.Remaining() == old(m.Remaining())
  {
  }

  /** A new source: the single call on the whole list stands for the whole
      schedule, no merge has completed, and every write is still to come. */
  lemma Initial(ascending: bool, original: seq<int>)
    ensures Scheduled(Schedule(0, |original|), |original|)
    ensures var schedule := Schedule(0, |original|);
      && AllWithin(schedule[..0], |original|)
      && MergeAll(ascending, original, schedule[..0]) == original
      && Expand([SortFrame(0, |original|)]) == schedule[0..]
      && WidthFrom(schedule, 0) == Width(schedule)
  {
    var n := |original|;
    var schedule := Schedule(0, n);
    ScheduleWithin(0, n, n);
    assert schedule[..0] == [];
    assert [SortFrame(0, n)][1..] == [];
    assert schedule[0..] == schedule;
    WidthFromSuffix(schedule, 0);
  }

  class MergeSort {
    const a: array<int>
    const ascending: bool
    /** The pending frames, top first. */
    var stack: seq<Frame>
    /** A `merge` is under way. */
    var merging: bool
    var left: nat
    var mid: nat
    var right: nat
    /** The copies `lst[left:mid]` and `lst[mid:right]` taken when the merge began. */
    var L: seq<int>
    var R: seq<int>
    /** The merge's cursors into L and R, and its next output slot. */
    var li: nat
    var ri: nat
    var k: nat
    ghost const original: seq<int>
    /** The merges `merge_sort_recursive(0, len(lst))` performs, in order. */
    ghost const schedule: seq<Span>
    /** How many of them have completed. */
    ghost var completed: nat
    /** The list after those merges. */
    ghost var base: seq<int>

    ghost predicate Valid()
      reads this, a
    {
      Trace() && Pending() && Current() && Progress()
    }

    /** `base` is the list after the first `completed` scheduled merges. */
    ghost predicate Trace()
      reads this`completed, this`base
    {
      && Scheduled(schedule, |original|)
      && completed <= |schedule|
      && AllWithin(schedule[..completed], |original|)
      && base == MergeAll(ascending, original, schedule[..completed])
    }

    /** How many scheduled merges have begun. */
    ghost function Started(): nat
      reads this`completed, this`merging
    {
      if merging then completed + 1 else completed
    }

    /** The frames on the stack still have to perform exactly the scheduled
        merges not yet begun. */
    ghost predicate Pending()
      reads this`stack, this`completed, this`merging
    {
      Started() <= |schedule| && Expand(stack) == schedule[Started()..]
    }

    /** The merge under way is the next scheduled one. */
    ghost predicate Current()
      reads this`completed, this`merging, this`left, this`mid, this`right
    {
      merging ==> completed < |schedule| && schedule[completed] == Span(left, mid, right)
    }

    /** The list is `base`, or, while a merge is under way, `base` with part
        of the merge written. The merge state is written as an equation so
        that each write carries it over as one fact instead of re-proving its
        parts one by one. */
    ghost predicate Progress()
      reads this, a
    {
      && |original| == a.Length
      && (!merging ==> a[..] == base)
      && (merging ==> MergeState(ascending, a[..], base, L, R, left, mid, right, li, ri, k) == true)
    }

    /** Every frame has been popped and no merge is under way. */
    predicate Exhausted()
      reads this
    {
      !merging && stack == []
    }

    /** The number of writes still to come. */
    ghost function Remaining(): nat
      reads this`completed, this`merging, this`k, this`right
    {
      Unstarted() + (if merging && k <= right then right - k else 0)
    }

    /** The number of slots the merges not yet begun will write. */
    ghost function Unstarted(): nat
      reads this`completed, this`merging
    {
      WidthFrom(schedule, Started())
    }

    constructor (lst: array<int>, ascending: bool)
      ensures Valid() && a == lst && this.ascending == ascending
      ensures original == lst[..] && completed == 0 && !Exhausted()
      ensures Remaining() == Width(Schedule(0, lst.Length))
    {
      a := lst;
      this.ascending := ascending;
      stack := [SortFrame(0, lst.Length)];
      merging := false;
      left, mid, right, L, R, li, ri, k := 0, 0, 0, [], [], 0, 0, 0;
      original := lst[..];
      schedule := Schedule(0, lst.Length);
      completed := 0;
      base := lst[..];
      new;
      Initial(ascending, original);
    }

    /** Resume until the next slot to write, write it and report it; report
        `Done` once the outermost call has returned, without touching the list,
        which then holds the recursive merge sort of the original list. */
    method Next() returns (step: Step)
      requires Valid()
      modifies this, a
      ensures Valid()
      ensures step.Done? <==> Exhausted()
      ensures old(Exhausted()) ==> step.Done?
      ensures step.Done? ==> a[..] == old(a[..]) && a[..] == MSort(ascending, original, 0, a.Length)
      ensures step.Done? ==> Remaining() == old(Remaining()) == 0
      ensures !step.Swapped?
      ensures step.Wrote? ==>
                && merging && left <= step.k < right && step.k + 1 == k
                && a[..] == old(a[..])[step.k := a[step.k]]
                && Remaining() + 1 == old(Remaining())
    {
      Seek();
      if Exhausted() {
        AllDone(ascending, original, schedule, completed, a[..]);
        step := Done;
      } else {
        step := Wrote(k);
        Advance();
      }
    }

    /** Write the next slot of the merge under way. */
    method Advance()
      requires Valid() && merging && k < right
      modifies a, this`li, this`ri, this`k
      ensures Valid() && merging && k == old(k) + 1 && left <= old(k) < right
      ensures a[..] == old(a[..])[old(k) := a[old(k)]]
      ensures Remaining() + 1 == old(Remaining())
    {
      ghost var unstarted := Unstarted();
      WriteNext();
      assert Trace() && Pending() && Current();
      assert Unstarted() == unstarted;
    }

    /** One iteration of whichever of the three loops of `merge` is running:
        while both copies have elements, take the head of L when it may precede
        the head of R (ties take L), else the head of R; then drain L, then R. */
    method WriteNext()
      requires Progress() && merging && k < right
      modifies a, this`li, this`ri, this`k
      ensures Progress() && merging && k == old(k) + 1 && left <= old(k) && k <= right
      ensures a[..] == old(a[..])[old(k) := a[old(k)]]
    {
      var fromLeft: bool;
      if li < |L| && ri < |R| {
        fromLeft := Ord(ascending, L[li], R[ri]);
      } else {
        fromLeft := li < |L|;
      }
      if fromLeft {
        TakeLeft();
      } else {
        TakeRight();
      }
    }

    /** `lst[k] = L[i]; i += 1; k += 1` */
    method TakeLeft()
      requires Progress() && merging && k < right && TakesLeft(ascending, L, R, li, ri)
      modifies a, this`li, this`k
      ensures Progress() && merging && k == old(k) + 1 && left <= old(k) && k <= right
      ensures a[..] == old(a[..])[old(k) := L[old(li)]]
    {
      var i, w := li, k;
      ghost var s := a[..];
      Put(a, w, L[i]);
      WriteLeft(ascending, s, base, L, R, left, mid, right, i, ri, w, a[..]);
      li, k := i + 1, w + 1;
    }

    /** `lst[k] = R[j]; j += 1; k += 1` */
    method TakeRight()
      requires Progress() && merging && k < right && !TakesLeft(ascending, L, R, li, ri)
      modifies a, this`ri, this`k
      ensures Progress() && merging && k == old(k) + 1 && left <= old(k) && k <= right
      ensures old(ri) < |R| && a[..] == old(a[..])[old(k) := R[old(ri)]]
    {
      var j, w := ri, k;
      ghost var s := a[..];
      RightLeft(ascending, s, base, L, R, left, mid, right, li, j, w);
      Put(a, w, R[j]);
      WriteRight(ascending, s, base, L, R, left, mid, right, li, j, w, a[..]);
      ri, k := j + 1, w + 1;
    }

    /** The part of the recursion that writes nothing: close a merge whose
        slots are all written, then pop frames until a merge with a slot to
        write begins, or the stack is empty. */
    method Seek()
      requires Valid()
      modifies this
      ensures Valid() && Remaining() == old(Remaining())
      ensures old(Exhausted()) ==> Exhausted()
      ensures !Exhausted() ==> merging && k < right
    {
      if merging && k == right {
        FinishMerge();
      }
      while !merging && stack != []
        invariant Valid() && Remaining() == old(Remaining())
        invariant old(Exhausted()) ==> Exhausted()
        invariant merging ==> k < right
        decreases Weight(stack)
      {
        match stack[0]
        case SortFrame(l, r) =>
          if r - l > 1 {
            SplitTop(l, r);
          } else {
            DropTop(l, r);
          }
        case MergeFrame(span) =>
          BeginMerge(span);
      }
    }

    /** The merge under way has written all its slots: it is complete. */
    method FinishMerge()
      requires Valid() && merging && k == right
      modifies this`merging, this`completed, this`base
      ensures Valid() && !merging && stack == old(stack) && Remaining() == old(Remaining())
    {
      FinishStep(ascending, original, schedule, completed, a[..], base, L, R, left, mid, right, li, ri);
      CloseMerge();
    }

    /** The merge has returned: one more scheduled merge is complete. */
    method CloseMerge()
      modifies this`merging, this`completed, this`base
      ensures !merging && completed == old(completed) + 1 && base == a[..]
    {
      merging, completed, base := false, completed + 1, a[..];
    }

    /** Pop a call on a range of at most one slot: it does nothing. */
    method DropTop(l: nat, r: nat)
      requires Valid() && !merging && stack != [] && stack[0] == SortFrame(l, r) && r - l <= 1
      modifies this`stack
      ensures Valid() && !merging && Remaining() == old(Remaining())
      ensures Weight(stack) < old(Weight(stack))
    {
      ExpandCons(stack[0], stack[1..]);
      assert stack == [stack[0]] + stack[1..];
      stack := stack[1..];
    }

    /** Pop a call on a longer range: push its merge, then its right half,
        then its left half, which is handled first. */
    method SplitTop(l: nat, r: nat)
      requires Valid() && !merging && stack != [] && stack[0] == SortFrame(l, r) && r - l > 1
      modifies this`stack
      ensures Valid() && !merging && Remaining() == old(Remaining())
      ensures Weight(stack) < old(Weight(stack))
    {
      var rest := stack[1..];
      ExpandCons(stack[0], rest);
      assert stack == [stack[0]] + rest;
      SplitFrame(l, r, rest);
      stack := Split(l, r) + rest;
    }

    /** Pop the merge frame on top and start its merge. */
    method BeginMerge(span: Span)
      requires Valid() && !merging && stack != [] && stack[0] == MergeFrame(span)
      modifies this
      ensures Valid() && merging && k < right && Remaining() == old(Remaining())
      ensures Weight(stack) < old(Weight(stack))
    {
      PopMerge(stack, span);
      BeginPending(schedule, completed, span, Expand(stack[1..]));
      BeginHalves(ascending, original, schedule, completed, a[..]);
      StartMerge(span);
    }

    /** `merge(left, mid, right)` begins: `L = lst[left:mid]; R = lst[mid:right];
        i = 0; j = 0; k = left`. */
    method StartMerge(span: Span)
      requires stack != [] && span.left <= span.mid <= span.right <= a.Length
      modifies this`stack, this`merging, this`left, this`mid, this`right, this`L, this`R, this`li, this`ri, this`k
      ensures stack == old(stack[1..]) && merging
      ensures Span(left, mid, right) == span
      ensures L == a[left..mid] && R == a[mid..right] && li == 0 && ri == 0 && k == left
    {
      stack, merging := stack[1..], true;
      left, mid, right := span.left, span.mid, span.right;
      L, R := a[left..mid], a[mid..right];
      li, ri, k := 0, 0, left;
    }

    /** Once exhausted, the list is sorted and a permutation of the original. */
    lemma FinishedIsSorted()
      requires Valid() && Exhausted()
      ensures a[..] == MSort(ascending, original, 0, a.Length)
      ensures Sorted(ascending, a[..]) && multiset(a[..]) == multiset(original)
    {
      AllDone(ascending, original, schedule, completed, a[..]);
      MergeSortCorrect(ascending, original);
    }

    /** Drive the source to exhaustion: the list ends sorted, a permutation of
        the original, and one step was produced per slot each merge writes. */
    method Run() returns (steps: nat)
      requires Valid()
      modifies this, a
      ensures Valid() && Exhausted()
      ensures Sorted(ascending, a[..]) && multiset(a[..]) == multiset(original)
      ensures steps == old(Remaining())
      ensures a[..] == InsertAll(ascending, original)
    {
      steps := 0;
      var done := false;
      while !done
        invariant Valid() && (done ==> Exhausted())
        invariant steps + Remaining() == old(Remaining())
        decreases Remaining() + (if done then 0 else 1)
      {
        var step := Next();
        if step.Done? {
          done := true;
        } else {
          steps := steps + 1;
        }
      }
      FinishedIsSorted();
      SortedIsReference(ascending, original, a[..]);
    }
  }
}
