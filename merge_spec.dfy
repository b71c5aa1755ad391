/** The reference for merge sort: the merge of two halves, the recursive
    `merge_sort_recursive` as a function (MSort), and the order in which that
    recursion performs its merges (Schedule), which the stepped version
    follows one merge at a time. */
module MergeSpec {
  import opened Order

  /** One call `merge(left, mid, right)`: the halves are [left, mid) and [mid, right). */
  datatype Span = Span(left: nat, mid: nat, right: nat)

  ghost predicate SpanWithin(m: Span, n: nat)
  {
    m.left <= m.mid <= m.right <= n
  }

  ghost predicate AllWithin(ms: seq<Span>, n: nat)
  {
    forall k :: 0 <= k < |ms| ==> SpanWithin(ms[k], n)
  }

  lemma SuffixSlices(s: seq<int>, t: seq<int>, a: nat, b: nat)
    requires a <= b <= |s| == |t| && t[a..] == s[a..]
    ensures t[a..b] == s[a..b] && t[b..] == s[b..]
  {
    assert t[a..b] == t[a..][..b - a];
    assert s[a..b] == s[a..][..b - a];
    assert t[b..] == t[a..][b - a..];
    assert s[b..] == s[a..][b - a..];
  }

  lemma PrefixSlices(s: seq<int>, t: seq<int>, a: nat, b: nat)
    requires a <= b <= |s| == |t| && t[..b] == s[..b]
    ensures t[a..b] == s[a..b] && t[..a] == s[..a]
  {
    assert t[a..b] == t[..b][a..];
    assert s[a..b] == s[..b][a..];
    assert t[..a] == t[..b][..a];
    assert s[..a] == s[..b][..a];
  }

  /** The merge of the source: take from L while its head may precede R's head
      (ties take from L), then drain whichever half is left. */
  function Merged(ascending: bool, L: seq<int>, R: seq<int>): (r: seq<int>)
    ensures |r| == |L| + |R|
    decreases |L| + |R|
  {
    if L == [] then R
    else if R == [] then L
    else if Ord(ascending, L[0], R[0]) then [L[0]] + Merged(ascending, L[1..], R)
    else [R[0]] + Merged(ascending, L, R[1..])
  }

  /** The merge keeps every element of both halves. */
  lemma {:induction false} MergedPermutes(ascending: bool, L: seq<int>, R: seq<int>)
    ensures multiset(Merged(ascending, L, R)) == multiset(L) + multiset(R)
    decreases |L| + |R|
  {
    if L != [] && R != [] {
      if Ord(ascending, L[0], R[0]) {
        MergedPermutes(ascending, L[1..], R);
        HeadTail(L);
      } else {
        MergedPermutes(ascending, L, R[1..]);
        HeadTail(R);
      }
    }
  }

  lemma HeadTail(s: seq<int>)
    requires s != []
    ensures multiset(s) == multiset([s[0]]) + multiset(s[1..])
  {
    assert s == [s[0]] + s[1..];
  }

  /** Merging two sorted halves gives a sorted sequence. */
  lemma {:induction false} MergedSorted(ascending: bool, L: seq<int>, R: seq<int>)
    requires Sorted(ascending, L) && Sorted(ascending, R)
    ensures Sorted(ascending, Merged(ascending, L, R))
    decreases |L| + |R|
  {
    if L != [] && R != [] {
      if Ord(ascending, L[0], R[0]) {
        SortedTail(ascending, L);
        MergedSorted(ascending, L[1..], R);
        var M := Merged(ascending, L[1..], R);
        MergedPermutes(ascending, L[1..], R);
        forall e | e in M ensures Ord(ascending, L[0], e) {
          assert e in multiset(M);
          if e in L[1..] {
            SortedHeadFirst(ascending, L, e);
          } else {
            assert e in R;
            SortedHeadFirst(ascending, R, e);
          }
        }
        SortedCons(ascending, L[0], M);
      } else {
        SortedTail(ascending, R);
        MergedSorted(ascending, L, R[1..]);
        var M := Merged(ascending, L, R[1..]);
        MergedPermutes(ascending, L, R[1..]);
        forall e | e in M ensures Ord(ascending, R[0], e) {
          assert e in multiset(M);
          if e in L {
            SortedHeadFirst(ascending, L, e);
          } else {
            assert e in R[1..];
            SortedHeadFirst(ascending, R, e);
          }
        }
        SortedCons(ascending, R[0], M);
      }
    }
  }

  /** The list after `merge(left, mid, right)`. */
  function MergeAt(ascending: bool, s: seq<int>, m: Span): (r: seq<int>)
    requires SpanWithin(m, |s|)
    ensures |r| == |s|
  {
    s[..m.left] + Merged(ascending, s[m.left..m.mid], s[m.mid..m.right]) + s[m.right..]
  }

  /** A merge leaves the slots outside [left, right) untouched, puts the merge
      of the two halves inside, and so keeps the multiset of the list. */
  lemma MergeAtFacts(ascending: bool, s: seq<int>, m: Span)
    requires SpanWithin(m, |s|)
    ensures var r := MergeAt(ascending, s, m);
      && r[..m.left] == s[..m.left] && r[m.right..] == s[m.right..]
      && r[m.left..m.right] == Merged(ascending, s[m.left..m.mid], s[m.mid..m.right])
      && multiset(r) == multiset(s)
  {
    assert s == s[..m.left] + s[m.left..m.mid] + s[m.mid..m.right] + s[m.right..];
    var M := Merged(ascending, s[m.left..m.mid], s[m.mid..m.right]);
    MergedPermutes(ascending, s[m.left..m.mid], s[m.mid..m.right]);
    var r := s[..m.left] + M + s[m.right..];
    assert r[..m.left] == s[..m.left];
    assert r[m.left..m.right] == M;
    assert r[m.right..] == s[m.right..];
  }

  /** A merge `merge_sort_recursive(l, r)` can reach: inside [l, r), both halves
      non-empty, split at the floor of the midpoint. */
  ghost predicate ValidMerge(m: Span, l: nat, r: nat)
  {
    l <= m.left < m.mid < m.right <= r && m.mid == (m.left + m.right) / 2
  }

  /** The merges `merge_sort_recursive(l, r)` performs, in the order it performs
      them: both halves' merges first, left before right, then its own. */
  function Schedule(l: nat, r: nat): seq<Span>
    decreases r - l
  {
    if r - l > 1 then
      var mid := (l + r) / 2;
      Schedule(l, mid) + Schedule(mid, r) + [Span(l, mid, r)]
    else []
  }

  /** The recursion on [l, r) performs one merge fewer than it has slots, and
      none on at most one slot. */
  lemma {:induction false} ScheduleLength(l: nat, r: nat)
    ensures |Schedule(l, r)| == if l < r then r - l - 1 else 0
    decreases r - l
  {
    if r - l > 1 {
      var mid := (l + r) / 2;
      ScheduleLength(l, mid);
      ScheduleLength(mid, r);
    }
  }

  /** Every merge of the schedule of [l, r) is one `merge_sort_recursive(l, r)`
      can reach. */
  lemma {:induction false} ScheduleValid(l: nat, r: nat)
    ensures forall k :: 0 <= k < |Schedule(l, r)| ==> ValidMerge(Schedule(l, r)[k], l, r)
    decreases r - l
  {
    if r - l > 1 {
      var mid := (l + r) / 2;
      var A, B := Schedule(l, mid), Schedule(mid, r);
      var ms := A + B + [Span(l, mid, r)];
      ScheduleValid(l, mid);
      ScheduleValid(mid, r);
      assert forall k :: 0 <= k < |A| ==> ms[k] == A[k];
      assert forall k :: |A| <= k < |A| + |B| ==> ms[k] == B[k - |A|];
    }
  }

  /** Performing a list of merges one after the other. */
  function MergeAll(ascending: bool, s: seq<int>, ms: seq<Span>): (r: seq<int>)
    requires AllWithin(ms, |s|)
    ensures |r| == |s|
    decreases |ms|
  {
    if ms == [] then s
    else MergeAt(ascending, MergeAll(ascending, s, ms[..|ms| - 1]), ms[|ms| - 1])
  }

  /** Any run of merges only rearranges the list. */
  lemma {:induction false} MergeAllPermutes(ascending: bool, s: seq<int>, ms: seq<Span>)
    requires AllWithin(ms, |s|)
    ensures multiset(MergeAll(ascending, s, ms)) == multiset(s)
    decreases |ms|
  {
    if ms != [] {
      MergeAllPermutes(ascending, s, ms[..|ms| - 1]);
      MergeAtFacts(ascending, MergeAll(ascending, s, ms[..|ms| - 1]), ms[|ms| - 1]);
    }
  }

  /** `merge_sort_recursive(l, r)` as a function of the list. */
  function MSort(ascending: bool, s: seq<int>, l: nat, r: nat): (t: seq<int>)
    requires l <= r <= |s|
    ensures |t| == |s|
    decreases r - l
  {
    if r - l > 1 then
      var mid := (l + r) / 2;
      MergeAt(ascending, MSort(ascending, MSort(ascending, s, l, mid), mid, r), Span(l, mid, r))
    else s
  }

  /** MSort leaves the slots outside [l, r) alone. */
  lemma {:induction false} MSortFrame(ascending: bool, s: seq<int>, l: nat, r: nat)
    requires l <= r <= |s|
    ensures var t := MSort(ascending, s, l, r);
      t[..l] == s[..l] && t[r..] == s[r..]
    decreases r - l
  {
    if r - l > 1 {
      var mid := (l + r) / 2;
      var t1 := MSort(ascending, s, l, mid);
      var t2 := MSort(ascending, t1, mid, r);
      MSortFrame(ascending, s, l, mid);
      MSortFrame(ascending, t1, mid, r);
      MergeAtFacts(ascending, t2, Span(l, mid, r));
      PrefixSlices(t1, t2, l, mid);
      SuffixSlices(s, t1, mid, r);
    }
  }

  /** MSort only rearranges the list. */
  lemma {:induction false} MSortPermutes(ascending: bool, s: seq<int>, l: nat, r: nat)
    requires l <= r <= |s|
    ensures multiset(MSort(ascending, s, l, r)) == multiset(s)
    decreases r - l
  {
    if r - l > 1 {
      var mid := (l + r) / 2;
      var t1 := MSort(ascending, s, l, mid);
      var t2 := MSort(ascending, t1, mid, r);
      MSortPermutes(ascending, s, l, mid);
      MSortPermutes(ascending, t1, mid, r);
      MergeAtFacts(ascending, t2, Span(l, mid, r));
    }
  }

  /** MSort sorts the slots [l, r). */
  lemma {:induction false} MSortSorts(ascending: bool, s: seq<int>, l: nat, r: nat)
    requires l <= r <= |s|
    ensures Sorted(ascending, MSort(ascending, s, l, r)[l..r])
    decreases r - l, 1
  {
    if r - l > 1 {
      var mid := (l + r) / 2;
      MSortHalves(ascending, s, l, r);
      MergeAtSorts(ascending, MSort(ascending, MSort(ascending, s, l, mid), mid, r), Span(l, mid, r));
    }
  }

  /** Once both recursive calls of `merge_sort_recursive(l, r)` have returned,
      both halves are sorted: the right call does not disturb the left half. */
  lemma {:induction false} MSortHalves(ascending: bool, s: seq<int>, l: nat, r: nat)
    requires l <= r <= |s| && r - l > 1
    ensures var mid := (l + r) / 2;
      var t := MSort(ascending, MSort(ascending, s, l, mid), mid, r);
      Sorted(ascending, t[l..mid]) && Sorted(ascending, t[mid..r])
    decreases r - l, 0
  {
    var mid := (l + r) / 2;
    var t1 := MSort(ascending, s, l, mid);
    var t2 := MSort(ascending, t1, mid, r);
    MSortSorts(ascending, s, l, mid);
    MSortSorts(ascending, t1, mid, r);
    MSortFrame(ascending, t1, mid, r);
    PrefixSlices(t1, t2, l, mid);
  }

  /** Merging two sorted halves sorts the span. */
  lemma MergeAtSorts(ascending: bool, t: seq<int>, m: Span)
    requires SpanWithin(m, |t|)
    requires Sorted(ascending, t[m.left..m.mid]) && Sorted(ascending, t[m.mid..m.right])
    ensures Sorted(ascending, MergeAt(ascending, t, m)[m.left..m.right])
  {
    MergeAtFacts(ascending, t, m);
    MergedSorted(ascending, t[m.left..m.mid], t[m.mid..m.right]);
  }

  /** The reference merge sort of a whole list: sorted and a permutation. */
  lemma MergeSortCorrect(ascending: bool, s: seq<int>)
    ensures Sorted(ascending, MSort(ascending, s, 0, |s|))
    ensures multiset(MSort(ascending, s, 0, |s|)) == multiset(s)
  {
    MSortSorts(ascending, s, 0, |s|);
    MSortPermutes(ascending, s, 0, |s|);
    var t := MSort(ascending, s, 0, |s|);
    assert t[0..|t|] == t;
  }

  /** The recursive merge sort agrees with the reference sort. */
  lemma MSortIsReference(ascending: bool, s: seq<int>)
    ensures MSort(ascending, s, 0, |s|) == InsertAll(ascending, s)
  {
    MergeSortCorrect(ascending, s);
    SortedIsReference(ascending, s, MSort(ascending, s, 0, |s|));
  }

  lemma AllWithinParts(A: seq<Span>, B: seq<Span>, n: nat)
    requires AllWithin(A + B, n)
    ensures AllWithin(A, n) && AllWithin(B, n)
  {
    forall k | 0 <= k < |A| ensures SpanWithin(A[k], n) {
      assert A[k] == (A + B)[k];
    }
    forall k | 0 <= k < |B| ensures SpanWithin(B[k], n) {
      assert B[k] == (A + B)[|A| + k];
    }
  }

  /** Performing A + B is performing A, then B. */
  lemma {:induction false} MergeAllAppend(ascending: bool, s: seq<int>, A: seq<Span>, B: seq<Span>)
    requires AllWithin(A + B, |s|)
    ensures AllWithin(A, |s|) && AllWithin(B, |s|)
    ensures MergeAll(ascending, s, A + B) == MergeAll(ascending, MergeAll(ascending, s, A), B)
    decreases |B|
  {
    AllWithinParts(A, B, |s|);
    if B == [] {
      assert A + B == A;
    } else {
      var B', m := B[..|B| - 1], B[|B| - 1];
      assert (A + B)[..|A + B| - 1] == A + B' && (A + B)[|A + B| - 1] == m;
      assert A + B == (A + B') + [m];
      AllWithinParts(A + B', [m], |s|);
      MergeAllAppend(ascending, s, A, B');
    }
  }

  /** Performing the scheduled merges in order is the recursive merge sort. */
  lemma {:induction false} ScheduleIsMSort(ascending: bool, s: seq<int>, l: nat, r: nat)
    requires l <= r <= |s|
    ensures AllWithin(Schedule(l, r), |s|)
    ensures MergeAll(ascending, s, Schedule(l, r)) == MSort(ascending, s, l, r)
    decreases r - l
  {
    ScheduleWithin(l, r, |s|);
    var ms := Schedule(l, r);
    if r - l > 1 {
      var mid := (l + r) / 2;
      var A, B := Schedule(l, mid), Schedule(mid, r);
      var m := Span(l, mid, r);
      assert ms == (A + B) + [m];
      assert ms[..|ms| - 1] == A + B;
      ScheduleIsMSort(ascending, s, l, mid);
      var t1 := MSort(ascending, s, l, mid);
      ScheduleIsMSort(ascending, t1, mid, r);
      MergeAllAppend(ascending, s, A, B);
    }
  }

  lemma ConcatIndex(A: seq<Span>, B: seq<Span>, C: seq<Span>, j: nat)
    requires j < |B|
    ensures (A + B + C)[..|A| + j] == A + B[..j] && (A + B + C)[|A| + j] == B[j]
  {
    assert (A + B + C)[..|A| + j] == A + B[..j];
  }

  /** The two halves of merge m are sorted in t. */
  ghost predicate HalvesSorted(ascending: bool, t: seq<int>, m: Span)
    requires SpanWithin(m, |t|)
  {
    Sorted(ascending, t[m.left..m.mid]) && Sorted(ascending, t[m.mid..m.right])
  }

  lemma ScheduleWithin(l: nat, r: nat, n: nat)
    requires l <= r <= n
    ensures AllWithin(Schedule(l, r), n)
  {
    ScheduleValid(l, r);
  }

  /** When the stepped merge sort reaches the merge at position idx of the
      schedule, both halves of that merge are already sorted. */
  lemma {:induction false} HalvesSortedAt(ascending: bool, s: seq<int>, l: nat, r: nat, idx: nat)
    requires l <= r <= |s| && idx < |Schedule(l, r)|
    ensures AllWithin(Schedule(l, r), |s|)
    ensures HalvesSorted(ascending, MergeAll(ascending, s, Schedule(l, r)[..idx]), Schedule(l, r)[idx])
    decreases r - l, 1
  {
    ScheduleWithin(l, r, |s|);
    var mid := (l + r) / 2;
    if idx < |Schedule(l, mid)| {
      HalvesSortedLeft(ascending, s, l, r, idx);
    } else if idx < |Schedule(l, mid)| + |Schedule(mid, r)| {
      HalvesSortedRight(ascending, s, l, r, idx);
    } else {
      HalvesSortedLast(ascending, s, l, r, idx);
    }
  }

  /** A merge inside the left half's schedule. */
  lemma {:induction false} HalvesSortedLeft(ascending: bool, s: seq<int>, l: nat, r: nat, idx: nat)
    requires l <= r <= |s| && r - l > 1 && idx < |Schedule(l, (l + r) / 2)|
    ensures AllWithin(Schedule(l, r), |s|)
    ensures HalvesSorted(ascending, MergeAll(ascending, s, Schedule(l, r)[..idx]), Schedule(l, r)[idx])
    decreases r - l, 0
  {
    ScheduleWithin(l, r, |s|);
    var mid := (l + r) / 2;
    var A, B := Schedule(l, mid), Schedule(mid, r);
    var ms := Schedule(l, r);
    ConcatIndex([], A, B + [Span(l, mid, r)], idx);
    assert ms == [] + A + (B + [Span(l, mid, r)]);
    assert ms[..idx] == A[..idx];
    assert ms[idx] == A[idx];
    HalvesSortedAt(ascending, s, l, mid, idx);
    ScheduleWithin(l, mid, |s|);
    assert MergeAll(ascending, s, ms[..idx]) == MergeAll(ascending, s, A[..idx]);
  }

  /** A merge inside the right half's schedule: the left half's merges have
      all been done, and they did not touch the right half. */
  lemma {:induction false} HalvesSortedRight(ascending: bool, s: seq<int>, l: nat, r: nat, idx: nat)
    requires l <= r <= |s| && r - l > 1
    requires |Schedule(l, (l + r) / 2)| <= idx < |Schedule(l, (l + r) / 2)| + |Schedule((l + r) / 2, r)|
    ensures AllWithin(Schedule(l, r), |s|)
    ensures HalvesSorted(ascending, MergeAll(ascending, s, Schedule(l, r)[..idx]), Schedule(l, r)[idx])
    decreases r - l, 0
  {
    ScheduleWithin(l, r, |s|);
    var mid := (l + r) / 2;
    var A, B := Schedule(l, mid), Schedule(mid, r);
    var ms := Schedule(l, r);
    var j := idx - |A|;
    ConcatIndex(A, B, [Span(l, mid, r)], j);
    assert ms[..idx] == A + B[..j];
    assert ms[idx] == B[j];
    ScheduleWithin(l, mid, |s|);
    ScheduleWithin(mid, r, |s|);
    assert AllWithin(A + B[..j], |s|);
    MergeAllAppend(ascending, s, A, B[..j]);
    ScheduleIsMSort(ascending, s, l, mid);
    var t1 := MSort(ascending, s, l, mid);
    assert MergeAll(ascending, s, ms[..idx]) == MergeAll(ascending, t1, B[..j]);
    HalvesSortedAt(ascending, t1, mid, r, j);
  }

  /** The merge of [l, r) itself: both recursive calls have finished. */
  lemma {:induction false} HalvesSortedLast(ascending: bool, s: seq<int>, l: nat, r: nat, idx: nat)
    requires l <= r <= |s| && r - l > 1
    requires idx == |Schedule(l, (l + r) / 2)| + |Schedule((l + r) / 2, r)|
    ensures AllWithin(Schedule(l, r), |s|)
    ensures HalvesSorted(ascending, MergeAll(ascending, s, Schedule(l, r)[..idx]), Schedule(l, r)[idx])
  {
    ScheduleWithin(l, r, |s|);
    var mid := (l + r) / 2;
    assert Schedule(l, r)[..idx] == Schedule(l, mid) + Schedule(mid, r);
    HalvesDone(ascending, s, l, r);
    MSortHalves(ascending, s, l, r);
  }

  /** Performing the merges of both halves' schedules is running both
      recursive calls. */
  lemma HalvesDone(ascending: bool, s: seq<int>, l: nat, r: nat)
    requires l <= r <= |s| && r - l > 1
    ensures var mid := (l + r) / 2;
      && AllWithin(Schedule(l, mid) + Schedule(mid, r), |s|)
      && MergeAll(ascending, s, Schedule(l, mid) + Schedule(mid, r))
         == MSort(ascending, MSort(ascending, s, l, mid), mid, r)
  {
    var mid := (l + r) / 2;
    var A, B := Schedule(l, mid), Schedule(mid, r);
    ScheduleWithin(l, mid, |s|);
    ScheduleWithin(mid, r, |s|);
    assert AllWithin(A + B, |s|);
    MergeAllAppend(ascending, s, A, B);
    ScheduleIsMSort(ascending, s, l, mid);
    ScheduleIsMSort(ascending, MSort(ascending, s, l, mid), mid, r);
  }

  /** Performing one more merge of a list of merges. */
  lemma MergeAllStep(ascending: bool, s: seq<int>, ms: seq<Span>, i: nat)
    requires i < |ms| && AllWithin(ms, |s|)
    ensures AllWithin(ms[..i], |s|) && AllWithin(ms[..i + 1], |s|)
    ensures MergeAll(ascending, s, ms[..i + 1]) == MergeAt(ascending, MergeAll(ascending, s, ms[..i]), ms[i])
  {
    assert ms[..i + 1][..i] == ms[..i];
  }

  /** One output slot of the merge loop: the next element of Merged is the head
      of L when L's head may precede R's head (or R is used up), else the head of R. */
  lemma MergedStep(ascending: bool, X: seq<int>, Y: seq<int>)
    requires X != [] || Y != []
    ensures X != [] && (Y == [] || Ord(ascending, X[0], Y[0])) ==>
              Merged(ascending, X, Y) == [X[0]] + Merged(ascending, X[1..], Y)
    ensures !(X != [] && (Y == [] || Ord(ascending, X[0], Y[0]))) ==>
              Merged(ascending, X, Y) == [Y[0]] + Merged(ascending, X, Y[1..])
  {
    if X != [] && Y == [] {
      if X[1..] == [] {
        assert X == [X[0]];
      }
    } else if X == [] {
      assert Merged(ascending, X, Y[1..]) == Y[1..];
    }
  }
}

