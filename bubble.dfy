/** Bubble sort as a resumable step source: the two nested `for` loops of the
    generator become the fields `i` (outer pass) and `j` (inner position).
    A comparison that finds the pair in order is silent; only a swap is a step. */
module Bubble {
  import opened Order
  import opened Steps

  /** What the loops have achieved after `i` full passes and `j` steps of the
      current one: the last `i` slots are in order and nothing before them belongs
      after them, and the current pass has carried the extreme of s[0..j] to slot j. */
  ghost predicate PassInvariant(ascending: bool, s: seq<int>, i: nat, j: nat)
    requires i + j < |s|
  {
    && (forall x, y :: 0 <= x < y < |s| && |s| - i <= y ==> Ord(ascending, s[x], s[y]))
    && (forall x :: 0 <= x < j ==> Ord(ascending, s[x], s[j]))
  }

  /** A swap of the out-of-order pair (j, j+1) moves the extreme one slot on. */
  lemma SwapKeepsPass(ascending: bool, s: seq<int>, i: nat, j: nat)
    requires i + j + 1 < |s| && PassInvariant(ascending, s, i, j)
    requires !Ord(ascending, s[j], s[j + 1])
    ensures PassInvariant(ascending, SwapAt(s, j, j + 1), i, j + 1)
  {
    var t := SwapAt(s, j, j + 1);
    forall x, y | 0 <= x < y < |t| && |t| - i <= y ensures Ord(ascending, t[x], t[y]) {
      assert t[y] == s[y];
      assert x == j ==> Ord(ascending, s[j + 1], s[y]);
    }
  }

  /** One swap, on values: everything the sort keeps true survives it, and one
      inversion is gone. */
  lemma SwapKeeps(ascending: bool, s: seq<int>, t: seq<int>, original: seq<int>, taken: nat, i: nat, j: nat)
    requires i + j + 1 < |s| && PassInvariant(ascending, s, i, j) && !Ord(ascending, s[j], s[j + 1])
    requires t == SwapAt(s, j, j + 1)
    requires multiset(s) == multiset(original) && taken + Inversions(ascending, s) == Inversions(ascending, original)
    ensures PassInvariant(ascending, t, i, j + 1)
    ensures multiset(t) == multiset(original) && taken + 1 + Inversions(ascending, t) == Inversions(ascending, original)
  {
    AdjacentSwapInversions(ascending, s, j);
    SwapKeepsPass(ascending, s, i, j);
    SwapAtPermutes(s, j, j + 1);
  }

  /** A silent comparison of an in-order pair also moves the extreme one slot on. */
  lemma SkipKeepsPass(ascending: bool, s: seq<int>, i: nat, j: nat)
    requires i + j + 1 < |s| && PassInvariant(ascending, s, i, j)
    requires Ord(ascending, s[j], s[j + 1])
    ensures PassInvariant(ascending, s, i, j + 1)
  {
  }

  /** At the end of a pass the extreme joins the ordered suffix. */
  lemma PassEnd(ascending: bool, s: seq<int>, i: nat, j: nat)
    requires i + j + 1 == |s| && PassInvariant(ascending, s, i, j)
    requires i + 1 < |s|
    ensures PassInvariant(ascending, s, i + 1, 0)
  {
  }

  /** Position (p, q) of the scan, pass p and inner position q, comes before
      position (p', q'): an earlier pass, or the same pass and an earlier position. */
  predicate ScanBefore(p: nat, q: nat, p': nat, q': nat)
  {
    p < p' || (p == p' && q < q')
  }

  /** Every comparison the loops make from position (i0, j0) up to, but not
      including, position (i1, j1) finds its pair in order, so none of them
      swaps. */
  ghost predicate Skipped(ascending: bool, s: seq<int>, i0: nat, j0: nat, i1: nat, j1: nat)
  {
    forall p: nat, q: nat :: !ScanBefore(p, q, i0, j0) && ScanBefore(p, q, i1, j1) && p + q + 1 < |s| ==>
      Ord(ascending, s[q], s[q + 1])
  }

  /** A comparison that finds its pair in order extends the silent stretch by
      one position. */
  lemma SkippedStep(ascending: bool, s: seq<int>, i0: nat, j0: nat, i: nat, j: nat)
    requires Skipped(ascending, s, i0, j0, i, j) && !ScanBefore(i, j, i0, j0)
    requires i + j + 1 < |s| && Ord(ascending, s[j], s[j + 1])
    ensures Skipped(ascending, s, i0, j0, i, j + 1)
  {
  }

  /** The end of a pass compares nothing more: the stretch reaches the start
      of the next pass. */
  lemma SkippedPass(ascending: bool, s: seq<int>, i0: nat, j0: nat, i: nat, j: nat)
    requires Skipped(ascending, s, i0, j0, i, j) && i + j + 1 >= |s|
    ensures Skipped(ascending, s, i0, j0, i + 1, 0)
  {
  }

  class BubbleSort {
    const a: array<int>
    const ascending: bool
    /** The pass number: the last `i` slots already hold their final values. */
    var i: nat
    /** The left slot of the next adjacent pair to compare in this pass. */
    var j: nat
    /** The list as it was when the sort started. */
    ghost const original: seq<int>
    /** The number of steps produced so far. */
    ghost var taken: nat

    ghost predicate Valid()
      reads this, a
    {
      Loops() && Content()
    }

    /** Where the loops are, and what they have achieved. */
    ghost predicate Loops()
      reads this`i, this`j, a
    {
      var n := a.Length;
      && (n == 0 ==> i == 0 && j == 0)
      && (n > 0 ==> i + j <= n - 1 && PassInvariant(ascending, a[..], i, j))
    }

    /** The list is a rearrangement of the original, and every step so far
        removed one inversion. */
    ghost predicate Content()
      reads this`taken, a
    {
      && multiset(a[..]) == multiset(original)
      && taken + Inversions(ascending, a[..]) == Inversions(ascending, original)
    }

    /** The outer loop has run out of passes. */
    predicate Exhausted()
      reads this, a
    {
      i + 1 >= a.Length
    }

    constructor (lst: array<int>, ascending: bool)
      ensures Valid() && a == lst && this.ascending == ascending
      ensures original == lst[..] && taken == 0 && i == 0 && j == 0
      ensures Exhausted() <==> lst.Length <= 1
    {
      a := lst;
      this.ascending := ascending;
      i, j := 0, 0;
      original := lst[..];
      taken := 0;
    }

    /** Resume the loops until the next swap, perform it and report it; report
        `Done` once the outer loop has finished, without touching the list. */
    method Next() returns (step: Step)
      requires Valid()
      modifies this, a
      ensures Valid()
      ensures step.Done? <==> Exhausted()
      ensures old(Exhausted()) ==> step.Done? && i == old(i) && j == old(j)
      ensures step.Done? ==> a[..] == old(a[..]) && taken == old(taken) && Sorted(ascending, a[..])
      ensures !step.Wrote?
      ensures step.Swapped? ==>
                && step.j == step.i + 1 < a.Length
                && !Ord(ascending, old(a[step.i]), old(a[step.j]))
                && a[..] == SwapAt(old(a[..]), step.i, step.j)
                && taken == old(taken) + 1
      ensures step.Swapped? ==>
                && !ScanBefore(i, step.i, old(i), old(j))
                && Skipped(ascending, old(a[..]), old(i), old(j), i, step.i)
                && j == step.i + 1
    {
      Seek();
      if Exhausted() {
        FinishedIsSorted();
        step := Done;
      } else {
        step := Swapped(j, j + 1);
        SwapPair();
      }
    }

    /** `lst[j], lst[j + 1] = lst[j + 1], lst[j]`, and the inner loop moves on. */
    method SwapPair()
      requires Valid() && i + j + 1 < a.Length && !Ord(ascending, a[j], a[j + 1])
      modifies a, this`j, this`taken
      ensures Valid() && j == old(j) + 1 && taken == old(taken) + 1
      ensures a[..] == SwapAt(old(a[..]), old(j), old(j) + 1)
    {
      ghost var s, taken0 := a[..], taken;
      var j0 := j;
      taken, j := taken + 1, j + 1;
      Swap(a, j0, j0 + 1);
      SwapKeeps(ascending, s, a[..], original, taken0, i, j0);
    }

    /** The silent part of the loops: advance past in-order pairs and finished
        passes until an out-of-order pair is found or the passes run out. */
    method Seek()
      requires Valid()
      modifies this`i, this`j
      ensures Valid()
      ensures old(Exhausted()) ==> i == old(i) && j == old(j)
      ensures !Exhausted() ==> i + j + 1 < a.Length && !Ord(ascending, a[j], a[j + 1])
      ensures !ScanBefore(i, j, old(i), old(j))
      ensures Skipped(ascending, a[..], old(i), old(j), i, j)
    {
      var n := a.Length;
      var p: nat, q: nat := i, j;
      while p + 1 < n && (q + 1 + p >= n || Ord(ascending, a[q], a[q + 1]))
        invariant n == 0 ==> p == 0 && q == 0
        invariant n > 0 ==> p + q <= n - 1 && PassInvariant(ascending, a[..], p, q)
        invariant old(Exhausted()) ==> p == i && q == j
        invariant !ScanBefore(p, q, i, j)
        invariant Skipped(ascending, a[..], i, j, p, q)
        modifies {}
        decreases n - p, n - q
      {
        if q + 1 + p >= n {
          PassEnd(ascending, a[..], p, q);
          SkippedPass(ascending, a[..], i, j, p, q);
          p, q := p + 1, 0;
        } else {
          SkipKeepsPass(ascending, a[..], p, q);
          SkippedStep(ascending, a[..], i, j, p, q);
          q := q + 1;
        }
      }
      i, j := p, q;
    }

    lemma FinishedIsSorted()
      requires Valid() && Exhausted()
      ensures Sorted(ascending, a[..])
    {
    }

    /** Drive the source to exhaustion: the list ends sorted, is a permutation of
        what it was (so it is the reference sort of it), and exactly one step
        was produced per inversion. */
    method Run() returns (steps: nat)
      requires Valid()
      modifies this, a
      ensures Valid() && Exhausted()
      ensures Sorted(ascending, a[..]) && multiset(a[..]) == multiset(old(a[..]))
      ensures steps == Inversions(ascending, old(a[..]))
      ensures a[..] == InsertAll(ascending, old(a[..]))
    {
      steps := 0;
      var done := false;
      while !done
        invariant Valid() && (done ==> Exhausted() && Sorted(ascending, a[..]))
        invariant multiset(a[..]) == multiset(old(a[..]))
        invariant steps + Inversions(ascending, a[..]) == Inversions(ascending, old(a[..]))
        decreases Inversions(ascending, a[..]) + (if done then 0 else 1)
      {
        var step := Next();
        if step.Done? {
          done := true;
        } else {
          steps := steps + 1;
        }
      }
      SortedIffNoInversions(ascending, a[..]);
      SortedIsReference(ascending, old(a[..]), a[..]);
    }
  }
}
