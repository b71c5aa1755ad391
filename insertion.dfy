/** Insertion sort as a resumable step source. The generator's `for i` loop
    becomes `outer`; its inner `while True` loop, which reassigns `i` as the
    current element moves left, becomes `pos`; `current` is the element
    being inserted. Each step moves `current` one slot to the left. */
module Insertion {
  import opened Order
  import opened Steps

  /** While `current` (at slot pos) is being inserted into s[0..outer]:
      the other slots of s[0..outer] are in order, and every slot it has
      already passed holds an element that must stay after it. */
  ghost predicate ShiftInvariant(ascending: bool, s: seq<int>, outer: nat, pos: nat)
    requires pos <= outer < |s|
  {
    && (forall x, y :: 0 <= x < y <= outer && x != pos && y != pos ==> Ord(ascending, s[x], s[y]))
    && (forall k :: pos < k <= outer ==> !Ord(ascending, s[k], s[pos]))
  }

  /** s[0..n) is in order. */
  ghost predicate PrefixSorted(ascending: bool, s: seq<int>, n: nat)
    requires n <= |s|
  {
    forall x, y :: 0 <= x < y < n ==> Ord(ascending, s[x], s[y])
  }

  /** Moving `current` left past an element that must follow it keeps the invariant. */
  lemma ShiftStep(ascending: bool, s: seq<int>, outer: nat, pos: nat)
    requires 0 < pos <= outer < |s| && ShiftInvariant(ascending, s, outer, pos)
    requires !Ord(ascending, s[pos - 1], s[pos])
    ensures ShiftInvariant(ascending, SwapAt(s, pos - 1, pos), outer, pos - 1)
  {
    var t := SwapAt(s, pos - 1, pos);
    forall x, y | 0 <= x < y <= outer && x != pos - 1 && y != pos - 1
      ensures Ord(ascending, t[x], t[y])
    {
      if x == pos {
        assert t[x] == s[pos - 1] && t[y] == s[y];
      } else if y == pos {
        assert t[y] == s[pos - 1] && t[x] == s[x];
      }
    }
  }

  /** One shift, on values: everything the sort keeps true survives it, and
      one inversion is gone. */
  lemma ShiftKeeps(ascending: bool, s: seq<int>, t: seq<int>, original: seq<int>, taken: nat, outer: nat, pos: nat, current: int)
    requires 0 < pos <= outer < |s| && s[pos] == current && ShiftInvariant(ascending, s, outer, pos)
    requires !Ord(ascending, s[pos - 1], current) && t == SwapAt(s, pos - 1, pos)
    requires multiset(s) == multiset(original) && taken + Inversions(ascending, s) == Inversions(ascending, original)
    ensures t[pos - 1] == current && ShiftInvariant(ascending, t, outer, pos - 1)
    ensures multiset(t) == multiset(original) && taken + 1 + Inversions(ascending, t) == Inversions(ascending, original)
  {
    AdjacentSwapInversions(ascending, s, pos - 1);
    ShiftStep(ascending, s, outer, pos);
    SwapAtPermutes(s, pos - 1, pos);
  }

  /** When the inner loop stops (at slot 0, or next to an element that may
      precede `current`), s[0..outer] is in order. */
  lemma ShiftStop(ascending: bool, s: seq<int>, outer: nat, pos: nat)
    requires pos <= outer < |s| && ShiftInvariant(ascending, s, outer, pos)
    requires pos == 0 || Ord(ascending, s[pos - 1], s[pos])
    ensures PrefixSorted(ascending, s, outer + 1)
  {
    forall x, y | 0 <= x < y <= outer ensures Ord(ascending, s[x], s[y]) {
      if y == pos {
        assert x == pos - 1 || Ord(ascending, s[x], s[pos - 1]);
      } else if x == pos {
        assert !Ord(ascending, s[y], s[pos]);
      }
    }
  }

  class InsertionSort {
    const a: array<int>
    const ascending: bool
    /** The `for` loop index: the element being inserted started at this slot. */
    var outer: nat
    /** The slot `current` occupies now. */
    var pos: nat
    /** The element being inserted. */
    var current: int
    ghost const original: seq<int>
    ghost var taken: nat

    ghost predicate Valid()
      reads this, a
    {
      Loops() && Content()
    }

    /** Where the loops are, and what they have achieved. */
    ghost predicate Loops()
      reads this`outer, this`pos, this`current, a
    {
      var n := a.Length;
      && 1 <= outer
      && (outer <= n || (n == 0 && outer == 1))
      && (outer < n ==> pos <= outer && a[pos] == current && ShiftInvariant(ascending, a[..], outer, pos))
      && (outer >= n ==> Sorted(ascending, a[..]))
    }

    /** The list is a rearrangement of the original, and every step so far
        removed one inversion. */
    ghost predicate Content()
      reads this`taken, a
    {
      && multiset(a[..]) == multiset(original)
      && taken + Inversions(ascending, a[..]) == Inversions(ascending, original)
    }

    /** The `for` loop has run out. */
    predicate Exhausted()
      reads this, a
    {
      outer >= a.Length
    }

    constructor (lst: array<int>, ascending: bool)
      ensures Valid() && a == lst && this.ascending == ascending
      ensures original == lst[..] && taken == 0
      ensures outer == 1 && pos == 1 && (lst.Length > 1 ==> current == lst[1])
      ensures Exhausted() <==> lst.Length <= 1
    {
      a := lst;
      this.ascending := ascending;
      outer, pos := 1, 1;
      current := if lst.Length > 1 then lst[1] else 0;
      original := lst[..];
      taken := 0;
    }

    /** Resume until `current` must move left, move it one slot (the two writes
        of the source amount to exchanging it with its left neighbour) and
        report the two slots; report `Done` once every element is inserted. */
    method Next() returns (step: Step)
      requires Valid()
      modifies this, a
      ensures Valid()
      ensures step.Done? <==> Exhausted()
      ensures old(Exhausted()) ==> step.Done? && outer == old(outer)
      ensures step.Done? ==> a[..] == old(a[..]) && taken == old(taken) && Sorted(ascending, a[..])
      ensures !step.Wrote?
      ensures step.Swapped? ==>
                && step.j == step.i + 1 < a.Length
                && !Ord(ascending, old(a[step.i]), old(a[step.j]))
                && a[..] == SwapAt(old(a[..]), step.i, step.j)
                && pos == step.i && a[pos] == current
                && taken == old(taken) + 1
    {
      Seek();
      if Exhausted() {
        step := Done;
      } else {
        step := Swapped(pos - 1, pos);
        ShiftPair();
      }
    }

    /** One pass of the inner loop that moves: `lst[i] = lst[i - 1]`,
        `i -= 1`, `lst[i] = current`. */
    method ShiftPair()
      requires Valid() && !Exhausted() && 0 < pos && !Ord(ascending, a[pos - 1], current)
      modifies a, this`pos, this`taken
      ensures Valid() && outer == old(outer) && current == old(current)
      ensures pos == old(pos) - 1 && taken == old(taken) + 1
      ensures a[..] == SwapAt(old(a[..]), pos, pos + 1)
    {
      ghost var s, pos0, taken0 := a[..], pos, taken;
      taken := taken + 1;
      ShiftLeft();
      ShiftKeeps(ascending, s, a[..], original, taken0, outer, pos0, current);
    }

    /** The two writes of one shift: the left neighbour moves right, `current`
        takes its slot. */
    method ShiftLeft()
      requires 0 < pos < a.Length && a[pos] == current
      modifies a, this`pos
      ensures pos == old(pos) - 1 && a[..] == SwapAt(old(a[..]), pos, pos + 1)
      ensures a[pos] == current
    {
      a[pos] := a[pos - 1];
      pos := pos - 1;
      a[pos] := current;
    }

    /** The part of the loops that mutates nothing: leave the inner loop when
        `current` is in place, start inserting the next element, until an
        element must move or the `for` loop ends. */
    method Seek()
      requires Valid()
      modifies this`outer, this`pos, this`current
      ensures Valid()
      ensures old(Exhausted()) ==> outer == old(outer)
      ensures !Exhausted() ==> 0 < pos <= outer && !Ord(ascending, a[pos - 1], current)
    {
      var n := a.Length;
      while outer < n && !(pos > 0 && !Ord(ascending, a[pos - 1], current))
        invariant Valid()
        invariant old(Exhausted()) ==> outer == old(outer)
        decreases n - outer
      {
        ShiftStop(ascending, a[..], outer, pos);
        outer := outer + 1;
        if outer < n {
          pos, current := outer, a[outer];
        }
      }
    }

    /** Drive the source to exhaustion: the list ends sorted, is a permutation of
        what it was (so it is the reference sort of it), and exactly one step
        was produced per inversion. */
    method Run() returns (steps: nat)
      requires Valid()
      modifies this, a
      ensures Valid() && Exhausted()
      ensures Sorted(ascending, a[..]) && multiset(a[..]) == multiset(old(a[..]))
      ensures steps == Inversions(ascending, old(a[..]))
      ensures a[..] == InsertAll(ascending, old(a[..]))
    {
      steps := 0;
      var done := false;
      while !done
        invariant Valid() && (done ==> Exhausted())
        invariant multiset(a[..]) == multiset(old(a[..]))
        invariant steps + Inversions(ascending, a[..]) == Inversions(ascending, old(a[..]))
        decreases Inversions(ascending, a[..]) + (if done then 0 else 1)
      {
        var step := Next();
        if step.Done? {
          done := true;
        } else {
          steps := steps + 1;
        }
      }
      SortedIffNoInversions(ascending, a[..]);
      SortedIsReference(ascending, old(a[..]), a[..]);
    }
  }
}
