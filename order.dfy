/** The ordering shared by the four sorting routines.
    Every routine takes an `ascending` flag; the comparisons of the source
    (`<=`, `>`, `>=`, `<`) are all expressed through `Ord`, "x may stay
    before y", which is `<=` when ascending and `>=` when descending. */
module Order {

  /** "x may precede y" in the direction the user picked. */
  predicate Ord(ascending: bool, x: int, y: int)
  {
    if ascending then x <= y else x >= y
  }

  /** Equal values may stay as they are, so a routine never exchanges them;
      and a pair the comparison rejects is strictly ordered the other way. */
  lemma OrdFacts(ascending: bool, x: int, y: int)
    ensures Ord(ascending, x, x)
    ensures !Ord(ascending, x, y) ==> x != y && Ord(ascending, y, x)
  {
  }

  /** Every pair of positions is in order. */
  ghost predicate Sorted(ascending: bool, s: seq<int>)
  {
    forall i, j :: 0 <= i < j < |s| ==> Ord(ascending, s[i], s[j])
  }

  /** `s` with the elements at positions i and j exchanged. */
  function SwapAt(s: seq<int>, i: nat, j: nat): (r: seq<int>)
    requires i < |s| && j < |s|
    ensures |r| == |s|
  {
    s[i := s[j]][j := s[i]]
  }

  /** An exchange rearranges and neither adds nor loses an element. */
  lemma SwapAtPermutes(s: seq<int>, i: nat, j: nat)
    requires i < |s| && j < |s|
    ensures multiset(SwapAt(s, i, j)) == multiset(s)
  {
  }

  /** Exchange two slots of an array: the only mutation bubble, insertion and
      quick sort ever make. */
  method Swap(a: array<int>, i: nat, j: nat)
    requires i < a.Length && j < a.Length
    modifies a
    ensures a[..] == SwapAt(old(a[..]), i, j)
  {
    a[i], a[j] := a[j], a[i];
  }

  /** How many elements of t are out of order with respect to an x placed before them. */
  function CountInverted(ascending: bool, x: int, t: seq<int>): nat
  {
    if t == [] then 0
    else (if Ord(ascending, x, t[0]) then 0 else 1) + CountInverted(ascending, x, t[1..])
  }

  /** The number of pairs i < j with s[i], s[j] out of order. */
  function Inversions(ascending: bool, s: seq<int>): nat
  {
    if s == [] then 0 else CountInverted(ascending, s[0], s[1..]) + Inversions(ascending, s[1..])
  }

  lemma {:induction false} CountInvertedZero(ascending: bool, x: int, t: seq<int>)
    ensures CountInverted(ascending, x, t) == 0 <==> forall k :: 0 <= k < |t| ==> Ord(ascending, x, t[k])
  {
    if t != [] {
      CountInvertedZero(ascending, x, t[1..]);
      assert forall k :: 1 <= k < |t| ==> t[k] == t[1..][k - 1];
    }
  }

  /** A sequence is sorted exactly when it has no inversions. */
  lemma {:induction false} SortedIffNoInversions(ascending: bool, s: seq<int>)
    ensures Sorted(ascending, s) <==> Inversions(ascending, s) == 0
  {
    if s != [] {
      SortedIffNoInversions(ascending, s[1..]);
      CountInvertedZero(ascending, s[0], s[1..]);
      if Inversions(ascending, s) == 0 {
        forall i, j | 0 <= i < j < |s| ensures Ord(ascending, s[i], s[j]) {
          if i > 0 {
            assert s[i] == s[1..][i - 1] && s[j] == s[1..][j - 1];
          } else {
            assert s[j] == s[1..][j - 1];
          }
        }
      }
    }
  }

  lemma {:induction false} CountInvertedAdjacentSwap(ascending: bool, x: int, t: seq<int>, j: nat)
    requires j + 1 < |t|
    ensures CountInverted(ascending, x, SwapAt(t, j, j + 1)) == CountInverted(ascending, x, t)
  {
    var u := SwapAt(t, j, j + 1);
    if j == 0 {
      assert u[1..][1..] == t[1..][1..];
    } else {
      assert u[1..] == SwapAt(t[1..], j - 1, j);
      CountInvertedAdjacentSwap(ascending, x, t[1..], j - 1);
    }
  }

  /** Exchanging an adjacent out-of-order pair removes exactly one inversion:
      this is why bubble and insertion sort take exactly Inversions(input) steps. */
  lemma {:induction false} AdjacentSwapInversions(ascending: bool, s: seq<int>, j: nat)
    requires j + 1 < |s| && !Ord(ascending, s[j], s[j + 1])
    ensures Inversions(ascending, SwapAt(s, j, j + 1)) + 1 == Inversions(ascending, s)
  {
    var u := SwapAt(s, j, j + 1);
    if j == 0 {
      var t := s[2..];
      assert s[1..] == [s[1]] + t && s[1..][1..] == t;
      assert u[1..] == [s[0]] + t && u[1..][1..] == t;
    } else {
      assert u[1..] == SwapAt(s[1..], j - 1, j);
      AdjacentSwapInversions(ascending, s[1..], j - 1);
      CountInvertedAdjacentSwap(ascending, s[0], s[1..], j - 1);
    }
  }

  lemma SortedTail(ascending: bool, s: seq<int>)
    requires s != [] && Sorted(ascending, s)
    ensures Sorted(ascending, s[1..])
  {
    forall i, j | 0 <= i < j < |s| - 1 ensures Ord(ascending, s[1..][i], s[1..][j]) {
      assert s[1..][i] == s[i + 1] && s[1..][j] == s[j + 1];
    }
  }

  /** Putting in front an element that may precede everything keeps a sequence sorted. */
  lemma SortedCons(ascending: bool, x: int, t: seq<int>)
    requires Sorted(ascending, t)
    requires forall e :: e in t ==> Ord(ascending, x, e)
    ensures Sorted(ascending, [x] + t)
  {
    var s := [x] + t;
    forall i, j | 0 <= i < j < |s| ensures Ord(ascending, s[i], s[j]) {
      assert s[j] == t[j - 1];
      if i > 0 {
        assert s[i] == t[i - 1];
      } else {
        assert t[j - 1] in t;
      }
    }
  }

  /** The first element of a sorted sequence may precede every element. */
  lemma SortedHeadFirst(ascending: bool, s: seq<int>, x: int)
    requires s != [] && Sorted(ascending, s) && x in s
    ensures Ord(ascending, s[0], x)
  {
    var k :| 0 <= k < |s| && s[k] == x;
    assert k == 0 || Ord(ascending, s[0], s[k]);
  }

  /** Two sorted arrangements of the same non-empty multiset start alike. */
  lemma SortedSameHead(ascending: bool, s: seq<int>, t: seq<int>)
    requires s != [] && Sorted(ascending, s) && Sorted(ascending, t)
    requires multiset(s) == multiset(t)
    ensures t != [] && s[0] == t[0]
  {
    assert s[0] in multiset(s);
    assert t != [];
    assert t[0] in multiset(t);
    SortedHeadFirst(ascending, t, s[0]);
    SortedHeadFirst(ascending, s, t[0]);
  }

  /** Removing the head removes one occurrence of it from the multiset. */
  lemma TailMultiset(s: seq<int>)
    requires s != []
    ensures multiset(s[1..]) == multiset(s) - multiset{s[0]}
  {
    assert s == [s[0]] + s[1..];
  }

  /** Two sorted arrangements of the same multiset are equal: whichever of the
      four routines ran, a completed sort leaves the same list. */
  lemma {:induction false} SortedPermutationUnique(ascending: bool, s: seq<int>, t: seq<int>)
    requires Sorted(ascending, s) && Sorted(ascending, t)
    requires multiset(s) == multiset(t)
    ensures s == t
    decreases |s|
  {
    if s == [] {
      assert |t| == |multiset(t)| == 0;
    } else {
      SortedSameHead(ascending, s, t);
      TailMultiset(s);
      TailMultiset(t);
      SortedTail(ascending, s);
      SortedTail(ascending, t);
      SortedPermutationUnique(ascending, s[1..], t[1..]);
      assert s == [s[0]] + s[1..] && t == [t[0]] + t[1..];
    }
  }

  /** Put x in front of the first element it may precede. */
  function Insert(ascending: bool, x: int, s: seq<int>): seq<int>
  {
    if s == [] || Ord(ascending, x, s[0]) then [x] + s
    else [s[0]] + Insert(ascending, x, s[1..])
  }

  /** The reference sort: insert the elements one by one, the last first. */
  function InsertAll(ascending: bool, s: seq<int>): seq<int>
  {
    if s == [] then [] else Insert(ascending, s[0], InsertAll(ascending, s[1..]))
  }

  /** Inserting adds exactly one occurrence of x. */
  lemma {:induction false} InsertPermutes(ascending: bool, x: int, s: seq<int>)
    ensures multiset(Insert(ascending, x, s)) == multiset(s) + multiset{x}
  {
    if s != [] && !Ord(ascending, x, s[0]) {
      InsertPermutes(ascending, x, s[1..]);
      assert s == [s[0]] + s[1..];
    }
  }

  /** Inserting into a sorted sequence keeps it sorted. */
  lemma {:induction false} InsertSorted(ascending: bool, x: int, s: seq<int>)
    requires Sorted(ascending, s)
    ensures Sorted(ascending, Insert(ascending, x, s))
  {
    if s == [] {
    } else if Ord(ascending, x, s[0]) {
      forall e | e in s ensures Ord(ascending, x, e) {
        SortedHeadFirst(ascending, s, e);
      }
      SortedCons(ascending, x, s);
    } else {
      var t := s[1..];
      SortedTail(ascending, s);
      InsertSorted(ascending, x, t);
      InsertPermutes(ascending, x, t);
      forall e | e in Insert(ascending, x, t) ensures Ord(ascending, s[0], e) {
        assert e in multiset(Insert(ascending, x, t));
        if e != x {
          assert e in multiset(t);
          SortedHeadFirst(ascending, s, e);
        }
      }
      SortedCons(ascending, s[0], Insert(ascending, x, t));
    }
  }

  /** The reference sort is sorted and a permutation of its input. */
  lemma {:induction false} InsertAllCorrect(ascending: bool, s: seq<int>)
    ensures Sorted(ascending, InsertAll(ascending, s))
    ensures multiset(InsertAll(ascending, s)) == multiset(s)
  {
    if s != [] {
      InsertAllCorrect(ascending, s[1..]);
      InsertSorted(ascending, s[0], InsertAll(ascending, s[1..]));
      InsertPermutes(ascending, s[0], InsertAll(ascending, s[1..]));
      assert s == [s[0]] + s[1..];
    }
  }

  /** Any sorted rearrangement of s is the reference sort of s. */
  lemma SortedIsReference(ascending: bool, s: seq<int>, t: seq<int>)
    requires Sorted(ascending, t) && multiset(t) == multiset(s)
    ensures t == InsertAll(ascending, s)
  {
    InsertAllCorrect(ascending, s);
    SortedPermutationUnique(ascending, t, InsertAll(ascending, s));
  }

  lemma ExampleAscendingMultiset()
    ensures multiset([5, 3, 1, 4, 2]) == multiset([1, 2, 3, 4, 5])
  {
    assert multiset([5, 3, 1, 4, 2]) == multiset{1, 2, 3, 4, 5};
  }

  lemma ExampleDescendingMultiset()
    ensures multiset([5, 3, 1, 4, 2]) == multiset([5, 4, 3, 2, 1])
  {
    assert multiset([5, 3, 1, 4, 2]) == multiset{5, 4, 3, 2, 1};
  }

  lemma ExampleDuplicatesMultiset()
    ensures multiset([4, 2, 2, 3, 1]) == multiset([1, 2, 2, 3, 4])
  {
    assert multiset([4, 2, 2, 3, 1]) == multiset{1, 2, 2, 3, 4};
  }

  lemma ExampleDuplicatesSorted()
    ensures Sorted(true, [1, 2, 2, 3, 4])
  {
  }

  lemma ExampleSorted()
    ensures Sorted(true, [1, 2, 3, 4, 5]) && Sorted(false, [5, 4, 3, 2, 1])
  {
  }

  /** [5,3,1,4,2] sorted ascending is [1,2,3,4,5] ... */
  lemma AscendingExample(s: seq<int>)
    requires Sorted(true, s) && multiset(s) == multiset([5, 3, 1, 4, 2])
    ensures s == [1, 2, 3, 4, 5]
  {
    ExampleAscendingMultiset();
    ExampleSorted();
    SortedPermutationUnique(true, s, [1, 2, 3, 4, 5]);
  }

  /** ... and descending it is [5,4,3,2,1]. */
  lemma DescendingExample(s: seq<int>)
    requires Sorted(false, s) && multiset(s) == multiset([5, 3, 1, 4, 2])
    ensures s == [5, 4, 3, 2, 1]
  {
    ExampleDescendingMultiset();
    ExampleSorted();
    SortedPermutationUnique(false, s, [5, 4, 3, 2, 1]);
  }

  /** Duplicates survive: [4,2,2,3,1] sorts ascending to [1,2,2,3,4]. */
  lemma DuplicatesExample(s: seq<int>)
    requires Sorted(true, s) && multiset(s) == multiset([4, 2, 2, 3, 1])
    ensures s == [1, 2, 2, 3, 4]
  {
    ExampleDuplicatesMultiset();
    ExampleDuplicatesSorted();
    SortedPermutationUnique(true, s, [1, 2, 2, 3, 4]);
  }
}
