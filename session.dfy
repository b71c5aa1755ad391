/** The window's controller: the frame loop that advances the running sort a
    few steps per frame, and the buttons and slider that start, configure and
    reset it. Random lists and the slider's drag position come in as
    parameters; drawing is not modelled. */
module Visualizer {
  import opened Order
  import opened Steps
  import MergeSpec
  import Bubble
  import Insertion
  import Merge
  import Quick

  /** Values of a generated list are drawn from MinValue..MaxValue. */
  const MinValue := 0
  const MaxValue := 100
  /** The slider's range and its starting position. */
  const MinElements := 100
  const MaxElements := 500
  const InitialElements := 250
  /** One extra step per frame for every this many elements on the slider. */
  const ElementsPerStep := 50

  /** What `generate_starting_list(n, MinValue, MaxValue)` may return. */
  predicate RandomList(s: seq<int>, n: int)
  {
    |s| == n && forall k :: 0 <= k < |s| ==> MinValue <= s[k] <= MaxValue
  }

  /** How many steps of the sort one frame performs for slider value `v`:
      one per full ElementsPerStep elements, and at least one. */
  function StepsPerFrame(v: int): (r: nat)
    ensures r >= 1
    ensures v >= ElementsPerStep ==> r * ElementsPerStep <= v < (r + 1) * ElementsPerStep
    ensures v < 2 * ElementsPerStep ==> r == 1
    ensures MinElements <= v <= MaxElements ==> 2 <= r <= 10
  {
    if v / ElementsPerStep >= 1 then v / ElementsPerStep else 1
  }

  /** The value a drag leaves on the slider: the handle cannot leave the
      track, so the value stays within MinElements..MaxElements, and a
      position on the track is taken as it is. */
  function Clamp(v: int): (r: int)
    ensures MinElements <= r <= MaxElements
    ensures MinElements <= v <= MaxElements ==> r == v
    ensures v < MinElements ==> r == MinElements
    ensures v > MaxElements ==> r == MaxElements
  {
    if v < MinElements then MinElements else if v > MaxElements then MaxElements else v
  }

  /** The generator object the controller holds: none yet, or one sort
      under way (or finished) on some list. */
  datatype Runner =
    | Idle
    | RunBubble(b: Bubble.BubbleSort)
    | RunInsertion(n: Insertion.InsertionSort)
    | RunMerge(m: Merge.MergeSort)
    | RunQuick(q: Quick.QuickSort)

  /** The objects a runner reads and changes: itself and its list. */
  function Objects(r: Runner): set<object>
  {
    match r
    case Idle => {}
    case RunBubble(b) => {b, b.a}
    case RunInsertion(n) => {n, n.a}
    case RunMerge(m) => {m, m.a}
    case RunQuick(q) => {q, q.a}
  }

  class Session {
    /** The list on screen (`draw_info.lst`). */
    var lst: array<int>
    var sorting: bool
    var ascending: bool
    var algorithm: Algorithm
    /** The generator made by the last Start. */
    var runner: Runner
    /** The slider's value, and the value the list was last sized for. */
    var slider: int
    var prevSlider: int
    /** The main loop goes on while this holds. */
    var running: bool

    ghost predicate Valid()
      reads this, Objects(runner)
    {
      && MinElements <= slider <= MaxElements
      && (sorting ==> Bound())
    }

    /** The runner works on the list on screen, in the direction and with
        the routine the screen shows, and is in a consistent state. */
    ghost predicate Bound()
      reads this`runner, this`lst, this`ascending, this`algorithm, Objects(runner)
    {
      match runner
      case Idle => false
      case RunBubble(b) =>
        b.a == lst && b.ascending == ascending && algorithm == BubbleSort && b.Valid()
      case RunInsertion(n) =>
        n.a == lst && n.ascending == ascending && algorithm == InsertionSort && n.Valid()
      case RunMerge(m) =>
        m.a == lst && m.ascending == ascending && algorithm == MergeSort && m.Valid()
      case RunQuick(q) =>
        q.a == lst && q.ascending == ascending && algorithm == QuickSort && q.Valid()
    }

    /** The runner has no step left. */
    predicate Finished()
      reads this`runner, Objects(runner)
    {
      match runner
      case Idle => true
      case RunBubble(b) => b.Exhausted()
      case RunInsertion(n) => n.Exhausted()
      case RunMerge(m) => m.Exhausted()
      case RunQuick(q) => q.Exhausted()
    }

    /** The list the runner started from. */
    ghost function Original(): seq<int>
      reads this`runner
    {
      match runner
      case Idle => []
      case RunBubble(b) => b.original
      case RunInsertion(n) => n.original
      case RunMerge(m) => m.original
      case RunQuick(q) => q.original
    }

    /** A bound on the steps the runner has left: its inversions for bubble
        and insertion sort, the slots still to write for merge sort. */
    ghost function Measure(): nat
      reads this`runner, Objects(runner)
    {
      match runner
      case Idle => 0
      case RunBubble(b) => Inversions(b.ascending, b.a[..])
      case RunInsertion(n) => Inversions(n.ascending, n.a[..])
      case RunMerge(m) => m.Remaining()
      case RunQuick(q) => q.Potential()
    }

    /** The state `main()` sets up before its loop. */
    constructor (initial: seq<int>)
      requires RandomList(initial, InitialElements)
      ensures Valid() && lst[..] == initial
      ensures !sorting && ascending && algorithm == BubbleSort && runner == Idle
      ensures slider == prevSlider == InitialElements && running
    {
      lst := new int[|initial|](k requires 0 <= k < |initial| => initial[k]);
      sorting, ascending, algorithm, runner := false, true, BubbleSort, Idle;
      slider, prevSlider, running := InitialElements, InitialElements, true;
    }

    /** One pass of the main loop's list work: resize the list if the
        slider moved while no sort was running, then advance the sort. */
    method Frame(generated: seq<int>) returns (steps: nat)
      requires Valid() && RandomList(generated, slider)
      modifies this`lst, this`prevSlider, this`sorting, Objects(runner)
      ensures Valid() && runner == old(runner)
      ensures old(!sorting && slider != prevSlider) ==>
                fresh(lst) && lst[..] == generated && prevSlider == slider && !sorting && steps == 0
      ensures old(!sorting && slider == prevSlider) ==>
                lst == old(lst) && lst[..] == old(lst[..]) && !sorting && steps == 0
      ensures old(sorting) ==> lst == old(lst) && prevSlider == old(prevSlider)
      ensures old(sorting) ==> steps <= StepsPerFrame(slider) && Measure() + steps <= old(Measure())
      ensures old(sorting) && sorting ==> steps == StepsPerFrame(slider)
      ensures old(sorting) && !sorting ==>
                Finished() && Sorted(ascending, lst[..]) && multiset(lst[..]) == multiset(Original())
    {
      Resize(generated);
      steps := Advance();
    }

    /** The first statement of the loop: a slider moved while no sort ran
        replaces the list by a fresh one of the new length. */
    method Resize(generated: seq<int>)
      requires Valid() && RandomList(generated, slider)
      modifies this`lst, this`prevSlider
      ensures Valid()
      ensures old(!sorting && slider != prevSlider) ==> fresh(lst) && lst[..] == generated && prevSlider == slider
      ensures !old(!sorting && slider != prevSlider) ==>
                lst == old(lst) && prevSlider == old(prevSlider)
    {
      if !sorting && slider != prevSlider {
        lst := new int[|generated|](k requires 0 <= k < |generated| => generated[k]);
        prevSlider := slider;
      }
    }

    /** The second statement of the loop: while sorting, take up to
        StepsPerFrame(slider) steps, and stop sorting at the first `Done`. */
    method Advance() returns (steps: nat)
      requires Valid()
      modifies this`sorting, Objects(runner)
      ensures Valid() && runner == old(runner)
      ensures !old(sorting) ==> !sorting && steps == 0 && lst[..] == old(lst[..]) && unchanged(Objects(runner))
      ensures old(sorting) ==> steps <= StepsPerFrame(slider) && Measure() + steps <= old(Measure())
      ensures old(sorting) && sorting ==> steps == StepsPerFrame(slider)
      ensures old(sorting) && !sorting ==>
                Finished() && Sorted(ascending, lst[..]) && multiset(lst[..]) == multiset(Original())
    {
      steps := 0;
      if sorting {
        var done;
        steps, done := Burst();
        if done {
          sorting := false;
        }
      }
    }

    /** The `for` loop of a sorting frame: up to StepsPerFrame(slider) calls
        of `next`, leaving it at the first `Done`, which `done` reports. */
    method Burst() returns (steps: nat, done: bool)
      requires Valid() && sorting
      modifies Objects(runner)
      ensures Valid()
      ensures steps <= StepsPerFrame(slider) && Measure() + steps <= old(Measure())
      ensures !done ==> steps == StepsPerFrame(slider)
      ensures done ==>
                Finished() && Sorted(ascending, lst[..]) && multiset(lst[..]) == multiset(Original())
    {
      var budget := StepsPerFrame(slider);
      steps, done := 0, false;
      while steps < budget
        invariant Valid() && steps <= budget && Measure() + steps <= old(Measure())
        decreases budget - steps
      {
        var step := Take();
        if step.Done? {
          done := true;
          return;
        }
        steps := steps + 1;
      }
    }

    /** The main loop while no event arrives: frame after frame advances the
        sort until `sorting` is cleared, which happens within Measure() + 1
        frames, and leaves the list sorted in the chosen direction and a
        rearrangement of the list the sort started from: whichever routine
        ran, the reference sort of that starting list. */
    method Play() returns (frames: nat)
      requires Valid() && sorting
      modifies this`sorting, Objects(runner)
      ensures Valid() && !sorting && frames <= old(Measure()) + 1
      ensures Finished() && Sorted(ascending, lst[..]) && multiset(lst[..]) == multiset(Original())
      ensures lst[..] == InsertAll(ascending, Original())
    {
      frames := 0;
      ghost var m0 := Measure();
      while sorting
        invariant Valid() && runner == old(runner)
        invariant sorting ==> Measure() + frames <= m0
        invariant !sorting ==>
                    frames <= m0 + 1 && Finished() && Sorted(ascending, lst[..])
                    && multiset(lst[..]) == multiset(Original())
        decreases sorting, Measure()
      {
        var steps := Advance();
        frames := frames + 1;
      }
      SortedIsReference(ascending, Original(), lst[..]);
    }

    /** Advance the runner by one step (`next(sorting_algorithm_generator)`). */
    method Take() returns (step: Step)
      requires Valid() && sorting
      modifies Objects(runner)
      ensures Valid()
      ensures step.Done? <==> Finished()
      ensures step.Done? ==>
                lst[..] == old(lst[..]) && Sorted(ascending, lst[..]) && multiset(lst[..]) == multiset(Original())
      ensures !step.Done? ==> Measure() < old(Measure())
    {
      match runner
      case RunBubble(b) =>
        step := b.Next();
      case RunInsertion(n) =>
        step := n.Next();
      case RunMerge(m) =>
        step := m.Next();
        if step.Done? {
          m.FinishedIsSorted();
        }
      case RunQuick(q) =>
        step := q.Next();
    }

    /** The Reset button: a fresh list of the slider's length, and no sort
        running. The slider's last sized value is left as it was. */
    method Reset(generated: seq<int>)
      requires Valid() && RandomList(generated, slider)
      modifies this`lst, this`sorting
      ensures Valid() && fresh(lst) && lst[..] == generated && !sorting
    {
      lst := new int[|generated|](k requires 0 <= k < |generated| => generated[k]);
      sorting := false;
    }

    /** The Start button: ignored while sorting; otherwise a new runner of the
        chosen routine, in the chosen direction, over the list on screen. */
    method Start()
      requires Valid()
      modifies this`sorting, this`runner
      ensures Valid() && sorting
      ensures old(sorting) ==> runner == old(runner)
      ensures !old(sorting) ==> fresh(Objects(runner) - {lst})
      ensures !old(sorting) ==> Original() == lst[..] && (lst.Length > 1 ==> !Finished())
      ensures !old(sorting) && (algorithm == BubbleSort || algorithm == InsertionSort) ==>
                Measure() == Inversions(ascending, lst[..])
      ensures !old(sorting) && algorithm == MergeSort ==>
                Measure() == Merge.Width(MergeSpec.Schedule(0, lst.Length))
      ensures !old(sorting) && algorithm == QuickSort ==> Measure() == Quick.Sq(lst.Length)
    {
      if sorting {
        return;
      }
      match algorithm
      case BubbleSort => LaunchBubble();
      case InsertionSort => LaunchInsertion();
      case MergeSort => LaunchMerge();
      case QuickSort => LaunchQuick();
    }

    /** Start with bubble sort chosen: `bubble_sort(lst, ascending)`. */
    method LaunchBubble()
      requires Valid() && !sorting && algorithm == BubbleSort
      modifies this`sorting, this`runner
      ensures Valid() && sorting && Original() == lst[..] && (lst.Length > 1 ==> !Finished())
      ensures Measure() == Inversions(ascending, lst[..])
      ensures runner.RunBubble? && fresh(runner.b) && runner.b.i == 0 && runner.b.j == 0
    {
      var b := new Bubble.BubbleSort(lst, ascending);
      runner, sorting := RunBubble(b), true;
    }

    /** Start with insertion sort chosen: `insertion_sort(lst, ascending)`. */
    method LaunchInsertion()
      requires Valid() && !sorting && algorithm == InsertionSort
      modifies this`sorting, this`runner
      ensures Valid() && sorting && Original() == lst[..] && (lst.Length > 1 ==> !Finished())
      ensures Measure() == Inversions(ascending, lst[..])
      ensures runner.RunInsertion? && fresh(runner.n) && runner.n.outer == 1 && runner.n.pos == 1
    {
      var n := new Insertion.InsertionSort(lst, ascending);
      runner, sorting := RunInsertion(n), true;
    }

    /** Start with merge sort chosen: `merge_sort(lst, ascending)`. */
    method LaunchMerge()
      requires Valid() && !sorting && algorithm == MergeSort
      modifies this`sorting, this`runner
      ensures Valid() && sorting && Original() == lst[..] && (lst.Length > 1 ==> !Finished())
      ensures Measure() == Merge.Width(MergeSpec.Schedule(0, lst.Length))
      ensures runner.RunMerge? && fresh(runner.m) && runner.m.completed == 0
    {
      var m := new Merge.MergeSort(lst, ascending);
      label Built:
      runner, sorting := RunMerge(m), true;
      Merge.ValidUnchanged@Built(m);
    }

    /** Start with quick sort chosen: `quick_sort(lst, ascending)`. */
    method LaunchQuick()
      requires Valid() && !sorting && algorithm == QuickSort
      modifies this`sorting, this`runner
      ensures Valid() && sorting && Original() == lst[..] && (lst.Length > 1 ==> !Finished())
      ensures Measure() == Quick.Sq(lst.Length)
      ensures runner.RunQuick? && fresh(runner.q) && !runner.q.partitioning
      ensures runner.q.stack == [Quick.Range(0, lst.Length - 1)]
    {
      var q := new Quick.QuickSort(lst, ascending);
      runner, sorting := RunQuick(q), true;
    }

    /** The Ascending and Descending buttons: ignored while sorting. */
    method ChooseDirection(up: bool)
      requires Valid()
      modifies this`ascending
      ensures Valid()
      ensures ascending == if old(sorting) then old(ascending) else up
    {
      if !sorting {
        ascending := up;
      }
    }

    /** The four routine buttons: ignored while sorting. */
    method ChooseAlgorithm(choice: Algorithm)
      requires Valid()
      modifies this`algorithm
      ensures Valid()
      ensures algorithm == if old(sorting) then old(algorithm) else choice
    {
      if !sorting {
        algorithm := choice;
      }
    }

    /** Dragging the slider's handle, which works whether or not a sort is
        running; `v` is the value under the mouse. */
    method Drag(v: int)
      requires Valid()
      modifies this`slider
      ensures Valid() && slider == Clamp(v)
    {
      slider := Clamp(v);
    }

    /** The window's close event ends the main loop. */
    method Quit()
      modifies this`running
      ensures !running
    {
      running := false;
    }
  }
}
