/** What one call of a step source reports back to the driver. */
module Steps {

  /** One atomic mutation of the list, or the end of the sequence of steps.
      `Swapped(i, j)` exchanged two slots; `Wrote(k)` overwrote one slot.
      The indices are the slots that were mutated. */
  datatype Step = Done | Swapped(i: nat, j: nat) | Wrote(k: nat)

  /** The four routines the user can pick. */
  datatype Algorithm = BubbleSort | InsertionSort | MergeSort | QuickSort
}
