/** Positions in a ring buffer of 4096 slots. */
module Ring {

  const SIZE := 4096

  /** The slot of the i-th element of a stream. */
  function Slot(i: int): (s: nat)
    ensures s < SIZE
  {
    i % SIZE
  }

  lemma SlotNext(i: int)
    ensures (Slot(i) + 1) % SIZE == Slot(i + 1)
  {
  }

  lemma SlotPrev(i: int)
    ensures (Slot(i) + SIZE - 1) % SIZE == Slot(i - 1)
  {
  }

  /** Slots of elements less than a buffer apart differ. */
  lemma SlotsDiffer(i: int, j: int)
    requires i < j < i + SIZE
    ensures Slot(i) != Slot(j)
  {
  }

  lemma SlotWraps(i: int)
    ensures Slot(i + SIZE) == Slot(i)
  {
  }
}
