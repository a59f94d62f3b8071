/**
 Ring indices. The driver only ever advances an index with
 (i + 1) & (N - 1); the protocol is argued with unbounded counters, and Slot
 maps such a counter to the ring index reached after that many advances.
 */
module RingIndex {
  import opened Words

  function NextSlot(i: nat, k: nat): (r: nat)
    ensures r < Pow2(k)
  {
    MaskIsMod(i + 1, k);
    BitAnd(i + 1, Pow2(k) - 1)
  }

  lemma NextSlotIsMod(i: nat, k: nat)
    ensures NextSlot(i, k) == (i + 1) % Pow2(k)
  {
    MaskIsMod(i + 1, k);
  }

  function Slot(j: nat, k: nat): (r: nat)
    ensures r < Pow2(k)
  {
    if j == 0 then 0 else NextSlot(Slot(j - 1, k), k)
  }

  lemma {:induction false} SlotIsMod(j: nat, k: nat)
    ensures Slot(j, k) == j % Pow2(k)
  {
    if j == 0 {
      ModUnique(0, Pow2(k), 0, 0);
    } else {
      SlotIsMod(j - 1, k);
      NextSlotWraps(Slot(j - 1, k), j - 1, k);
    }
  }

  lemma NextSlotWraps(i: nat, j: nat, k: nat)
    requires i == j % Pow2(k)
    ensures NextSlot(i, k) == (j + 1) % Pow2(k)
  {
    NextSlotIsMod(i, k);
    ModStep(j, Pow2(k));
  }

  /** Two counters less than N apart never share a ring slot. */
  lemma SlotsDistinct(a: nat, b: nat, k: nat)
    requires a < b < a + Pow2(k)
    ensures Slot(a, k) != Slot(b, k)
  {
    DistanceOfSlots(a, b, k);
    ModUnique(0, Pow2(k), 0, 0);
  }

  lemma WindowDistinct(lo: nat, x: nat, k: nat)
    requires lo <= x < lo + Pow2(k)
    ensures forall j: nat :: lo <= j < lo + Pow2(k) && j != x ==> Slot(j, k) != Slot(x, k)
  {
    forall j: nat | lo <= j < lo + Pow2(k) && j != x
      ensures Slot(j, k) != Slot(x, k)
    {
      if j < x {
        SlotsDistinct(j, x, k);
      } else {
        SlotsDistinct(x, j, k);
      }
    }
  }

  lemma SlotPeriod(j: nat, k: nat)
    ensures Slot(j + Pow2(k), k) == Slot(j, k)
  {
    SlotIsMod(j, k);
    SlotIsMod(j + Pow2(k), k);
    ModPeriod(j, Pow2(k));
  }

  /** Any N consecutive counters visit every slot. */
  lemma {:induction false} WindowCovers(lo: nat, i: nat, k: nat) returns (j: nat)
    requires i < Pow2(k)
    ensures lo <= j < lo + Pow2(k) && Slot(j, k) == i
  {
    if lo == 0 {
      j := i;
      SlotIsMod(i, k);
      ModUnique(i, Pow2(k), 0, i);
    } else {
      j := WindowCovers(lo - 1, i, k);
      if j == lo - 1 {
        SlotPeriod(j, k);
        j := j + Pow2(k);
      }
    }
  }

  /** How many advances lead from slot `a` to slot `b`. */
  function Distance(a: int, b: int, k: nat): (r: nat)
    ensures r < Pow2(k)
  {
    (b - a) % Pow2(k)
  }

  /** Within one lap the distance between slots is the distance between their counters. */
  lemma DistanceOfSlots(a: nat, b: nat, k: nat)
    requires a <= b < a + Pow2(k)
    ensures Distance(Slot(a, k), Slot(b, k), k) == b - a
  {
    SlotIsMod(a, k);
    SlotIsMod(b, k);
    ModDifference(a, b, Pow2(k));
  }

  lemma SlotShift(first: nat, j: nat, k: nat)
    requires first <= j
    ensures (Slot(first, k) + (j - first)) % Pow2(k) == Slot(j, k)
  {
    SlotIsMod(first, k);
    SlotIsMod(j, k);
    ModAddLeft(first, j - first, Pow2(k));
  }
}
