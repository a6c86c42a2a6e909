/**
  The availability part of `doctorTimings`: the working day is cut into
  30-minute slot starts from `start` (inclusive) to `end` (exclusive), and the
  free slots are those whose `HH:MM` text is not among the booked times.
*/
module Slots {
  import opened Clock

  /** The fixed slot step of the availability endpoint, in minutes. */
  const SlotMinutes: nat := 30

  /** How many slots fit in [start, end): the ceiling of the span over the step. */
  function SlotCount(start: nat, end: nat): nat {
    if start < end then (end - start + SlotMinutes - 1) / SlotMinutes else 0
  }

  /**
    Reference definition of the slot texts: the `HH:MM` of `start`, then of
    the slots from `start + 30`, while before `end`.
  */
  function SlotTexts(start: nat, end: MinuteOfDay): (s: seq<string>)
    decreases end - start
  {
    if start < end then [Hhmm(start)] + SlotTexts(start + SlotMinutes, end) else []
  }

  /** There are ceil((end - start) / 30) slots, none when `start >= end`. */
  lemma {:induction false} SlotTextsCount(start: nat, end: MinuteOfDay)
    decreases end - start
    ensures |SlotTexts(start, end)| == SlotCount(start, end)
  {
    if start < end {
      SlotTextsCount(start + SlotMinutes, end);
      if start + SlotMinutes < end {
        assert SlotCount(start, end) == 1 + SlotCount(start + SlotMinutes, end);
      }
    }
  }

  /** The i-th slot is the `HH:MM` of `start + 30 * i`, which lies before `end`. */
  lemma {:induction false} SlotTextAt(start: nat, end: MinuteOfDay, i: nat)
    decreases i
    requires i < |SlotTexts(start, end)|
    ensures start + SlotMinutes * i < end
    ensures SlotTexts(start, end)[i] == Hhmm(start + SlotMinutes * i)
  {
    if i > 0 {
      SlotTextAt(start + SlotMinutes, end, i - 1);
      assert start + SlotMinutes + SlotMinutes * (i - 1) == start + SlotMinutes * i;
    }
  }

  /** Slot i is the `HH:MM` of `start + 30 * i`, for every i at once. */
  lemma SlotTextsAll(start: nat, end: MinuteOfDay)
    ensures forall i :: 0 <= i < |SlotTexts(start, end)| ==>
      && start + SlotMinutes * i < end
      && SlotTexts(start, end)[i] == Hhmm(start + SlotMinutes * i)
  {
    forall i | 0 <= i < |SlotTexts(start, end)|
      ensures start + SlotMinutes * i < end
      ensures SlotTexts(start, end)[i] == Hhmm(start + SlotMinutes * i)
    {
      SlotTextAt(start, end, i);
    }
  }

  /** Every slot text is the text of some slot start. */
  lemma SlotTextsMember(start: nat, end: MinuteOfDay, x: string)
    requires x in SlotTexts(start, end)
    ensures exists i: nat :: start + SlotMinutes * i < end && x == Hhmm(start + SlotMinutes * i)
  {
    var i :| 0 <= i < |SlotTexts(start, end)| && SlotTexts(start, end)[i] == x;
    SlotTextAt(start, end, i);
  }

  /**
    The slot loop of `doctorTimings`: starting at `start`, push the current
    time's `HH:MM` and advance by 30 minutes while the current time is before
    `end`.
  */
  method GenerateSlots(start: MinuteOfDay, end: MinuteOfDay) returns (slots: seq<string>)
    ensures slots == SlotTexts(start, end)
  {
    slots := [];
    var current: nat := start;
    while current < end
      invariant slots + SlotTexts(current, end) == SlotTexts(start, end)
      decreases end - current
    {
      var rest := SlotTexts(current + SlotMinutes, end);
      assert (slots + [Hhmm(current)]) + rest == slots + ([Hhmm(current)] + rest);
      slots := slots + [Hhmm(current)];
      current := current + SlotMinutes;
    }
    assert slots + [] == slots;
  }

  /** True when `a` can be obtained from `b` by deleting elements (order kept). */
  ghost predicate IsSubsequence<T>(a: seq<T>, b: seq<T>)
    decreases |b|
  {
    if a == [] then true
    else if b == [] then false
    else if a[0] == b[0] then IsSubsequence(a[1..], b[1..])
    else IsSubsequence(a, b[1..])
  }

  /**
    The free slots: the generated slots, in order, with every slot whose
    text is among the booked times dropped.
  */
  function FreeSlots(total: seq<string>, booked: set<string>): (free: seq<string>)
    ensures |free| <= |total|
    ensures forall x :: x in free <==> x in total && x !in booked
  {
    if total == [] then []
    else if total[0] in booked then FreeSlots(total[1..], booked)
    else [total[0]] + FreeSlots(total[1..], booked)
  }

  /**
    The free slots are exactly the unbooked slots in their original order and
    multiplicity: an order-preserving subsequence of the slots, and the slots
    themselves when none of them is booked.
  */
  lemma {:induction false} FreeSlotsExact(total: seq<string>, booked: set<string>)
    ensures forall x :: multiset(FreeSlots(total, booked))[x] == if x in booked then 0 else multiset(total)[x]
    ensures IsSubsequence(FreeSlots(total, booked), total)
    ensures (forall i :: 0 <= i < |total| ==> total[i] !in booked) ==> FreeSlots(total, booked) == total
  {
    if total != [] {
      FreeSlotsExact(total[1..], booked);
      assert total == [total[0]] + total[1..];
    }
  }
}
