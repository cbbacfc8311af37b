/** The slot table seen as a sequence of optional records: the capacity,
    the first-match search, occupancy, ownership of what is removed, and
    the count and slots that removeEventByIndex and removeAllEvents leave
    as the source writes them. */
module SlotTable {
  import opened Events
  import opened Firing

  /** The number of slots of a timer. */
  const EVENTS_MAX: nat := 10

  /** findEventIndex: the lowest index whose slot equals x, or the size of
      the table when no slot does. With x == null it finds a free slot. */
  function FindIndex<T(==)>(slots: seq<T>, x: T): (r: nat)
    ensures r <= |slots|
    ensures r < |slots| ==> slots[r] == x
    ensures forall j :: 0 <= j < r ==> slots[j] != x
    decreases |slots|
  {
    if slots == [] then 0
    else if slots[0] == x then 0
    else 1 + FindIndex(slots[1..], x)
  }

  /** The number of occupied slots: never more than the table holds, fewer
      when some slot is free, none in an empty table. */
  function Occupied(slots: seq<Event?>): (c: nat)
    ensures c <= |slots|
    ensures null in slots ==> c < |slots|
    ensures (forall j :: 0 <= j < |slots| ==> slots[j] == null) ==> c == 0
    decreases |slots|
  {
    if slots == [] then 0
    else Occupied(slots[..|slots| - 1]) + (if slots[|slots| - 1] != null then 1 else 0)
  }

  /** The record a removal frees: the one in the slot, if it is owned. */
  function Owned(e: Event?): set<Event>
    reads e
  {
    if e != null && e.deleteWhenRemove then {e} else {}
  }

  /** The owned records among the slots. */
  function OwnedIn(slots: seq<Event?>): set<Event>
    reads set e: Event | e in slots
    decreases |slots|
  {
    if slots == [] then {} else OwnedIn(slots[..|slots| - 1]) + Owned(slots[|slots| - 1])
  }

  /** The owned records that one sweep retires among the first k slots,
      given the slots' records and their values before the sweep. */
  function Released(slots: seq<Event?>, before: seq<Option<Rec>>, now: uint32, decide: seq<bool>,
                    k: nat): set<Event>
    requires k <= |slots| && |before| == |slots| && |decide| == |slots|
    decreases k
  {
    if k == 0 then {}
    else
      Released(slots, before, now, decide, k - 1) +
      (if slots[k - 1] != null && before[k - 1].Some? && before[k - 1].value.deleteWhenRemove &&
          Poll(before[k - 1].value, now, decide[k - 1]).retired
       then var e: Event := slots[k - 1]; {e}
       else {})
  }

  // ---------------------------------------------------------------------
  // The count and slots of removeEventByIndex and removeAllEvents as
  // written (the freeing of owned records is not part of this): the slot is
  // read through without a null check, so an empty slot at a valid index is
  // "removed" too (deleting a null pointer does nothing) and counts as a
  // success. The reading through an empty slot is undefined behaviour in C;
  // on a target where it does not trap, this is what happens.

  /** removeEventByIndex as written: success at every valid index, occupied
      or not; that slot is emptied and no other changes. */
  function RemoveByIndexAsWritten(slots: seq<Event?>, i: int): (res: (bool, seq<Event?>))
    ensures res.0 <==> 0 <= i < |slots|
    ensures |res.1| == |slots|
    ensures res.0 ==> res.1[i] == null
    ensures forall j :: 0 <= j < |slots| && j != i ==> res.1[j] == slots[j]
  {
    if 0 <= i < |slots| then (true, slots[i := null]) else (false, slots)
  }

  /** removeAllEvents as written, over the first k indices: the count it
      returns and the table it leaves. */
  function RemoveAllAsWritten(slots: seq<Event?>, k: nat): (res: (nat, seq<Event?>))
    requires k <= |slots|
    ensures |res.1| == |slots|
    ensures res.0 <= k
    // the indices not yet visited are untouched
    ensures forall j :: k <= j < |slots| ==> res.1[j] == slots[j]
    decreases k
  {
    if k == 0 then (0, slots)
    else
      var (count, rest) := RemoveAllAsWritten(slots, k - 1);
      var (ok, after) := RemoveByIndexAsWritten(rest, k - 1);
      (count + (if ok then 1 else 0), after)
  }

  lemma {:induction false} RemoveAllAsWrittenCountsIndices(slots: seq<Event?>, k: nat)
    requires k <= |slots|
    ensures RemoveAllAsWritten(slots, k).0 == k
    ensures forall j :: 0 <= j < k ==> RemoveAllAsWritten(slots, k).1[j] == null
    decreases k
  {
    if k > 0 {
      RemoveAllAsWrittenCountsIndices(slots, k - 1);
    }
  }

  /** As written, removeEvent(NULL) on a table with a free slot resolves to
      that slot and reports a removal, though the table is left as it was. */
  lemma RemoveNullAsWritten(slots: seq<Event?>)
    requires null in slots
    ensures RemoveByIndexAsWritten(slots, FindIndex(slots, null)).0
    ensures RemoveByIndexAsWritten(slots, FindIndex(slots, null)).1 == slots
  {
  }

  /** As written, removeAllEvents reports EVENTS_MAX removals on every table,
      so it overcounts whenever a slot is free, and a second call on the
      emptied table reports EVENTS_MAX again instead of 0. */
  lemma RemoveAllAsWrittenOvercounts(slots: seq<Event?>)
    requires |slots| == EVENTS_MAX
    ensures RemoveAllAsWritten(slots, EVENTS_MAX).0 == EVENTS_MAX
    ensures null in slots ==> RemoveAllAsWritten(slots, EVENTS_MAX).0 != Occupied(slots)
    ensures RemoveAllAsWritten(RemoveAllAsWritten(slots, EVENTS_MAX).1, EVENTS_MAX).0 == EVENTS_MAX
  {
    RemoveAllAsWrittenCountsIndices(slots, EVENTS_MAX);
    RemoveAllAsWrittenCountsIndices(RemoveAllAsWritten(slots, EVENTS_MAX).1, EVENTS_MAX);
  }
}
