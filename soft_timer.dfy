/** The poll-driven scheduler: a fixed table of EVENTS_MAX slots, each empty
    or holding a reference to an event record, and the engine that fires the
    due ones. The clock (millis) is the `now` parameter; what a user callback
    returns is the `decide` parameter; digitalWrite appends to the ghost
    trace `pinWrites`; delete adds the record to the ghost set `freed`. */
module Scheduler {
  import opened Events
  import opened Firing
  import opened SlotTable

  /** What the registering operations return: the record's identity, or
      INVALID_EVENT_ID. An id holding 0 is Id(null): cast back to a pointer
      it is NULL. */
  datatype EventId = InvalidId | Id(evt: Event?)

  /** isIndexValid: the index names a slot. */
  predicate IsIndexValid(i: int) {
    0 <= i < EVENTS_MAX
  }

  /** An index the lookup returns is valid exactly when the table holds
      what was looked for; EVENTS_MAX is the "not found" index. */
  lemma {:induction false} FoundIndexValid(slots: seq<Event?>, x: Event?)
    requires |slots| == EVENTS_MAX
    ensures IsIndexValid(FindIndex(slots, x)) <==> x in slots
    ensures x !in slots ==> FindIndex(slots, x) == EVENTS_MAX
  {
    if x in slots {
      var k :| 0 <= k < |slots| && slots[k] == x;
      assert FindIndex(slots, x) <= k;
    }
  }

  /** One slot during a sweep: e is the record the slot held before the
      sweep, b its value then, cur what the slot holds now; a polled slot
      holds the record as Poll left it, or nothing once it is retired. */
  ghost predicate SlotAt(cur: Event?, e: Event?, b: Option<Rec>, polled: bool, now: uint32, d: bool)
    reads e
  {
    if e == null then cur == null && b.None?
    else if polled then
      b.Some? &&
      var f := Poll(b.value, now, d);
      e.View() == f.rec && cur == (if f.retired then null else e)
    else b == Some(e.View()) && cur == e
  }

  class SoftTimer {
    const events: array<Event?>
    ghost var freed: set<Event>
    ghost var pinWrites: seq<Write>

    ghost predicate Valid()
      reads this
    {
      events.Length == EVENTS_MAX
    }

    /** At most one slot per record. */
    ghost predicate Distinct()
      reads this, events
    {
      forall j, k :: 0 <= j < k < events.Length && events[j] != null ==> events[j] != events[k]
    }

    /** The records currently in the table. */
    ghost function Records(): set<Event>
      reads this, events
    {
      set e: Event | e in events[..]
    }

    /** After construction every slot is empty. */
    constructor ()
      ensures Valid() && Distinct() && fresh(events)
      ensures forall j :: 0 <= j < EVENTS_MAX ==> events[j] == null
      ensures freed == {} && pinWrites == []
    {
      var slots := new Event?[EVENTS_MAX];
      var i := 0;
      while i < EVENTS_MAX
        invariant 0 <= i <= EVENTS_MAX
        invariant forall j :: 0 <= j < i ==> slots[j] == null
      {
        slots[i] := null;
        i := i + 1;
      }
      events := slots;
      freed := {};
      pinWrites := [];
    }

    /** findEventIndex: a linear first-match scan that changes nothing. */
    method FindEventIndex(evt: Event?) returns (i: nat)
      requires Valid()
      ensures i == FindIndex(events[..], evt)
    {
      i := 0;
      while i < EVENTS_MAX
        invariant 0 <= i <= EVENTS_MAX
        invariant forall j :: 0 <= j < i ==> events[j] != evt
      {
        if events[i] == evt {
          return;
        }
        i := i + 1;
      }
    }

    /** findFreeEventIndex: the lowest free slot, or EVENTS_MAX when full. */
    method FindFreeEventIndex() returns (i: nat)
      requires Valid()
      ensures i <= EVENTS_MAX
      ensures i < EVENTS_MAX <==> null in events[..]
      ensures i < EVENTS_MAX ==> events[i] == null && forall j :: 0 <= j < i ==> events[j] != null
    {
      i := FindEventIndex(null);
    }

    /** hasEvent: some slot holds evt. For evt == null this asks whether
        some slot is free. */
    method HasEvent(evt: Event?) returns (b: bool)
      requires Valid()
      ensures b <==> evt in events[..]
    {
      var i := FindEventIndex(evt);
      b := IsIndexValid(i);
    }

    /** hasEvent(id): INVALID_EVENT_ID names no record; id 0 is cast to
        NULL and so asks whether some slot is free. */
    method HasEventId(id: EventId) returns (b: bool)
      requires Valid()
      ensures b <==> id.Id? && id.evt in events[..]
      ensures id == Id(null) ==> (b <==> FindIndex(events[..], null) < EVENTS_MAX)
    {
      match id
      case InvalidId =>
        b := false;
      case Id(e) =>
        b := HasEvent(e);
    }

    /** addEvent: store evt in the lowest free slot, first replacing an unset
        (zero) trigger time by the clock; fail with no effect when full. */
    method AddEvent(evt: Event, now: uint32) returns (id: EventId)
      requires Valid()
      modifies events, evt`nextTriggerTime
      ensures null !in old(events[..]) ==>
                id == InvalidId && events[..] == old(events[..]) &&
                evt.nextTriggerTime == old(evt.nextTriggerTime)
      ensures null in old(events[..]) ==>
                id == Id(evt) &&
                events[..] == old(events[..])[FindIndex(old(events[..]), null) := evt] &&
                evt.nextTriggerTime == Registered(old(evt.nextTriggerTime), now)
      ensures old(Distinct()) && evt !in old(events[..]) ==> Distinct()
    {
      var i := FindFreeEventIndex();
      if IsIndexValid(i) {
        if evt.nextTriggerTime == 0 {
          evt.nextTriggerTime := now;
        }
        events[i] := evt;
        return Id(evt);
      }
      return InvalidId;
    }

    /** removeEventByIndex, guarded: an occupied valid slot is emptied (and
        its record freed when the timer owns it) and true returned; any
        other index is left alone and false returned. */
    method RemoveEventByIndex(i: int) returns (removed: bool)
      requires Valid()
      modifies events, this`freed
      ensures removed == (IsIndexValid(i) && old(events[i]) != null)
      ensures removed ==>
                events[..] == old(events[..])[i := null] && freed == old(freed) + Owned(old(events[i]))
      ensures !removed ==> events[..] == old(events[..]) && freed == old(freed)
      // slot i is free afterwards and no other slot changes
      ensures IsIndexValid(i) ==> events[i] == null
      ensures forall j :: 0 <= j < EVENTS_MAX && j != i ==> events[j] == old(events[j])
      ensures old(Distinct()) ==> Distinct()
    {
      if IsIndexValid(i) && events[i] != null {
        if events[i].deleteWhenRemove {
          freed := freed + {events[i]};
        }
        events[i] := null;
        return true;
      }
      return false;
    }

    /** removeAllEvents: every slot is emptied, the owned records freed, and
        the number of occupied slots returned. */
    method RemoveAllEvents() returns (count: nat)
      requires Valid()
      modifies events, this`freed
      ensures count == Occupied(old(events[..]))
      ensures forall j :: 0 <= j < EVENTS_MAX ==> events[j] == null
      ensures freed == old(freed) + OwnedIn(old(events[..]))
    {
      ghost var slots := events[..];
      count := 0;
      var i := 0;
      while i < EVENTS_MAX
        invariant 0 <= i <= EVENTS_MAX
        invariant forall j :: 0 <= j < i ==> events[j] == null
        invariant forall j :: i <= j < EVENTS_MAX ==> events[j] == slots[j]
        invariant count == Occupied(slots[..i])
        invariant freed == old(freed) + old(OwnedIn(events[..i]))
      {
        assert slots[..i + 1][..i] == slots[..i];
        assert Occupied(slots[..i + 1]) == Occupied(slots[..i]) + if slots[i] != null then 1 else 0;
        assert old(OwnedIn(events[..i + 1])) == old(OwnedIn(events[..i])) + old(Owned(events[i]));
        var removed := RemoveEventByIndex(i);
        count := count + if removed then 1 else 0;
        i := i + 1;
      }
      assert slots[..EVENTS_MAX] == slots;
    }

    /** removeEvent(evt): remove the first slot holding evt. A null evt
        resolves to a free slot, which the guarded removal leaves alone. */
    method RemoveEvent(evt: Event?) returns (removed: bool)
      requires Valid()
      modifies events, this`freed
      ensures removed == (evt != null && evt in old(events[..]))
      ensures removed ==>
                events[..] == old(events[..])[FindIndex(old(events[..]), evt) := null] &&
                freed == old(freed) + Owned(evt)
      ensures !removed ==> events[..] == old(events[..]) && freed == old(freed)
    {
      var i := FindEventIndex(evt);
      removed := RemoveEventByIndex(i);
    }

    /** removeEvent(id): INVALID_EVENT_ID matches no slot; id 0 is cast to
        NULL and, through the guarded removal, removes nothing. */
    method RemoveEventId(id: EventId) returns (removed: bool)
      requires Valid()
      modifies events, this`freed
      ensures removed == (id.Id? && id.evt != null && id.evt in old(events[..]))
      ensures removed ==>
                events[..] == old(events[..])[FindIndex(old(events[..]), id.evt) := null] &&
                freed == old(freed) + Owned(id.evt)
      ensures !removed ==> events[..] == old(events[..]) && freed == old(freed)
    {
      match id
      case InvalidId =>
        removed := RemoveEventByIndex(EVENTS_MAX);
      case Id(e) =>
        removed := RemoveEvent(e);
    }

    /** callback_oscillate: write the stored level to the pin, store its
        negation, and ask the timer to keep the event. */
    method CallbackOscillate(e: Event) returns (retire: bool)
      requires e.isPinState
      modifies e`state, this`pinWrites
      ensures !retire
      ensures pinWrites == old(pinWrites) + [Write(e.pin, old(e.state))]
      ensures e.state == Not(old(e.state))
    {
      pinWrites := pinWrites + [Write(e.pin, e.state)];
      e.state := Not(e.state);
      retire := false;
    }

    /** Call the record's callback: the oscillating one, or a user callback
        whose answer is `decide`. */
    method InvokeCallback(e: Event, decide: bool) returns (retire: bool)
      requires Callable(e.View())
      modifies e`state, this`pinWrites
      ensures old(e.callback).OscillateCallback? ==>
                !retire && pinWrites == old(pinWrites) + [Write(e.pin, old(e.state))] &&
                e.state == Not(old(e.state))
      ensures old(e.callback).UserCallback? ==>
                retire == decide && pinWrites == old(pinWrites) && e.state == old(e.state)
    {
      if e.callback.OscillateCallback? {
        retire := CallbackOscillate(e);
      } else {
        retire := decide;
      }
    }

    /** update(i): when slot i is due, run its callback, then retire the
        slot or re-arm the record; report whether it was due. */
    method UpdateSlot(i: nat, now: uint32, decide: bool) returns (triggered: bool)
      requires Valid()
      requires IsIndexValid(i) ==>
                 events[i] != null &&
                 (Due(now, events[i].nextTriggerTime) ==> Callable(events[i].View()))
      modifies this`freed, this`pinWrites, events, if IsIndexValid(i) then events[i] else null
      ensures triggered == (IsIndexValid(i) && Due(now, old(events[i].nextTriggerTime)))
      ensures !IsIndexValid(i) ==>
                events[..] == old(events[..]) && freed == old(freed) && pinWrites == old(pinWrites)
      ensures IsIndexValid(i) ==>
                var e := old(events[i]);
                var f := Poll(old(events[i].View()), now, decide);
                e.View() == f.rec &&
                events[..] == (if f.retired then old(events[..])[i := null] else old(events[..])) &&
                pinWrites == old(pinWrites) + f.writes &&
                freed == old(freed) + (if f.retired && f.rec.deleteWhenRemove then {e} else {})
    {
      triggered := false;
      if IsIndexValid(i) && now >= events[i].nextTriggerTime {
        triggered := true;
        var e := events[i];
        var retire := InvokeCallback(e, decide);
        if retire {
          var _ := RemoveEventByIndex(i);
        } else {
          e.repeatCount := e.repeatCount - if e.repeatCount > 0 then 1 else 0;
          if e.repeatCount == 0 {
            var _ := RemoveEventByIndex(i);
          } else {
            e.nextTriggerTime := Add32(e.nextTriggerTime, e.period);
          }
        }
      }
    }

    /** update(): poll slots 0 .. EVENTS_MAX - 1 in order, skipping empty
        ones; return how many were due. */
    method Update(now: uint32, decide: seq<bool>) returns (count: nat)
      requires Valid() && Distinct() && |decide| == EVENTS_MAX
      requires forall j :: 0 <= j < EVENTS_MAX && events[j] != null && Due(now, events[j].nextTriggerTime) ==>
                 Callable(events[j].View())
      modifies this`freed, this`pinWrites, events, Records()
      ensures Distinct()
      ensures count == DueCount(old(ViewsOf(events[..])), now, EVENTS_MAX)
      ensures count <= EVENTS_MAX
      ensures forall j :: 0 <= j < EVENTS_MAX ==>
                var e, b := old(events[..])[j], old(ViewsOf(events[..]))[j];
                (e == null ==> events[j] == null) &&
                (e != null ==>
                   b.Some? &&
                   var f := Poll(b.value, now, decide[j]);
                   e.View() == f.rec && events[j] == (if f.retired then null else e))
      ensures pinWrites == old(pinWrites) + SweepWrites(old(ViewsOf(events[..])), now, decide, EVENTS_MAX)
      ensures freed == old(freed) + Released(old(events[..]), old(ViewsOf(events[..])), now, decide, EVENTS_MAX)
    {
      ghost var slots := events[..];
      ghost var before := ViewsOf(events[..]);
      count := 0;
      var i := 0;
      while i < EVENTS_MAX
        invariant 0 <= i <= EVENTS_MAX
        invariant Swept(i, count, slots, before, now, decide, old(pinWrites), old(freed))
      {
        var fired := SweepSlot(i, now, decide, count, slots, before, old(pinWrites), old(freed));
        count := count + if fired then 1 else 0;
        i := i + 1;
      }
      SweepDone(slots, before, now, decide);
    }

    /** One turn of update()'s loop: poll slot i when it is occupied. */
    method SweepSlot(i: nat, now: uint32, decide: seq<bool>, ghost c: nat,
                     ghost slots: seq<Event?>, ghost before: seq<Option<Rec>>, ghost w0: seq<Write>, ghost r0: set<Event>)
      returns (fired: bool)
      requires Valid() && i < EVENTS_MAX
      requires |slots| == EVENTS_MAX && |before| == EVENTS_MAX && |decide| == EVENTS_MAX
      requires Swept(i, c, slots, before, now, decide, w0, r0)
      modifies this`freed, this`pinWrites, events, slots[i]
      ensures Swept(i + 1, c + if fired then 1 else 0, slots, before, now, decide, w0, r0)
    {
      fired := false;
      if events[i] != null {
        label pre:
        assert SlotAt(events[i], slots[i], before[i], false, now, decide[i]);
        fired := UpdateSlot(i, now, decide[i]);
        // slot i as Poll leaves it; every other slot and record untouched
        assert SlotAt(events[i], slots[i], before[i], true, now, decide[i]);
        forall j | 0 <= j < EVENTS_MAX && j != i
          ensures SlotAt(events[j], slots[j], before[j], j < i + 1, now, decide[j])
        {
          assert old@pre(SlotAt(events[j], slots[j], before[j], j < i, now, decide[j]));
          assert events[j] == old@pre(events[j]);
        }
      } else {
        SweepSkip(i, c, slots, before, now, decide, w0, r0);
      }
    }

    /** The sweep has polled slots 0 .. i-1 and not yet touched the rest. */
    ghost predicate SweptUpTo(i: nat, slots: seq<Event?>, before: seq<Option<Rec>>, now: uint32, decide: seq<bool>)
      requires Valid() && |slots| == EVENTS_MAX && |before| == EVENTS_MAX && |decide| == EVENTS_MAX
      reads this, events, set e: Event | e in slots
    {
      (forall j, k :: 0 <= j < k < EVENTS_MAX && slots[j] != null ==> slots[j] != slots[k]) &&
      (forall j :: 0 <= j < EVENTS_MAX && before[j].Some? && Due(now, before[j].value.nextTriggerTime) ==>
         Callable(before[j].value)) &&
      forall j :: 0 <= j < EVENTS_MAX ==> SlotAt(events[j], slots[j], before[j], j < i, now, decide[j])
    }

    /** The sweep's progress together with what it has counted, written and
        freed so far, on top of w0 and r0. */
    ghost predicate Swept(i: nat, count: nat, slots: seq<Event?>, before: seq<Option<Rec>>, now: uint32, decide: seq<bool>,
                          w0: seq<Write>, r0: set<Event>)
      requires Valid() && i <= EVENTS_MAX
      requires |slots| == EVENTS_MAX && |before| == EVENTS_MAX && |decide| == EVENTS_MAX
      reads this, events, set e: Event | e in slots
    {
      SweptUpTo(i, slots, before, now, decide) &&
      count == DueCount(before, now, i) &&
      pinWrites == w0 + SweepWrites(before, now, decide, i) &&
      freed == r0 + Released(slots, before, now, decide, i)
    }

    /** A finished sweep has left every record as Poll leaves it. */
    lemma SweepDone(slots: seq<Event?>, before: seq<Option<Rec>>, now: uint32, decide: seq<bool>)
      requires Valid() && |slots| == EVENTS_MAX && |before| == EVENTS_MAX && |decide| == EVENTS_MAX
      requires SweptUpTo(EVENTS_MAX, slots, before, now, decide)
      ensures Distinct()
      ensures forall j :: 0 <= j < EVENTS_MAX ==>
                var e, b := slots[j], before[j];
                (e == null ==> events[j] == null) &&
                (e != null ==>
                   b.Some? &&
                   var f := Poll(b.value, now, decide[j]);
                   e.View() == f.rec && events[j] == (if f.retired then null else e))
    {
      forall j | 0 <= j < EVENTS_MAX
        ensures SlotAt(events[j], slots[j], before[j], true, now, decide[j])
      {
      }
    }

    /** Skipping an empty slot i carries the sweep from i to i + 1. */
    lemma SweepSkip(i: nat, c: nat, slots: seq<Event?>, before: seq<Option<Rec>>, now: uint32, decide: seq<bool>,
                    w0: seq<Write>, r0: set<Event>)
      requires Valid() && i < EVENTS_MAX
      requires |slots| == EVENTS_MAX && |before| == EVENTS_MAX && |decide| == EVENTS_MAX
      requires Swept(i, c, slots, before, now, decide, w0, r0)
      requires events[i] == null
      ensures Swept(i + 1, c, slots, before, now, decide, w0, r0)
    {
      assert SlotAt(events[i], slots[i], before[i], false, now, decide[i]);
      forall j | 0 <= j < EVENTS_MAX
        ensures SlotAt(events[j], slots[j], before[j], j < i + 1, now, decide[j])
      {
        assert SlotAt(events[j], slots[j], before[j], j < i, now, decide[j]);
      }
    }

    /** schedule: register a new owned record, first due at now + after
        (after >= 0) or now + period; fail with no effect when full. By
        default the record repeats forever and is first due at now. */
    method Schedule(period: uint32, callback: Callback, now: uint32, repeatCount: int16 := -1, after: int32 := 0)
      returns (id: EventId)
      requires Valid()
      // callback_oscillate is private to the timer; callers pass their own
      requires !callback.OscillateCallback?
      modifies events
      ensures null !in old(events[..]) ==> id == InvalidId && events[..] == old(events[..])
      ensures null in old(events[..]) ==>
                id.Id? && id.evt != null && fresh(id.evt) &&
                events[..] == old(events[..])[FindIndex(old(events[..]), null) := id.evt] &&
                id.evt.View() == ScheduledRec(period, callback, repeatCount, after, now)
      ensures old(Distinct()) ==> Distinct()
    {
      id := InvalidId;
      var i := FindFreeEventIndex();
      if IsIndexValid(i) {
        var evt := new Event();
        evt.period := period;
        evt.callback := callback;
        evt.repeatCount := repeatCount;
        evt.deleteWhenRemove := true;
        evt.nextTriggerTime := FirstTrigger(now, period, after);
        id := AddEvent(evt, now);
      }
    }

    /** oscillate: register a new owned pin record that toggles `pin`
        starting from startingState; one requested cycle is two firings. By
        default it oscillates forever, starting at now. */
    method Oscillate(pin: uint8, startingState: uint8, period: uint32, now: uint32,
                     repeatCount: int16 := -1, after: int32 := 0) returns (id: EventId)
      requires Valid()
      modifies events
      ensures null !in old(events[..]) ==> id == InvalidId && events[..] == old(events[..])
      ensures null in old(events[..]) ==>
                id.Id? && id.evt != null && fresh(id.evt) &&
                events[..] == old(events[..])[FindIndex(old(events[..]), null) := id.evt] &&
                id.evt.View() == OscillatingRec(pin, startingState, period, repeatCount, after, now)
      ensures old(Distinct()) ==> Distinct()
    {
      id := InvalidId;
      var i := FindFreeEventIndex();
      if IsIndexValid(i) {
        var evt := new Event.PinState();
        evt.period := period;
        evt.callback := OscillateCallback;
        evt.repeatCount := repeatCount * 2;
        evt.deleteWhenRemove := true;
        evt.nextTriggerTime := FirstTrigger(now, period, after);
        evt.pin := pin;
        evt.state := startingState;
        id := AddEvent(evt, now);
      }
    }

    /** every: schedule with repeatCount -1 (forever); by default first due at now. */
    method Every(period: uint32, callback: Callback, now: uint32, after: int32 := 0) returns (id: EventId)
      requires Valid()
      requires !callback.OscillateCallback?
      modifies events
      ensures null !in old(events[..]) ==> id == InvalidId && events[..] == old(events[..])
      ensures null in old(events[..]) ==>
                id.Id? && id.evt != null && fresh(id.evt) &&
                events[..] == old(events[..])[FindIndex(old(events[..]), null) := id.evt] &&
                id.evt.View() == ScheduledRec(period, callback, -1, after, now)
      ensures old(Distinct()) ==> Distinct()
    {
      id := Schedule(period, callback, now, -1, after);
    }

    /** once: schedule with period 0 and repeatCount 1. */
    method Once(callback: Callback, after: int32, now: uint32) returns (id: EventId)
      requires Valid()
      requires !callback.OscillateCallback?
      modifies events
      ensures null !in old(events[..]) ==> id == InvalidId && events[..] == old(events[..])
      ensures null in old(events[..]) ==>
                id.Id? && id.evt != null && fresh(id.evt) &&
                events[..] == old(events[..])[FindIndex(old(events[..]), null) := id.evt] &&
                id.evt.View() == ScheduledRec(0, callback, 1, after, now)
      ensures old(Distinct()) ==> Distinct()
    {
      id := Schedule(0, callback, now, 1, after);
    }

    /** ledBlink: exactly oscillate with the same arguments and defaults. */
    method LedBlink(pin: uint8, startingState: uint8, period: uint32, now: uint32,
                    repeatCount: int16 := -1, after: int32 := 0) returns (id: EventId)
      requires Valid()
      modifies events
      ensures null !in old(events[..]) ==> id == InvalidId && events[..] == old(events[..])
      ensures null in old(events[..]) ==>
                id.Id? && id.evt != null && fresh(id.evt) &&
                events[..] == old(events[..])[FindIndex(old(events[..]), null) := id.evt] &&
                id.evt.View() == OscillatingRec(pin, startingState, period, repeatCount, after, now)
      ensures old(Distinct()) ==> Distinct()
    {
      id := Oscillate(pin, startingState, period, now, repeatCount, after);
    }

    /** pulse: oscillate for one cycle, so the pin is left at !startingState;
        by default the first write is at now. */
    method Pulse(pin: uint8, startingState: uint8, period: uint32, now: uint32, after: int32 := 0)
      returns (id: EventId)
      requires Valid()
      modifies events
      ensures null !in old(events[..]) ==> id == InvalidId && events[..] == old(events[..])
      ensures null in old(events[..]) ==>
                id.Id? && id.evt != null && fresh(id.evt) &&
                events[..] == old(events[..])[FindIndex(old(events[..]), null) := id.evt] &&
                id.evt.View() == OscillatingRec(pin, startingState, period, 1, after, now)
      ensures old(Distinct()) ==> Distinct()
    {
      id := Oscillate(pin, startingState, period, now, 1, after);
    }
  }
}
