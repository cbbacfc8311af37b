# SoftTimer — a verified model of the event pool and trigger engine

SoftTimer is a poll-driven scheduler for Arduino sketches. A timer object
owns a fixed table of `EVENTS_MAX` (10) slots. Each slot is empty or holds a
pointer to an event record (`EventBase`, or its pin-toggling variant
`EventPinState`). The sketch calls `update()` from its main loop. That call
visits the slots in order and fires every record whose `nextTriggerTime` has
been reached: it runs the record's callback, then either retires the record
(empties its slot and frees it if the timer owns it) or re-arms it. A
positive `repeatCount` is decremented and the record retires at 0. A
negative count means "forever". Re-arming adds `period` to the trigger time,
modulo 2^32. The builders `schedule`, `oscillate`, `every`, `once`,
`ledBlink` and `pulse` create owned records with a computed first trigger
time and register them with `addEvent`.

The project has four modules:

- `Events` (`events.dfy`): the fixed-width integer types, the callback
  kinds and the event record. `Event` is a class whose fields are updated in
  place; `Rec` is a value snapshot of one record.
- `Firing` (`firing.dfy`): what one firing does to a record, stated on
  values (`Fire`, `Poll`). It also holds repeated firings (`Run`), the
  records the builders register, and the lemmas about them: `every` never
  stops, `once` fires once, `oscillate` writes alternating levels, `pulse`
  writes exactly twice.
- `SlotTable` (`slot_table.dfy`): the table as a sequence. It holds the
  first-match search, occupancy, ownership of removed records, and the
  count and slots that `removeEventByIndex` and `removeAllEvents` leave as
  written (without the freeing of owned records).
- `Scheduler` (`soft_timer.dfy`): the class `SoftTimer` over an
  `array<Event?>`. Its methods are the library's operations, written as
  loops and in-place updates like the original, and proved against the
  functions of `Firing` and `SlotTable`.

How the platform is represented:

- The clock (`millis()`) is a `now: uint32` parameter. An operation that
  reads the clock twice sees one value.
- What a user callback returns is a `decide` parameter. `update()` takes one
  per slot.
- `digitalWrite` appends a `Write(pin, level)` to the ghost trace
  `pinWrites`.
- `delete` adds the record to the ghost set `freed`.
- An event id is the record reference itself (`EventId.Id(evt)`), and
  `INVALID_EVENT_ID` is `EventId.InvalidId`. An id variable holding 0 is
  `Id(null)`: the code casts it back to a NULL pointer.

Where the documented intent and the code differ, the model follows the code:

- The due check is the plain unsigned comparison `now >= nextTriggerTime`
  (SoftTimer.cpp:73). It does not tolerate the clock wrapping: a record
  re-armed past 2^32 is due again at once (`Firing.DueCheckIgnoresWrap`).
  The first trigger time wraps the same way (SoftTimer.cpp:119): scheduled
  with a delay of 0x20 when the clock reads 0xFFFF_FFF0, a record gets
  trigger time 0x10 and is due at once, not 0x20 ms later
  (`Firing.FirstTriggerWraps`).
- `addEvent` does not reject a record that is already in the table. "At
  most one slot per record" (`Distinct`) is therefore kept by `addEvent`
  only for a record not yet present. It is a precondition of `update()`.
- `hasEvent(NULL)` and `hasEvent(0)` look up a free slot, because
  `findEventIndex(NULL)` finds one: `HasEvent(null)` and
  `HasEventId(Id(null))` ask whether some slot is free.
- A first trigger time that wraps to exactly 0 is taken by `addEvent` as
  "unset" and replaced by the clock. The record is then first due at the
  clock's reading, and its later re-arms count from there rather than from
  0 (`Firing.ScheduleSentinelCollision`).

Where the code reads through an empty slot, the model follows the
documented intent instead, and the code as written is modelled beside it
(see Findings). `removeEventByIndex` does not check its slot for NULL
(SoftTimer.cpp:47) and reports success at every valid index. So the
guarded `RemoveEventByIndex` of the model reports false on an empty slot,
`RemoveAllEvents` returns the number of occupied slots rather than 10, and
`RemoveEvent(null)` removes nothing and returns false where the code
returns true.

## Model

| member | source | states |
|---|---|---|
| Events.Event.constructor | utility/EventBase.cpp:3-14 | a fresh record has repeatCount 0, period 0, nextTriggerTime 0, no callback, and is not owned by the timer |
| Events.Event.PinState | utility/EventBase.h:36-41 | a fresh EventPinState has the base defaults plus pin and state |
| Events.Add32 | SoftTimer.cpp:87 | unsigned 32-bit addition: the true sum when it fits, the sum less 2^32 otherwise, and it has wrapped exactly when the result is below the first operand |
| Firing.Due | SoftTimer.cpp:73 | a record is due at its own trigger time, an unset (zero) trigger time is due at any time, and a trigger time of 0xFFFF_FFFF is due only at that instant |
| Firing.Rearm | SoftTimer.cpp:80-88 | after a callback that returned false: a positive count drops by exactly one and a non-positive one is kept; the record retires exactly when the count was 0 or 1, with count 0; otherwise only the count and the trigger time (advanced one period mod 2^32) change |
| Firing.Fire | SoftTimer.cpp:76-89 | one firing: only repeatCount, nextTriggerTime and the pin state change; it retires exactly when the callback returns true or the count is 0 or 1; the count never rises, a negative count is unchanged, and a positive one drops by exactly one unless a user callback asked for retirement, which leaves the record as it was; a kept record moves on by one period mod 2^32; a user callback writes nothing; the oscillating callback writes the stored level and negates it |
| Firing.Poll | SoftTimer.cpp:70-92 | update(i) on an occupied slot: a record that is not due is kept unchanged with no write; only a due record is retired or writes to a pin |
| Firing.RetireOnRequest | utility/EventBase.h:15-18 | a due user callback returning true retires the record whatever its count, leaving its fields as they were |
| Firing.AdvanceIsModular | SoftTimer.cpp:87 | n re-arms move the trigger time to (next + n * period) mod 2^32 |
| Firing.TogglesAlternate | SoftTimer.cpp:127-134 | successive oscillating writes go to one pin, start at the starting level and alternate |
| Firing.Run | SoftTimer.cpp:73-89 | n due polls fire at most n times, and fewer only when the record was retired |
| Firing.RunCounted | utility/EventBase.h:27 | a user record with count R >= 0 fires max(R, 1) times and then retires; until then its count is R - n and its trigger time has advanced n periods |
| Firing.RunForever | SoftTimer.cpp:80-88 | a user record with a negative count fires on every due poll, is never retired by its count, and keeps its count |
| Firing.RunOscillating | SoftTimer.cpp:127-134 | an oscillating record writes alternating levels, one per firing; it stops after max(R, 1) firings when R >= 0 and never when R < 0 |
| Firing.ScheduledFirstFiring | SoftTimer.cpp:119 | without wrap-around, a scheduled record first becomes due exactly when `after` (or `period` when `after` < 0) has elapsed |
| Firing.FirstTrigger | SoftTimer.cpp:119 | the first trigger time is now + after (now + period when after < 0) when that fits in 32 bits, and otherwise wraps to a value below now |
| Firing.Registered | SoftTimer.cpp:33-35 | addEvent keeps a set (non-zero) trigger time, and the registered trigger time is unset only when the clock itself reads 0 |
| Firing.ScheduleSentinelCollision | SoftTimer.cpp:33-35 | whenever the first trigger time wraps to exactly 0, addEvent replaces it by now, so the record is first due at now and after n re-arms its trigger time is (now + n * period) mod 2^32 |
| Firing.FirstTriggerWraps | SoftTimer.cpp:119 | scheduled with after 0x20 at now 0xFFFF_FFF0, the first trigger time wraps to 0x10 and the record is due at once |
| Firing.DueCheckIgnoresWrap | SoftTimer.cpp:73 | a record re-armed past 2^32 is due one millisecond later, because the due check is a plain comparison |
| Firing.EveryRepeatsForever | SoftTimer.h:57-59 | every(period, cb, after) fires on every due poll and is never retired by its count |
| Firing.OnceFiresOnce | SoftTimer.h:61-64 | once(cb, after) fires exactly once over any number of due polls, and its slot is then empty |
| Firing.OscillateTransitions | SoftTimer.cpp:145 | oscillate with C >= 1 cycles makes exactly 2C alternating writes from startingState, then retires |
| Firing.PulseWritesTwice | SoftTimer.h:75-79 | pulse writes startingState, then its negation, then retires |
| Firing.DefaultRecordFiresOnce | utility/EventBase.cpp:8 | a default record with a callback attached (repeatCount 0) retires at its first firing |
| Firing.DueCount | SoftTimer.cpp:94-105 | the count of due occupied slots never exceeds the slots looked at, and is 0 on an empty table |
| SlotTable.FindIndex | SoftTimer.cpp:19-27 | the result is the lowest index whose slot matches, or the table size when none does |
| SlotTable.Occupied | SoftTimer.h:89-91 | the number of occupied slots is at most the table size, below it when a slot is free, and 0 on an empty table |
| Scheduler.FoundIndexValid | SoftTimer.h:103 | on a table of EVENTS_MAX slots, the index findEventIndex returns is valid exactly when the table holds what was looked for, and is EVENTS_MAX otherwise |
| SlotTable.RemoveByIndexAsWritten | SoftTimer.cpp:44-54 | as written, removal reports success exactly at a valid index, occupied or not, empties that slot and changes no other |
| SlotTable.RemoveAllAsWritten | SoftTimer.cpp:56-65 | as written, removal over the first k indices counts at most k and leaves the slots not yet visited untouched |
| SlotTable.RemoveNullAsWritten | SoftTimer.h:86 | as written, removeEvent(NULL) on a table with a free slot reports a removal and leaves the table as it was |
| SlotTable.RemoveAllAsWrittenCountsIndices | SoftTimer.cpp:56-65 | as written, clearing the first k indices counts k removals and leaves those slots empty |
| SlotTable.RemoveAllAsWrittenOvercounts | SoftTimer.cpp:44-65 | as written, removeAllEvents returns EVENTS_MAX on every table; that differs from the number of occupied slots whenever one is free; a second call also returns EVENTS_MAX |
| Scheduler.SoftTimer.constructor | SoftTimer.cpp:12-17 | after construction every slot is empty, and nothing has been freed or written |
| Scheduler.SoftTimer.FindEventIndex | SoftTimer.cpp:19-27 | the scan returns the lowest index holding evt, or EVENTS_MAX, and changes nothing |
| Scheduler.SoftTimer.FindFreeEventIndex | SoftTimer.h:109 | the lowest free slot is returned, and the result is below EVENTS_MAX exactly when some slot is free |
| Scheduler.SoftTimer.HasEvent | SoftTimer.h:94 | true exactly when some slot holds evt |
| Scheduler.SoftTimer.HasEventId | SoftTimer.h:95 | true exactly when the id names a record that some slot holds; INVALID_EVENT_ID is never found; id 0 (cast to NULL) is found exactly when some slot is free |
| Scheduler.SoftTimer.AddEvent | SoftTimer.cpp:29-42 | a full table gives INVALID_EVENT_ID and changes neither the table nor the record; otherwise evt goes into the lowest free slot and no other slot changes, a zero trigger time becomes now, the record's id is returned, and a record not already present keeps the table free of duplicates |
| Scheduler.SoftTimer.RemoveEventByIndex | SoftTimer.cpp:44-54 | an occupied valid slot is emptied and true returned, and the record is freed exactly when the timer owns it; any other index returns false with no effect; no other slot changes |
| Scheduler.SoftTimer.RemoveAllEvents | SoftTimer.cpp:56-65 | the corrected count (see Findings): every slot is emptied, exactly the owned records are freed, and the number of occupied slots is returned |
| Scheduler.SoftTimer.RemoveEvent | SoftTimer.h:86 | through the guarded removal (see Findings): a non-null record in the table has its first slot emptied (freed when owned) and true is returned; otherwise false with no effect |
| Scheduler.SoftTimer.RemoveEventId | SoftTimer.h:87 | as RemoveEvent for the record the id names; INVALID_EVENT_ID and id 0 remove nothing (see Findings for id 0) |
| Events.Not | SoftTimer.cpp:131 | the stored level after `!`: a C boolean, 1 for a zero level and 0 for any other |
| Scheduler.SoftTimer.CallbackOscillate | SoftTimer.cpp:127-134 | writes the stored level to the pin, stores its negation and returns false |
| Scheduler.SoftTimer.InvokeCallback | SoftTimer.cpp:76 | the oscillating callback writes and toggles and keeps the event; a user callback's answer is passed through with no write |
| Scheduler.SoftTimer.UpdateSlot | SoftTimer.cpp:68-93 | reports exactly whether slot i was due; a slot not due is unchanged; a due slot's record, slot, writes and freed records are as `Poll` describes; an invalid index changes nothing |
| Scheduler.SoftTimer.Update | SoftTimer.cpp:94-105 | every slot ends as `Poll` leaves it, empty slots stay empty, the writes are those of the slots in order, exactly the retired owned records are freed, and the count is the number of due occupied slots (at most EVENTS_MAX) |
| Scheduler.SoftTimer.SweepSlot | SoftTimer.cpp:99-101 | one turn of update()'s loop moves the sweep from slot i to slot i + 1 and counts slot i if it was due |
| Scheduler.SoftTimer.SweepSkip | SoftTimer.cpp:99 | an empty slot is skipped without counting, writing or freeing |
| Scheduler.SoftTimer.SweepDone | SoftTimer.cpp:98-102 | once all slots are swept, each holds what `Poll` left and no record sits in two slots |
| Scheduler.SoftTimer.Schedule | SoftTimer.cpp:107-125 | a full table gives INVALID_EVENT_ID with no effect; otherwise a new owned record with the given period, callback and count, first due at now + after (or now + period when after < 0), goes into the lowest free slot; repeatCount defaults to -1 (forever) and after to 0 (first due at now); the callback is the caller's own, never the timer's private oscillating one |
| Scheduler.SoftTimer.Oscillate | SoftTimer.cpp:136-157 | as Schedule, but the record is a pin record with the oscillating callback, twice the requested count, and the given pin and starting level; repeatCount defaults to -1 (forever) and after to 0 |
| Scheduler.SoftTimer.Every | SoftTimer.h:57-59 | registers what schedule(period, cb, -1, after) registers, with after defaulting to 0 |
| Scheduler.SoftTimer.Once | SoftTimer.h:61-64 | registers what schedule(0, cb, 1, after) registers |
| Scheduler.SoftTimer.LedBlink | SoftTimer.h:70-73 | registers what oscillate registers with the same arguments and the same defaults |
| Scheduler.SoftTimer.Pulse | SoftTimer.h:77-79 | registers what oscillate(pin, startingState, period, 1, after) registers, with after defaulting to 0 |

## Left out

- Formatted printing over the serial port (`pf`, SoftTimer.cpp:3-10) is serial output with no logic, so it is not modelled.
- `millis()` and `digitalWrite` are hardware calls. They become the `now` parameter and the ghost `pinWrites` trace.
- Heap management (`new`, `delete`) is not modelled. Allocation is a fresh Dafny object, and freeing is membership in the ghost set `freed`.
- Ids are the record reference, not the address cast to `intptr_t` or `int16_t`. The width of that cast depends on the platform.
- User callbacks have no side effects in the model. A callback that re-enters the timer during `update()` (removing or adding events) is not modelled, and the code gives no guarantee for it.
- The Arduino/WProgram include selection is platform plumbing and is left out.
- Events.Event: `repeatCount` is an unbounded integer, not a C `int`. On a 16-bit target, `repeatCount * 2` in oscillate can overflow for counts beyond 16383; that overflow is not modelled.
- Scheduler.SoftTimer.UpdateSlot: requires an occupied slot at a valid index and a non-null callback when due. The code reads through the slot and calls the pointer without checks, and both of those fail on NULL.
- Scheduler.SoftTimer.Update: requires that no record sit in two slots. With a duplicate, the code would fire one record twice in a sweep, and the model does not describe that. It also requires a non-null callback on every occupied slot that is due, because the code calls that pointer without a check (SoftTimer.cpp:76), and the call fails on NULL.
- Scheduler.SoftTimer.Schedule: reads the clock once, where the code reads it in both schedule and addEvent. So the model takes the two readings to be equal.
- Scheduler.SoftTimer.RemoveEventByIndex: models the guarded removal, where an empty slot gives false. The unguarded code is modelled separately (see Findings).
- Scheduler.SoftTimer.RemoveAllEvents: returns the number of occupied slots, the documented count, not the 10 the code returns. The code's count is `SlotTable.RemoveAllAsWritten`.
- Scheduler.SoftTimer.RemoveEvent: a null argument removes nothing and gives false, where the code reports true on a table with a free slot (`SlotTable.RemoveNullAsWritten`).
- Scheduler.SoftTimer.RemoveEventId: id 0 (`Id(null)`) removes nothing and gives false, where the code's removeEvent(0) becomes removeEvent(NULL) and reports true on a table with a free slot.
- SlotTable.RemoveByIndexAsWritten: gives the count and the slots as written, but not the freeing of owned records.

## Findings

| source | as written | input that shows it | evidently intended | confidence | as-written member | corrected member |
|---|---|---|---|---|---|---|
| SoftTimer.cpp:44-65 | removeEventByIndex reads `events[i]->deleteWhenRemove` without checking for an empty slot, and reports success at every valid index. So removeAllEvents counts every index and returns 10 (where the NULL read does not trap) | a table holding 3 records: removeAllEvents returns 10, not 3, and a second call returns 10, not 0 | an empty slot is left alone and not counted; removeAllEvents returns the number of occupied slots | not executed | SlotTable.RemoveAllAsWrittenOvercounts | Scheduler.SoftTimer.RemoveAllEvents |
| SoftTimer.h:86 | removeEvent(NULL), and removeEvent(0) which casts its id to NULL, resolve through findEventIndex(NULL) to the first free slot, and the unguarded removeEventByIndex reports that slot removed | a table with slot 0 free: removeEvent(NULL) and removeEvent(0) return true and the table is unchanged | a null record is not in the table, so nothing is removed and false is returned | not executed | SlotTable.RemoveNullAsWritten | Scheduler.SoftTimer.RemoveEvent |
