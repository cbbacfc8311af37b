/** What one firing does to a record, stated on values: the due check, the
    callback, and the repeat-count state machine of SoftTimer::update(i);
    repeated firings; the records that the builders register; and the
    effect of one sweep over the whole table. */
module Firing {
  import opened Events

  /** The due check of update(i): a plain unsigned comparison, with no
      tolerance for the clock wrapping past 2^32. */
  predicate Due(now: uint32, next: uint32): (d: bool)
    // a record is due at its own trigger time, and an unset (zero) trigger
    // time is due at any time
    ensures now == next ==> d
    ensures next == 0 ==> d
    // a trigger time at the clock's top value is due only at that instant
    ensures next == 0xFFFF_FFFF ==> (d <==> now == 0xFFFF_FFFF)
  {
    now >= next
  }

  /** The callback can be called: it is not NULL, and the oscillating
      callback (which reads pin and state) only sits on an EventPinState. */
  predicate Callable(r: Rec) {
    r.callback != NoCallback && (r.callback.OscillateCallback? ==> r.isPinState)
  }

  /** The outcome of one firing: the record's fields afterwards, whether its
      slot is cleared, and the pin writes its callback made. */
  datatype Fired = Fired(rec: Rec, retired: bool, writes: seq<Write>)

  /** The branch taken when the callback returned false: a positive count
      drops by one; a count that is then 0 retires the slot, any other count
      moves the trigger time on by one period (mod 2^32). */
  function Rearm(r: Rec, writes: seq<Write>): (f: Fired)
    ensures f.writes == writes
    ensures f.retired <==> r.repeatCount == 0 || r.repeatCount == 1
    ensures r.repeatCount > 0 ==> f.rec.repeatCount == r.repeatCount - 1
    ensures r.repeatCount <= 0 ==> f.rec.repeatCount == r.repeatCount
    ensures f.retired ==> f.rec == r.(repeatCount := 0)
    ensures !f.retired ==>
              f.rec == r.(repeatCount := f.rec.repeatCount, nextTriggerTime := Add32(r.nextTriggerTime, r.period))
  {
    var count := if r.repeatCount > 0 then r.repeatCount - 1 else r.repeatCount;
    if count == 0 then Fired(r.(repeatCount := 0), true, writes)
    else Fired(r.(repeatCount := count, nextTriggerTime := Add32(r.nextTriggerTime, r.period)), false, writes)
  }

  /** One firing of a due record. A user callback returns `decide`; the
      oscillating callback writes the stored level to the pin, negates it
      and returns false. The scheduler only fires Callable records (see
      SoftTimer.UpdateSlot); for them this is the whole effect. */
  function Fire(r: Rec, decide: bool): (f: Fired)
    // only repeatCount, nextTriggerTime and (for the pin variant) state change
    ensures f.rec == r.(repeatCount := f.rec.repeatCount, nextTriggerTime := f.rec.nextTriggerTime, state := f.rec.state)
    ensures f.rec.state != r.state ==> r.callback.OscillateCallback?
    // retired exactly when the callback asked for it or the count runs out
    ensures f.retired <==> (!r.callback.OscillateCallback? && decide) || r.repeatCount == 0 || r.repeatCount == 1
    // the repeat count never increases, a negative one never changes,
    // and a positive one drops by at most one
    ensures f.rec.repeatCount <= r.repeatCount
    ensures r.repeatCount < 0 ==> f.rec.repeatCount == r.repeatCount
    ensures r.repeatCount > 0 ==> f.rec.repeatCount >= r.repeatCount - 1
    // unless the callback asked for retirement, a positive count drops by
    // exactly one; a callback that asks for it leaves the record as it was
    ensures (r.callback.OscillateCallback? || !decide) && r.repeatCount > 0 ==>
              f.rec.repeatCount == r.repeatCount - 1
    ensures !r.callback.OscillateCallback? && decide ==> f.rec == r
    ensures !f.retired ==> f.rec.nextTriggerTime == Add32(r.nextTriggerTime, r.period)
    ensures r.callback.UserCallback? ==> f.writes == []
    ensures r.callback.OscillateCallback? ==>
              f.writes == [Write(r.pin, r.state)] && f.rec.state == Not(r.state)
  {
    if r.callback.OscillateCallback? then
      Rearm(r.(state := Not(r.state)), [Write(r.pin, r.state)])
    else if decide then
      Fired(r, true, [])
    else
      Rearm(r, [])
  }

  /** update(i) on an occupied slot: fire if due, otherwise leave it alone. */
  function Poll(r: Rec, now: uint32, decide: bool): (f: Fired)
    // a record that is not due is left alone: no change, no write, kept
    ensures !Due(now, r.nextTriggerTime) ==> f.rec == r && !f.retired && f.writes == []
    // only a due record is retired or writes to a pin
    ensures f.retired || f.writes != [] ==> Due(now, r.nextTriggerTime)
  {
    if Due(now, r.nextTriggerTime) then Fire(r, decide) else Fired(r, false, [])
  }

  /** A callback returning true clears the slot whatever the repeat count. */
  lemma RetireOnRequest(r: Rec, now: uint32)
    requires Callable(r) && r.callback.UserCallback?
    requires Due(now, r.nextTriggerTime)
    ensures Poll(r, now, true).retired
    ensures Poll(r, now, true).rec == r
  {
  }

  // ---------------------------------------------------------------------
  // Repeated firings

  /** The trigger time after n re-arms, each adding one period mod 2^32. */
  function Advance(next: uint32, period: uint32, n: nat): uint32
    decreases n
  {
    if n == 0 then next else Advance(Add32(next, period), period, n - 1)
  }

  lemma {:induction false} AdvanceIsModular(next: uint32, period: uint32, n: nat)
    ensures Advance(next, period, n) == (next + n * period) % TWO_TO_32
    decreases n
  {
    if n > 0 {
      AdvanceIsModular(Add32(next, period), period, n - 1);
      var a := next + period;
      var b := (n - 1) * period;
      assert n * period == period + b;
      ModAddLeft(a, b);
    }
  }

  lemma ModAddLeft(a: nat, b: nat)
    ensures (a % TWO_TO_32 + b) % TWO_TO_32 == (a + b) % TWO_TO_32
  {
    var q := a / TWO_TO_32;
    assert a == q * TWO_TO_32 + a % TWO_TO_32;
    assert a + b == (a % TWO_TO_32 + b) + q * TWO_TO_32;
    ModShift(a % TWO_TO_32 + b, q);
  }

  lemma {:induction false} ModShift(x: nat, q: nat)
    ensures (x + q * TWO_TO_32) % TWO_TO_32 == x % TWO_TO_32
    decreases q
  {
    if q > 0 {
      ModShift(x, q - 1);
      assert x + q * TWO_TO_32 == (x + (q - 1) * TWO_TO_32) + TWO_TO_32;
    }
  }

  /** The writes of k successive oscillating firings from level s. */
  function Toggles(pin: uint8, s: uint8, k: nat): seq<Write>
    decreases k
  {
    if k == 0 then [] else [Write(pin, s)] + Toggles(pin, Not(s), k - 1)
  }

  /** The writes go to one pin, start at s and alternate: each level is the
      negation of the one before. */
  lemma {:induction false} TogglesAlternate(pin: uint8, s: uint8, k: nat)
    ensures |Toggles(pin, s, k)| == k
    ensures forall j :: 0 <= j < k ==> Toggles(pin, s, k)[j].pin == pin
    ensures k > 0 ==> Toggles(pin, s, k)[0].level == s
    ensures forall j :: 0 <= j < k - 1 ==>
              Toggles(pin, s, k)[j + 1].level == Not(Toggles(pin, s, k)[j].level)
    decreases k
  {
    if k > 0 {
      TogglesAlternate(pin, Not(s), k - 1);
      var rest := Toggles(pin, Not(s), k - 1);
      assert Toggles(pin, s, k) == [Write(pin, s)] + rest;
      forall j | 0 <= j < k - 1
        ensures Toggles(pin, s, k)[j + 1].level == Not(Toggles(pin, s, k)[j].level)
      {
        if j > 0 {
          assert Toggles(pin, s, k)[j + 1] == rest[j];
          assert Toggles(pin, s, k)[j] == rest[j - 1];
        }
      }
    }
  }

  /** The result of polling one record n times, every poll due and every
      user callback returning false; it stops at the firing that retires it. */
  datatype Trace = Trace(rec: Rec, retired: bool, fires: nat, writes: seq<Write>)

  function Run(r: Rec, n: nat): (t: Trace)
    requires Callable(r)
    ensures t.fires <= n
    ensures t.retired || t.fires == n
    ensures Callable(t.rec)
    decreases n
  {
    if n == 0 then Trace(r, false, 0, [])
    else
      var f := Fire(r, false);
      if f.retired then Trace(f.rec, true, 1, f.writes)
      else
        var t := Run(f.rec, n - 1);
        Trace(t.rec, t.retired, t.fires + 1, f.writes + t.writes)
  }

  /** A user event with repeatCount R >= 0 fires max(R, 1) times: R
      decrements down to 0, the last one clearing its slot; before that
      each firing moves the trigger time on by one period. */
  lemma {:induction false} RunCounted(r: Rec, n: nat)
    requires Callable(r) && r.callback.UserCallback? && r.repeatCount >= 0
    ensures var t := Run(r, n);
            var last := if r.repeatCount == 0 then 1 else r.repeatCount;
            t.writes == [] &&
            (n < last ==> !t.retired && t.fires == n && t.rec.repeatCount == r.repeatCount - n &&
                          t.rec.nextTriggerTime == Advance(r.nextTriggerTime, r.period, n)) &&
            (n >= last ==> t.retired && t.fires == last && t.rec.repeatCount == 0)
    decreases n
  {
    if n > 0 && r.repeatCount > 1 {
      RunCounted(Fire(r, false).rec, n - 1);
    }
  }

  /** A user event with a negative repeatCount is never retired by the
      count: it fires on every due poll and its count never changes. */
  lemma {:induction false} RunForever(r: Rec, n: nat)
    requires Callable(r) && r.callback.UserCallback? && r.repeatCount < 0
    ensures var t := Run(r, n);
            !t.retired && t.fires == n && t.writes == [] &&
            t.rec.repeatCount == r.repeatCount &&
            t.rec.nextTriggerTime == Advance(r.nextTriggerTime, r.period, n)
    decreases n
  {
    if n > 0 {
      RunForever(Fire(r, false).rec, n - 1);
    }
  }

  /** An oscillating event writes alternating levels, one per firing;
      with repeatCount R >= 0 it fires max(R, 1) times and is retired, with
      a negative count it never stops. */
  lemma {:induction false} RunOscillating(r: Rec, n: nat)
    requires Callable(r) && r.callback.OscillateCallback?
    ensures var t := Run(r, n);
            t.writes == Toggles(r.pin, r.state, t.fires) &&
            (r.repeatCount < 0 ==> !t.retired && t.fires == n) &&
            (r.repeatCount >= 0 ==>
              var last := if r.repeatCount == 0 then 1 else r.repeatCount;
              t.fires == (if n < last then n else last) && t.retired == (n >= last))
    decreases n
  {
    if n > 0 && (r.repeatCount < 0 || r.repeatCount > 1) {
      RunOscillating(Fire(r, false).rec, n - 1);
    }
  }

  // ---------------------------------------------------------------------
  // The records the builders register

  /** The first trigger time schedule and oscillate compute:
      now + after when after >= 0, now + period otherwise, mod 2^32. */
  function FirstTrigger(now: uint32, period: uint32, after: int32): (t: uint32)
    ensures var delay := if after >= 0 then after else period;
            (now + delay < TWO_TO_32 ==> t == now + delay) &&
            (now + delay >= TWO_TO_32 ==> t == now + delay - TWO_TO_32 && t < now)
  {
    Add32(now, if after >= 0 then after else period)
  }

  /** addEvent replaces an unset (zero) trigger time by the clock. */
  function Registered(next: uint32, now: uint32): (t: uint32)
    // a set trigger time is kept; the registered one is unset only when the
    // clock itself reads 0
    ensures next != 0 ==> t == next
    ensures t == 0 <==> next == 0 && now == 0
  {
    if next == 0 then now else next
  }

  /** The owned record schedule(period, callback, repeatCount, after) leaves in the table. */
  function ScheduledRec(period: uint32, callback: Callback, repeatCount: int16, after: int32, now: uint32): Rec {
    Rec(repeatCount, period, Registered(FirstTrigger(now, period, after), now), callback, true, false, 0, 0)
  }

  /** The owned pin record oscillate(pin, startingState, period, repeatCount, after)
      leaves in the table: one requested cycle is two firings. */
  function OscillatingRec(pin: uint8, startingState: uint8, period: uint32, repeatCount: int16,
                          after: int32, now: uint32): Rec
  {
    Rec(repeatCount * 2, period, Registered(FirstTrigger(now, period, after), now),
        OscillateCallback, true, true, pin, startingState)
  }

  /** Without wrap-around, a scheduled event is not due before its delay
      has elapsed and is due once it has. */
  lemma ScheduledFirstFiring(period: uint32, callback: Callback, repeatCount: int16,
                             after: int32, now: uint32, t: uint32)
    requires now + (if after >= 0 then after else period) < TWO_TO_32
    ensures var delay := if after >= 0 then after else period;
            var r := ScheduledRec(period, callback, repeatCount, after, now);
            r.nextTriggerTime == now + delay &&
            (now <= t ==> (Due(t, r.nextTriggerTime) <==> t - now >= delay))
  {
  }

  /** A first trigger time that wraps to exactly 0 collides with the
      "unset" sentinel: addEvent replaces it by the clock, so the record is
      first due at `now` and its later re-arms count from `now`, not from 0. */
  lemma {:induction false} ScheduleSentinelCollision(period: uint32, callback: Callback, repeatCount: int16,
                                                     after: int32, now: uint32, n: nat)
    requires FirstTrigger(now, period, after) == 0
    ensures var r := ScheduledRec(period, callback, repeatCount, after, now);
            r.nextTriggerTime == now &&
            Advance(r.nextTriggerTime, period, n) == (now + n * period) % TWO_TO_32
  {
    AdvanceIsModular(now, period, n);
  }

  /** The first trigger time wraps too: scheduled 0x20 ms before the clock
      wraps with a delay of 0x20, a record is due at once, not 0x20 ms later. */
  lemma FirstTriggerWraps(period: uint32, callback: Callback, repeatCount: int16)
    ensures var r := ScheduledRec(period, callback, repeatCount, 0x20, 0xFFFF_FFF0);
            r.nextTriggerTime == 0x10 && Due(0xFFFF_FFF0, r.nextTriggerTime)
  {
  }

  /** The due check does not tolerate wrap-around: a record re-armed past
      2^32 is due again one millisecond later. */
  lemma DueCheckIgnoresWrap(r: Rec)
    requires Callable(r) && r.callback.UserCallback?
    requires r.nextTriggerTime == 0xFFFF_FFF0 && r.period == 0x20 && r.repeatCount < 0
    ensures var f := Poll(r, 0xFFFF_FFF0, false);
            !f.retired && f.rec.nextTriggerTime == 0x10 && Due(0xFFFF_FFF1, f.rec.nextTriggerTime)
  {
  }

  /** every(period, cb, after): never retired by its count. */
  lemma {:induction false} EveryRepeatsForever(period: uint32, tag: nat, after: int32, now: uint32, n: nat)
    ensures var t := Run(ScheduledRec(period, UserCallback(tag), -1, after, now), n);
            !t.retired && t.fires == n && t.rec.repeatCount == -1
  {
    RunForever(ScheduledRec(period, UserCallback(tag), -1, after, now), n);
  }

  /** once(cb, after): however many due polls follow, it fires exactly once
      and its slot is then empty. */
  lemma {:induction false} OnceFiresOnce(tag: nat, after: int32, now: uint32, n: nat)
    requires n >= 1
    ensures var t := Run(ScheduledRec(0, UserCallback(tag), 1, after, now), n);
            t.retired && t.fires == 1
  {
    RunCounted(ScheduledRec(0, UserCallback(tag), 1, after, now), n);
  }

  /** oscillate with C >= 1 cycles: exactly 2C writes, the alternating
      levels of Toggles starting at startingState, then the slot is empty. */
  lemma {:induction false} OscillateTransitions(pin: uint8, startingState: uint8, period: uint32,
                                                cycles: int16, after: int32, now: uint32, n: nat)
    requires cycles >= 1 && n >= 2 * cycles
    ensures var t := Run(OscillatingRec(pin, startingState, period, cycles, after, now), n);
            t.retired && t.fires == 2 * cycles && |t.writes| == 2 * cycles &&
            t.writes == Toggles(pin, startingState, 2 * cycles)
  {
    RunOscillating(OscillatingRec(pin, startingState, period, cycles, after, now), n);
    TogglesAlternate(pin, startingState, 2 * cycles);
  }

  /** pulse: writes startingState, then its negation, then is removed. */
  lemma {:induction false} PulseWritesTwice(pin: uint8, startingState: uint8, period: uint32,
                                            after: int32, now: uint32, n: nat)
    requires n >= 2
    ensures var t := Run(OscillatingRec(pin, startingState, period, 1, after, now), n);
            t.retired && t.fires == 2 &&
            t.writes == [Write(pin, startingState), Write(pin, Not(startingState))]
  {
    RunOscillating(OscillatingRec(pin, startingState, period, 1, after, now), n);
  }

  /** A default-constructed record (repeatCount 0) fires once, then is removed. */
  lemma DefaultRecordFiresOnce(callback: Callback, next: uint32, decide: bool)
    requires Callable(DefaultRec.(callback := callback, nextTriggerTime := next))
    ensures Fire(DefaultRec.(callback := callback, nextTriggerTime := next), decide).retired
  {
  }

  // ---------------------------------------------------------------------
  // One sweep over the table, slot by slot

  /** The number of occupied and due slots among the first k. */
  function DueCount(before: seq<Option<Rec>>, now: uint32, k: nat): (c: nat)
    requires k <= |before|
    ensures c <= k
    ensures (forall j :: 0 <= j < k ==> before[j].None?) ==> c == 0
    decreases k
  {
    if k == 0 then 0
    else DueCount(before, now, k - 1) +
         (if before[k - 1].Some? && Due(now, before[k - 1].value.nextTriggerTime) then 1 else 0)
  }

  /** The pin writes the first k slots make, in slot order. */
  function SweepWrites(before: seq<Option<Rec>>, now: uint32, decide: seq<bool>, k: nat): seq<Write>
    requires k <= |before| && |decide| == |before|
    decreases k
  {
    if k == 0 then []
    else SweepWrites(before, now, decide, k - 1) +
         (if before[k - 1].Some? then Poll(before[k - 1].value, now, decide[k - 1]).writes else [])
  }
}
