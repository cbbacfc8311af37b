/** The event record of the scheduler (EventBase and its pin-oscillating
    variant EventPinState), the fixed-width integer types it is built from,
    and a value snapshot of a record that the pure firing model works on. */
module Events {

  type uint8 = x: int | 0 <= x < 0x100
  type int16 = x: int | -0x8000 <= x < 0x8000
  type int32 = x: int | -0x8000_0000 <= x < 0x8000_0000
  type uint32 = x: int | 0 <= x < 0x1_0000_0000

  const TWO_TO_32: int := 0x1_0000_0000

  /** Unsigned 32-bit addition, wrapping modulo 2^32. */
  function Add32(a: uint32, b: uint32): (r: uint32)
    // the true sum when it fits, otherwise the sum less 2^32
    ensures a + b < TWO_TO_32 ==> r == a + b
    ensures a + b >= TWO_TO_32 ==> r == a + b - TWO_TO_32
    // a wrapped sum is smaller than either operand
    ensures a + b >= TWO_TO_32 <==> r < a
  {
    (a + b) % TWO_TO_32
  }

  /** C's logical negation applied to a uint8_t level and stored back. */
  function Not(level: uint8): (r: uint8)
    // the result is a C boolean: 1 for a zero level, 0 for any other
    ensures r <= 1
    ensures r == 0 <==> level != 0
  {
    if level == 0 then 1 else 0
  }

  datatype Option<T> = None | Some(value: T)

  /** The callback pointer of a record. A user callback is identified by a
      tag; what it returns is supplied to the firing model from outside.
      OscillateCallback is the scheduler's own static callback_oscillate. */
  datatype Callback = NoCallback | UserCallback(tag: nat) | OscillateCallback

  /** One digitalWrite(pin, level) call. */
  datatype Write = Write(pin: uint8, level: uint8)

  /** The values held by one record at one moment. */
  datatype Rec = Rec(
    repeatCount: int,       // negative: forever; 0: stopped; positive: firings left
    period: uint32,
    nextTriggerTime: uint32,
    callback: Callback,
    deleteWhenRemove: bool, // the scheduler owns (and frees) the record
    isPinState: bool,       // the record is an EventPinState
    pin: uint8,
    state: uint8)

  /** What a freshly constructed EventBase holds. */
  const DefaultRec: Rec := Rec(0, 0, 0, NoCallback, false, false, 0, 0)

  /** A scheduled event. Its identity (the source's address-as-id) is the
      object reference itself. */
  class Event {
    var repeatCount: int
    var period: uint32
    var nextTriggerTime: uint32
    var callback: Callback
    var deleteWhenRemove: bool
    const isPinState: bool
    var pin: uint8
    var state: uint8

    /** EventBase(): every scheduling field starts at zero, no callback, and
        the caller keeps ownership. */
    constructor ()
      ensures View() == DefaultRec
    {
      repeatCount := 0;
      period := 0;
      nextTriggerTime := 0;
      callback := NoCallback;
      deleteWhenRemove := false;
      isPinState := false;
      pin := 0;
      state := 0;
    }

    /** new EventPinState(): the base defaults, plus the (value-initialised)
        pin and state fields of the variant. */
    constructor PinState()
      ensures View() == DefaultRec.(isPinState := true)
    {
      repeatCount := 0;
      period := 0;
      nextTriggerTime := 0;
      callback := NoCallback;
      deleteWhenRemove := false;
      isPinState := true;
      pin := 0;
      state := 0;
    }

    function View(): Rec
      reads this
    {
      Rec(repeatCount, period, nextTriggerTime, callback, deleteWhenRemove, isPinState, pin, state)
    }
  }

  /** The snapshot of a slot: None when it is empty. */
  function ViewOf(e: Event?): Option<Rec>
    reads e
  {
    if e == null then None else Some(e.View())
  }

  /** The snapshots of a whole slot table, slot by slot. */
  function ViewsOf(slots: seq<Event?>): (v: seq<Option<Rec>>)
    reads set e: Event | e in slots
    ensures |v| == |slots|
    ensures forall j :: 0 <= j < |slots| ==> v[j] == ViewOf(slots[j])
  {
    if slots == [] then [] else ViewsOf(slots[..|slots| - 1]) + [ViewOf(slots[|slots| - 1])]
  }
}
