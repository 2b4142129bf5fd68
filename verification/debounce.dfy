/**
 The key-bounce filter of fkey: one decision per keyboard event, made from
 the event, the time it is observed and a two-field memory kept between
 calls (the key most recently let through and the time it was let through).

 Only presses of key 11 can be suppressed, and only when the previously
 accepted key-down was also key 11 and `delta_us`, the elapsed-time formula
 from the remembered clock reading wrapped to 64 unsigned bits, is at most
 200 000. A suppressed event is still handed back, with
 its keycode replaced by -1, and the memory is left as it was; every other
 key-down is handed back unchanged and becomes the new memory.
 */
module Debounce {
  import opened Time

  /** 2^16: a `CGKeyCode` is an unsigned 16-bit integer. */
  const KEYCODE_MODULUS: int := 0x1_0000

  type KeyCode = k: int | 0 <= k < KEYCODE_MODULUS

  /** The only key whose presses are ever suppressed. */
  const TARGET_KEY: KeyCode := 11

  /** The debounce window in microseconds; the bound is inclusive. */
  const WINDOW_US: int := 200 * 1000

  /** What a suppressed event's keycode field is overwritten with. As a
      `CGKeyCode` it reads as 65535, so it is never the target key. */
  const SUPPRESSED_FIELD: int := -1

  /** The zero-initialised value of the remembered key. */
  const INITIAL_KEY: KeyCode := 0

  /** The event types that reach the callback: the tap listens to key-down
      and key-up, and the system may deliver other notifications. */
  datatype EventKind = KeyDown | KeyUp | OtherKind

  /** An intercepted event as far as the filter sees it: its type and its
      64-bit keycode field. */
  datatype Event = Event(kind: EventKind, keycodeField: int)

  /** The filter's memory, the globals `prevKeycode` and `start`. */
  datatype FilterState = FilterState(prevKey: KeyCode, start: Timespec)

  /** What one call of the callback produces: the event handed back to the
      system and the memory left for the next call. */
  datatype Reply = Reply(event: Event, state: FilterState)

  /** The memory at process start: the key is zero, which is not the target
      key, so the initial `start` reading never takes part in a decision. */
  function Initial(start: Timespec): (s: FilterState)
    ensures s.prevKey != TARGET_KEY
    ensures s.start == start
  {
    FilterState(INITIAL_KEY, start)
  }

  /** The `(CGKeyCode)` conversion of the 64-bit keycode field: the value
      reduced modulo 2^16. Fields already in range are kept as they are. */
  function KeyOf(field: int): (k: KeyCode)
    ensures 0 <= field < KEYCODE_MODULUS ==> k == field
    ensures (field - k) % KEYCODE_MODULUS == 0
  {
    field % KEYCODE_MODULUS
  }

  /** The bounce rule stated positively: a key-down of the target key, whose
      predecessor in memory is the target key, observed at most
      `WINDOW_US` microseconds (after the conversion to `uint64_t`) after the
      remembered time. */
  predicate IsBounce(s: FilterState, e: Event, now: Timespec)
  {
    && e.kind == KeyDown
    && KeyOf(e.keycodeField) == TARGET_KEY
    && s.prevKey == TARGET_KEY
    && DeltaUs(s.start, now) <= WINDOW_US
  }

  /** One invocation of the callback. `now` is the clock reading used to
      measure the elapsed time and `restamp` the second reading that becomes
      the new `start` when the event is accepted.

      Events other than key-down come back unchanged and leave the memory
      alone. A bounce comes back with only its keycode replaced by -1, and
      the memory is left alone. Every other key-down comes back unchanged and
      its key and `restamp` become the memory. The event handed back differs
      from the one received exactly when it is a bounce. */
  function Step(s: FilterState, e: Event, now: Timespec, restamp: Timespec): (r: Reply)
    ensures r.event.kind == e.kind
    ensures e.kind != KeyDown ==> r == Reply(e, s)
    ensures IsBounce(s, e, now) ==> r == Reply(e.(keycodeField := SUPPRESSED_FIELD), s)
    ensures e.kind == KeyDown && !IsBounce(s, e, now) ==>
              r == Reply(e, FilterState(KeyOf(e.keycodeField), restamp))
    ensures r.event != e <==> IsBounce(s, e, now)
  {
    if e.kind != KeyDown then
      Reply(e, s)
    else
      var keycode := KeyOf(e.keycodeField);
      var delta := DeltaUs(s.start, now);
      if keycode != TARGET_KEY || s.prevKey != TARGET_KEY || delta > WINDOW_US then
        Reply(e, FilterState(keycode, restamp))
      else
        Reply(e.(keycodeField := SUPPRESSED_FIELD), s)
  }

  /** The window is inclusive: with the target key remembered, a target-key
      press whose elapsed-time formula gives exactly `WINDOW_US` is
      suppressed and one whose formula gives one more is accepted and re-arms
      the filter. */
  lemma InclusiveBound(s: FilterState, e: Event, now: Timespec, restamp: Timespec)
    requires s.prevKey == TARGET_KEY
    requires e.kind == KeyDown && KeyOf(e.keycodeField) == TARGET_KEY
    ensures ElapsedMicros(s.start, now) == WINDOW_US ==>
              Step(s, e, now, restamp) == Reply(e.(keycodeField := SUPPRESSED_FIELD), s)
    ensures ElapsedMicros(s.start, now) == WINDOW_US + 1 ==>
              Step(s, e, now, restamp) == Reply(e, FilterState(TARGET_KEY, restamp))
  {
  }

  /** When the formula's signed result is negative, the conversion to
      `uint64_t` turns it into a value far beyond the window: the press is
      accepted, not suppressed. A clock reading earlier than the remembered
      one does not always give a negative result: a step back of less than a
      microsecond within the same second truncates to 0, which is inside the
      window. */
  lemma BackwardClockPasses(s: FilterState, e: Event, now: Timespec, restamp: Timespec)
    requires e.kind == KeyDown
    requires -U64_MODULUS + WINDOW_US < ElapsedMicros(s.start, now) < 0
    ensures DeltaUs(s.start, now) > WINDOW_US
    ensures Step(s, e, now, restamp) == Reply(e, FilterState(KeyOf(e.keycodeField), restamp))
  {
  }
}
