# fkey key-bounce filter, modelled in Dafny

fkey is a small macOS background program. It taps the global keyboard event
stream and suppresses spurious duplicate presses of one key (keycode 11),
which a faulty keyboard reports twice for one physical press. The program
has a single callback, `myCGEventCallback`. The run loop calls it once per
keyboard event. Its state between calls is two globals: `prevKeycode`, the
key of the last key-down it let through, and `start`, the monotonic clock
reading taken when it let that key-down through. The globals `end` and
`delta_us` are rewritten on every key-down, and each is read only in the call
that computes it. The model therefore keeps them out of `FilterState`.

For each key-down the callback reads the clock and computes the elapsed
microseconds since `start` into the unsigned 64-bit `delta_us`. It
suppresses the event only when three things hold: the key is 11, the
remembered key is 11, and `delta_us <= 200000`. A suppressed event is still
handed back, with its keycode field overwritten by -1, and the globals are
left alone. Every other key-down is handed back unchanged. Its key becomes
`prevKeycode`, and a second clock reading becomes `start`. Events that are
not key-downs come back unchanged.

The project has four modules:

- `Time` (`time.dfy`): `struct timespec` as `Timespec(sec, nsec)`, C's
  truncating division, the signed microsecond formula, and its conversion to
  `uint64_t` (reduction modulo 2^64).
- `Debounce` (`debounce.dfy`): the memory `FilterState(prevKey, start)`, the
  `(CGKeyCode)` conversion (modulo 2^16), the bounce rule `IsBounce`, and the
  callback as the pure function `Step(state, event, now, restamp)`. `now` is
  the first clock reading and `restamp` the second.
- `Trace` (`trace.dfy`): the callback folded over a stream of observations
  (`Run`), the serial run loop as a method (`DeliverAll`), and lemmas about
  whole streams.
- `Scenarios` (`scenarios.dfy`): concrete streams.

The central trace fact is `Trace.StateIsLastAccepted`. Before any event, the
memory holds the key and second clock reading of the most recent accepted
key-down, or the initial memory if there has been none.
`Trace.SuppressedIffBounceOfLastAccepted` restates the decision over a
stream from the initial memory. A key-down is suppressed exactly when it is
key 11, the most recent accepted key-down exists and is key 11, and
`delta_us` (the elapsed-time formula, wrapped to 64 unsigned bits) from that
press's clock reading is at most 200 000. This is not the same as real
elapsed time. A press 200 000.5 µs later gives `delta_us` 200 000 and is
suppressed (`Scenarios.HalfMicrosecondPastWindow`), and a press whose clock
reading is earlier usually wraps and is accepted.

Negative elapsed time follows the code. If the formula's signed result is
negative, storing it in the unsigned `delta_us` wraps it to a value near
2^64, far outside the window, so the press is accepted. A reading in which
"negative means within the window" does not match the code; the model
follows the code (`Debounce.BackwardClockPasses`, `Scenarios.ClockStepsBack`).
A clock reading earlier than `start` does not always give a negative
result. A step back of less than a microsecond within the same second
truncates to 0, which is inside the window, so such a key-11 press is
suppressed (`Scenarios.SubMicrosecondBackstep`).

The initial key is 0. `prevKeycode` is a zero-initialised global, and 0 is a
real keycode on macOS, so it is not a "no key" sentinel. Since 0 is not 11,
this changes no decision (`Trace.FirstKeyDownPasses`,
`Trace.InitialStartIrrelevant`).

## Model

| member | source | states |
|---|---|---|
| `Time.TruncDiv` | fkey.c:33 | C's `/` on the nanosecond difference: the quotient times the divisor is the multiple of the divisor nearest the dividend on the side of zero, for both signs |
| `Time.ElapsedMicros` | fkey.c:33 | the seconds-times-a-million plus truncated-nanoseconds formula is always within one microsecond of the exact elapsed nanoseconds / 1000, and never has the opposite sign (a backward step of under a microsecond can truncate to 0) |
| `Time.DeltaUs` | fkey.c:33 | storing the signed difference into the `uint64_t delta_us` of fkey.c:17 gives a value below 2^64; it keeps a difference that fits and wraps a negative one to difference + 2^64 |
| `Debounce.Initial` | fkey.c:15-17 | the zero-initialised memory holds a key that is not 11 and carries whatever start reading it is given |
| `Debounce.KeyOf` | fkey.c:30 | the `(CGKeyCode)` cast keeps 16-bit fields and is congruent to the field modulo 2^16 |
| `Debounce.IsBounce` | fkey.c:35 | the negation of the accept condition: key 11, remembered key 11, and `delta_us <= 200000` after the conversion to `uint64_t` |
| `Debounce.Step` | fkey.c:21-43 | non-key-downs come back unchanged and leave the memory alone; a bounce (key 11, remembered key 11, `delta_us <= 200000`) comes back with only its keycode set to -1 and the memory unchanged; every other key-down comes back unchanged and its key and the second clock reading become the memory; the event changes exactly when it is a bounce |
| `Debounce.InclusiveBound` | fkey.c:35 | with key 11 remembered, a key-11 press whose elapsed-time formula gives exactly 200 000 is suppressed, and one whose formula gives 200 001 is accepted and becomes the memory |
| `Debounce.BackwardClockPasses` | fkey.c:33-38 | a negative result of the elapsed-time formula wraps to a `delta_us` beyond the window, so the key-down is accepted |
| `Trace.Run` | fkey.c:21-43 | over a stream, every event comes back in order with its type kept, either unchanged or with only its keycode replaced by -1 |
| `Trace.DeliverAll` | fkey.c:15-43 | the loop that calls the callback serially, carrying the globals between calls, hands back the same events and leaves the same memory as the fold |
| `Trace.QuietRunKeepsState` | fkey.c:41-42 | a stream in which no key-down is accepted leaves the memory exactly as it was |
| `Trace.FinalIsLastAccepted` | fkey.c:35-38 | after a stream, the memory is the key and second clock reading of its last accepted key-down |
| `Trace.StateIsLastAccepted` | fkey.c:35-42 | the memory seen by each event is that of the most recent accepted key-down before it, or the starting memory if there was none |
| `Trace.SuppressedIffBounceOfLastAccepted` | fkey.c:35-42 | from the initial memory, a key-down is suppressed if and only if it is key 11, the most recent accepted key-down is key 11, and `delta_us` (the wrapped formula) from that press's clock reading is at most 200 000 |
| `Trace.FirstKeyDownPasses` | fkey.c:15-37 | the first key-down after process start is accepted whatever its key and timing |
| `Trace.AcceptedTargetPressesAreSpaced` | fkey.c:33-42 | for two accepted key-11 presses with no key-down accepted between them, `delta_us` from the first one's clock reading to the second's exceeds 200 000; this also holds when the second reading is earlier and the difference wrapped |
| `Trace.AcceptedTargetPressesAreSpacedInRealTime` | fkey.c:33-42 | if the clock did not step back between them, such presses are more than 200 ms of exact elapsed time apart |
| `Trace.OtherKeyDisarms` | fkey.c:35-38 | after a key-down of any key other than 11, the next key-down is accepted however soon it comes |
| `Trace.BurstIsSuppressed` | fkey.c:35-42 | with key 11 remembered, every key-11 press whose `delta_us` (the wrapped formula) from the remembered clock reading is at most 200 000 is suppressed, and the memory never moves, so each is measured against the same accepted press |
| `Trace.BurstThenRearm` | fkey.c:35-38 | after such a burst, the first key-11 press whose `delta_us` (the wrapped formula) from the remembered clock reading is more than 200 000 is accepted and becomes the new reference |
| `Trace.IndistinguishableStatesAgree` | fkey.c:35-37 | two memories that are equal, or that hold the same key other than 11, make identical decisions on every stream |
| `Trace.InitialStartIrrelevant` | fkey.c:15-37 | the initial value of `start` never influences a decision |
| `Scenarios.MixedStream` | fkey.c:21-43 | key-11 presses at 0, 50 and 260 ms, a key-5 press at 300 ms, and a key-11 press at 310 ms: only the 50 ms press is suppressed |
| `Scenarios.WindowEdge` | fkey.c:35 | a key-11 press 200 ms after an accepted one is suppressed; one 200.001 ms after is accepted |
| `Scenarios.HalfMicrosecondPastWindow` | fkey.c:33-42 | a key-11 press 200 000.5 µs after an accepted one gives `delta_us` 200 000 and is suppressed |
| `Scenarios.ClockStepsBack` | fkey.c:33-38 | a key-11 press whose clock reading is 1 ms before the accepted one's is accepted |
| `Scenarios.SubMicrosecondBackstep` | fkey.c:33-42 | a key-11 press 500 ns before the accepted one, within the same second, gives `delta_us` 0 and is suppressed |
| `Scenarios.RoundingAcrossASecond` | fkey.c:33 | from (0 s, 999 ns) to (1 s, 0 ns) the formula gives 1 000 000 µs for 999 999.001 µs of elapsed time |

## Left out

- `main` (fkey.c:45-80) is not modelled. That covers creating the event tap
  for key-down and key-up, the fatal exit when tap creation fails, the run-loop
  source, and `CFRunLoopRun`. This is operating-system plumbing with no
  decision in it. Its only effect on the core is that the callback is called
  serially, and `Trace.DeliverAll` and `Trace.Run` model that.
- `CGEventGetIntegerValueField` and `CGEventSetIntegerValueField` are foreign
  calls. An event is modelled as its type and its 64-bit keycode field only.
  "Nothing else is altered" is stated as: the type is kept, and only the
  keycode field can change.
- `clock_gettime` (fkey.c:32, 36): both readings are parameters (`now` and
  `restamp`). The model assumes no ordering between them and no monotonicity
  across calls. The global `end` is the `now` parameter, because the model
  never reads its value from an earlier call.
- `gettimeofday` into `start` (fkey.c:61): the initial `start` is an
  arbitrary parameter of `Debounce.Initial`. The model does not represent
  the wall-clock contents a `struct timeval` leaves in a `struct timespec`.
  `Trace.InitialStartIrrelevant` shows that this value never matters.
- `Time.ElapsedMicros`: C computes the formula in signed 64-bit arithmetic,
  where overflow is undefined behaviour. The model computes it exactly and
  reduces modulo 2^64 in `Time.DeltaUs`. That matches the wrapping hardware
  result, and only differences beyond about 292 000 years could overflow.
- The model does not assume that `tv_nsec` lies in [0, 10^9). The formula is
  modelled for any values.
- The unused `proxy` and `refcon` arguments of the callback are not modelled.
- Concurrency: there is none. The run loop calls the callback serially.
