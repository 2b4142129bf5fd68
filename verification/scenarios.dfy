/**
 Concrete event streams for the filter, each run from the process's
 initial memory, with both clock readings of a callback equal.
 */
module Scenarios {
  import opened Time
  import opened Debounce
  import opened Trace

  /** A key-down of the given keycode observed at the given millisecond. */
  function PressAt(key: int, ms: int): Observation
  {
    var t := Timespec(ms / 1000, (ms % 1000) * 1_000_000);
    Observation(Event(KeyDown, key), t, t)
  }

  function Suppressed(key: int): Event
  {
    Event(KeyDown, key).(keycodeField := SUPPRESSED_FIELD)
  }

  /** Presses of key 11 at 0, 50 and 260 ms, key 5 at 300 ms and key 11 at
      310 ms: only the second is suppressed. The third is 260 ms after the
      accepted first, and the fifth follows another key. */
  lemma MixedStream()
    ensures Run(Initial(Timespec(0, 0)),
                [PressAt(11, 0), PressAt(11, 50), PressAt(11, 260), PressAt(5, 300), PressAt(11, 310)]).outs
            == [Event(KeyDown, 11), Suppressed(11), Event(KeyDown, 11), Event(KeyDown, 5), Event(KeyDown, 11)]
  {
  }

  /** Exactly 200 ms after an accepted press of key 11 another press of
      key 11 is still suppressed; 200.001 ms after it, it is accepted. */
  lemma WindowEdge()
    ensures Run(Initial(Timespec(0, 0)), [PressAt(11, 0), PressAt(11, 200)]).outs
            == [Event(KeyDown, 11), Suppressed(11)]
    ensures Run(Initial(Timespec(0, 0)),
                [PressAt(11, 0),
                 Observation(Event(KeyDown, 11), Timespec(0, 200_001_000), Timespec(0, 200_001_000))]).outs
            == [Event(KeyDown, 11), Event(KeyDown, 11)]
  {
  }

  /** The window is on `delta_us`, not on real time: a press 200 000.5
      microseconds after an accepted one gives `delta_us` 200 000 and is
      suppressed. */
  lemma HalfMicrosecondPastWindow()
    ensures ElapsedNanos(Timespec(0, 0), Timespec(0, 200_000_500)) == 200_000_500
    ensures DeltaUs(Timespec(0, 0), Timespec(0, 200_000_500)) == 200_000
    ensures Run(Initial(Timespec(0, 0)),
                [PressAt(11, 0),
                 Observation(Event(KeyDown, 11), Timespec(0, 200_000_500), Timespec(0, 200_000_500))]).outs
            == [Event(KeyDown, 11), Suppressed(11)]
  {
  }

  /** A second press of key 11 whose clock reading is 1 ms earlier than the
      first one's: the negative difference wraps around in the unsigned
      variable and the press is accepted. */
  lemma ClockStepsBack()
    ensures Run(Initial(Timespec(0, 0)), [PressAt(11, 5000), PressAt(11, 4999)]).outs
            == [Event(KeyDown, 11), Event(KeyDown, 11)]
  {
  }

  /** A step back of 500 ns within the same second: the nanosecond
      difference -500 truncates to 0 microseconds, which is inside the
      window, so the second press of key 11 is suppressed even though its
      clock reading is earlier than the first one's. */
  lemma SubMicrosecondBackstep()
    ensures ElapsedNanos(Timespec(5, 1500), Timespec(5, 1000)) == -500
    ensures ElapsedMicros(Timespec(5, 1500), Timespec(5, 1000)) == 0
    ensures Run(Initial(Timespec(0, 0)),
                [Observation(Event(KeyDown, 11), Timespec(5, 1500), Timespec(5, 1500)),
                 Observation(Event(KeyDown, 11), Timespec(5, 1000), Timespec(5, 1000))]).outs
            == [Event(KeyDown, 11), Suppressed(11)]
  {
  }

  /** A microsecond-rounding case of the seconds-plus-nanoseconds formula:
      from (0 s, 999 ns) to (1 s, 0 ns) is 999 999.001 microseconds, and the
      formula gives 1 000 000 because it truncates the negative nanosecond
      difference toward zero. */
  lemma RoundingAcrossASecond()
    ensures ElapsedNanos(Timespec(0, 999), Timespec(1, 0)) == 999_999_001
    ensures ElapsedMicros(Timespec(0, 999), Timespec(1, 0)) == 1_000_000
  {
  }
}
