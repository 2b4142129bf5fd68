/**
 Monotonic timestamps and the microsecond difference the key-bounce filter
 computes between two of them.

 A timestamp is a `struct timespec` read from the monotonic clock: whole
 seconds and nanoseconds. The filter subtracts two of them field by field,
 scales the seconds to microseconds, truncates the nanosecond difference to
 microseconds with C's division, and stores the signed result into an
 unsigned 64-bit variable.
 */
module Time {

  /** A `struct timespec`: whole seconds and nanoseconds. */
  datatype Timespec = Timespec(sec: int, nsec: int)

  const NANOS_PER_SEC: int := 1_000_000_000
  const MICROS_PER_SEC: int := 1_000_000
  const NANOS_PER_MICRO: int := 1000

  /** 2^64, the number of values a `uint64_t` holds. */
  const U64_MODULUS: int := 0x1_0000_0000_0000_0000

  /** C's integer division, which truncates toward zero (Dafny's `/` is
      Euclidean and rounds negative quotients down instead). The contract
      pins the quotient down uniquely: `q * b` is the multiple of `b`
      nearest to `a` on the side of zero. */
  function TruncDiv(a: int, b: int): (q: int)
    requires b > 0
    ensures 0 <= a ==> 0 <= q * b <= a < q * b + b
    ensures a < 0 ==> a <= q * b <= 0 && q * b - b < a
  {
    if a >= 0 then
      FloorDivBounds(a, b);
      a / b
    else
      FloorDivBounds(-a, b);
      -((-a) / b)
  }

  /** Dafny's division of a natural number: the quotient times the divisor
      is the largest multiple of the divisor not above the dividend. */
  lemma FloorDivBounds(n: int, b: int)
    requires 0 <= n && b > 0
    ensures 0 <= (n / b) * b <= n < (n / b) * b + b
    ensures -((n / b) * b) == (-(n / b)) * b
  {
  }

  /** The exact number of nanoseconds from `start` to `end`: the reference
      quantity the microsecond formula approximates. */
  function ElapsedNanos(start: Timespec, end: Timespec): int
  {
    (end.sec - start.sec) * NANOS_PER_SEC + (end.nsec - start.nsec)
  }

  /** The signed right-hand side of the `delta_us` assignment: the seconds
      difference in microseconds plus the nanosecond difference truncated to
      microseconds. It is always within one microsecond of the exact elapsed
      time, and it is never negative when the exact elapsed time is not. */
  function ElapsedMicros(start: Timespec, end: Timespec): (us: int)
    ensures NANOS_PER_MICRO * us - NANOS_PER_MICRO < ElapsedNanos(start, end)
    ensures ElapsedNanos(start, end) < NANOS_PER_MICRO * us + NANOS_PER_MICRO
    ensures ElapsedNanos(start, end) >= 0 ==> us >= 0
    ensures ElapsedNanos(start, end) < 0 ==> us <= 0
  {
    (end.sec - start.sec) * MICROS_PER_SEC + TruncDiv(end.nsec - start.nsec, NANOS_PER_MICRO)
  }

  /** The value `delta_us` holds after the assignment: the signed difference
      converted to `uint64_t`, that is, reduced modulo 2^64. A difference that
      already fits is kept; a negative one wraps to a huge value. */
  function DeltaUs(start: Timespec, end: Timespec): (d: int)
    ensures 0 <= d < U64_MODULUS
    ensures 0 <= ElapsedMicros(start, end) < U64_MODULUS ==> d == ElapsedMicros(start, end)
    ensures -U64_MODULUS <= ElapsedMicros(start, end) < 0 ==> d == ElapsedMicros(start, end) + U64_MODULUS
  {
    ElapsedMicros(start, end) % U64_MODULUS
  }
}
