/**
 `t1_get_timespec_difference`: the difference of two `timespec` values,
 subtracting the nanosecond fields and borrowing a second when they go
 negative.
 */
module Timespec {

  /** `t1_NANOSECONDS_IN_A_SECOND` */
  const NANOS_PER_SECOND: int := 1_000_000_000

  /** A C `timespec`: whole seconds and nanoseconds. */
  datatype Timespec = Timespec(sec: int, nsec: int)

  /** The nanosecond field is in its canonical range [0, 1e9). */
  predicate Normalized(t: Timespec)
  {
    0 <= t.nsec < NANOS_PER_SECOND
  }

  /** The instant a timespec denotes, in nanoseconds. */
  function TotalNanos(t: Timespec): (r: int)
  {
    t.sec * NANOS_PER_SECOND + t.nsec
  }

  /**
   `t1_get_timespec_difference(start, end, out)`: subtract field by field and
   borrow one second when the nanosecond difference is negative. The result
   always denotes end - start; for canonical inputs it is canonical too.
   */
  function Difference(start: Timespec, end: Timespec): (out: Timespec)
    ensures TotalNanos(out) == TotalNanos(end) - TotalNanos(start)
    ensures Normalized(start) && Normalized(end) ==> Normalized(out)
  {
    var diff := end.nsec - start.nsec;
    if diff < 0 then
      Timespec(end.sec - start.sec - 1, NANOS_PER_SECOND + diff)
    else
      Timespec(end.sec - start.sec, diff)
  }

  /** The canonical timespec of a nanosecond count (floor division). */
  function FromNanos(n: int): (t: Timespec)
    ensures Normalized(t) && TotalNanos(t) == n
  {
    Timespec(n / NANOS_PER_SECOND, n % NANOS_PER_SECOND)
  }

  /** A canonical timespec is determined by the instant it denotes. */
  lemma NormalizedUnique(a: Timespec, b: Timespec)
    requires Normalized(a) && Normalized(b) && TotalNanos(a) == TotalNanos(b)
    ensures a == b
  {
  }

  /**
   For canonical inputs the difference is exactly the canonical form of the
   elapsed nanoseconds, whichever way the borrow went.
   */
  lemma DifferenceIsCanonical(start: Timespec, end: Timespec)
    requires Normalized(start) && Normalized(end)
    ensures Difference(start, end) == FromNanos(TotalNanos(end) - TotalNanos(start))
  {
    NormalizedUnique(Difference(start, end), FromNanos(TotalNanos(end) - TotalNanos(start)));
  }

  /**
   For canonical inputs the seconds field carries the sign of the elapsed
   time: it is negative exactly when `end` is before `start`, and the
   difference is zero exactly when the two are the same instant.
   */
  lemma DifferenceSignFollowsOrder(start: Timespec, end: Timespec)
    requires Normalized(start) && Normalized(end)
    ensures Difference(start, end).sec < 0 <==> TotalNanos(end) < TotalNanos(start)
    ensures Difference(start, end) == Timespec(0, 0) <==> start == end
  {
    if TotalNanos(end) == TotalNanos(start) {
      NormalizedUnique(start, end);
    }
  }
}
