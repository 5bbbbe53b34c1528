/** The time arithmetic both booking ledgers use.

    A `datetime` is an instant on one naive timeline. Its finest unit is the
    microsecond, so an instant is modelled as a whole number of microseconds,
    and `timedelta(minutes=m)` as `m` minutes' worth of microseconds.
    A booked slot is the `(start, end)` tuple the ledgers store. */
module Timeline {

  /** An instant, in microseconds on one naive timeline. */
  type Instant = int

  const MicrosPerMinute: int := 60_000_000

  /** The length of `timedelta(minutes=m)`, in microseconds. */
  function Minutes(m: int): (d: int)
    ensures d > 0 <==> m > 0
    ensures d % MicrosPerMinute == 0
  {
    m * MicrosPerMinute
  }

  /** The instant `h` o'clock on the day that starts at instant 0. */
  function Hour(h: int): Instant
  {
    h * 60 * MicrosPerMinute
  }

  /** A booked `(start, end)` pair: the half-open interval [start, end). */
  datatype Slot = Slot(start: Instant, end: Instant)

  /** Two slots share no instant. */
  predicate Disjoint(a: Slot, b: Slot)
  {
    a.end <= b.start || b.end <= a.start
  }

  /** The overlap test of the availability scan: the stored slot `booked`
      and the requested interval [requestedStart, requestedEnd) share an
      instant. Touching endpoints do not conflict. */
  predicate Conflicts(booked: Slot, requestedStart: Instant, requestedEnd: Instant)
    ensures Conflicts(booked, requestedStart, requestedEnd)
            <==> !Disjoint(booked, Slot(requestedStart, requestedEnd))
    ensures requestedEnd == booked.start || requestedStart == booked.end
            ==> !Conflicts(booked, requestedStart, requestedEnd)
  {
    booked.start < requestedEnd && requestedStart < booked.end
  }
}
