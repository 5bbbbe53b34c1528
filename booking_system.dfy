/** The validated turf booking ledger of src/booking_system.py.

    A ledger has a slot length fixed at construction and a list of booked
    `(start, end)` slots. Booking a start appends `[start, start + slot)`
    unless the start is in the past or the interval overlaps a stored one.
    The specification functions below (`HasConflict`, `Book`, `ValidLedger`)
    describe the list as a value; the class `TurfBooking` updates it in place
    and is proved to follow them. */
module BookingSystem {
  import opened Timeline
  import SlotOrder

  /** The three exception classes. Each carries the values its message is
      formatted from. */
  datatype Error =
    | SlotUnavailable(requestedStart: Instant, requestedEnd: Instant)
    | BookingInPast(requestedStart: Instant)
    | InvalidSlotDuration(slotMinutes: int)

  /** A value, or the exception raised instead. */
  datatype Result<T> = Ok(value: T) | Err(error: Error)

  /** The default of the `slot_minutes` parameter. */
  const DefaultSlotMinutes: int := 30

  /** Some stored slot overlaps the requested interval. Only which slots
      are stored matters, not their order (`HasConflictIgnoresOrder`). */
  predicate HasConflict(slots: seq<Slot>, requestedStart: Instant, requestedEnd: Instant)
    ensures HasConflict(slots, requestedStart, requestedEnd)
            <==> exists b :: b in slots && Conflicts(b, requestedStart, requestedEnd)
  {
    exists i :: 0 <= i < |slots| && Conflicts(slots[i], requestedStart, requestedEnd)
  }

  /** Appending a slot adds its own conflicts and no others. */
  lemma HasConflictAppend(slots: seq<Slot>, x: Slot, requestedStart: Instant, requestedEnd: Instant)
    ensures HasConflict(slots + [x], requestedStart, requestedEnd)
            <==> HasConflict(slots, requestedStart, requestedEnd) || Conflicts(x, requestedStart, requestedEnd)
  {
    var grown := slots + [x];
    if HasConflict(grown, requestedStart, requestedEnd) {
      var i :| 0 <= i < |grown| && Conflicts(grown[i], requestedStart, requestedEnd);
      if i < |slots| {
        assert grown[i] == slots[i];
      }
    }
    if HasConflict(slots, requestedStart, requestedEnd) {
      var i :| 0 <= i < |slots| && Conflicts(slots[i], requestedStart, requestedEnd);
      assert grown[i] == slots[i];
    }
    assert grown[|slots|] == x;
  }

  /** Two lists holding the same slots, in any order, conflict with the same
      requests. */
  lemma HasConflictIgnoresOrder(s: seq<Slot>, t: seq<Slot>, requestedStart: Instant, requestedEnd: Instant)
    requires multiset(s) == multiset(t)
    ensures HasConflict(s, requestedStart, requestedEnd) <==> HasConflict(t, requestedStart, requestedEnd)
  {
    if HasConflict(s, requestedStart, requestedEnd) {
      var i :| 0 <= i < |s| && Conflicts(s[i], requestedStart, requestedEnd);
      assert s[i] in multiset(t);
    }
    if HasConflict(t, requestedStart, requestedEnd) {
      var i :| 0 <= i < |t| && Conflicts(t[i], requestedStart, requestedEnd);
      assert t[i] in multiset(s);
    }
  }

  /** No two slots of the list overlap. */
  predicate PairwiseDisjoint(s: seq<Slot>)
  {
    forall i, j :: 0 <= i < j < |s| ==> Disjoint(s[i], s[j])
  }

  /** The ledger invariant: the slot length is positive, every stored slot is
      exactly one slot long, and no two stored slots overlap. */
  ghost predicate ValidLedger(slots: seq<Slot>, slotLength: int)
  {
    && slotLength > 0
    && (forall i :: 0 <= i < |slots| ==> slots[i].end == slots[i].start + slotLength)
    && PairwiseDisjoint(slots)
  }

  /** One call of `book_slot` on the list `slots` at clock reading `now`:
      the result (the booked pair or the exception) and the list afterwards. */
  function Book(slots: seq<Slot>, slotLength: int, requestedStart: Instant, now: Instant)
    : (out: (Result<Slot>, seq<Slot>))
    ensures out.0.Ok? <==> now <= requestedStart && !HasConflict(slots, requestedStart, requestedStart + slotLength)
    ensures out.0.Ok? ==> out.0.value == Slot(requestedStart, requestedStart + slotLength)
    ensures out.0.Ok? ==> out.1 == slots + [out.0.value]
    ensures out.0.Err? ==> out.1 == slots
    ensures requestedStart < now ==> out.0 == Err(BookingInPast(requestedStart))
    ensures now <= requestedStart && out.0.Err? ==>
              out.0 == Err(SlotUnavailable(requestedStart, requestedStart + slotLength))
  {
    var requestedEnd := requestedStart + slotLength;
    if requestedStart < now then
      (Err(BookingInPast(requestedStart)), slots)
    else if HasConflict(slots, requestedStart, requestedEnd) then
      (Err(SlotUnavailable(requestedStart, requestedEnd)), slots)
    else
      (Ok(Slot(requestedStart, requestedEnd)), slots + [Slot(requestedStart, requestedEnd)])
  }

  /** Booking keeps the ledger invariant, whether it succeeds or fails. */
  lemma BookPreservesValid(slots: seq<Slot>, slotLength: int, requestedStart: Instant, now: Instant)
    requires ValidLedger(slots, slotLength)
    ensures ValidLedger(Book(slots, slotLength, requestedStart, now).1, slotLength)
  {
    var (r, after) := Book(slots, slotLength, requestedStart, now);
    if r.Ok? {
      forall i, j | 0 <= i < j < |after|
        ensures Disjoint(after[i], after[j])
      {
        if j == |slots| {
          assert !Conflicts(slots[i], r.value.start, r.value.end);
        } else {
          assert after[i] == slots[i] && after[j] == slots[j];
        }
      }
    }
  }

  /** A successful booking changes availability exactly around itself: a
      later request conflicts afterwards iff it conflicted before or starts
      less than one slot away from the new booking. So the slot that touches
      it on either side stays free, and one that overlaps it by a single
      microsecond does not. */
  lemma BookBlocksExactlyItsNeighbourhood(
    slots: seq<Slot>, slotLength: int, requestedStart: Instant, now: Instant, t: Instant)
    requires slotLength > 0
    requires Book(slots, slotLength, requestedStart, now).0.Ok?
    ensures HasConflict(Book(slots, slotLength, requestedStart, now).1, t, t + slotLength)
        <==> HasConflict(slots, t, t + slotLength)
             || (requestedStart - slotLength < t && t < requestedStart + slotLength)
  {
    HasConflictAppend(slots, Slot(requestedStart, requestedStart + slotLength), t, t + slotLength);
  }

  /** A start that is already booked cannot be booked again: the request
      fails (as a conflict unless it is in the past) and the list stays. */
  lemma BookedStartCannotBeRebooked(slots: seq<Slot>, slotLength: int, i: int, now: Instant)
    requires ValidLedger(slots, slotLength)
    requires 0 <= i < |slots|
    ensures Book(slots, slotLength, slots[i].start, now).0.Err?
    ensures now <= slots[i].start ==>
              Book(slots, slotLength, slots[i].start, now).0
              == Err(SlotUnavailable(slots[i].start, slots[i].start + slotLength))
  {
  }

  /** Booking the same start twice in a row, the first call reading the
      clock as `now` and the second as `now2`: the second call fails, with
      BookingInPast if the clock has passed the start by then and with
      SlotUnavailable otherwise, and leaves the list as the first call left
      it. */
  lemma DoubleBookingFails(slots: seq<Slot>, slotLength: int, start: Instant, now: Instant, now2: Instant)
    requires ValidLedger(slots, slotLength)
    requires Book(slots, slotLength, start, now).0.Ok?
    ensures Book(Book(slots, slotLength, start, now).1, slotLength, start, now2)
            == (Err(if start < now2 then BookingInPast(start) else SlotUnavailable(start, start + slotLength)),
                Book(slots, slotLength, start, now).1)
  {
    var after := Book(slots, slotLength, start, now).1;
    BookPreservesValid(slots, slotLength, start, now);
    BookedStartCannotBeRebooked(after, slotLength, |slots|, now2);
  }

  /** A caller's sequence of `book_slot` calls, in order: the k-th call
      books `starts[k]` and reads the clock as `nows[k]`. Every result, and
      the list after the last call. */
  function BookEach(slots: seq<Slot>, slotLength: int, starts: seq<Instant>, nows: seq<Instant>)
    : (out: (seq<Result<Slot>>, seq<Slot>))
    requires |nows| == |starts|
    ensures |out.0| == |starts|
    decreases |starts|
  {
    if starts == [] then ([], slots)
    else
      var (r, next) := Book(slots, slotLength, starts[0], nows[0]);
      var (rs, last) := BookEach(next, slotLength, starts[1..], nows[1..]);
      ([r] + rs, last)
  }

  /** The first call of a sequence of booking calls, then the rest. */
  lemma BookEachStep(
    slots: seq<Slot>, slotLength: int, first: Instant, rest: seq<Instant>, firstNow: Instant, restNows: seq<Instant>)
    requires |restNows| == |rest|
    ensures BookEach(slots, slotLength, [first] + rest, [firstNow] + restNows)
            == ([Book(slots, slotLength, first, firstNow).0]
                  + BookEach(Book(slots, slotLength, first, firstNow).1, slotLength, rest, restNows).0,
                BookEach(Book(slots, slotLength, first, firstNow).1, slotLength, rest, restNows).1)
  {
    assert ([first] + rest)[1..] == rest && ([firstNow] + restNows)[1..] == restNows;
  }

  /** Any sequence of booking calls, at any clock readings, keeps the ledger
      invariant. */
  lemma {:induction false} BookEachPreservesValid(
    slots: seq<Slot>, slotLength: int, starts: seq<Instant>, nows: seq<Instant>)
    requires ValidLedger(slots, slotLength)
    requires |nows| == |starts|
    ensures ValidLedger(BookEach(slots, slotLength, starts, nows).1, slotLength)
    decreases |starts|
  {
    if starts != [] {
      BookPreservesValid(slots, slotLength, starts[0], nows[0]);
      BookEachPreservesValid(Book(slots, slotLength, starts[0], nows[0]).1, slotLength, starts[1..], nows[1..]);
    }
  }

  /** The `n` back-to-back slot starts `from`, `from + slot`, ... */
  function Consecutive(from: Instant, slotLength: int, n: nat): (starts: seq<Instant>)
    ensures |starts| == n
    decreases n
  {
    if n == 0 then [] else [from] + Consecutive(from + slotLength, slotLength, n - 1)
  }

  /** Every stored slot ends by `t`. */
  predicate EndsBy(slots: seq<Slot>, t: Instant)
  {
    forall i :: 0 <= i < |slots| ==> slots[i].end <= t
  }

  /** A start at or after the end of every stored slot, and not in the
      past, is booked. */
  lemma BookAfterEverything(slots: seq<Slot>, slotLength: int, from: Instant, now: Instant)
    requires slotLength > 0 && EndsBy(slots, from) && now <= from
    ensures Book(slots, slotLength, from, now)
            == (Ok(Slot(from, from + slotLength)), slots + [Slot(from, from + slotLength)])
    ensures EndsBy(slots + [Slot(from, from + slotLength)], from + slotLength)
  {
    assert !HasConflict(slots, from, from + slotLength);
  }

  /** Booking `n` back-to-back slots after everything already booked
      succeeds every time, provided no call reads the clock after the start
      it books: the list grows by `n`, the k-th new entry is the k-th slot
      after `from`, and the k-th call returns it (48 half-hour slots fill a
      day). */
  lemma {:induction false} ConsecutiveBookingsSucceed(
    slots: seq<Slot>, slotLength: int, from: Instant, n: nat, nows: seq<Instant>)
    requires slotLength > 0 && EndsBy(slots, from)
    requires |nows| == n && forall k :: 0 <= k < n ==> nows[k] <= from + k * slotLength
    ensures var (rs, after) := BookEach(slots, slotLength, Consecutive(from, slotLength, n), nows);
            && |after| == |slots| + n
            && after[..|slots|] == slots
            && (forall k :: 0 <= k < n ==>
                  after[|slots| + k] == Slot(from + k * slotLength, from + (k + 1) * slotLength))
            && forall k :: 0 <= k < n ==> rs[k] == Ok(after[|slots| + k])
    decreases n
  {
    if n > 0 {
      var starts := Consecutive(from, slotLength, n);
      assert starts[0] == from && starts[1..] == Consecutive(from + slotLength, slotLength, n - 1);
      assert nows[0] <= from + 0 * slotLength;
      BookAfterEverything(slots, slotLength, from, nows[0]);
      var x := Slot(from, from + slotLength);
      var next := slots + [x];
      ClockBoundHoldsForRest(nows, from, slotLength);
      ConsecutiveBookingsSucceed(next, slotLength, from + slotLength, n - 1, nows[1..]);
      var (rs, after) := BookEach(next, slotLength, starts[1..], nows[1..]);
      assert starts == [from] + starts[1..] && nows == [nows[0]] + nows[1..];
      BookEachStep(slots, slotLength, from, starts[1..], nows[0], nows[1..]);
      ExtendedResults(slots, x, rs, after);
      ShiftedEntries(after, |slots|, from, slotLength, n - 1);
    }
  }

  /** If the k-th clock reading is at most the k-th slot start after `from`,
      the same holds for the calls after the first, counted from the next
      slot. */
  lemma ClockBoundHoldsForRest(nows: seq<Instant>, from: Instant, slotLength: int)
    requires |nows| > 0 && forall k :: 0 <= k < |nows| ==> nows[k] <= from + k * slotLength
    ensures forall k :: 0 <= k < |nows| - 1 ==> nows[1..][k] <= (from + slotLength) + k * slotLength
  {
    forall k | 0 <= k < |nows| - 1
      ensures nows[1..][k] <= (from + slotLength) + k * slotLength
    {
      assert nows[1..][k] == nows[k + 1] <= from + (k + 1) * slotLength;
      assert (k + 1) * slotLength == k * slotLength + slotLength;
    }
  }

  /** The slot `(from, from + slot)` at `base`, followed by `m` back-to-back
      slots from `from + slot`, are `m + 1` back-to-back slots from `from`. */
  lemma ShiftedEntries(after: seq<Slot>, base: nat, from: Instant, slotLength: int, m: nat)
    requires base + 1 + m <= |after|
    requires after[base] == Slot(from, from + slotLength)
    requires forall k :: 0 <= k < m ==>
               after[base + 1 + k] == Slot((from + slotLength) + k * slotLength, (from + slotLength) + (k + 1) * slotLength)
    ensures forall k :: 0 <= k < m + 1 ==>
              after[base + k] == Slot(from + k * slotLength, from + (k + 1) * slotLength)
  {
    forall k | 0 <= k < m + 1
      ensures after[base + k] == Slot(from + k * slotLength, from + (k + 1) * slotLength)
    {
      if k == 0 {
        assert 0 * slotLength == 0 && 1 * slotLength == slotLength;
      } else {
        assert after[base + 1 + (k - 1)] == Slot((from + slotLength) + (k - 1) * slotLength,
                                                 (from + slotLength) + k * slotLength);
        assert (k - 1) * slotLength + slotLength == k * slotLength;
        assert k * slotLength + slotLength == (k + 1) * slotLength;
      }
    }
  }

  /** Results `[Ok(x)] + rs` of calls that grew `slots` by `x` and then to
      `after`, each of the later results being the entry it appended, are
      each the entry they appended. */
  lemma ExtendedResults(slots: seq<Slot>, x: Slot, rs: seq<Result<Slot>>, after: seq<Slot>)
    requires |after| == |slots| + 1 + |rs| && after[..|slots| + 1] == slots + [x]
    requires forall k :: 0 <= k < |rs| ==> rs[k] == Ok(after[|slots| + 1 + k])
    ensures after[..|slots|] == slots
    ensures after[|slots|] == x
    ensures forall k :: 0 <= k < 1 + |rs| ==> ([Ok(x)] + rs)[k] == Ok(after[|slots| + k])
  {
    assert after[..|slots|] == after[..|slots| + 1][..|slots|];
    assert after[|slots|] == after[..|slots| + 1][|slots|];
    forall k | 0 < k < 1 + |rs|
      ensures ([Ok(x)] + rs)[k] == Ok(after[|slots| + k])
    {
      assert rs[k - 1] == Ok(after[|slots| + 1 + (k - 1)]);
    }
  }

  /** The clock frozen at `t` for `n` calls. */
  function Frozen(t: Instant, n: nat): (nows: seq<Instant>)
    ensures |nows| == n && forall k :: 0 <= k < n ==> nows[k] == t
  {
    seq(n, _ => t)
  }

  /** A full day of half-hour slots from midnight, with the clock frozen at
      midnight: all 48 calls succeed, and booking any of those starts once
      more fails. */
  lemma FullDayOfHalfHourSlots(midnight: Instant, k: nat)
    requires k < 48
    ensures var (rs, day) := BookEach([], Minutes(30), Consecutive(midnight, Minutes(30), 48), Frozen(midnight, 48));
            && |day| == 48
            && (forall i :: 0 <= i < 48 ==> rs[i].Ok?)
            && Book(day, Minutes(30), day[k].start, midnight).0.Err?
  {
    var starts := Consecutive(midnight, Minutes(30), 48);
    ConsecutiveBookingsSucceed([], Minutes(30), midnight, 48, Frozen(midnight, 48));
    BookEachPreservesValid([], Minutes(30), starts, Frozen(midnight, 48));
    var day := BookEach([], Minutes(30), starts, Frozen(midnight, 48)).1;
    BookedStartCannotBeRebooked(day, Minutes(30), k, midnight);
  }

  /** With 30-minute slots and the clock at 06:00, booking 09:00, then
      07:00, then 08:00 succeeds each time, in that order. */
  lemma OutOfOrderBookingsSucceed()
    ensures BookEach([], Minutes(30), [Hour(9), Hour(7), Hour(8)], [Hour(6), Hour(6), Hour(6)])
            == ([Ok(HalfHourAt(9)), Ok(HalfHourAt(7)), Ok(HalfHourAt(8))],
                [HalfHourAt(9), HalfHourAt(7), HalfHourAt(8)])
  {
    var len, now := Minutes(30), Hour(6);
    var s9, s7, s8 := HalfHourAt(9), HalfHourAt(7), HalfHourAt(8);
    assert [] + [s9] == [s9] && [s9] + [s7] == [s9, s7] && [s9, s7] + [s8] == [s9, s7, s8];
    assert Book([], len, Hour(9), now) == (Ok(s9), [s9]);
    assert Book([s9], len, Hour(7), now) == (Ok(s7), [s9, s7]);
    assert Book([s9, s7], len, Hour(8), now) == (Ok(s8), [s9, s7, s8]);
    var r9, r7, r8: Result<Slot> := Ok(s9), Ok(s7), Ok(s8);
    assert [r8] + [] == [r8] && [r7] + [r8] == [r7, r8] && [r9] + [r7, r8] == [r9, r7, r8];
    assert BookEach([s9, s7, s8], len, [], []) == ([], [s9, s7, s8]);
    assert [Hour(8)] == [Hour(8)] + [] && [now] == [now] + [];
    BookEachStep([s9, s7], len, Hour(8), [], now, []);
    var third := BookEach([s9, s7], len, [Hour(8)], [now]);
    assert third == ([Ok(s8)], [s9, s7, s8]);
    assert [Hour(7), Hour(8)] == [Hour(7)] + [Hour(8)] && [now, now] == [now] + [now];
    BookEachStep([s9], len, Hour(7), [Hour(8)], now, [now]);
    var second := BookEach([s9], len, [Hour(7), Hour(8)], [now, now]);
    assert second == ([Ok(s7), Ok(s8)], [s9, s7, s8]);
    assert [Hour(9), Hour(7), Hour(8)] == [Hour(9)] + [Hour(7), Hour(8)] && [now, now, now] == [now] + [now, now];
    BookEachStep([], len, Hour(9), [Hour(7), Hour(8)], now, [now, now]);
  }

  /** The listing of the ledger booked in that order is 07:00, 08:00, 09:00. */
  lemma OutOfOrderBookingsListChronologically()
    ensures SlotOrder.Sort(BookEach([], Minutes(30), [Hour(9), Hour(7), Hour(8)], [Hour(6), Hour(6), Hour(6)]).1)
            == [HalfHourAt(7), HalfHourAt(8), HalfHourAt(9)]
  {
    OutOfOrderBookingsSucceed();
    SlotOrder.SortIsTheSortedPermutation([HalfHourAt(9), HalfHourAt(7), HalfHourAt(8)],
                                         [HalfHourAt(7), HalfHourAt(8), HalfHourAt(9)]);
  }

  /** The 30-minute slot that starts at `h` o'clock. */
  function HalfHourAt(h: int): Slot
  {
    Slot(Hour(h), Hour(h) + Minutes(30))
  }

  /** The listing of a valid ledger is a timetable: each booking ends no
      later than the next one starts. */
  lemma BookingsAreChronological(slots: seq<Slot>, slotLength: int)
    requires ValidLedger(slots, slotLength)
    ensures forall i, j :: 0 <= i < j < |SlotOrder.Sort(slots)| ==>
              SlotOrder.Sort(slots)[i].end <= SlotOrder.Sort(slots)[j].start
  {
    var r := SlotOrder.Sort(slots);
    SortKeepsDisjoint(slots);
    forall i, j | 0 <= i < j < |r|
      ensures r[i].end <= r[j].start
    {
      assert r[i] in multiset(slots) && r[j] in multiset(slots);
      assert SlotOrder.Le(r[i], r[j]);
      assert Disjoint(r[i], r[j]);
    }
  }

  /** Inserting a slot that overlaps none of a sorted list's slots keeps
      the list's slots pairwise disjoint. */
  lemma {:induction false} InsertKeepsDisjoint(x: Slot, s: seq<Slot>)
    requires SlotOrder.IsSorted(s) && PairwiseDisjoint(s)
    requires forall k :: 0 <= k < |s| ==> Disjoint(x, s[k])
    ensures PairwiseDisjoint(SlotOrder.Insert(x, s))
  {
    if s != [] && !SlotOrder.Le(x, s[0]) {
      InsertKeepsDisjoint(x, s[1..]);
      var rest := SlotOrder.Insert(x, s[1..]);
      assert s == [s[0]] + s[1..];
      forall k | 0 <= k < |rest|
        ensures Disjoint(s[0], rest[k])
      {
        assert rest[k] in multiset(s[1..]) + multiset{x};
        if rest[k] != x {
          var m :| 0 <= m < |s[1..]| && s[1..][m] == rest[k];
          assert s[1 + m] == rest[k];
        }
      }
    }
  }

  /** Sorting keeps a list's slots pairwise disjoint. */
  lemma {:induction false} SortKeepsDisjoint(s: seq<Slot>)
    requires PairwiseDisjoint(s)
    ensures PairwiseDisjoint(SlotOrder.Sort(s))
  {
    if s != [] {
      SortKeepsDisjoint(s[1..]);
      var rest := SlotOrder.Sort(s[1..]);
      forall k | 0 <= k < |rest|
        ensures Disjoint(s[0], rest[k])
      {
        assert rest[k] in multiset(s[1..]);
        var m :| 0 <= m < |s[1..]| && s[1..][m] == rest[k];
        assert s[1 + m] == rest[k];
      }
      InsertKeepsDisjoint(s[0], rest);
    }
  }

  /** The ledger object. `slotMinutes` is set once; `bookedSlots` is the
      list that `BookSlot` appends to in place. */
  class TurfBooking {
    const slotMinutes: int
    var bookedSlots: seq<Slot>

    ghost predicate Valid()
      reads this
    {
      ValidLedger(bookedSlots, Minutes(slotMinutes))
    }

    /** The assignments of `__init__`, once the duration has been accepted. */
    constructor (slotMinutes: int)
      requires slotMinutes > 0
      ensures Valid()
      ensures this.slotMinutes == slotMinutes && bookedSlots == []
    {
      this.slotMinutes := slotMinutes;
      bookedSlots := [];
    }

    /** `TurfBooking(slot_minutes)`: refuses a duration that is not positive
        with InvalidSlotDuration, otherwise returns an empty ledger. */
    static method Create(slotMinutes: int := DefaultSlotMinutes) returns (r: Result<TurfBooking>)
      ensures r.Ok? <==> slotMinutes > 0
      ensures r.Err? ==> r.error == InvalidSlotDuration(slotMinutes)
      ensures r.Ok? ==> && fresh(r.value) && r.value.Valid()
                        && r.value.slotMinutes == slotMinutes && r.value.bookedSlots == []
    {
      if slotMinutes <= 0 {
        return Err(InvalidSlotDuration(slotMinutes));
      }
      var ledger := new TurfBooking(slotMinutes);
      return Ok(ledger);
    }

    /** `is_slot_available`: scans the list in order and stops at the first
        stored slot that overlaps [requestedStart, requestedStart + slot). */
    method IsSlotAvailable(requestedStart: Instant) returns (r: Result<bool>)
      ensures r.Ok? <==> !HasConflict(bookedSlots, requestedStart, requestedStart + Minutes(slotMinutes))
      ensures r.Ok? ==> r.value
      ensures r.Err? ==> r.error == SlotUnavailable(requestedStart, requestedStart + Minutes(slotMinutes))
    {
      var requestedEnd := requestedStart + Minutes(slotMinutes);
      for i := 0 to |bookedSlots|
        invariant forall j :: 0 <= j < i ==> !Conflicts(bookedSlots[j], requestedStart, requestedEnd)
      {
        if Conflicts(bookedSlots[i], requestedStart, requestedEnd) {
          return Err(SlotUnavailable(requestedStart, requestedEnd));
        }
      }
      return Ok(true);
    }

    /** `book_slot`, with the clock reading `now` passed in: refuses a start
        before `now`, then a conflicting one, then appends the new slot. */
    method BookSlot(requestedStart: Instant, now: Instant) returns (r: Result<Slot>)
      requires Valid()
      modifies this
      ensures Valid()
      ensures (r, bookedSlots) == Book(old(bookedSlots), Minutes(slotMinutes), requestedStart, now)
    {
      if requestedStart < now {
        return Err(BookingInPast(requestedStart));
      }
      var available := IsSlotAvailable(requestedStart);
      if available.Err? {
        return Err(available.error);
      }
      BookPreservesValid(bookedSlots, Minutes(slotMinutes), requestedStart, now);
      var requestedEnd := requestedStart + Minutes(slotMinutes);
      bookedSlots := bookedSlots + [Slot(requestedStart, requestedEnd)];
      return Ok(Slot(requestedStart, requestedEnd));
    }

    /** `get_bookings`: a sorted copy of the list; the ledger is untouched.
        For a valid ledger the copy is a timetable. */
    function GetBookings(): (r: seq<Slot>)
      reads this
      ensures SlotOrder.IsSorted(r)
      ensures multiset(r) == multiset(bookedSlots)
      ensures Valid() ==> forall i, j :: 0 <= i < j < |r| ==> r[i].end <= r[j].start
    {
      var r := SlotOrder.Sort(bookedSlots);
      assert Valid() ==> forall i, j :: 0 <= i < j < |r| ==> r[i].end <= r[j].start by {
        if Valid() {
          BookingsAreChronological(bookedSlots, Minutes(slotMinutes));
        }
      }
      r
    }
  }
}
