# Turf booking ledger in Dafny

This project models the turf booking ledger. A ledger books one resource
(a turf) in slots of fixed length and refuses a request that starts in the
past or overlaps a booking it already holds. The repository holds two
versions of the `TurfBooking` class:

- `src/booking_system.py` is the validated ledger (module `BookingSystem`).
  It rejects a slot length that is not positive. `is_slot_available` scans
  the booked list for a half-open overlap. `book_slot` refuses past starts,
  then delegates to the availability check, then appends `(start, end)`.
  `get_bookings` returns a sorted copy.
- `booking_system.py` is the earlier, unvalidated ledger (module
  `LegacyBookingSystem`). It appends every request, always returns `True`,
  and `get_bookings` hands out its own list object.

Time is modelled as whole microseconds on one naive timeline (module
`Timeline`). That is the finest unit of Python's `datetime`, so
`timedelta(minutes=m)` is exactly `m * 60_000_000`. A slot is the
`(start, end)` pair the ledgers store. The wall clock `datetime.now()`
becomes a `now` parameter of `BookSlot`.

Module `SlotOrder` models Python's `sorted` on `(start, end)` tuples. The
tuples compare lexicographically, and it proves that the sorted
permutation of a list is unique. So the insertion sort used here returns
the same list as Python's Timsort.

The validated ledger is stated twice:

- as values: `Book` gives one call's result and the list afterwards, and
  `ValidLedger` is the invariant;
- as the class `TurfBooking`, whose `bookedSlots` field `BookSlot` updates
  in place. `BookSlot` is proved to follow `Book` and to keep the invariant.

The properties are proved as lemmas about `Book`. In the legacy module,
`bookedSlots` is a `SlotList` object rather than a sequence. That is how
the model captures that the legacy `get_bookings` returns the ledger's own
list, so a caller that changes it changes the ledger.

Where the code and its tests disagree, the model follows the code:

- tests/test_error_handling.py:10-16 imports an `InvalidSlotRequestError`
  for requests that are not `datetime` values. No such class exists, and
  the code raises no such error.
- tests/test_error_handling.py:90-91 expects a `SlotUnavailableError` to
  carry `conflicting_slots`, a list of all conflicting bookings. The
  availability check raises at the FIRST overlapping slot, and the exception
  carries only a message built from the requested start and end.
  `SlotUnavailable` therefore carries the requested interval.
- tests/test_error_handling.py:98-100 expects a `BookingInPastError` to carry
  `requested_time` and `current_time`. It carries only a message built from
  the requested start, so `BookingInPast` carries that start.

## Model

| member | source | states |
|---|---|---|
| `Timeline.Minutes` | src/booking_system.py:36 | `timedelta(minutes=m)` in microseconds: positive exactly when `m` is positive, and a whole number of minutes |
| `Timeline.Conflicts` | src/booking_system.py:38 | the overlap test holds exactly when the stored slot and the requested interval are not disjoint; touching endpoints (request ending at the slot's start, or starting at its end) never conflict |
| `SlotOrder.LeTotalOrder` | src/booking_system.py:59 | tuple comparison on `(start, end)` is reflexive, total, antisymmetric and transitive |
| `SlotOrder.Sort` | src/booking_system.py:57-59 | `sorted(...)`: the result is ascending and is a permutation of the input (same multiset, same length) |
| `SlotOrder.SortedPermutationUnique` | src/booking_system.py:59 | two ascending lists with the same elements are equal, so the sorted order does not depend on the sorting algorithm or on the booking order |
| `SlotOrder.SortIsTheSortedPermutation` | src/booking_system.py:59 | any ascending permutation of a list is exactly what `sorted` returns for it |
| `BookingSystem.HasConflict` | src/booking_system.py:37-39 | the scan finds a conflict iff some stored slot, wherever it sits in the list, overlaps the requested interval |
| `BookingSystem.Book` | src/booking_system.py:43-55 | one `book_slot` call succeeds iff the start is not before `now` and nothing stored overlaps `[start, start + slot)`; on success it returns exactly `(start, start + slot)` and appends it at the end; on failure the list is unchanged; a past start fails with BookingInPast (a start equal to `now` is accepted), and any other failure is SlotUnavailable for the requested interval |
| `BookingSystem.HasConflictAppend` | src/booking_system.py:37-39 | the scan over a list with one more slot at the end finds a conflict iff the scan over the old list does or that slot overlaps the request |
| `BookingSystem.HasConflictIgnoresOrder` | src/booking_system.py:37-39 | two lists holding the same slots in any order conflict with exactly the same requests |
| `BookingSystem.BookPreservesValid` | src/booking_system.py:50-54 | booking, successful or not, keeps the invariant: every entry is one slot long and no two entries overlap |
| `BookingSystem.BookBlocksExactlyItsNeighbourhood` | src/booking_system.py:36-39 | after a successful booking at `s`, a request at `t` conflicts iff it conflicted before or `s - slot < t < s + slot`: touching slots on either side stay free, and an overlap of one microsecond conflicts |
| `BookingSystem.BookedStartCannotBeRebooked` | src/booking_system.py:36-39 | in a valid ledger, booking the start of any stored slot fails, with SlotUnavailable unless the start is in the past |
| `BookingSystem.DoubleBookingFails` | src/booking_system.py:43-55 | booking the same start twice in a row, each call with its own clock reading: the second call fails, with BookingInPast if the clock has passed the start by then and SlotUnavailable otherwise, and leaves the list as the first call left it |
| `BookingSystem.BookEachPreservesValid` | src/booking_system.py:43-55 | any sequence of `book_slot` calls, each with its own clock reading, keeps the invariant |
| `BookingSystem.BookAfterEverything` | src/booking_system.py:43-55 | a start not in the past and at or after the end of every stored slot is booked as `(start, start + slot)` and appended |
| `BookingSystem.ConsecutiveBookingsSucceed` | src/booking_system.py:43-55 | `n` back-to-back slots after everything already booked all succeed, as long as the k-th call reads the clock no later than the k-th start; the list grows by `n` and keeps its old prefix; the k-th new entry is `(from + k*slot, from + (k+1)*slot)` and the k-th call returns it |
| `BookingSystem.FullDayOfHalfHourSlots` | tests/test_sequential_and_large_bookings.py:10-16 | with the clock frozen at midnight, 48 consecutive half-hour slots from midnight all succeed, the list has 48 entries, and booking any of those starts again fails |
| `BookingSystem.OutOfOrderBookingsSucceed` | src/booking_system.py:43-55 | with the clock at 06:00 and 30-minute slots, booking 09:00, 07:00 and 08:00 succeeds each time and stores them in call order |
| `BookingSystem.OutOfOrderBookingsListChronologically` | src/booking_system.py:57-59 | the listing of that ledger is 07:00, 08:00, 09:00 |
| `BookingSystem.BookingsAreChronological` | src/booking_system.py:57-59 | the sorted listing of a valid ledger is a timetable: each entry ends no later than any later entry starts |
| `BookingSystem.TurfBooking.constructor` | src/booking_system.py:31-32 | stores the accepted slot length; the list starts empty and the invariant holds |
| `BookingSystem.TurfBooking.Create` | src/booking_system.py:16-32 | `TurfBooking(slot_minutes)` fails with InvalidSlotDuration carrying the value iff it is not positive; otherwise a fresh, empty, valid ledger with that slot length |
| `BookingSystem.TurfBooking.IsSlotAvailable` | src/booking_system.py:34-41 | returns `True` iff no stored slot overlaps `[start, start + slot)`, otherwise fails with SlotUnavailable for that interval; changes nothing |
| `BookingSystem.TurfBooking.BookSlot` | src/booking_system.py:43-55 | the result and the new list are those of `Book` on the old list (so a failure leaves the list unchanged), and the invariant is kept |
| `BookingSystem.TurfBooking.GetBookings` | src/booking_system.py:57-59 | a sorted permutation of the booked list, without changing the ledger; for a valid ledger, entries are chronological and do not overlap |
| `LegacyBookingSystem.SlotList.constructor` | booking_system.py:7 | the list `[]`: starts with no entries |
| `LegacyBookingSystem.SlotList.Append` | booking_system.py:11 | `list.append`: the entry is added at the end of the same list object, earlier entries unchanged |
| `LegacyBookingSystem.Appended` | booking_system.py:9-11 | the list grows by exactly one, earlier entries are unchanged, and the new entry starts at `start` and lasts `slot_minutes` |
| `LegacyBookingSystem.TurfBooking.constructor` | booking_system.py:5-7 | stores the slot length with no validation and starts with a fresh, empty list |
| `LegacyBookingSystem.TurfBooking.BookSlot` | booking_system.py:9-12 | appends `(start, start + slot_minutes)` in place with no past or overlap check, and always returns `True` |
| `LegacyBookingSystem.TurfBooking.GetBookings` | booking_system.py:14-15 | returns the ledger's own list object, in insertion order, not a copy |
| `LegacyBookingSystem.DoubleBookingStoresDuplicate` | booking_system.py:9-12 | booking a start twice, with any duration, stores two identical entries `(start, start + slot_minutes)` |
| `LegacyBookingSystem.DuplicateBreaksValidatedInvariant` | booking_system.py:9-12 | with a positive duration those duplicates break the validated ledger's invariant, and the validated ledger refuses that second call at any clock readings: BookingInPast if the clock has passed the start by then, SlotUnavailable otherwise |
| `LegacyBookingSystem.NonPositiveDurationGivesEmptySlot` | booking_system.py:5-11 | a slot length that is not positive is accepted, and the stored slot ends at or before its start |
| `LegacyBookingSystem.ListingIsUnsorted` | booking_system.py:14-15 | for any duration, booking 09:00 and then 07:00 lists 09:00 first, while the sorted listing puts 07:00 first |

## Left out

- The wall clock `datetime.now()` is left out. The test suite fixes it with `freeze_time`, and the model passes it to `BookSlot` as `now`.
- Timeline.Minutes: does not model the bounded range of `timedelta` (at most 999,999,999 days). A huge `slot_minutes`, such as `2 * 10**12`, passes the positivity check at src/booking_system.py:27. After that, every `is_slot_available` call, and every `book_slot` call whose start is not in the past, raises `OverflowError` at src/booking_system.py:36. The model computes the end instead.
- BookingSystem.Book: does not model the bounded range of `datetime` (years 1 to 9999). A start whose end falls after the last representable instant, such as 9999-12-31 23:45 with 30-minute slots, raises `OverflowError` at src/booking_system.py:36, reached from `book_slot` through :50. `Book` and `TurfBooking.BookSlot` return the slot instead, and `TurfBooking.IsSlotAvailable` returns `Ok(true)` or SlotUnavailable, because instants are unbounded integers.
- LegacyBookingSystem.Appended: does not model the same `OverflowError` at booking_system.py:10. `TurfBooking.BookSlot` appends and returns `True` for any start and duration.
- Calendar details of `datetime` are left out: dates, midnight crossings and time zones. An instant is an integer count of microseconds. Comparing zone-aware and naive values is not modelled.
- The `isinstance(slot_minutes, int)` half of the duration check is left out. A non-integer duration such as `30.5` cannot be passed to an `int` parameter. Python's `True`, which counts as the integer 1, is not modelled either.
- Runtime type errors for requests that are not `datetime` values are left out, since static types rule them out.
- Exception message text is left out. Each error carries only the values its message is formatted from.
- The legacy `slot_minutes` can be any Python value. The model takes an `int`.
- Aliasing of the validated ledger's list is not modelled. That list never leaves the object, because `get_bookings` copies it, so `bookedSlots` is a sequence value.
- Concurrency is left out. The code has no locking, and every operation is modelled as one sequential step.
