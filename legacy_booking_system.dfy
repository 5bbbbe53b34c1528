/** The earlier, unvalidated ledger of booking_system.py.

    It stores whatever duration it is given, appends every requested slot
    without any past or overlap check, and hands out its own list object
    from `get_bookings`. The lemmas at the end contrast it with the
    validated ledger of module BookingSystem. */
module LegacyBookingSystem {
  import opened Timeline
  import SlotOrder
  import BookingSystem

  /** A Python list of slots: one mutable object, shared by every holder of
      a reference to it. */
  class SlotList {
    var items: seq<Slot>

    constructor ()
      ensures items == []
    {
      items := [];
    }

    method Append(x: Slot)
      modifies this
      ensures items == old(items) + [x]
    {
      items := items + [x];
    }
  }

  /** The list after the legacy `book_slot(start)`: the slot
      `(start, start + slot_minutes)` added at the end, whatever it is. */
  function Appended(slots: seq<Slot>, slotMinutes: int, start: Instant): (after: seq<Slot>)
    ensures |after| == |slots| + 1
    ensures after[..|slots|] == slots
    ensures after[|slots|].start == start
    ensures after[|slots|].end - after[|slots|].start == Minutes(slotMinutes)
  {
    slots + [Slot(start, start + Minutes(slotMinutes))]
  }

  /** The default of the `slot_minutes` parameter. */
  const DefaultSlotMinutes: int := 30

  class TurfBooking {
    const slotMinutes: int
    const bookedSlots: SlotList

    /** `__init__`: stores the duration as given and starts an empty list. */
    constructor (slotMinutes: int := DefaultSlotMinutes)
      ensures this.slotMinutes == slotMinutes
      ensures fresh(bookedSlots) && bookedSlots.items == []
    {
      this.slotMinutes := slotMinutes;
      bookedSlots := new SlotList();
    }

    /** `book_slot`: appends the slot in place and always reports success. */
    method BookSlot(start: Instant) returns (ok: bool)
      modifies bookedSlots
      ensures ok
      ensures bookedSlots.items == Appended(old(bookedSlots.items), slotMinutes, start)
    {
      var end := start + Minutes(slotMinutes);
      bookedSlots.Append(Slot(start, end));
      return true;
    }

    /** `get_bookings`: the ledger's own list object, not a copy, so its
        entries are in insertion order and a caller that changes it changes
        the ledger. */
    method GetBookings() returns (r: SlotList)
      ensures r == bookedSlots
    {
      return bookedSlots;
    }
  }

  /** Booking one start twice is accepted, whatever the duration, and
      stores two identical entries. */
  lemma DoubleBookingStoresDuplicate(slots: seq<Slot>, slotMinutes: int, start: Instant)
    ensures var twice := Appended(Appended(slots, slotMinutes, start), slotMinutes, start);
            && |twice| == |slots| + 2
            && twice[|slots|] == twice[|slots| + 1] == Slot(start, start + Minutes(slotMinutes))
  {
  }

  /** With a positive duration, that duplicate breaks the invariant the
      validated ledger keeps, and the validated ledger refuses the second
      call, whatever the clock reads at each call: with BookingInPast if the
      clock has passed the start by the second call, SlotUnavailable
      otherwise. */
  lemma DuplicateBreaksValidatedInvariant(
    slots: seq<Slot>, slotMinutes: int, start: Instant, now: Instant, now2: Instant)
    requires slotMinutes > 0
    ensures !BookingSystem.ValidLedger(Appended(Appended(slots, slotMinutes, start), slotMinutes, start),
                                       Minutes(slotMinutes))
    ensures BookingSystem.ValidLedger(slots, Minutes(slotMinutes))
            && BookingSystem.Book(slots, Minutes(slotMinutes), start, now).0.Ok?
            ==> BookingSystem.Book(BookingSystem.Book(slots, Minutes(slotMinutes), start, now).1,
                                   Minutes(slotMinutes), start, now2).0
                == BookingSystem.Err(if start < now2 then BookingSystem.BookingInPast(start)
                                     else BookingSystem.SlotUnavailable(start, start + Minutes(slotMinutes)))
  {
    var twice := Appended(Appended(slots, slotMinutes, start), slotMinutes, start);
    DoubleBookingStoresDuplicate(slots, slotMinutes, start);
    assert !Disjoint(twice[|slots|], twice[|slots| + 1]);
    if BookingSystem.ValidLedger(slots, Minutes(slotMinutes))
       && BookingSystem.Book(slots, Minutes(slotMinutes), start, now).0.Ok? {
      BookingSystem.DoubleBookingFails(slots, Minutes(slotMinutes), start, now, now2);
    }
  }

  /** A duration that is not positive is stored and used: the booked slot
      ends at or before its start, where the validated ledger refuses the
      duration with InvalidSlotDuration. */
  lemma NonPositiveDurationGivesEmptySlot(slots: seq<Slot>, slotMinutes: int, start: Instant)
    requires slotMinutes <= 0
    ensures Appended(slots, slotMinutes, start)[|slots|].end <= start
    ensures !BookingSystem.ValidLedger(slots, Minutes(slotMinutes))
  {
  }

  /** The legacy listing keeps insertion order: booking 09:00 and then 07:00
      lists 09:00 first, where the validated ledger lists 07:00 first. */
  lemma ListingIsUnsorted(slotMinutes: int)
    ensures var listed := Appended(Appended([], slotMinutes, Hour(9)),
                                   slotMinutes, Hour(7));
            && listed[0].start == Hour(9)
            && !SlotOrder.IsSorted(listed)
            && SlotOrder.Sort(listed) == [listed[1], listed[0]]
  {
  }
}
