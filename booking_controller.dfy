/** The booking endpoint as the controller runs it: two queries over the
    live bookings table, then one insert into it. The tables are fields of
    the controller object, and each call is one atomic step on them. */
module Bookings {
  import opened Admission

  class BookingController {
    /** Capacity of each event, by event id. */
    var events: map<int, nat>
    /** Ids of the attendees. */
    var attendees: set<int>
    /** The bookings table, in insertion order. */
    var bookings: seq<Booking>
    /** The id the next inserted booking receives (auto-increment). */
    var nextId: nat

    /** The current tables as a value. */
    function Snapshot(): Tables
      reads this
    {
      Tables(events, attendees, bookings, nextId)
    }

    ghost predicate Valid()
      reads this
    {
      WellFormed(Snapshot())
    }

    /** Tables holding the given events and attendees and no bookings yet;
        every capacity passed event validation, so it is at least 1. */
    constructor (events: map<int, nat>, attendees: set<int>)
      requires forall e :: e in events ==> events[e] >= 1
      ensures Valid()
      ensures Snapshot() == Tables(events, attendees, [], 1)
      ensures Consistent(Snapshot())
    {
      this.events := events;
      this.attendees := attendees;
      this.bookings := [];
      this.nextId := 1;
    }

    /** `Booking::create`: appends one row with the next id, checking nothing. */
    method Insert(e: int, a: int) returns (b: Booking)
      requires Valid()
      modifies this
      ensures Valid()
      ensures b == Booking(old(nextId), e, a)
      ensures bookings == old(bookings) + [b] && nextId == old(nextId) + 1
      ensures events == old(events) && attendees == old(attendees)
    {
      b := Booking(nextId, e, a);
      assert forall i :: 0 <= i < |bookings| ==> (bookings + [b])[i] == bookings[i];
      bookings := bookings + [b];
      nextId := nextId + 1;
    }

    /** `store`: admit attendee `a` to event `e`, or say why not. */
    method RequestBooking(e: int, a: int) returns (r: Result)
      requires Valid()
      modifies this
      ensures Valid()
      ensures r == Decide(old(Snapshot()), e, a)
      ensures Snapshot() == Apply(old(Snapshot()), e, a)
      ensures r == NotFound <==> e !in old(events) || a !in old(attendees)
      ensures r == AlreadyBooked <==>
        e in old(events) && a in old(attendees) && IsBooked(old(bookings), e, a)
      ensures r == CapacityExceeded <==>
        e in old(events) && a in old(attendees) && !IsBooked(old(bookings), e, a) &&
        CountFor(old(bookings), e) >= old(events)[e]
      ensures !r.Ok? ==> unchanged(this)
      ensures r.Ok? ==>
        (r.booking == Booking(old(nextId), e, a) &&
         bookings == old(bookings) + [r.booking] && nextId == old(nextId) + 1)
      ensures events == old(events) && attendees == old(attendees)
      ensures old(Consistent(Snapshot())) ==> Consistent(Snapshot())
    {
      ApplyPreservesConsistency(Snapshot(), e, a);
      if e !in events || a !in attendees {
        return NotFound;
      }
      var alreadyBooked := IsBooked(bookings, e, a);
      if alreadyBooked {
        return AlreadyBooked;
      }
      var currentBookings := CountFor(bookings, e);
      if currentBookings >= events[e] {
        return CapacityExceeded;
      }
      var b := Insert(e, a);
      r := Ok(b);
    }
  }

  /** A booking for a free event with room succeeds and carries the pair. */
  method CreateBookingScenario()
  {
    var c := new BookingController(map[1 := 2], {10});
    var r := c.RequestBooking(1, 10);
    assert r.Ok? && r.booking.eventId == 1 && r.booking.attendeeId == 10;
  }

  /** A pair booked directly through the table is refused as a conflict,
      and so is a second request right after a successful one. */
  method DuplicateBookingScenario()
  {
    var c := new BookingController(map[1 := 2], {10});
    var b := c.Insert(1, 10);
    assert IsBooked(c.bookings, 1, 10) by {
      assert c.bookings[0] == b;
    }
    var r := c.RequestBooking(1, 10);
    assert r == AlreadyBooked;

    var d := new BookingController(map[1 := 2], {10});
    r := d.RequestBooking(1, 10);
    assert r.Ok?;
    r := d.RequestBooking(1, 10);
    assert d.bookings[0].attendeeId == 10;
    assert r == AlreadyBooked;
  }

  /** An event of capacity 1 already holding one booking refuses a second
      attendee as fully booked; an unknown event is refused as not found. */
  method OverbookingScenario()
  {
    var c := new BookingController(map[1 := 1], {10, 11});
    var b := c.Insert(1, 10);
    assert c.bookings == [b];
    var r := c.RequestBooking(1, 11);
    assert r == CapacityExceeded;
    r := c.RequestBooking(2, 10);
    assert r == NotFound;
  }
}
