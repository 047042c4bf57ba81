/** Booking admission as pure functions over the three tables it touches.

    A booking request names an event and an attendee. It is checked, in this
    order, for (1) both ids existing, (2) an existing booking of the same
    pair, (3) the event's booking count having reached its capacity; only a
    request that passes all three inserts one booking row. `Decide` and
    `Apply` specify one such call; the lemmas state what the calls promise. */
module Admission {

  /** One row of the bookings table; `id` is its auto-increment key. */
  datatype Booking = Booking(id: nat, eventId: int, attendeeId: int)

  /** What a booking request answers: the new row (HTTP 201), or why it was
      refused (validation failure, 409 conflict, 403 fully booked). */
  datatype Result = Ok(booking: Booking) | NotFound | AlreadyBooked | CapacityExceeded

  /** The data admission reads and writes: each event's capacity by event id,
      the attendee ids, the booking rows in insertion order, and the id the
      next inserted row receives. */
  datatype Tables = Tables(events: map<int, nat>, attendees: set<int>, bookings: seq<Booking>, nextId: nat)

  /** A booking request as it arrives: the two ids of the request body. */
  datatype Request = Request(eventId: int, attendeeId: int)

  // ---------------------------------------------------------------------
  // The two queries over the bookings table
  // ---------------------------------------------------------------------

  /** Whether some row books attendee `a` on event `e` (the `exists()` query). */
  function IsBooked(bs: seq<Booking>, e: int, a: int): (r: bool)
    ensures r <==> exists i :: 0 <= i < |bs| && bs[i].eventId == e && bs[i].attendeeId == a
  {
    if bs == [] then false
    else
      var last := bs[|bs| - 1];
      assert forall i :: 0 <= i < |bs| - 1 ==> bs[..|bs| - 1][i] == bs[i];
      (last.eventId == e && last.attendeeId == a) || IsBooked(bs[..|bs| - 1], e, a)
  }

  /** The positions of the rows that book event `e`. */
  ghost function Matching(bs: seq<Booking>, e: int): set<int>
  {
    set i | 0 <= i < |bs| && bs[i].eventId == e
  }

  /** How many rows book event `e` (the `count()` query). */
  function CountFor(bs: seq<Booking>, e: int): (n: nat)
    ensures n == |Matching(bs, e)|
    ensures n <= |bs|
    ensures n == 0 <==> forall i :: 0 <= i < |bs| ==> bs[i].eventId != e
  {
    if bs == [] then
      assert Matching(bs, e) == {};
      0
    else
      var init := bs[..|bs| - 1];
      assert forall i :: 0 <= i < |bs| - 1 ==> init[i] == bs[i];
      var last := if bs[|bs| - 1].eventId == e then {|bs| - 1} else {};
      assert Matching(bs, e) == Matching(init, e) + last;
      assert Matching(init, e) !! last;
      CountFor(init, e) + (if bs[|bs| - 1].eventId == e then 1 else 0)
  }

  /** The rows that book event `e`, in insertion order (the event's
      `bookings` relation). */
  function BookingsOf(bs: seq<Booking>, e: int): (r: seq<Booking>)
    ensures |r| == CountFor(bs, e)
    ensures forall x :: x in r <==> x in bs && x.eventId == e
  {
    if bs == [] then []
    else
      var init := bs[..|bs| - 1];
      assert bs == init + [bs[|bs| - 1]];
      BookingsOf(init, e) + (if bs[|bs| - 1].eventId == e then [bs[|bs| - 1]] else [])
  }

  // ---------------------------------------------------------------------
  // One admission call
  // ---------------------------------------------------------------------

  /** The answer to a request for (e, a) against tables `t`: existence first,
      then the duplicate pair, then capacity with `>=` on the current count. */
  function Decide(t: Tables, e: int, a: int): (r: Result)
    ensures r.Ok? <==>
      e in t.events && a in t.attendees && !IsBooked(t.bookings, e, a) &&
      CountFor(t.bookings, e) < t.events[e]
    ensures r.Ok? ==> r.booking.id == t.nextId && r.booking.eventId == e && r.booking.attendeeId == a
  {
    if e !in t.events || a !in t.attendees then NotFound
    else if IsBooked(t.bookings, e, a) then AlreadyBooked
    else if CountFor(t.bookings, e) >= t.events[e] then CapacityExceeded
    else Ok(Booking(t.nextId, e, a))
  }

  /** The tables after that request: one row appended when admitted, and
      nothing changed otherwise. */
  function Apply(t: Tables, e: int, a: int): (t': Tables)
    ensures t'.events == t.events && t'.attendees == t.attendees
    ensures t.bookings <= t'.bookings
    ensures |t'.bookings| == |t.bookings| + (if Decide(t, e, a).Ok? then 1 else 0)
  {
    match Decide(t, e, a)
    case Ok(b) => t.(bookings := t.bookings + [b], nextId := t.nextId + 1)
    case _ => t
  }

  /** The tables after a sequence of requests handled one at a time.
      Requests only ever append rows: the old rows are a prefix of the new
      ones, each request adds at most one, and the events and attendees are
      never touched. */
  function Run(t: Tables, reqs: seq<Request>): (t': Tables)
    ensures t.bookings <= t'.bookings
    ensures |t'.bookings| <= |t.bookings| + |reqs|
    ensures t'.events == t.events && t'.attendees == t.attendees
    decreases |reqs|
  {
    if reqs == [] then t
    else Run(Apply(t, reqs[0].eventId, reqs[0].attendeeId), reqs[1..])
  }

  // ---------------------------------------------------------------------
  // Invariants
  // ---------------------------------------------------------------------

  /** No two rows book the same (event, attendee) pair. */
  ghost predicate PairsUnique(bs: seq<Booking>)
  {
    forall i, j :: 0 <= i < j < |bs| ==>
      !(bs[i].eventId == bs[j].eventId && bs[i].attendeeId == bs[j].attendeeId)
  }

  /** No event holds more bookings than its capacity. */
  ghost predicate WithinCapacity(t: Tables)
  {
    forall e :: e in t.events ==> CountFor(t.bookings, e) <= t.events[e]
  }

  /** Every row names an existing event and an existing attendee. */
  ghost predicate ReferencesExist(t: Tables)
  {
    forall i :: 0 <= i < |t.bookings| ==>
      t.bookings[i].eventId in t.events && t.bookings[i].attendeeId in t.attendees
  }

  /** The invariants that admission is meant to keep. */
  ghost predicate Consistent(t: Tables)
  {
    PairsUnique(t.bookings) && WithinCapacity(t) && ReferencesExist(t)
  }

  /** Facts the store keeps outside admission: every capacity is at least 1
      (event validation), and row ids increase and stay below the next id. */
  ghost predicate WellFormed(t: Tables)
  {
    (forall e :: e in t.events ==> t.events[e] >= 1) &&
    (forall i :: 0 <= i < |t.bookings| ==> t.bookings[i].id < t.nextId) &&
    (forall i, j :: 0 <= i < j < |t.bookings| ==> t.bookings[i].id < t.bookings[j].id)
  }

  // ---------------------------------------------------------------------
  // The queries after one appended row
  // ---------------------------------------------------------------------

  lemma {:induction false} IsBookedAppend(bs: seq<Booking>, b: Booking, e: int, a: int)
    ensures IsBooked(bs + [b], e, a) == (IsBooked(bs, e, a) || (b.eventId == e && b.attendeeId == a))
  {
    assert (bs + [b])[..|bs|] == bs;
  }

  lemma {:induction false} CountForAppend(bs: seq<Booking>, b: Booking, e: int)
    ensures CountFor(bs + [b], e) == CountFor(bs, e) + (if b.eventId == e then 1 else 0)
  {
    assert (bs + [b])[..|bs|] == bs;
  }

  lemma {:induction false} BookingsOfAppend(bs: seq<Booking>, b: Booking, e: int)
    ensures BookingsOf(bs + [b], e) == BookingsOf(bs, e) + (if b.eventId == e then [b] else [])
  {
    assert (bs + [b])[..|bs|] == bs;
  }

  // ---------------------------------------------------------------------
  // What one call promises
  // ---------------------------------------------------------------------

  /** A request naming an unknown event or attendee is refused as not found,
      and changes nothing. */
  lemma UnknownIdsRejected(t: Tables, e: int, a: int)
    ensures Decide(t, e, a) == NotFound <==> (e !in t.events || a !in t.attendees)
    ensures Decide(t, e, a) == NotFound ==> Apply(t, e, a) == t
  {
  }

  /** A request for a pair already booked is refused as a conflict, and
      changes nothing. */
  lemma DuplicateRejected(t: Tables, e: int, a: int)
    ensures Decide(t, e, a) == AlreadyBooked <==>
      (e in t.events && a in t.attendees && IsBooked(t.bookings, e, a))
    ensures Decide(t, e, a) == AlreadyBooked ==> Apply(t, e, a) == t
  {
  }

  /** A request for an event whose count has reached its capacity is refused
      as fully booked, unless an earlier check refused it first; it changes
      nothing. */
  lemma FullEventRejected(t: Tables, e: int, a: int)
    ensures Decide(t, e, a) == CapacityExceeded <==>
      (e in t.events && a in t.attendees && !IsBooked(t.bookings, e, a) &&
       CountFor(t.bookings, e) >= t.events[e])
    ensures Decide(t, e, a) == CapacityExceeded ==> Apply(t, e, a) == t
  {
  }

  /** The duplicate check comes before the capacity check: a repeat request
      for a full event reports the conflict, not the capacity. */
  lemma DuplicateTakesPrecedence(t: Tables, e: int, a: int)
    requires e in t.events && a in t.attendees
    requires IsBooked(t.bookings, e, a)
    requires CountFor(t.bookings, e) >= t.events[e]
    ensures Decide(t, e, a) == AlreadyBooked
  {
  }

  /** Because capacity is compared with `>=` on the current count, an event
      whose capacity was lowered below its count admits nobody, whoever asks. */
  lemma {:induction false} OverfullEventAdmitsNobody(t: Tables, e: int, a: int)
    requires e in t.events
    requires CountFor(t.bookings, e) >= t.events[e]
    ensures !Decide(t, e, a).Ok?
    ensures Apply(t, e, a) == t
  {
  }

  /** An admitted request appends exactly one row for the requested pair
      with the next id, which is fresh in well-formed tables; that event's
      count rises by one, and every other event's rows and count stay as
      they were. */
  lemma {:induction false} AdmissionEffect(t: Tables, e: int, a: int)
    requires Decide(t, e, a).Ok?
    ensures Decide(t, e, a).booking == Booking(t.nextId, e, a)
    ensures Apply(t, e, a).bookings == t.bookings + [Booking(t.nextId, e, a)]
    ensures Apply(t, e, a).events == t.events && Apply(t, e, a).attendees == t.attendees
    ensures e in t.events && a in t.attendees && !IsBooked(t.bookings, e, a)
    ensures CountFor(Apply(t, e, a).bookings, e) == CountFor(t.bookings, e) + 1
    ensures forall e' :: e' != e ==> CountFor(Apply(t, e, a).bookings, e') == CountFor(t.bookings, e')
    ensures forall e' :: e' != e ==> BookingsOf(Apply(t, e, a).bookings, e') == BookingsOf(t.bookings, e')
    ensures WellFormed(t) ==> forall i :: 0 <= i < |t.bookings| ==> t.bookings[i].id != t.nextId
  {
    var b := Booking(t.nextId, e, a);
    CountForAppend(t.bookings, b, e);
    forall e' | e' != e
      ensures CountFor(t.bookings + [b], e') == CountFor(t.bookings, e')
      ensures BookingsOf(t.bookings + [b], e') == BookingsOf(t.bookings, e')
    {
      CountForAppend(t.bookings, b, e');
      BookingsOfAppend(t.bookings, b, e');
    }
  }

  /** Repeating a refused request on the tables it left behind gets the same
      refusal again: no refusal writes anything. */
  lemma RejectionIsStable(t: Tables, e: int, a: int)
    requires !Decide(t, e, a).Ok?
    ensures Apply(t, e, a) == t
    ensures Decide(Apply(t, e, a), e, a) == Decide(t, e, a)
  {
  }

  /** A request that was admitted cannot be admitted twice: repeating it
      right away is a conflict. */
  lemma {:induction false} RepeatIsConflict(t: Tables, e: int, a: int)
    requires Decide(t, e, a).Ok?
    ensures Decide(Apply(t, e, a), e, a) == AlreadyBooked
  {
    IsBookedAppend(t.bookings, Booking(t.nextId, e, a), e, a);
  }

  /** One call keeps pairs unique, counts within capacity and every row
      pointing at existing ids; each of the three is kept on its own, so the
      first two hold even on tables with rows left by a deleted event or
      attendee. */
  lemma {:induction false} ApplyPreservesConsistency(t: Tables, e: int, a: int)
    ensures PairsUnique(t.bookings) ==> PairsUnique(Apply(t, e, a).bookings)
    ensures WithinCapacity(t) ==> WithinCapacity(Apply(t, e, a))
    ensures ReferencesExist(t) ==> ReferencesExist(Apply(t, e, a))
    ensures Consistent(t) ==> Consistent(Apply(t, e, a))
  {
    if Decide(t, e, a).Ok? {
      var b := Booking(t.nextId, e, a);
      var t' := Apply(t, e, a);
      assert t'.bookings == t.bookings + [b];
      forall i, j | 0 <= i < j < |t'.bookings| && PairsUnique(t.bookings)
        ensures !(t'.bookings[i].eventId == t'.bookings[j].eventId &&
                  t'.bookings[i].attendeeId == t'.bookings[j].attendeeId)
      {
        if j == |t.bookings| {
          assert t'.bookings[i] == t.bookings[i];
          assert !IsBooked(t.bookings, e, a);
        }
      }
      forall e' | e' in t'.events && WithinCapacity(t)
        ensures CountFor(t'.bookings, e') <= t'.events[e']
      {
        CountForAppend(t.bookings, b, e');
      }
    }
  }

  /** One call keeps the store's own invariants: every capacity at least 1,
      row ids increasing and below the next id. */
  lemma {:induction false} ApplyPreservesWellFormed(t: Tables, e: int, a: int)
    requires WellFormed(t)
    ensures WellFormed(Apply(t, e, a))
  {
    if Decide(t, e, a).Ok? {
      var t' := Apply(t, e, a);
      assert t'.bookings == t.bookings + [Booking(t.nextId, e, a)];
      assert forall i :: 0 <= i < |t.bookings| ==> t'.bookings[i] == t.bookings[i];
    }
  }

  // ---------------------------------------------------------------------
  // Sequences of calls
  // ---------------------------------------------------------------------

  /** After any sequence of requests, handled one at a time from consistent
      tables, each pair is booked at most once and no event is over capacity. */
  lemma {:induction false} RunPreservesConsistency(t: Tables, reqs: seq<Request>)
    requires Consistent(t) && WellFormed(t)
    ensures Consistent(Run(t, reqs)) && WellFormed(Run(t, reqs))
    decreases |reqs|
  {
    if reqs != [] {
      ApplyPreservesConsistency(t, reqs[0].eventId, reqs[0].attendeeId);
      ApplyPreservesWellFormed(t, reqs[0].eventId, reqs[0].attendeeId);
      RunPreservesConsistency(Apply(t, reqs[0].eventId, reqs[0].attendeeId), reqs[1..]);
    }
  }

  /** A new event (capacity at least 1, no bookings) admits the first
      existing attendee who asks. */
  lemma FirstRequestAdmitted(t: Tables, e: int, a: int)
    requires WellFormed(t)
    requires e in t.events && a in t.attendees
    requires CountFor(t.bookings, e) == 0
    ensures Decide(t, e, a) == Ok(Booking(t.nextId, e, a))
  {
  }

  /** Two different attendees asking for the last free place, handled one
      after the other in either order: the first is admitted and the second
      is told the event is full, so exactly one of them gets the place. */
  lemma {:induction false} LastPlaceGoesToOne(t: Tables, e: int, a1: int, a2: int)
    requires e in t.events && a1 in t.attendees && a2 in t.attendees && a1 != a2
    requires !IsBooked(t.bookings, e, a1) && !IsBooked(t.bookings, e, a2)
    requires CountFor(t.bookings, e) + 1 == t.events[e]
    ensures Decide(t, e, a1).Ok?
    ensures Decide(Apply(t, e, a1), e, a2) == CapacityExceeded
  {
    var b := Booking(t.nextId, e, a1);
    IsBookedAppend(t.bookings, b, e, a2);
    CountForAppend(t.bookings, b, e);
  }
}
