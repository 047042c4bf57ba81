# Booking admission of the event booking API

The event booking API keeps three tables: events (each with a capacity of
at least 1), attendees, and bookings that pair one event with one attendee.
The only endpoint that does more than plain create/read/update/delete is
`POST /api/bookings`, handled by `BookingController::store`. It admits an
attendee to an event after three checks, made in a fixed order:

1. the event id and the attendee id both exist (otherwise the request fails validation);
2. no booking already pairs that event with that attendee (otherwise 409, "already booked");
3. the event's current booking count is below its capacity, compared as
   `count >= capacity` means full (otherwise 403, "fully booked").

Only a request that passes all three inserts a booking row (201).

The model has two modules.

- `Admission` (`admission.dfy`) holds the tables as a value (`Tables`), the
  two queries the controller runs (`IsBooked` for the `exists()` query,
  `CountFor` for the `count()` query), the specification of one call
  (`Decide` gives the answer, `Apply` gives the tables afterwards), `Run` for
  many calls one after another, and the invariants: pairs unique, every
  event within its capacity, every row naming existing ids. The lemmas state
  what one call and any sequence of calls promise.
- `Bookings` (`booking_controller.dfy`) holds the class `BookingController`.
  Its fields are the tables. `Insert` is `Booking::create` and appends one
  row with the next auto-increment id. `RequestBooking` is `store`: it runs
  the checks in the source's order and calls `Insert`, and its contract ties
  the answer and the new fields to `Decide` and `Apply`. Three client methods
  replay the booking scenarios of the feature tests against that contract.

Each call is modelled as one atomic step. In the source the checks and the
insert are separate queries with no lock or transaction between them. Two
concurrent requests can both pass the checks before either inserts.
Because of that race, the invariants proved here hold for requests handled
one at a time, not for the deployed code under concurrent load.

Unique pairs and "no event over capacity" are invariants that admission
keeps, not invariants of the whole system. Updating an event only checks
that the new capacity is at least 1 (app/Http/Controllers/Api/EventController.php:91,94),
so an update can leave an event with more bookings than its capacity.
`OverfullEventAdmitsNobody` states what admission then does: it admits
nobody to that event.

The API-level result of a failed existence check follows the code, not the
intended status codes. `$request->validate` throws a validation exception.
The `catch (Exception $e)` block around the whole method also catches it, so
as written the source seems to answer 500 rather than 404 or 422. The
model only keeps the rejection kind (`NotFound`). This was not executed.

## Model

| member | source | states |
|---|---|---|
| `Admission.IsBooked` | app/Http/Controllers/Api/BookingController.php:25-27 | the duplicate query is true exactly when some row books that event for that attendee |
| `Admission.CountFor` | app/Http/Controllers/Api/BookingController.php:38 | an event's count is the number of rows that book that event (the size of the set of their positions); so it is at most the number of rows, and 0 exactly when no row books it |
| `Admission.BookingsOf` | app/Models/Event.php:14-17 | an event's rows are exactly the table's rows that name that event, and there are as many of them as its count |
| `Admission.Decide` | app/Http/Controllers/Api/BookingController.php:17-46 | a request is admitted exactly when both ids exist, the pair is not yet booked and the count is below the capacity, and the admitted row carries the pair and the next id; the refusal kinds and their order are stated by the three rejection lemmas below |
| `Admission.Apply` | app/Http/Controllers/Api/BookingController.php:29-48 | a call never touches events or attendees, keeps the old rows as a prefix, and adds exactly one row when admitted and none otherwise; the added row is stated by `AdmissionEffect` |
| `Admission.Run` | app/Http/Controllers/Api/BookingController.php:48 | requests handled one after another only append rows, at most one each, and never change events or attendees |
| `Admission.UnknownIdsRejected` | app/Http/Controllers/Api/BookingController.php:17-20 | the answer is NotFound exactly when the event or the attendee does not exist, and then nothing changes |
| `Admission.DuplicateRejected` | app/Http/Controllers/Api/BookingController.php:25-35 | the answer is AlreadyBooked exactly when both ids exist and the pair is already booked, and then nothing changes |
| `Admission.FullEventRejected` | app/Http/Controllers/Api/BookingController.php:38-46 | the answer is CapacityExceeded exactly when both ids exist, the pair is new and the count is at least the capacity, and then nothing changes |
| `Admission.DuplicateTakesPrecedence` | app/Http/Controllers/Api/BookingController.php:24-46 | a repeat request for a full event is answered AlreadyBooked, not CapacityExceeded |
| `Admission.OverfullEventAdmitsNobody` | app/Http/Controllers/Api/BookingController.php:38-46 | an event whose count is at or above its capacity admits nobody, even one whose capacity was lowered below its count, and the tables stay as they were |
| `Admission.AdmissionEffect` | app/Http/Controllers/Api/BookingController.php:38-48 | an admitted request appends exactly one row, for the requested pair with the next id, which no existing row carries in well-formed tables; that event's count rises by one, and every other event's rows and count are unchanged |
| `Admission.RejectionIsStable` | app/Http/Controllers/Api/BookingController.php:29-46 | a refused request changes nothing, so repeating it on the same tables gets the same refusal |
| `Admission.RepeatIsConflict` | app/Http/Controllers/Api/BookingController.php:25-48 | right after an admission, the same request is answered AlreadyBooked |
| `Admission.ApplyPreservesConsistency` | app/Http/Controllers/Api/BookingController.php:25-48 | each of the three invariants is kept by a call on its own: unique pairs stay unique, events within capacity stay within it, and rows naming existing ids keep doing so |
| `Admission.ApplyPreservesWellFormed` | app/Http/Controllers/Api/BookingController.php:48 | a call keeps every capacity at least 1 and keeps row ids increasing and below the next id |
| `Admission.RunPreservesConsistency` | app/Http/Controllers/Api/BookingController.php:14-62 | from consistent, well-formed tables, after any sequence of requests handled one at a time, each pair is booked at most once, no event is over capacity and every row names existing ids |
| `Admission.FirstRequestAdmitted` | app/Http/Controllers/Api/EventController.php:47 | an event with capacity at least 1 and no bookings admits the first existing attendee who asks |
| `Admission.LastPlaceGoesToOne` | app/Http/Controllers/Api/BookingController.php:38-48 | of two different attendees asking in turn for an event's last free place, the first is admitted and the second is told it is full |
| `Bookings.BookingController.constructor` | app/Http/Controllers/Api/EventController.php:47 | tables with the given events (capacity at least 1) and attendees start with no bookings and are consistent |
| `Bookings.BookingController.Insert` | app/Http/Controllers/Api/BookingController.php:48 | appends exactly one row for the pair with the next id and advances the id; events and attendees are unchanged |
| `Bookings.BookingController.RequestBooking` | app/Http/Controllers/Api/BookingController.php:14-54 | the answer and the new tables are those of `Decide` and `Apply`: NotFound, AlreadyBooked and CapacityExceeded exactly in their cases and in that order, each leaving the object unchanged; on success exactly one row for the pair is appended; consistent tables stay consistent |

## Left out

- HTTP plumbing: JSON bodies, the mapping of each answer to a status code, the 500 answer of the `catch` block, and route registration. Only the rejection kinds are kept.
- Store failures (a database error turning into a 500). The model's store never fails.
- Event and attendee create, read, update, delete and pagination. They are plain wrappers over the ORM. The model keeps only what admission needs: the ids that exist, and capacities of at least 1.
- Concurrency: each request is one atomic step. The unguarded race between the checks and the insert is described above, not modelled.
- Deleting an event or attendee that still has bookings. The source defines no cascade, and the model has no delete.
- Timestamps, the booking resource's fields other than the id and the pair, and the authenticated-user route.
- Auto-increment ids: they are modelled as a counter starting at 1 that grows by one per insert. Gaps left by deleted rows are not modelled.
