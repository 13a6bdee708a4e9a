# Hotel-room booking core, modelled in Dafny

This project models the booking core of an event-registration back end. A
user whose ticket is paid, in person and includes a hotel may reserve a hotel
room. They may read their booking and move a booking to another room. No room
may hold more bookings than its capacity.

The model has five modules:

- `Wrappers` (`wrappers.dfy`): `Option`, `Result` and `Outcome`. They stand
  for the source's `null` results and thrown errors.
- `Entities` (`entities.dfy`): the records (ticket, ticket type, enrollment,
  room, booking, the `{id, Room}` view) and the errors that reach the
  controller. It also holds `Catalog`, the read-only lookups: the enrollment
  of each user, the ticket of each enrollment and the rooms by id.
- `BookingRepository` (`booking_repository.dfy`): the booking table. The
  class `BookingTable` holds the rows `(id, userId, roomId)` in a `seq` and
  the next id to hand out. Its methods do first-match lookup by user,
  filtering by room, append with a fresh id and update in place by id. Each
  method is proved against a function over the table's value `Table`.
- `BookingService` (`booking_service.dfy`): the eligibility chain and the
  capacity guard, as pure decisions. `PostSpec` and `ChangeSpec` give the
  result and the new table of each operation. The three operations are
  methods on the table, proved against those functions. The module ends with
  the capacity invariant and lemmas on the source's literal behaviour.
- `BookingController` (`booking_controller.dfy`): how each operation's result
  or error becomes an HTTP status and body, dispatching on the error's name.
  Lemmas compose it with the service.

The errors are `NotFoundError`, `ForbiddenError`, `RoomWithoutCapacity`,
`TypeError` and `StoreError`:

- `TypeError` is what the repository's `getBooking` raises when it
  dereferences the row of a user who has no booking.
- `StoreError` is the storage engine's failure to find the row that an
  update names.

The model keeps these behaviours of the code as written:

- Posting does not check whether the user already holds a booking, so a
  user can hold several (`PostAllowsSecondBooking`).
- A change rewrites the booking named by `bookingId`, whoever owns it, and
  gives it to the caller (`ChangeRewritesAnotherUsersBooking`).
- A change that names an unknown booking id fails in the store and answers
  403, not 404 (`ChangeAnswer`).
- Reading without a booking does not raise `NotFoundError`. The repository
  raises on the missing row, and the controller answers 404 for every error
  anyway (`ReadBooking`, `GetAnswer`).
- The capacity test is equality, and it counts the moving booking when that
  booking already sits in the target room (`MoveWithinFullRoomRejected`).

## Model

| member | source | states |
|---|---|---|
| `Entities.NameIdentifiesError` | src/services/booking-serivce/error.ts:3-8 | distinct errors carry distinct names, so the controller's dispatch on `name` is a dispatch on the error |
| `BookingRepository.FirstIndexOfUser` | src/repositories/booking-repository/index.ts:21-27 | finds nothing iff no row has the user; otherwise its position holds the user and no earlier row does |
| `BookingRepository.FirstOfUser` | src/repositories/booking-repository/index.ts:21-27 | null iff the user has no row; otherwise the row at some position that holds the user, with no earlier row of the user |
| `BookingRepository.InRoom` | src/repositories/booking-repository/index.ts:29-35 | a row appears in it iff it is in the table with that roomId; it is no longer than the table |
| `BookingRepository.InRoomMultiplicity` | src/repositories/booking-repository/index.ts:29-35 | each row of the room appears as many times as in the table and no other row appears, so the length is the room's occupancy |
| `BookingRepository.InRoomAppend` | src/repositories/booking-repository/index.ts:37-44 | appending a row adds it to its own room's list only, so that room's occupancy grows by one and every other stays put |
| `BookingRepository.OccupancyAfterSet` | src/repositories/booking-repository/index.ts:46-56 | overwriting one row takes one unit of occupancy from the old row's room and gives one to the new row's room |
| `BookingRepository.UpdatedIsSet` | src/repositories/booking-repository/index.ts:46-56 | with distinct ids, updating where id overwrites exactly the row at that id's position |
| `BookingRepository.Create` | src/repositories/booking-repository/index.ts:37-44 | appends one row with the given user and room under an id no existing row has; the table stays well formed |
| `BookingRepository.Update` | src/repositories/booking-repository/index.ts:46-56 | succeeds iff a row has the id; then that row becomes (id, userId, roomId), the id is kept and every other row is unchanged; otherwise a store error and no change |
| `BookingRepository.ReadBooking` | src/repositories/booking-repository/index.ts:3-19 | raises (TypeError) iff the user has no row; otherwise `{id, Room}` of the user's first row joined with its room |
| `BookingRepository.BookingTable.GetBookingByUser` | src/repositories/booking-repository/index.ts:21-27 | the loop returns the first row of the user, or nothing |
| `BookingRepository.BookingTable.GetBookingByRoom` | src/repositories/booking-repository/index.ts:29-35 | the loop returns exactly the rows of the room, in table order |
| `BookingRepository.BookingTable.GetBooking` | src/repositories/booking-repository/index.ts:3-19 | returns the join of the user's first row with its room, or raises when there is none |
| `BookingRepository.BookingTable.PostBooking` | src/repositories/booking-repository/index.ts:37-44 | the table becomes the old rows plus one new row with a fresh id; the invariant on ids is kept |
| `BookingRepository.BookingTable.ChangeBooking` | src/repositories/booking-repository/index.ts:46-56 | rewrites in place the row with that id, keeping the id; fails and changes nothing when no row has it |
| `BookingService.Eligibility` | src/services/booking-serivce/index.ts:17-24 | NotFound iff enrollment or ticket is missing; Forbidden iff the ticket exists but is reserved, remote or without hotel; passes iff eligible |
| `BookingService.CapacityGuard` | src/services/booking-serivce/index.ts:26-30 | NotFound iff the room is missing; RoomWithoutCapacity iff the room exists and its capacity equals the occupancy; passes iff the room exists and they differ, so an over-full room passes |
| `BookingService.PostDecision` | src/services/booking-serivce/index.ts:16-30 | the exact conditions for NotFound, Forbidden, RoomWithoutCapacity and success of a post, eligibility checked before the room |
| `BookingService.ChangeDecision` | src/services/booking-serivce/index.ts:37-45 | Forbidden iff the user holds no booking; then NotFound for a missing room and RoomWithoutCapacity for a full one; tickets are not consulted |
| `BookingService.PostSpec` | src/services/booking-serivce/index.ts:16-35 | fails exactly when the decision fails, with its error and no change; otherwise appends one booking of the user in the room, under a fresh id |
| `BookingService.ChangeSpec` | src/services/booking-serivce/index.ts:37-48 | succeeds iff the decision passes and the id exists; then only the row with that id changes, to (bookingId, userId, roomId); otherwise no change |
| `BookingService.GetBooking` | src/services/booking-serivce/index.ts:9-14 | returns the repository's result unchanged, including its raised error |
| `BookingService.PostBooking` | src/services/booking-serivce/index.ts:16-35 | the result and the new table are those of `PostSpec`; the table invariant is kept |
| `BookingService.ChangeBooking` | src/services/booking-serivce/index.ts:37-48 | the result and the new table are those of `ChangeSpec`; the table invariant is kept |
| `BookingService.PostKeepsConsistent` | src/services/booking-serivce/index.ts:29-34 | a post keeps every room within its capacity and every booking pointing at an existing room |
| `BookingService.SetKeepsWithinCapacity` | src/services/booking-serivce/index.ts:44-47 | overwriting a row with a booking for a room that has a free slot keeps every room within capacity |
| `BookingService.ChangeKeepsConsistent` | src/services/booking-serivce/index.ts:44-47 | a change keeps every room within its capacity and every booking pointing at an existing room |
| `BookingService.ServeAllKeepsConsistent` | src/services/booking-serivce/index.ts:16-48 | any sequence of get, post and change requests keeps the table consistent |
| `BookingService.CapacityNeverExceeded` | src/services/booking-serivce/index.ts:16-48 | from an empty table, no room ever holds more bookings than its capacity |
| `BookingService.ZeroCapacityRoomRejects` | src/services/booking-serivce/index.ts:29-30 | an empty capacity-0 room rejects every eligible post and every change with RoomWithoutCapacity |
| `BookingService.MoveWithinFullRoomRejected` | src/services/booking-serivce/index.ts:44-47 | moving a booking into the full room it already occupies is rejected, although the move would not change that room's occupancy |
| `BookingService.EligibilityFailureBeforeRoomLookup` | src/services/booking-serivce/index.ts:17-27 | a reserved or remote ticket with a missing room gives Forbidden, not NotFound |
| `BookingService.MissingBookingBeforeRoomLookup` | src/services/booking-serivce/index.ts:37-42 | without a booking a change is Forbidden whatever the room |
| `BookingService.ChangeRewritesAnotherUsersBooking` | src/services/booking-serivce/index.ts:37-47 | for any table and catalog, a user holding a booking can move another user's booking by its id into a room with a free slot; the change succeeds and that row then belongs to them |
| `BookingService.PostAllowsSecondBooking` | src/services/booking-serivce/index.ts:16-34 | for any table and catalog, an eligible user who already holds a booking, posting to a room with a free slot, succeeds and then holds two bookings |
| `BookingController.GetBooking` | src/controllers/booking-controller.ts:6-17 | 200 with the service result on success; 404 with the error for every error |
| `BookingController.PostBooking` | src/controllers/booking-controller.ts:19-34 | 200 with `{bookingId}`; 404 iff NotFoundError; 403 iff ForbiddenError or RoomWithoutCapacity; 500 for any other error |
| `BookingController.ChangeBooking` | src/controllers/booking-controller.ts:36-50 | 200 with `{bookingId}`; 404 iff NotFoundError; 403 for every other error |
| `BookingController.GetAnswer` | src/controllers/booking-controller.ts:6-17 | GET answers 404 iff the caller has no booking, else 200 with `{id, Room}` of their first booking |
| `BookingController.PostAnswer` | src/controllers/booking-controller.ts:19-34 | POST answers 404, 403 or 200 under the exact eligibility, room and capacity conditions, and never 500 |
| `BookingController.ChangeAnswer` | src/controllers/booking-controller.ts:36-50 | PUT answers 404 only for a missing room; no booking, a full room or an unknown booking id answer 403; success returns the named id |

## Left out

- HTTP routing and the token middleware (src/routers/booking-router.ts): the caller is an input `userId`.
- The database engine: tables are in-memory values. `findFirst` without an ordering is taken to mean the first row in insertion order.
- The enrollment and ticket repositories are not part of this model. Enrollments, tickets and rooms are read-only maps in `Catalog`, and the enrollment's address join is dropped.
- The room repository (src/repositories/room-respository/index.ts) becomes a read of `Catalog.rooms`.
- The database's own foreign-key checks. A direct repository insert or update naming an unknown room would fail in the database. The service never makes such a call, because it checks the room first. `RoomsExist` states the key as an invariant instead.
- Concurrency. Each request is one atomic step, so the race between the capacity read and the write is not modelled.
- Converting request strings with `Number(...)`, the `res.send` side effects, error message texts and row timestamps.
- Failures of the storage engine other than a missing row on update, such as an unavailable store.
- Test data factories.
