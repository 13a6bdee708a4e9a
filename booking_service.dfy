/**
 * The booking service: the eligibility chain and the capacity guard as pure
 * decisions, the three operations as methods on the booking table proved
 * against whole-operation specifications, and the capacity invariant they keep.
 */
module BookingService {
  import opened Wrappers
  import opened Entities
  import opened BookingRepository

  // ---------------------------------------------------------------------------
  // Reference predicates: what eligibility and occupancy mean
  // ---------------------------------------------------------------------------

  /** The user is enrolled and the enrollment has a ticket. */
  predicate HasTicket(catalog: Catalog, userId: int)
  {
    && userId in catalog.enrollmentsByUser
    && catalog.enrollmentsByUser[userId].id in catalog.ticketsByEnrollment
  }

  function TicketOf(catalog: Catalog, userId: int): Ticket
    requires HasTicket(catalog, userId)
  {
    catalog.ticketsByEnrollment[catalog.enrollmentsByUser[userId].id]
  }

  /** A paid, in-person ticket whose type includes a hotel. */
  predicate AllowsHotel(t: Ticket)
  {
    t.status == PAID && !t.ticketType.isRemote && t.ticketType.includesHotel
  }

  predicate Eligible(catalog: Catalog, userId: int)
  {
    HasTicket(catalog, userId) && AllowsHotel(TicketOf(catalog, userId))
  }

  /** Number of bookings in a room: the length of `getBookingByRoom`. */
  function Occupancy(rows: seq<Booking>, roomId: int): nat
  {
    |InRoom(rows, roomId)|
  }

  /** No room holds more bookings than its capacity. */
  ghost predicate WithinCapacity(rooms: map<int, Room>, rows: seq<Booking>)
  {
    forall roomId :: roomId in rooms ==> Occupancy(rows, roomId) <= rooms[roomId].capacity
  }

  /** The state the service keeps: a well-formed table, existing rooms, no room over capacity. */
  ghost predicate Consistent(catalog: Catalog, t: Table)
  {
    && Wellformed(t)
    && RoomsExist(t.rows, catalog.rooms)
    && WithinCapacity(catalog.rooms, t.rows)
  }

  // ---------------------------------------------------------------------------
  // Pure decisions
  // ---------------------------------------------------------------------------

  /**
   * The eligibility chain of `postBooking`, in its order: enrollment, ticket,
   * not RESERVED, not remote, includes hotel. The first failing check wins.
   */
  function Eligibility(catalog: Catalog, userId: int): (c: Outcome<AppError>)
    ensures c.Pass? <==> Eligible(catalog, userId)
    ensures c == Fail(NotFoundError) <==> !HasTicket(catalog, userId)
    ensures c == Fail(ForbiddenError) <==> HasTicket(catalog, userId) && !Eligible(catalog, userId)
  {
    if userId !in catalog.enrollmentsByUser then Fail(NotFoundError)
    else
      var enrollment := catalog.enrollmentsByUser[userId];
      if enrollment.id !in catalog.ticketsByEnrollment then Fail(NotFoundError)
      else
        var ticket := catalog.ticketsByEnrollment[enrollment.id];
        if ticket.status == RESERVED then Fail(ForbiddenError)
        else if ticket.ticketType.isRemote then Fail(ForbiddenError)
        else if !ticket.ticketType.includesHotel then Fail(ForbiddenError)
        else Pass
  }

  /**
   * The room lookup and the capacity test `capacity === bookings.length`.
   * The test is equality, so a room already over capacity passes; while the
   * room is not over capacity, it rejects exactly the full room.
   */
  function CapacityGuard(rooms: map<int, Room>, roomId: int, occupancy: int): (c: Outcome<AppError>)
    ensures c == Fail(NotFoundError) <==> roomId !in rooms
    ensures c == Fail(RoomWithoutCapacity) <==> roomId in rooms && rooms[roomId].capacity == occupancy
    ensures c.Pass? <==> roomId in rooms && rooms[roomId].capacity != occupancy
    ensures roomId in rooms && occupancy <= rooms[roomId].capacity ==>
      (c.Pass? <==> occupancy < rooms[roomId].capacity)
  {
    if roomId !in rooms then Fail(NotFoundError)
    else if rooms[roomId].capacity == occupancy then Fail(RoomWithoutCapacity)
    else Pass
  }

  /** Whether `postBooking` may insert: eligibility first, then the room and its capacity. */
  function PostDecision(catalog: Catalog, rows: seq<Booking>, roomId: int, userId: int): (c: Outcome<AppError>)
    ensures c == Fail(NotFoundError) <==>
      !HasTicket(catalog, userId) || (Eligible(catalog, userId) && roomId !in catalog.rooms)
    ensures c == Fail(ForbiddenError) <==> HasTicket(catalog, userId) && !Eligible(catalog, userId)
    ensures c == Fail(RoomWithoutCapacity) <==>
      Eligible(catalog, userId) && roomId in catalog.rooms
      && catalog.rooms[roomId].capacity == Occupancy(rows, roomId)
    ensures c.Pass? <==>
      Eligible(catalog, userId) && roomId in catalog.rooms
      && catalog.rooms[roomId].capacity != Occupancy(rows, roomId)
  {
    match Eligibility(catalog, userId)
    case Fail(e) => Fail(e)
    case Pass => CapacityGuard(catalog.rooms, roomId, Occupancy(rows, roomId))
  }

  /**
   * Whether `changeBooking` may update: the user must hold some booking, then
   * the room and its capacity. Ticket eligibility is not consulted.
   */
  function ChangeDecision(rooms: map<int, Room>, rows: seq<Booking>, roomId: int, userId: int): (c: Outcome<AppError>)
    ensures c == Fail(ForbiddenError) <==> !HasBooking(rows, userId)
    ensures c == Fail(NotFoundError) <==> HasBooking(rows, userId) && roomId !in rooms
    ensures c == Fail(RoomWithoutCapacity) <==>
      HasBooking(rows, userId) && roomId in rooms && rooms[roomId].capacity == Occupancy(rows, roomId)
    ensures c.Pass? <==>
      HasBooking(rows, userId) && roomId in rooms && rooms[roomId].capacity != Occupancy(rows, roomId)
  {
    if FirstOfUser(rows, userId).None? then Fail(ForbiddenError)
    else CapacityGuard(rooms, roomId, Occupancy(rows, roomId))
  }

  // ---------------------------------------------------------------------------
  // Whole operations: result and table afterwards
  // ---------------------------------------------------------------------------

  /** `postBooking`: on success one new booking of `userId` in `roomId`; on failure no change. */
  function PostSpec(catalog: Catalog, t: Table, roomId: int, userId: int): (r: (Result<Booking, AppError>, Table))
    requires Wellformed(t)
    ensures Wellformed(r.1)
    ensures r.0.Err? <==> PostDecision(catalog, t.rows, roomId, userId).Fail?
    ensures r.0.Err? ==> r.0.error == PostDecision(catalog, t.rows, roomId, userId).error && r.1 == t
    ensures r.0.Ok? ==> r.1.rows == t.rows + [r.0.value]
    ensures r.0.Ok? ==> r.0.value.userId == userId && r.0.value.roomId == roomId
    ensures r.0.Ok? ==> forall i :: 0 <= i < |t.rows| ==> t.rows[i].id != r.0.value.id
  {
    match PostDecision(catalog, t.rows, roomId, userId)
    case Fail(e) => (Err(e), t)
    case Pass =>
      var (b, t') := Create(t, roomId, userId);
      (Ok(b), t')
  }

  /**
   * `changeBooking`: on success the row with id `bookingId` now holds
   * `userId` and `roomId` and no other row changed; on failure no change.
   */
  function ChangeSpec(catalog: Catalog, t: Table, roomId: int, userId: int, bookingId: int): (r: (Result<Booking, AppError>, Table))
    requires Wellformed(t)
    ensures Wellformed(r.1)
    ensures r.0.Ok? <==> ChangeDecision(catalog.rooms, t.rows, roomId, userId).Pass? && HasId(t.rows, bookingId)
    ensures r.0.Err? ==> r.1 == t
    ensures r.0.Err? && ChangeDecision(catalog.rooms, t.rows, roomId, userId).Fail? ==>
      r.0.error == ChangeDecision(catalog.rooms, t.rows, roomId, userId).error
    ensures r.0.Err? && ChangeDecision(catalog.rooms, t.rows, roomId, userId).Pass? ==> r.0.error == StoreError
    ensures r.0.Ok? ==> r.0.value == Booking(bookingId, userId, roomId) && |r.1.rows| == |t.rows|
    ensures r.0.Ok? ==> forall i :: 0 <= i < |t.rows| ==>
      r.1.rows[i] == if t.rows[i].id == bookingId then r.0.value else t.rows[i]
  {
    match ChangeDecision(catalog.rooms, t.rows, roomId, userId)
    case Fail(e) => (Err(e), t)
    case Pass => Update(t, roomId, userId, bookingId)
  }

  // ---------------------------------------------------------------------------
  // The service operations on the booking table
  // ---------------------------------------------------------------------------

  /**
   * `getBooking`: the repository's result. The repository never yields a
   * missing value (it raises instead), so the service's own not-found branch
   * is never taken and the raised error passes through.
   */
  method GetBooking(table: BookingTable, rooms: map<int, Room>, userId: int) returns (r: Result<BookingView, AppError>)
    requires RoomsExist(table.rows, rooms)
    ensures r == ReadBooking(table.rows, rooms, userId)
  {
    r := table.GetBooking(rooms, userId);
  }

  /** `postBooking`: eligibility chain, room lookup, capacity test, then insert. */
  method PostBooking(table: BookingTable, catalog: Catalog, roomId: int, userId: int) returns (r: Result<Booking, AppError>)
    requires table.Valid()
    modifies table
    ensures table.Valid()
    ensures (r, table.Snapshot()) == PostSpec(catalog, old(table.Snapshot()), roomId, userId)
  {
    var eligibility := Eligibility(catalog, userId);
    if eligibility.Fail? {
      return Err(eligibility.error);
    }
    if roomId !in catalog.rooms {
      return Err(NotFoundError);
    }
    var bookings := table.GetBookingByRoom(roomId);
    if catalog.rooms[roomId].capacity == |bookings| {
      return Err(RoomWithoutCapacity);
    }
    var b := table.PostBooking(roomId, userId);
    return Ok(b);
  }

  /** `changeBooking`: has-booking check, room lookup, capacity test, then update by id. */
  method ChangeBooking(table: BookingTable, catalog: Catalog, roomId: int, userId: int, bookingId: int)
    returns (r: Result<Booking, AppError>)
    requires table.Valid()
    modifies table
    ensures table.Valid()
    ensures (r, table.Snapshot()) == ChangeSpec(catalog, old(table.Snapshot()), roomId, userId, bookingId)
  {
    var checkBooking := table.GetBookingByUser(userId);
    if checkBooking.None? {
      return Err(ForbiddenError);
    }
    if roomId !in catalog.rooms {
      return Err(NotFoundError);
    }
    var bookings := table.GetBookingByRoom(roomId);
    if catalog.rooms[roomId].capacity == |bookings| {
      return Err(RoomWithoutCapacity);
    }
    r := table.ChangeBooking(roomId, userId, bookingId);
  }

  // ---------------------------------------------------------------------------
  // The capacity invariant
  // ---------------------------------------------------------------------------

  /** A successful insert leaves every room within its capacity. */
  lemma PostKeepsConsistent(catalog: Catalog, t: Table, roomId: int, userId: int)
    requires Consistent(catalog, t)
    ensures Consistent(catalog, PostSpec(catalog, t, roomId, userId).1)
  {
    var (r, t') := PostSpec(catalog, t, roomId, userId);
    if r.Ok? {
      forall R | R in catalog.rooms
        ensures Occupancy(t'.rows, R) <= catalog.rooms[R].capacity
      {
        InRoomAppend(t.rows, r.value, R);
      }
    }
  }

  /** Overwriting one row with a booking of a room that has a free slot keeps every room within capacity. */
  lemma SetKeepsWithinCapacity(rooms: map<int, Room>, rows: seq<Booking>, k: nat, b: Booking)
    requires k < |rows|
    requires WithinCapacity(rooms, rows) && RoomsExist(rows, rooms)
    requires b.roomId in rooms && Occupancy(rows, b.roomId) < rooms[b.roomId].capacity
    ensures WithinCapacity(rooms, rows[k := b]) && RoomsExist(rows[k := b], rooms)
  {
    forall R | R in rooms
      ensures Occupancy(rows[k := b], R) <= rooms[R].capacity
    {
      OccupancyAfterSet(rows, k, b, R);
    }
  }

  /** A successful update leaves every room within its capacity, the moving booking counted once. */
  lemma ChangeKeepsConsistent(catalog: Catalog, t: Table, roomId: int, userId: int, bookingId: int)
    requires Consistent(catalog, t)
    ensures Consistent(catalog, ChangeSpec(catalog, t, roomId, userId, bookingId).1)
  {
    var (r, t') := ChangeSpec(catalog, t, roomId, userId, bookingId);
    if r.Ok? {
      var b := r.value;
      assert roomId in catalog.rooms && Occupancy(t.rows, roomId) < catalog.rooms[roomId].capacity;
      var k :| 0 <= k < |t.rows| && t.rows[k].id == bookingId;
      UpdatedIsSet(t.rows, k, b);
      assert t'.rows == t.rows[k := b];
      SetKeepsWithinCapacity(catalog.rooms, t.rows, k, b);
    }
  }

  /** A request as the service receives it, the caller already resolved to `userId`. */
  datatype Request =
    | GetRequest(userId: int)
    | PostRequest(roomId: int, userId: int)
    | ChangeRequest(roomId: int, userId: int, bookingId: int)

  /** The table after serving one request, each request one atomic step. */
  function Serve(catalog: Catalog, t: Table, req: Request): (t': Table)
    requires Wellformed(t)
    ensures Wellformed(t')
  {
    match req
    case GetRequest(_) => t
    case PostRequest(roomId, userId) => PostSpec(catalog, t, roomId, userId).1
    case ChangeRequest(roomId, userId, bookingId) => ChangeSpec(catalog, t, roomId, userId, bookingId).1
  }

  /** The table after serving `reqs` one after another. */
  function ServeAll(catalog: Catalog, t: Table, reqs: seq<Request>): (t': Table)
    requires Wellformed(t)
    ensures Wellformed(t')
    decreases |reqs|
  {
    if reqs == [] then t else ServeAll(catalog, Serve(catalog, t, reqs[0]), reqs[1..])
  }

  lemma {:induction false} ServeAllKeepsConsistent(catalog: Catalog, t: Table, reqs: seq<Request>)
    requires Consistent(catalog, t)
    ensures Consistent(catalog, ServeAll(catalog, t, reqs))
    decreases |reqs|
  {
    if reqs != [] {
      match reqs[0] {
        case GetRequest(_) =>
        case PostRequest(roomId, userId) =>
          PostKeepsConsistent(catalog, t, roomId, userId);
        case ChangeRequest(roomId, userId, bookingId) =>
          ChangeKeepsConsistent(catalog, t, roomId, userId, bookingId);
      }
      ServeAllKeepsConsistent(catalog, Serve(catalog, t, reqs[0]), reqs[1..]);
    }
  }

  /**
   * Starting from an empty table, no sequence of requests ever puts more
   * bookings in a room than its capacity.
   */
  lemma CapacityNeverExceeded(catalog: Catalog, reqs: seq<Request>)
    requires forall roomId :: roomId in catalog.rooms ==> catalog.rooms[roomId].capacity >= 0
    ensures WithinCapacity(catalog.rooms, ServeAll(catalog, Table([], 1), reqs).rows)
  {
    ServeAllKeepsConsistent(catalog, Table([], 1), reqs);
  }

  // ---------------------------------------------------------------------------
  // Literal behaviours of the source
  // ---------------------------------------------------------------------------

  /** A room of capacity 0 rejects every booking and every move, even when empty. */
  lemma ZeroCapacityRoomRejects(catalog: Catalog, rows: seq<Booking>, roomId: int, userId: int)
    requires roomId in catalog.rooms && catalog.rooms[roomId].capacity == 0
    requires Occupancy(rows, roomId) == 0
    ensures Eligible(catalog, userId) ==> PostDecision(catalog, rows, roomId, userId) == Fail(RoomWithoutCapacity)
    ensures HasBooking(rows, userId) ==> ChangeDecision(catalog.rooms, rows, roomId, userId) == Fail(RoomWithoutCapacity)
  {
  }

  /**
   * Moving a booking into the full room it already occupies is rejected,
   * although the move would leave that room's occupancy unchanged: the
   * capacity count includes the moving booking.
   */
  lemma MoveWithinFullRoomRejected(rooms: map<int, Room>, rows: seq<Booking>, k: nat, userId: int)
    requires IdsDistinct(rows)
    requires k < |rows| && rows[k].userId == userId && rows[k].roomId in rooms
    requires rooms[rows[k].roomId].capacity == Occupancy(rows, rows[k].roomId)
    ensures ChangeDecision(rooms, rows, rows[k].roomId, userId) == Fail(RoomWithoutCapacity)
    ensures Occupancy(Updated(rows, rows[k].id, Booking(rows[k].id, userId, rows[k].roomId)), rows[k].roomId)
         == Occupancy(rows, rows[k].roomId)
  {
    var b := Booking(rows[k].id, userId, rows[k].roomId);
    UpdatedIsSet(rows, k, b);
    OccupancyAfterSet(rows, k, b, rows[k].roomId);
  }

  /** A failing ticket wins over a missing room: the answer is Forbidden, not NotFound. */
  lemma EligibilityFailureBeforeRoomLookup(catalog: Catalog, rows: seq<Booking>, roomId: int, userId: int)
    requires HasTicket(catalog, userId)
    requires TicketOf(catalog, userId).status == RESERVED || TicketOf(catalog, userId).ticketType.isRemote
    requires roomId !in catalog.rooms
    ensures PostDecision(catalog, rows, roomId, userId) == Fail(ForbiddenError)
  {
  }

  /** Without a booking of their own, changing is Forbidden whatever the room. */
  lemma MissingBookingBeforeRoomLookup(rooms: map<int, Room>, rows: seq<Booking>, roomId: int, userId: int)
    requires !HasBooking(rows, userId)
    ensures ChangeDecision(rooms, rows, roomId, userId) == Fail(ForbiddenError)
  {
  }

  /**
   * Any user holding a booking may rewrite the booking of another user by
   * naming its id, when the target room has a free slot; the row then
   * belongs to the caller.
   */
  lemma ChangeRewritesAnotherUsersBooking(catalog: Catalog, t: Table, roomId: int, userId: int, k: nat)
    requires Wellformed(t)
    requires k < |t.rows| && t.rows[k].userId != userId
    requires HasBooking(t.rows, userId)
    requires roomId in catalog.rooms && Occupancy(t.rows, roomId) < catalog.rooms[roomId].capacity
    ensures var (r, t') := ChangeSpec(catalog, t, roomId, userId, t.rows[k].id);
      && r == Ok(Booking(t.rows[k].id, userId, roomId))
      && t'.rows[k] == Booking(t.rows[k].id, userId, roomId)
  {
    assert HasId(t.rows, t.rows[k].id);
  }

  /**
   * Posting does not look at the user's existing bookings: a user who
   * already holds one gets a second, and the table then holds two of theirs.
   */
  lemma PostAllowsSecondBooking(catalog: Catalog, t: Table, roomId: int, userId: int)
    requires Wellformed(t)
    requires HasBooking(t.rows, userId)
    requires Eligible(catalog, userId)
    requires roomId in catalog.rooms && Occupancy(t.rows, roomId) < catalog.rooms[roomId].capacity
    ensures PostSpec(catalog, t, roomId, userId).0.Ok?
    ensures var rows' := PostSpec(catalog, t, roomId, userId).1.rows;
      exists i, j :: 0 <= i < j < |rows'| && rows'[i].userId == userId && rows'[j].userId == userId
  {
    var (r, t') := PostSpec(catalog, t, roomId, userId);
    var i :| 0 <= i < |t.rows| && t.rows[i].userId == userId;
    assert t'.rows[i] == t.rows[i] && t'.rows[|t.rows|] == r.value;
  }
}
