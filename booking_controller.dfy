/**
 * The booking controller: how each operation's result or error becomes an
 * HTTP status and body. Errors are recognised by their `name`.
 */
module BookingController {
  import opened Wrappers
  import opened Entities
  import opened BookingRepository
  import opened BookingService

  const OK: int := 200
  const FORBIDDEN: int := 403
  const NOT_FOUND: int := 404
  const INTERNAL_SERVER_ERROR: int := 500

  /** What is sent: the booking with its room, `{bookingId}`, or the error's message. */
  datatype Payload =
    | BookingPayload(view: BookingView)
    | BookingIdPayload(bookingId: int)
    | ErrorPayload(error: AppError)

  datatype Response = Response(status: int, payload: Payload)

  /** GET /booking: the service result as it is, and 404 for every error. */
  function GetBooking(r: Result<BookingView, AppError>): (resp: Response)
    ensures resp.status == OK <==> r.Ok?
    ensures r.Ok? ==> resp.payload == BookingPayload(r.value)
    ensures r.Err? ==> resp == Response(NOT_FOUND, ErrorPayload(r.error))
  {
    match r
    case Ok(view) => Response(OK, BookingPayload(view))
    case Err(e) =>
      if Name(e) == "NotFoundError" then Response(NOT_FOUND, ErrorPayload(e))
      else Response(NOT_FOUND, ErrorPayload(e))
  }

  /**
   * POST /booking: `{bookingId}` of the created booking; NotFoundError 404,
   * ForbiddenError and RoomWithoutCapacity 403, any other error 500.
   */
  function PostBooking(r: Result<Booking, AppError>): (resp: Response)
    ensures resp.status == OK <==> r.Ok?
    ensures r.Ok? ==> resp.payload == BookingIdPayload(r.value.id)
    ensures r.Err? ==> resp.payload == ErrorPayload(r.error)
    ensures resp.status == NOT_FOUND <==> r == Err(NotFoundError)
    ensures resp.status == FORBIDDEN <==> r == Err(ForbiddenError) || r == Err(RoomWithoutCapacity)
    ensures resp.status == INTERNAL_SERVER_ERROR <==> r == Err(TypeError) || r == Err(StoreError)
  {
    match r
    case Ok(booking) => Response(OK, BookingIdPayload(booking.id))
    case Err(e) =>
      if Name(e) == "NotFoundError" then Response(NOT_FOUND, ErrorPayload(e))
      else if Name(e) == "ForbiddenError" then Response(FORBIDDEN, ErrorPayload(e))
      else if Name(e) == "RoomWithoutCapacity" then Response(FORBIDDEN, ErrorPayload(e))
      else Response(INTERNAL_SERVER_ERROR, ErrorPayload(e))
  }

  /**
   * PUT /booking/:bookingId: `{bookingId}` of the updated booking;
   * NotFoundError 404, every other error 403.
   */
  function ChangeBooking(r: Result<Booking, AppError>): (resp: Response)
    ensures resp.status == OK <==> r.Ok?
    ensures r.Ok? ==> resp.payload == BookingIdPayload(r.value.id)
    ensures r.Err? ==> resp.payload == ErrorPayload(r.error)
    ensures resp.status == NOT_FOUND <==> r == Err(NotFoundError)
    ensures resp.status == FORBIDDEN <==> r.Err? && r.error != NotFoundError
  {
    match r
    case Ok(booking) => Response(OK, BookingIdPayload(booking.id))
    case Err(e) =>
      if Name(e) == "NotFoundError" then Response(NOT_FOUND, ErrorPayload(e))
      else Response(FORBIDDEN, ErrorPayload(e))
  }

  // ---------------------------------------------------------------------------
  // Controller and service together
  // ---------------------------------------------------------------------------

  /** GET answers 404 exactly when the caller holds no booking, otherwise 200 with their first booking. */
  lemma GetAnswer(rows: seq<Booking>, rooms: map<int, Room>, userId: int)
    requires RoomsExist(rows, rooms)
    ensures GetBooking(ReadBooking(rows, rooms, userId)).status == NOT_FOUND <==> !HasBooking(rows, userId)
    ensures HasBooking(rows, userId) ==>
      var b := FirstOfUser(rows, userId).value;
      GetBooking(ReadBooking(rows, rooms, userId)) == Response(OK, BookingPayload(BookingView(b.id, rooms[b.roomId])))
  {
  }

  /**
   * POST answers 404 when enrollment or ticket is missing or an eligible
   * caller names a missing room, 403 for an ineligible ticket or a full
   * room, 200 otherwise; the service never makes it answer 500.
   */
  lemma PostAnswer(catalog: Catalog, t: Table, roomId: int, userId: int)
    requires Wellformed(t)
    ensures var resp := PostBooking(PostSpec(catalog, t, roomId, userId).0);
      && resp.status != INTERNAL_SERVER_ERROR
      && (resp.status == NOT_FOUND <==>
            !HasTicket(catalog, userId) || (Eligible(catalog, userId) && roomId !in catalog.rooms))
      && (resp.status == FORBIDDEN <==>
            (HasTicket(catalog, userId) && !Eligible(catalog, userId))
            || (Eligible(catalog, userId) && roomId in catalog.rooms
                && catalog.rooms[roomId].capacity == Occupancy(t.rows, roomId)))
      && (resp.status == OK <==> PostDecision(catalog, t.rows, roomId, userId).Pass?)
  {
    var d := PostDecision(catalog, t.rows, roomId, userId);
    assert d.Fail? ==> d.error in {NotFoundError, ForbiddenError, RoomWithoutCapacity};
  }

  /**
   * PUT answers 404 only when a caller holding a booking names a missing
   * room; a caller without a booking, a full room and an unknown booking id
   * all answer 403.
   */
  lemma ChangeAnswer(catalog: Catalog, t: Table, roomId: int, userId: int, bookingId: int)
    requires Wellformed(t)
    ensures var resp := ChangeBooking(ChangeSpec(catalog, t, roomId, userId, bookingId).0);
      && (resp.status == NOT_FOUND <==> HasBooking(t.rows, userId) && roomId !in catalog.rooms)
      && (resp.status == FORBIDDEN <==>
            !HasBooking(t.rows, userId)
            || (roomId in catalog.rooms && catalog.rooms[roomId].capacity == Occupancy(t.rows, roomId))
            || (ChangeDecision(catalog.rooms, t.rows, roomId, userId).Pass? && !HasId(t.rows, bookingId)))
      && (resp.status == OK ==> resp.payload == BookingIdPayload(bookingId))
  {
  }
}
