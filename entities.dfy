/**
 * The records the booking core reads and writes, the errors it raises,
 * and the read-only lookups (enrollments, tickets, rooms) it consults.
 */
module Entities {

  datatype TicketStatus = RESERVED | PAID

  datatype TicketType = TicketType(isRemote: bool, includesHotel: bool)

  datatype Ticket = Ticket(id: int, enrollmentId: int, status: TicketStatus, ticketType: TicketType)

  datatype Enrollment = Enrollment(id: int, userId: int)

  datatype Room = Room(id: int, name: string, capacity: int, hotelId: int)

  /** One row of the booking table. */
  datatype Booking = Booking(id: int, userId: int, roomId: int)

  /** `{id, Room}`: a booking joined with its room, as reading a booking returns it. */
  datatype BookingView = BookingView(id: int, room: Room)

  /**
   * The errors that reach the controller. The first three are the
   * application's own; TypeError is what dereferencing a missing row raises,
   * StoreError is the storage engine's failure to find the row to update.
   */
  datatype AppError =
    | NotFoundError
    | ForbiddenError
    | RoomWithoutCapacity
    | TypeError
    | StoreError

  /** The `name` field the controller dispatches on. */
  function Name(e: AppError): string
  {
    match e
    case NotFoundError => "NotFoundError"
    case ForbiddenError => "ForbiddenError"
    case RoomWithoutCapacity => "RoomWithoutCapacity"
    case TypeError => "TypeError"
    case StoreError => "PrismaClientKnownRequestError"
  }

  /** Distinct errors carry distinct names, so dispatching on the name is dispatching on the error. */
  lemma NameIdentifiesError(a: AppError, b: AppError)
    ensures Name(a) == Name(b) <==> a == b
  {
  }

  /**
   * Read-only lookups: the enrollment of each user, the ticket of each
   * enrollment (keyed by enrollment id) and the rooms by id.
   */
  datatype Catalog = Catalog(
    enrollmentsByUser: map<int, Enrollment>,
    ticketsByEnrollment: map<int, Ticket>,
    rooms: map<int, Room>)
}
