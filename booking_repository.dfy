/**
 * The booking table: an in-memory table of (id, userId, roomId) rows with
 * first-match lookup by user, filtering by room, append with a fresh id and
 * update in place by id.
 */
module BookingRepository {
  import opened Wrappers
  import opened Entities

  /** The abstract value of the table: its rows in order and the next id to hand out. */
  datatype Table = Table(rows: seq<Booking>, nextId: int)

  ghost predicate IdsDistinct(rows: seq<Booking>)
  {
    forall i, j :: 0 <= i < j < |rows| ==> rows[i].id != rows[j].id
  }

  /** Ids are positive, below the next id to hand out, and never shared. */
  ghost predicate Wellformed(t: Table)
  {
    && t.nextId >= 1
    && (forall i :: 0 <= i < |t.rows| ==> 1 <= t.rows[i].id < t.nextId)
    && IdsDistinct(t.rows)
  }

  /** Every row references an existing room (the foreign key booking.roomId -> room.id). */
  ghost predicate RoomsExist(rows: seq<Booking>, rooms: map<int, Room>)
  {
    forall i :: 0 <= i < |rows| ==> rows[i].roomId in rooms
  }

  /** The user holds at least one booking. */
  predicate HasBooking(rows: seq<Booking>, userId: int)
  {
    exists i :: 0 <= i < |rows| && rows[i].userId == userId
  }

  /** Position of the first row of `userId`, if any. */
  function FirstIndexOfUser(rows: seq<Booking>, userId: int): (k: Option<nat>)
    ensures k.None? <==> !HasBooking(rows, userId)
    ensures k.Some? ==> k.value < |rows| && rows[k.value].userId == userId
    ensures k.Some? ==> forall j :: 0 <= j < k.value ==> rows[j].userId != userId
  {
    if rows == [] then None
    else if rows[0].userId == userId then Some(0)
    else
      match FirstIndexOfUser(rows[1..], userId)
      case None => None
      case Some(k) => Some(k + 1)
  }

  /** `findFirst where userId`: the first row of `userId`, or nothing. */
  function FirstOfUser(rows: seq<Booking>, userId: int): (r: Option<Booking>)
    ensures r.None? <==> !HasBooking(rows, userId)
    ensures r.Some? ==> r.value.userId == userId
    ensures r.Some? ==> exists k :: (&& 0 <= k < |rows| && rows[k] == r.value
      && forall j :: 0 <= j < k ==> rows[j].userId != userId)
  {
    match FirstIndexOfUser(rows, userId)
    case None => None
    case Some(k) => Some(rows[k])
  }

  /** `findMany where roomId`: the rows of `roomId`, in table order. */
  function InRoom(rows: seq<Booking>, roomId: int): (r: seq<Booking>)
    ensures |r| <= |rows|
    ensures forall b :: b in r <==> b in rows && b.roomId == roomId
  {
    if rows == [] then []
    else (if rows[0].roomId == roomId then [rows[0]] else []) + InRoom(rows[1..], roomId)
  }

  /**
   * Each row of the room appears in the filter as often as in the table and
   * no other row appears, so the filter's length is the room's occupancy.
   */
  lemma {:induction false} InRoomMultiplicity(rows: seq<Booking>, roomId: int, b: Booking)
    ensures multiset(InRoom(rows, roomId))[b] == if b.roomId == roomId then multiset(rows)[b] else 0
  {
    if rows != [] {
      assert rows == [rows[0]] + rows[1..];
      InRoomMultiplicity(rows[1..], roomId, b);
    }
  }

  /** Appending a row adds it to its own room's list and to no other. */
  lemma {:induction false} InRoomAppend(rows: seq<Booking>, b: Booking, roomId: int)
    ensures InRoom(rows + [b], roomId) == InRoom(rows, roomId) + (if b.roomId == roomId then [b] else [])
  {
    if rows != [] {
      assert (rows + [b])[1..] == rows[1..] + [b];
      InRoomAppend(rows[1..], b, roomId);
    }
  }

  /**
   * Overwriting one row moves at most one unit of occupancy: the old row
   * leaves its room and the new row joins its own.
   */
  lemma {:induction false} OccupancyAfterSet(rows: seq<Booking>, k: nat, b: Booking, roomId: int)
    requires k < |rows|
    ensures |InRoom(rows[k := b], roomId)| + (if rows[k].roomId == roomId then 1 else 0)
         == |InRoom(rows, roomId)| + (if b.roomId == roomId then 1 else 0)
  {
    if k == 0 {
      assert rows[k := b][1..] == rows[1..];
    } else {
      assert rows[k := b][1..] == rows[1..][k - 1 := b];
      OccupancyAfterSet(rows[1..], k - 1, b, roomId);
    }
  }

  /** `update where id`: every row with id `bookingId` becomes `b`. */
  function Updated(rows: seq<Booking>, bookingId: int, b: Booking): (r: seq<Booking>)
  {
    seq(|rows|, i requires 0 <= i < |rows| => if rows[i].id == bookingId then b else rows[i])
  }

  /** With distinct ids, updating by id overwrites exactly the one row at that id's position. */
  lemma UpdatedIsSet(rows: seq<Booking>, k: nat, b: Booking)
    requires IdsDistinct(rows)
    requires k < |rows|
    ensures Updated(rows, rows[k].id, b) == rows[k := b]
  {
  }

  /** The row `create` appends, and the table after it. */
  function Create(t: Table, roomId: int, userId: int): (r: (Booking, Table))
    requires Wellformed(t)
    ensures Wellformed(r.1)
    ensures r.1.rows == t.rows + [r.0]
    ensures r.0.userId == userId && r.0.roomId == roomId
    ensures forall i :: 0 <= i < |t.rows| ==> t.rows[i].id != r.0.id
  {
    var b := Booking(t.nextId, userId, roomId);
    (b, Table(t.rows + [b], t.nextId + 1))
  }

  predicate HasId(rows: seq<Booking>, bookingId: int)
  {
    exists i :: 0 <= i < |rows| && rows[i].id == bookingId
  }

  /**
   * The result of `update ... where id: bookingId`, and the table after it.
   * A missing id makes the storage engine fail and leaves the table as it was.
   */
  function Update(t: Table, roomId: int, userId: int, bookingId: int): (r: (Result<Booking, AppError>, Table))
    requires Wellformed(t)
    ensures Wellformed(r.1) && r.1.nextId == t.nextId
    ensures r.0.Ok? <==> HasId(t.rows, bookingId)
    ensures r.0.Err? ==> r.0.error == StoreError && r.1 == t
    ensures r.0.Ok? ==> r.0.value == Booking(bookingId, userId, roomId)
    ensures r.0.Ok? ==> |r.1.rows| == |t.rows|
    ensures r.0.Ok? ==> forall i :: 0 <= i < |t.rows| ==>
      r.1.rows[i] == if t.rows[i].id == bookingId then r.0.value else t.rows[i]
  {
    if HasId(t.rows, bookingId) then
      var b := Booking(bookingId, userId, roomId);
      (Ok(b), Table(Updated(t.rows, bookingId, b), t.nextId))
    else
      (Err(StoreError), t)
  }

  /**
   * `getBooking`: the first booking of `userId` joined with its room. With
   * no such booking the source dereferences a null row, which raises.
   */
  function ReadBooking(rows: seq<Booking>, rooms: map<int, Room>, userId: int): (r: Result<BookingView, AppError>)
    requires RoomsExist(rows, rooms)
    ensures r.Err? <==> !HasBooking(rows, userId)
    ensures r.Err? ==> r.error == TypeError
    ensures r.Ok? ==> exists k :: (&& 0 <= k < |rows| && rows[k].userId == userId
      && r.value == BookingView(rows[k].id, rooms[rows[k].roomId])
      && forall j :: 0 <= j < k ==> rows[j].userId != userId)
  {
    match FirstIndexOfUser(rows, userId)
    case None => Err(TypeError)
    case Some(k) => Ok(BookingView(rows[k].id, rooms[rows[k].roomId]))
  }

  /** The booking table, changed in place by `create` and `update`. */
  class BookingTable {
    var rows: seq<Booking>
    var nextId: int

    function Snapshot(): Table
      reads this
    {
      Table(rows, nextId)
    }

    ghost predicate Valid()
      reads this
    {
      Wellformed(Snapshot())
    }

    constructor ()
      ensures Valid()
      ensures rows == [] && nextId == 1
    {
      rows := [];
      nextId := 1;
    }

    /** `getBookingByUser`: the first row of `userId`, or nothing. */
    method GetBookingByUser(userId: int) returns (r: Option<Booking>)
      ensures r == FirstOfUser(rows, userId)
    {
      var i := 0;
      while i < |rows|
        invariant 0 <= i <= |rows|
        invariant forall j :: 0 <= j < i ==> rows[j].userId != userId
      {
        if rows[i].userId == userId {
          return Some(rows[i]);
        }
        i := i + 1;
      }
      return None;
    }

    /** `getBookingByRoom`: the rows of `roomId`; its length is the room's occupancy. */
    method GetBookingByRoom(roomId: int) returns (r: seq<Booking>)
      ensures r == InRoom(rows, roomId)
    {
      r := [];
      var i := 0;
      while i < |rows|
        invariant 0 <= i <= |rows|
        invariant r == InRoom(rows[..i], roomId)
      {
        assert rows[..i + 1] == rows[..i] + [rows[i]];
        InRoomAppend(rows[..i], rows[i], roomId);
        if rows[i].roomId == roomId {
          r := r + [rows[i]];
        }
        i := i + 1;
      }
      assert rows[..i] == rows;
    }

    /** `getBooking`: the first booking of `userId` with its room; raises when there is none. */
    method GetBooking(rooms: map<int, Room>, userId: int) returns (r: Result<BookingView, AppError>)
      requires RoomsExist(rows, rooms)
      ensures r == ReadBooking(rows, rooms, userId)
    {
      var found := GetBookingByUser(userId);
      match found
      case None =>
        r := Err(TypeError);
      case Some(b) =>
        r := Ok(BookingView(b.id, rooms[b.roomId]));
    }

    /** `postBooking`: appends a row for `userId` in `roomId` under a fresh id. */
    method PostBooking(roomId: int, userId: int) returns (b: Booking)
      requires Valid()
      modifies this
      ensures Valid()
      ensures (b, Snapshot()) == Create(old(Snapshot()), roomId, userId)
    {
      b := Booking(nextId, userId, roomId);
      rows := rows + [b];
      nextId := nextId + 1;
    }

    /** `changeBooking`: rewrites user and room of the row with id `bookingId`, in place. */
    method ChangeBooking(roomId: int, userId: int, bookingId: int) returns (r: Result<Booking, AppError>)
      requires Valid()
      modifies this
      ensures Valid()
      ensures (r, Snapshot()) == Update(old(Snapshot()), roomId, userId, bookingId)
    {
      var i := 0;
      while i < |rows|
        invariant 0 <= i <= |rows|
        invariant forall j :: 0 <= j < i ==> rows[j].id != bookingId
      {
        if rows[i].id == bookingId {
          var b := Booking(bookingId, userId, roomId);
          UpdatedIsSet(rows, i, b);
          rows := rows[i := b];
          return Ok(b);
        }
        i := i + 1;
      }
      return Err(StoreError);
    }
  }
}
