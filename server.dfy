/**
 * The booking server's handlers (main.go) as a state machine over the room
 * table and the bookings collection. `Create` and `Delete` give each
 * handler's reply and next state as functions; the class `HotelServer` runs
 * them step by step on a room array updated in place, and its methods are
 * proved to follow those functions.
 *
 * Store failures are parameters: `insertOk`, `lookupOk`, `deleteOk` and
 * `readOk` say whether the corresponding document-store call succeeded.
 */
module Server {
  import opened Wrappers
  import opened Rooms
  import opened Bookings

  /** The reply of a handler: HTTP 200, 409, 404 or 500. */
  datatype Status = Ok | Conflict | NotFound | StoreError

  /** The decoded body of a booking request: every field of a booking but the id. */
  datatype BookingRequest = BookingRequest(room: string, guestName: string, checkIn: string, checkOut: string)

  /** The booking that a successful insert stores under the id `id`. */
  function Stored(id: BookingId, req: BookingRequest): Booking {
    Booking(id, req.room, req.guestName, req.checkIn, req.checkOut)
  }

  /** Everything the handlers read and change: the room table, the collection, the id generator. */
  datatype State = State(rooms: seq<Room>, bookings: seq<Booking>, nextId: nat)

  /** Room ids distinct (as `main` sets them up), booking ids unique and all issued by the generator. */
  predicate WellFormed(s: State) {
    DistinctIds(s.rooms) && UniqueIds(s.bookings) && IdsBelow(s.bookings, s.nextId)
  }

  /**
   * The state once `main` has filled the room table and before any request.
   * The bookings collection lives in a persistent store that `main` connects to
   * and never clears, so whatever it already holds (`existing`) is there from the
   * start, while the room table is refilled with five available rooms. `next` is
   * where the id generator stands: above every stored id.
   */
  function InitialState(existing: seq<Booking>, next: nat): (s: State)
    requires UniqueIds(existing) && IdsBelow(existing, next)
    ensures WellFormed(s) && s.bookings == existing && s.nextId == next
    ensures forall k :: 0 <= k < |s.rooms| ==> s.rooms[k].available
  {
    InitialRoomsReady();
    State(InitialRooms(), existing, next)
  }

  /**
   * `createBooking`: refuse with a conflict when any room with the requested
   * id is unavailable; otherwise insert, and only after a successful insert
   * mark the room unavailable.
   */
  function Create(s: State, req: BookingRequest, insertOk: bool): (r: (Status, State))
    ensures r.0 == Conflict <==> IsBooked(s.rooms, req.room)
    ensures r.0 == StoreError <==> !IsBooked(s.rooms, req.room) && !insertOk
    ensures r.0 != Ok ==> r.1 == s
    ensures r.0 == Ok ==> r.1.nextId == s.nextId + 1 && |r.1.bookings| == |s.bookings| + 1 && |r.1.rooms| == |s.rooms|
  {
    if IsBooked(s.rooms, req.room) then (Conflict, s)
    else if !insertOk then (StoreError, s)
    else (Ok, State(SetAvailability(s.rooms, req.room, false), s.bookings + [Stored(s.nextId, req)], s.nextId + 1))
  }

  /**
   * `deleteBooking`: a failed lookup (missing or not) is "not found"; a
   * failed delete is an error; otherwise the booking goes and its room is
   * marked available.
   */
  function Delete(s: State, id: BookingId, lookupOk: bool, deleteOk: bool): (r: (Status, State))
    ensures r.0 != Conflict
    ensures r.0 == NotFound <==> !lookupOk || Find(s.bookings, id).None?
    ensures r.0 == StoreError <==> lookupOk && Find(s.bookings, id).Some? && !deleteOk
    ensures r.0 != Ok ==> r.1 == s
    ensures r.1.nextId == s.nextId && |r.1.rooms| == |s.rooms|
  {
    if !lookupOk then (NotFound, s)
    else match Find(s.bookings, id)
      case None => (NotFound, s)
      case Some(b) =>
        if !deleteOk then (StoreError, s)
        else (Ok, State(SetAvailability(s.rooms, b.room, true), Remove(s.bookings, id), s.nextId))
  }

  /**
   * The create handler answers 409 exactly when the room it would book is
   * unavailable, and then changes nothing.
   */
  lemma CreateConflict(s: State, req: BookingRequest, insertOk: bool)
    requires WellFormed(s)
    ensures var i := FindRoom(s.rooms, req.room);
      Create(s, req, insertOk).0 == Conflict <==> i.Some? && !s.rooms[i.value].available
    ensures Create(s, req, insertOk).0 == Conflict ==> Create(s, req, insertOk).1 == s
  {
    BookedIffFirstMatchUnavailable(s.rooms, req.room);
  }

  /**
   * A successful create stores exactly the new booking under a fresh id and
   * makes its room unavailable; a room id missing from the table still gets
   * its booking stored and leaves the table unchanged.
   */
  lemma CreateOk(s: State, req: BookingRequest)
    requires WellFormed(s) && !IsBooked(s.rooms, req.room)
    ensures var (status, t) := Create(s, req, true);
      && status == Ok
      && t.bookings == s.bookings + [Stored(s.nextId, req)]
      && Find(t.bookings, s.nextId) == Some(Stored(s.nextId, req))
      && (FindRoom(s.rooms, req.room).Some? ==> IsBooked(t.rooms, req.room))
      && (FindRoom(s.rooms, req.room).None? ==> t.rooms == s.rooms)
  {
    InsertFresh(s.bookings, Stored(s.nextId, req), s.nextId);
    if FindRoom(s.rooms, req.room).Some? {
      MarkUnavailableBooks(s.rooms, req.room);
    } else {
      SetAvailabilityNoMatch(s.rooms, req.room, false);
    }
  }

  /** Every reply of the create handler keeps the state well formed. */
  lemma CreateKeepsWellFormed(s: State, req: BookingRequest, insertOk: bool)
    requires WellFormed(s)
    ensures WellFormed(Create(s, req, insertOk).1)
  {
    if !IsBooked(s.rooms, req.room) && insertOk {
      InsertFresh(s.bookings, Stored(s.nextId, req), s.nextId);
      SetAvailabilityKeepsDistinct(s.rooms, req.room, false);
    }
  }

  /**
   * A successful delete removes the booking, keeps every other booking, and
   * marks the booking's room available so that it can be booked again.
   */
  lemma DeleteOk(s: State, id: BookingId, b: Booking)
    requires WellFormed(s) && b in s.bookings && b.id == id
    ensures var (status, t) := Delete(s, id, true, true);
      && status == Ok
      && Find(t.bookings, id) == None
      && (forall x :: x in s.bookings && x.id != id ==> x in t.bookings)
      && !IsBooked(t.rooms, b.room)
  {
    var found := Find(s.bookings, id);
    assert found == Some(b) by {
      var i :| 0 <= i < |s.bookings| && s.bookings[i] == b;
      var j :| 0 <= j < |s.bookings| && s.bookings[j] == found.value;
    }
    RemoveGone(s.bookings, id);
    RemoveKeeps(s.bookings, id, s.nextId);
    MarkAvailableFrees(s.rooms, b.room);
  }

  /** Every reply of the delete handler keeps the state well formed. */
  lemma DeleteKeepsWellFormed(s: State, id: BookingId, lookupOk: bool, deleteOk: bool)
    requires WellFormed(s)
    ensures WellFormed(Delete(s, id, lookupOk, deleteOk).1)
  {
    if lookupOk && Find(s.bookings, id).Some? && deleteOk {
      RemoveKeeps(s.bookings, id, s.nextId);
      SetAvailabilityKeepsDistinct(s.rooms, Find(s.bookings, id).value.room, true);
    }
  }

  /**
   * Creating a booking and then deleting it restores the room table and the
   * collection exactly; only the id generator has moved on. In particular the
   * room is available again, as the create required it to be.
   */
  lemma CreateThenDelete(s: State, req: BookingRequest)
    requires WellFormed(s) && Create(s, req, true).0 == Ok
    ensures Delete(Create(s, req, true).1, s.nextId, true, true) == (Ok, State(s.rooms, s.bookings, s.nextId + 1))
    ensures !IsBooked(Delete(Create(s, req, true).1, s.nextId, true, true).1.rooms, req.room)
  {
    var b := Stored(s.nextId, req);
    InsertFresh(s.bookings, b, s.nextId);
    RemoveLast(s.bookings, b);
    SetAvailabilityUndo(s.rooms, req.room);
  }

  /**
   * After a restart the refilled table does not reflect the stored bookings:
   * the first request for any room is accepted, even when the collection
   * already holds a booking for that room, which is then booked twice.
   */
  lemma RestartAcceptsBookedRoom(existing: seq<Booking>, next: nat, req: BookingRequest, earlier: Booking)
    requires UniqueIds(existing) && IdsBelow(existing, next)
    requires earlier in existing && earlier.room == req.room
    ensures var (status, t) := Create(InitialState(existing, next), req, true);
      && status == Ok
      && earlier in t.bookings && Stored(next, req) in t.bookings
      && earlier.id != next && earlier.room == Stored(next, req).room
  {
    var s := InitialState(existing, next);
    assert !IsBooked(s.rooms, req.room);
  }

  /** The server process: the global room table and its handle on the bookings collection. */
  class HotelServer {
    const rooms: array<Room>
    var bookings: seq<Booking>
    var nextId: nat

    ghost function Abstract(): State
      reads this, rooms
    {
      State(rooms[..], bookings, nextId)
    }

    ghost predicate Valid()
      reads this, rooms
    {
      WellFormed(Abstract())
    }

    /** What `main` sets up: the five starting rooms beside the collection as the store holds it. */
    constructor (existing: seq<Booking>, next: nat)
      requires UniqueIds(existing) && IdsBelow(existing, next)
      ensures Valid() && Abstract() == InitialState(existing, next)
      ensures fresh(rooms)
    {
      var init := InitialRooms();
      rooms := new Room[|init|](k requires 0 <= k < |init| => init[k]);
      bookings := existing;
      nextId := next;
      new;
      assert rooms[..] == init;
    }

    /** `updateRoomAvailability`: scan for the first room with the id, set its flag, stop. */
    method UpdateRoomAvailability(roomId: string, available: bool)
      modifies rooms
      ensures rooms[..] == SetAvailability(old(rooms[..]), roomId, available)
    {
      ghost var before := rooms[..];
      var i := 0;
      while i < rooms.Length
        invariant 0 <= i <= rooms.Length
        invariant rooms[..] == before
        invariant forall k :: 0 <= k < i ==> rooms[k].id != roomId
      {
        if rooms[i].id == roomId {
          rooms[i] := rooms[i].(available := available);
          assert FindRoom(before, roomId) == Some(i);
          SetAvailabilityFirstMatch(before, roomId, available, i);
          assert rooms[..] == SetAvailability(before, roomId, available);
          return;
        }
        i := i + 1;
      }
      SetAvailabilityNoMatch(before, roomId, available);
    }

    /** `getRooms`: the room table as it stands. */
    method GetRooms() returns (listing: seq<Room>)
      ensures listing == rooms[..]
    {
      listing := rooms[..];
    }

    /**
     * `getBookings`: walk the cursor over the collection, appending each
     * booking to an initially nil slice. An empty collection therefore
     * answers nil (None) rather than an empty list; a failed read answers 500.
     */
    method GetBookings(readOk: bool) returns (status: Status, listing: Option<seq<Booking>>)
      ensures status == if readOk then Ok else StoreError
      ensures status == Ok ==> listing == if bookings == [] then None else Some(bookings)
      ensures status == StoreError ==> listing == None
    {
      if !readOk {
        return StoreError, None;
      }
      listing := None;
      var i := 0;
      while i < |bookings|
        invariant 0 <= i <= |bookings|
        invariant listing == if i == 0 then None else Some(bookings[..i])
      {
        var prefix := if listing.None? then [] else listing.value;
        listing := Some(prefix + [bookings[i]]);
        assert bookings[..i + 1] == bookings[..i] + [bookings[i]];
        i := i + 1;
      }
      assert bookings[..i] == bookings;
      status := Ok;
    }

    /** The guard loop of `createBooking`: is any room with this id unavailable? */
    method RoomBooked(roomId: string) returns (booked: bool)
      ensures booked == IsBooked(rooms[..], roomId)
    {
      var i := 0;
      while i < rooms.Length
        invariant 0 <= i <= rooms.Length
        invariant forall k :: 0 <= k < i ==> !(rooms[k].id == roomId && !rooms[k].available)
      {
        if rooms[i].id == roomId && !rooms[i].available {
          assert rooms[..][i] == rooms[i];
          return true;
        }
        i := i + 1;
      }
      return false;
    }

    /**
     * `createBooking`: 409 when the room is taken, 500 when the insert fails,
     * otherwise the new booking's id, and the room is then marked unavailable.
     */
    method CreateBooking(req: BookingRequest, insertOk: bool) returns (status: Status, inserted: Option<BookingId>)
      requires Valid()
      modifies this, rooms
      ensures Valid()
      ensures (status, Abstract()) == Create(old(Abstract()), req, insertOk)
      ensures inserted == if status == Ok then Some(old(nextId)) else None
    {
      CreateKeepsWellFormed(Abstract(), req, insertOk);
      var booked := RoomBooked(req.room);
      if booked {
        return Conflict, None;
      }
      if !insertOk {
        return StoreError, None;
      }
      bookings := bookings + [Stored(nextId, req)];
      inserted := Some(nextId);
      nextId := nextId + 1;
      UpdateRoomAvailability(req.room, false);
      status := Ok;
    }

    /**
     * `deleteBooking`: 404 when the lookup fails, 500 when the delete fails,
     * otherwise the booking is removed and its room marked available.
     */
    method DeleteBooking(id: BookingId, lookupOk: bool, deleteOk: bool) returns (status: Status)
      requires Valid()
      modifies this, rooms
      ensures Valid()
      ensures (status, Abstract()) == Delete(old(Abstract()), id, lookupOk, deleteOk)
    {
      DeleteKeepsWellFormed(Abstract(), id, lookupOk, deleteOk);
      if !lookupOk {
        return NotFound;
      }
      var found := Find(bookings, id);
      if found.None? {
        return NotFound;
      }
      if !deleteOk {
        return StoreError;
      }
      bookings := Remove(bookings, id);
      UpdateRoomAvailability(found.value.room, true);
      status := Ok;
    }
  }

  /** A session against a server whose store starts empty: book room 101, have a second attempt refused, cancel, book again. */
  method BookCancelRebook() {
    var server := new HotelServer([], 0);
    var req := BookingRequest("101", "Alice", "2024-06-01", "2024-06-05");
    ghost var s0 := server.Abstract();
    assert s0.rooms[0].id == "101";
    assert FindRoom(s0.rooms, "101") == Some(0);
    InitialRoomsReady();
    BookedIffFirstMatchUnavailable(s0.rooms, "101");
    var status, id := server.CreateBooking(req, true);
    assert status == Ok && id == Some(0);
    CreateOk(s0, req);
    var again, _ := server.CreateBooking(req, true);
    assert again == Conflict;
    var cancelled := server.DeleteBooking(0, true, true);
    CreateThenDelete(s0, req);
    assert cancelled == Ok && server.Abstract().rooms == s0.rooms;
    var rebooked, _ := server.CreateBooking(req, true);
    assert rebooked == Ok;
  }
}
