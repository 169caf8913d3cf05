# GoHotel booking server: a Dafny model of the room table and its handlers

The Go server in `main.go` keeps a global, in-memory table of five hotel rooms
and a `bookings` collection in a document store. Two handlers change that
state: `createBooking` refuses a room that is already booked, otherwise inserts
the booking and marks the room unavailable; `deleteBooking` looks the booking
up, deletes it and marks its room available again; both go through
`updateRoomAvailability`, which sets the flag on the first room with the given
id and stops. `getRooms` and `getBookings` only read.

The project has four modules:

- `Wrappers` (wrappers.dfy): an `Option` type.
- `Rooms` (rooms.dfy): the `Room` record and the room table as a sequence:
  the first-match lookup `FindRoom`, the reference definition of the update
  `SetAvailability`, the guard `IsBooked`, the starting table, and lemmas about
  them.
- `Bookings` (bookings.dfy): the `Booking` record and the collection as a
  sequence in insertion order. `Find` and `Remove` stand for the lookup and the
  delete by `_id`. Ids are natural numbers from a counter that stands in for
  store-assigned ObjectIDs.
- `Server` (server.dfy): the state machine. `Create` and `Delete` map a state
  and the store's outcome to a reply and a next state. The lemmas about them
  state what the handlers promise. The class `HotelServer` keeps the rooms in an
  array that it updates in place, with the collection and the id counter as
  fields. Its methods are proved to follow `Create` and `Delete` and to keep
  the invariant `Valid`.

Store calls that can fail are boolean parameters: `insertOk`, `lookupOk`,
`deleteOk` and `readOk`. The source answers 404 whenever the lookup before a
delete fails, for any reason, so `lookupOk = false` gives `NotFound` as well.
When the collection is empty, `getBookings` appends to a nil slice zero times
and so answers nil (JSON `null`), not an empty list. The model returns `None`
in that case.

`main` connects to a persistent store and refills only the room table; it never
clears the bookings collection. The starting state therefore takes the bookings
the store already holds, and the position of the id generator, as parameters.
Their only requirement is that stored ids are unique and below the generator,
which stands for the store's unique `_id` index and fresh ObjectIDs. After a
restart every room shows available whatever the store holds, so a room that
already has a stored booking can be booked a second time
(`Server.RestartAcceptsBookedRoom`).

The server validates no booking field. Check-in need not come before
check-out, and the requested room id need not exist in the table. The model
follows the code here: a booking for an unknown room is stored, and the table
is left unchanged.

## Model

| member | source | states |
|---|---|---|
| `Rooms.FindRoom` | main.go:41-42 | the result is the position of the first room with the id, or None exactly when no room has that id |
| `Rooms.SetAvailability` | main.go:40-47 | the update never changes the number of rooms |
| `Rooms.InitialRooms` | main.go:156-162 | `main` installs five rooms |
| `Rooms.InitialRoomsReady` | main.go:156-162 | the starting table has pairwise distinct ids and every room is available |
| `Rooms.IsBooked` | main.go:90-95 | a refused id belongs to some room in the table; when the first room with the id is unavailable, the id is refused |
| `Rooms.SetAvailabilityAt` | main.go:41-44 | room by room, the updated table equals the old one except at the first match, which gets the new flag |
| `Rooms.SetAvailabilityFirstMatch` | main.go:41-44 | the first room with the id gets `Available = v` and every other room is unchanged, including later rooms with the same id |
| `Rooms.SetAvailabilityNoMatch` | main.go:41-46 | an id that no room has leaves the table exactly as it was |
| `Rooms.SetAvailabilityKeepsRooms` | main.go:41-43 | length, and each room's id, type, price and image URL, are unchanged by the update |
| `Rooms.SetAvailabilityKeepsDistinct` | main.go:41-43 | distinct room ids stay distinct after an update |
| `Rooms.SetAvailabilityKeepsFind` | main.go:41-43 | the first room with any id is at the same position after an update |
| `Rooms.BookedIffFirstMatchUnavailable` | main.go:90-95 | with distinct ids, the guard (some room with the id is unavailable) holds exactly when the first room with the id is unavailable |
| `Rooms.MarkUnavailableBooks` | main.go:109 | after marking an existing room unavailable, the guard refuses that id |
| `Rooms.MarkAvailableFrees` | main.go:138 | with distinct ids, after marking a room available the guard no longer refuses that id |
| `Rooms.SetAvailabilityUndo` | main.go:90-109 | if the guard let an id through, marking it unavailable and then available restores the table exactly |
| `Bookings.Find` | main.go:124 | a found booking is the first stored booking with the id; None exactly when no stored booking has the id |
| `Bookings.Remove` | main.go:130 | the delete adds no booking |
| `Bookings.FindAppend` | main.go:101 | after an insert, a lookup finds the older booking with the id first, else the inserted one, else nothing |
| `Bookings.InsertFresh` | main.go:101 | inserting under the next fresh id keeps ids unique and issued, and the new booking can be looked up |
| `Bookings.RemoveKeeps` | main.go:130 | deleting keeps ids unique and issued, and keeps every booking with another id |
| `Bookings.RemoveGone` | main.go:130 | with unique ids, a deleted booking can no longer be found |
| `Bookings.RemoveLast` | main.go:130 | deleting the booking just inserted gives back the earlier collection |
| `Server.InitialState` | main.go:146-162 | the starting state holds the bookings already in the store and the generator's position unchanged, beside a refilled table in which every room is available; it is well formed |
| `Server.Create` | main.go:84-111 | 409 exactly when any room with the requested id is unavailable; otherwise 500 exactly when the insert fails; neither refusal changes the state; on success one booking is added, the id counter advances and the table keeps its length |
| `Server.Delete` | main.go:113-140 | never 409; 404 exactly when the lookup fails or finds no booking with the id; 500 exactly when the lookup succeeds and the delete fails; neither refusal changes the state; no reply issues an id or changes the number of rooms |
| `Server.CreateConflict` | main.go:90-95 | with distinct room ids, create answers 409 exactly when the first room with the requested id is unavailable, and then changes neither the rooms nor the bookings |
| `Server.CreateOk` | main.go:101-109 | a successful create adds exactly the new booking, which can then be found; an existing room becomes booked; an unknown room id leaves the table unchanged |
| `Server.CreateKeepsWellFormed` | main.go:84-111 | every create reply keeps room ids distinct and booking ids unique and issued |
| `Server.DeleteOk` | main.go:130-139 | a successful delete removes the booking, keeps all others, and frees its room for booking |
| `Server.DeleteKeepsWellFormed` | main.go:113-140 | every delete reply keeps the state well formed |
| `Server.CreateThenDelete` | main.go:84-140 | a successful create followed by deleting that booking restores the rooms and the bookings exactly, so the room is available again |
| `Server.RestartAcceptsBookedRoom` | main.go:146-162 | after a restart, a request for a room that already has a stored booking is accepted, and the collection then holds two bookings for that room |
| `Server.HotelServer.constructor` | main.go:146-162 | the new server holds the refilled room table beside the bookings already in the store, and is valid |
| `Server.HotelServer.UpdateRoomAvailability` | main.go:40-47 | the in-place scan with early exit leaves the array equal to `SetAvailability` of its old contents |
| `Server.HotelServer.GetRooms` | main.go:51-54 | returns the current room table |
| `Server.HotelServer.GetBookings` | main.go:56-82 | a failed read answers 500; otherwise the cursor loop returns every booking in the collection's order (insertion order in this model), or nil when there are none |
| `Server.HotelServer.RoomBooked` | main.go:90-95 | the guard loop answers true exactly when some room with the id is unavailable |
| `Server.HotelServer.CreateBooking` | main.go:84-111 | reply and new state are those of `Create`; the new booking's id is returned only on success; validity is kept |
| `Server.HotelServer.DeleteBooking` | main.go:113-140 | reply and new state are those of `Delete`; validity is kept |

## Left out

- The document-store driver (`Find`, `InsertOne`, `FindOne`, `DeleteOne`, cursors, connection, context timeouts) is a foreign library. Its effect is modelled as the sequence `bookings`, and each call's failure is a parameter.
- A failed insert or delete is assumed to change nothing in the collection. In the source, a write can be applied on the database while the driver still reports an error, for example when the 5-second context expires (main.go:98, 121). The handler then answers 500 and skips `updateRoomAvailability`. After an insert, that leaves a stored booking whose room still shows available, so the room can be booked twice. After a delete, it leaves a deleted booking whose room stays booked. The refusal clauses of `Server.Create` and `Server.Delete` ("a refused request changes nothing") hold only under this assumption.
- `Server.HotelServer.GetBookings`: the collection is a sequence in insertion order, so the listing comes back in insertion order. `Find` with an empty filter (main.go:63) promises no particular order in the database itself, so the order the model gives is an assumption.
- ObjectIDs are natural numbers from a counter. A client-supplied `_id`, and the duplicate-key failure it could cause, are not modelled: the request carries no id.
- HTTP routing, CORS, JSON decoding and encoding, and writing responses are I/O. Handlers take the decoded request or id and return a `Status`: `Ok`, `Conflict`, `NotFound` and `StoreError` stand for HTTP 200, 409, 404 and 500.
- JSON decode errors and invalid ObjectID hex strings are silently ignored by the source. The model takes well-formed inputs instead.
- Errors from decoding a document inside the cursor loop are ignored by the source. They are not modelled, and a failed read is a single `readOk = false`.
- `Server.HotelServer.GetBookings`: a cursor that fails part-way is not told apart from one that fails at once. Both answer 500, and the partial list is discarded in the source too.
- Handlers run concurrently in the server and share the global room slice without a lock. That data race is not modelled: the model is sequential.
- `Price` is a float64 in the source. It is a `real` here and is never computed with.
- The browser client `script.js` (rendering, fetch calls, notifications, confirmation dialogs) is not part of this model.
