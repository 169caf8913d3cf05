/**
 * The server's in-memory room table (main.go): the `Room` record, the
 * first-match update done by `updateRoomAvailability`, the "already booked"
 * guard of `createBooking`, and the table that `main` starts with.
 *
 * The table is specified here on sequences; the server class in server.dfy
 * keeps it in an array and updates it in place.
 */
module Rooms {
  import opened Wrappers

  /** One room. `price` is a float64 in the server that is carried and never computed with. */
  datatype Room = Room(id: string, kind: string, price: real, available: bool, imageUrl: string)

  /** Position of the first room whose id is `id`, or None when no room has it. */
  function FindRoom(rs: seq<Room>, id: string): (r: Option<nat>)
    ensures r.Some? ==> r.value < |rs| && rs[r.value].id == id
    ensures r.Some? ==> forall k :: 0 <= k < r.value ==> rs[k].id != id
    ensures r.None? ==> forall k :: 0 <= k < |rs| ==> rs[k].id != id
  {
    if rs == [] then None
    else if rs[0].id == id then Some(0)
    else match FindRoom(rs[1..], id)
      case None => None
      case Some(k) => Some(k + 1)
  }

  /**
   * The table after `updateRoomAvailability(id, available)`: the scan stops at
   * the first room with that id and sets its flag; later rooms are not visited.
   */
  function SetAvailability(rs: seq<Room>, id: string, available: bool): (r: seq<Room>)
    ensures |r| == |rs|
  {
    if rs == [] then []
    else if rs[0].id == id then [rs[0].(available := available)] + rs[1..]
    else [rs[0]] + SetAvailability(rs[1..], id, available)
  }

  /** Some room with this id is marked unavailable: the condition under which `createBooking` refuses. */
  predicate IsBooked(rs: seq<Room>, id: string)
    ensures IsBooked(rs, id) ==> FindRoom(rs, id).Some?
    ensures FindRoom(rs, id).Some? && !rs[FindRoom(rs, id).value].available ==> IsBooked(rs, id)
  {
    exists k :: 0 <= k < |rs| && rs[k].id == id && !rs[k].available
  }

  /** No two rooms share an id. */
  predicate DistinctIds(rs: seq<Room>) {
    forall i, j :: 0 <= i < j < |rs| ==> rs[i].id != rs[j].id
  }

  /** The five rooms `main` installs before serving; every one starts out available. */
  function InitialRooms(): (r: seq<Room>)
    ensures |r| == 5
  {
    [ Room("101", "Standard Room", 120.00, true, "https://images.unsplash.com/photo-1566665797739-1674de7a421a?q=80&w=2874&auto=format&fit=crop"),
      Room("102", "Standard Room", 120.00, true, "https://images.unsplash.com/photo-1598605272254-16f0c0ecdfa5?q=80&w=2874&auto=format&fit=crop"),
      Room("201", "Deluxe Room", 180.00, true, "https://images.unsplash.com/photo-1590490360182-c33d57733427?q=80&w=2874&auto=format&fit=crop"),
      Room("202", "Deluxe Room", 180.00, true, "https://images.unsplash.com/photo-1568495248636-6432b97bd949?q=80&w=2874&auto=format&fit=crop"),
      Room("301", "Executive Suite", 250.00, true, "https://images.unsplash.com/photo-1611892440504-42a792e24d32?q=80&w=2940&auto=format&fit=crop") ]
  }

  /** The starting table has distinct ids and every room available, so "the first match" is "the match". */
  lemma InitialRoomsReady()
    ensures DistinctIds(InitialRooms())
    ensures forall k :: 0 <= k < |InitialRooms()| ==> InitialRooms()[k].available
  {
    var ids := ["101", "102", "201", "202", "301"];
    assert forall k :: 0 <= k < 5 ==> InitialRooms()[k].id == ids[k];
    assert forall i, j :: 0 <= i < j < 5 ==> ids[i][0] != ids[j][0] || ids[i][2] != ids[j][2];
  }

  /** Room by room: only the first room with `id` changes, and it only gets the new flag. */
  lemma {:induction false} SetAvailabilityAt(rs: seq<Room>, id: string, available: bool, k: nat)
    requires k < |rs|
    ensures SetAvailability(rs, id, available)[k] ==
      if FindRoom(rs, id) == Some(k) then rs[k].(available := available) else rs[k]
  {
    if rs[0].id != id && k > 0 {
      SetAvailabilityAt(rs[1..], id, available, k - 1);
    }
  }

  /** The first room with `id` takes the new flag and every other room is left as it was. */
  lemma {:induction false} SetAvailabilityFirstMatch(rs: seq<Room>, id: string, available: bool, i: nat)
    requires FindRoom(rs, id) == Some(i)
    ensures SetAvailability(rs, id, available)[i] == rs[i].(available := available)
    ensures forall k :: 0 <= k < |rs| && k != i ==> SetAvailability(rs, id, available)[k] == rs[k]
  {
    SetAvailabilityAt(rs, id, available, i);
    forall k | 0 <= k < |rs| && k != i
      ensures SetAvailability(rs, id, available)[k] == rs[k]
    {
      SetAvailabilityAt(rs, id, available, k);
    }
  }

  /** An id that no room has leaves the table exactly as it was. */
  lemma {:induction false} SetAvailabilityNoMatch(rs: seq<Room>, id: string, available: bool)
    requires FindRoom(rs, id) == None
    ensures SetAvailability(rs, id, available) == rs
  {
    forall k | 0 <= k < |rs|
      ensures SetAvailability(rs, id, available)[k] == rs[k]
    {
      SetAvailabilityAt(rs, id, available, k);
    }
  }

  /** The update never changes the number of rooms, nor any room's id, type, price or image. */
  lemma {:induction false} SetAvailabilityKeepsRooms(rs: seq<Room>, id: string, available: bool)
    ensures |SetAvailability(rs, id, available)| == |rs|
    ensures forall k :: 0 <= k < |rs| ==>
      var r := SetAvailability(rs, id, available)[k];
      r.id == rs[k].id && r.kind == rs[k].kind && r.price == rs[k].price && r.imageUrl == rs[k].imageUrl
  {
    forall k | 0 <= k < |rs|
      ensures SetAvailability(rs, id, available)[k].(available := rs[k].available) == rs[k]
    {
      SetAvailabilityAt(rs, id, available, k);
    }
  }

  /** Distinct ids stay distinct, since the update changes no id. */
  lemma {:induction false} SetAvailabilityKeepsDistinct(rs: seq<Room>, id: string, available: bool)
    requires DistinctIds(rs)
    ensures DistinctIds(SetAvailability(rs, id, available))
  {
    SetAvailabilityKeepsRooms(rs, id, available);
  }

  /**
   * With distinct ids the guard of `createBooking`, which looks at every room,
   * agrees with the first room that `updateRoomAvailability` would touch.
   */
  lemma {:induction false} BookedIffFirstMatchUnavailable(rs: seq<Room>, id: string)
    requires DistinctIds(rs)
    ensures IsBooked(rs, id) <==> FindRoom(rs, id).Some? && !rs[FindRoom(rs, id).value].available
  {
    if IsBooked(rs, id) {
      var k :| 0 <= k < |rs| && rs[k].id == id && !rs[k].available;
      assert FindRoom(rs, id) == Some(k);
    }
  }

  /** Marking a room that exists as unavailable makes the guard refuse it from then on. */
  lemma {:induction false} MarkUnavailableBooks(rs: seq<Room>, id: string)
    requires FindRoom(rs, id).Some?
    ensures IsBooked(SetAvailability(rs, id, false), id)
  {
    var i := FindRoom(rs, id).value;
    SetAvailabilityAt(rs, id, false, i);
    assert SetAvailability(rs, id, false)[i].id == id;
  }

  /** With distinct ids, marking a room available again lifts the guard for that id. */
  lemma {:induction false} MarkAvailableFrees(rs: seq<Room>, id: string)
    requires DistinctIds(rs)
    ensures !IsBooked(SetAvailability(rs, id, true), id)
  {
    SetAvailabilityKeepsDistinct(rs, id, true);
    var r := SetAvailability(rs, id, true);
    match FindRoom(rs, id)
    case None =>
      SetAvailabilityNoMatch(rs, id, true);
      BookedIffFirstMatchUnavailable(rs, id);
    case Some(i) =>
      SetAvailabilityFirstMatch(rs, id, true, i);
      SetAvailabilityKeepsRooms(rs, id, true);
      assert FindRoom(r, id) == Some(i) by {
        assert r[i].id == id;
        forall k | 0 <= k < i ensures r[k].id != id { assert r[k] == rs[k]; }
      }
      BookedIffFirstMatchUnavailable(r, id);
  }

  /** The update changes no id, so every first-match position stays where it was. */
  lemma {:induction false} SetAvailabilityKeepsFind(rs: seq<Room>, id: string, available: bool, other: string)
    ensures FindRoom(SetAvailability(rs, id, available), other) == FindRoom(rs, other)
  {
    if rs != [] && rs[0].id != id {
      SetAvailabilityKeepsFind(rs[1..], id, available, other);
      assert SetAvailability(rs, id, available)[1..] == SetAvailability(rs[1..], id, available);
    }
  }

  /**
   * Booking a room the guard let through and then freeing it restores the
   * table exactly: the room it touched was available beforehand.
   */
  lemma {:induction false} SetAvailabilityUndo(rs: seq<Room>, id: string)
    requires !IsBooked(rs, id)
    ensures SetAvailability(SetAvailability(rs, id, false), id, true) == rs
  {
    var booked := SetAvailability(rs, id, false);
    match FindRoom(rs, id)
    case None =>
      SetAvailabilityNoMatch(rs, id, false);
      SetAvailabilityNoMatch(rs, id, true);
    case Some(i) =>
      SetAvailabilityKeepsFind(rs, id, false, id);
      SetAvailabilityFirstMatch(rs, id, false, i);
      SetAvailabilityFirstMatch(booked, id, true, i);
      assert rs[i].available;
  }
}
