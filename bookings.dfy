/**
 * The "bookings" collection the server keeps in its document store
 * (main.go: type Booking and the Find / InsertOne / FindOne / DeleteOne calls).
 * The collection is a sequence in natural (insertion) order; lookups and
 * deletion by `_id` act on the first document with that id.
 */
module Bookings {
  import opened Wrappers

  /** Stands in for the store-assigned ObjectID. */
  type BookingId = nat

  datatype Booking = Booking(id: BookingId, room: string, guestName: string, checkIn: string, checkOut: string)

  /** No two stored bookings share an id. */
  predicate UniqueIds(store: seq<Booking>) {
    forall i, j :: 0 <= i < j < |store| ==> store[i].id != store[j].id
  }

  /** Every stored id was handed out before the generator reached `next`. */
  predicate IdsBelow(store: seq<Booking>, next: nat) {
    forall b :: b in store ==> b.id < next
  }

  /** `FindOne({_id: id})`: the first stored booking with that id, or None. */
  function Find(store: seq<Booking>, id: BookingId): (r: Option<Booking>)
    ensures r.Some? ==> r.value in store && r.value.id == id
    ensures r.None? <==> forall b :: b in store ==> b.id != id
    ensures r.Some? ==> exists k :: 0 <= k < |store| && store[k] == r.value && forall j :: 0 <= j < k ==> store[j].id != id
  {
    if store == [] then None
    else if store[0].id == id then Some(store[0])
    else Find(store[1..], id)
  }

  /** `DeleteOne({_id: id})`: the collection without its first booking with that id. */
  function Remove(store: seq<Booking>, id: BookingId): (r: seq<Booking>)
    ensures forall b :: b in r ==> b in store
  {
    if store == [] then []
    else if store[0].id == id then store[1..]
    else [store[0]] + Remove(store[1..], id)
  }

  /** Looking up after an append finds the older booking first, else the new one. */
  lemma {:induction false} FindAppend(store: seq<Booking>, b: Booking, id: BookingId)
    ensures Find(store + [b], id) ==
      if Find(store, id).Some? then Find(store, id) else if b.id == id then Some(b) else None
  {
    if store != [] {
      assert (store + [b])[1..] == store[1..] + [b];
      if store[0].id != id {
        FindAppend(store[1..], b, id);
      }
    }
  }

  /**
   * Inserting a booking whose id is the generator's next value keeps ids
   * unique and below the advanced generator, and the new booking can be found.
   */
  lemma {:induction false} InsertFresh(store: seq<Booking>, b: Booking, next: nat)
    requires UniqueIds(store) && IdsBelow(store, next) && b.id == next
    ensures UniqueIds(store + [b]) && IdsBelow(store + [b], next + 1)
    ensures Find(store + [b], next) == Some(b)
  {
    FindAppend(store, b, next);
    var s := store + [b];
    forall i, j | 0 <= i < j < |s| ensures s[i].id != s[j].id {
      if j == |store| {
        assert s[i] in store;
      }
    }
  }

  /** Removal keeps ids unique, the generator bound, and every booking with another id. */
  lemma {:induction false} RemoveKeeps(store: seq<Booking>, id: BookingId, next: nat)
    requires UniqueIds(store)
    ensures UniqueIds(Remove(store, id))
    ensures IdsBelow(store, next) ==> IdsBelow(Remove(store, id), next)
    ensures forall b :: b in store && b.id != id ==> b in Remove(store, id)
  {
    if store != [] && store[0].id != id {
      var tail := store[1..];
      assert UniqueIds(tail) by {
        forall i, j | 0 <= i < j < |tail| ensures tail[i].id != tail[j].id {
          assert tail[i] == store[i + 1] && tail[j] == store[j + 1];
        }
      }
      RemoveKeeps(tail, id, next);
      var r := Remove(store, id);
      forall i, j | 0 <= i < j < |r| ensures r[i].id != r[j].id {
        if i == 0 {
          assert r[j] in tail;
          var m :| 0 <= m < |tail| && tail[m] == r[j];
          assert store[m + 1] == r[j];
        } else {
          assert r[i] == Remove(tail, id)[i - 1] && r[j] == Remove(tail, id)[j - 1];
        }
      }
      forall b | b in store && b.id != id ensures b in r {
        if b != store[0] {
          assert b in tail;
        }
      }
    }
  }

  /** With unique ids a removed booking is gone: looking it up finds nothing. */
  lemma {:induction false} RemoveGone(store: seq<Booking>, id: BookingId)
    requires UniqueIds(store)
    ensures Find(Remove(store, id), id) == None
  {
    if store != [] {
      if store[0].id == id {
        forall b | b in store[1..] ensures b.id != id {
          var m :| 0 <= m < |store[1..]| && store[1..][m] == b;
          assert store[m + 1] == b;
        }
      } else {
        var tail := store[1..];
        assert UniqueIds(tail) by {
          forall i, j | 0 <= i < j < |tail| ensures tail[i].id != tail[j].id {
            assert tail[i] == store[i + 1] && tail[j] == store[j + 1];
          }
        }
        RemoveGone(tail, id);
      }
    }
  }

  /** Deleting the booking just appended gives back the collection as it was before. */
  lemma {:induction false} RemoveLast(store: seq<Booking>, b: Booking)
    requires forall x :: x in store ==> x.id != b.id
    ensures Remove(store + [b], b.id) == store
  {
    if store != [] {
      assert store[0] in store;
      assert (store + [b])[1..] == store[1..] + [b];
      RemoveLast(store[1..], b);
    }
  }
}
