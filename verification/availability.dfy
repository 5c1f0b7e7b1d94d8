/**
 * Availability derived from bookings alone. A room is free on a date when no
 * booking for a room with the same number has an inclusive
 * [checkIn, checkOut] interval containing that date.
 *
 * None of these functions has a `reads` clause: they see only the rooms'
 * constant fields (number, type, price) and the bookings, never a room's
 * availability flag, so two heaps that differ only in flags give them the
 * same values.
 */
module Availability {
  import opened Entities

  /** Booking `b` holds room number `roomNumber` on `date`; both ends are included. */
  predicate Blocks(b: Booking, roomNumber: int, date: Date)
  {
    b.room.roomNumber == roomNumber && b.checkIn <= date && date <= b.checkOut
  }

  /** No booking holds room number `roomNumber` on `date`. */
  predicate IsFree(bookings: seq<Booking>, roomNumber: int, date: Date)
  {
    forall i :: 0 <= i < |bookings| ==> !Blocks(bookings[i], roomNumber, date)
  }

  /**
   * The rooms that are free on `date`, in list order. Defined by peeling off the
   * last room, the order in which a left-to-right scan extends its result.
   */
  function Available(rooms: seq<Room>, bookings: seq<Booking>, date: Date): (available: seq<Room>)
    ensures |available| <= |rooms|
  {
    if rooms == [] then []
    else
      var last := rooms[|rooms| - 1];
      Available(rooms[..|rooms| - 1], bookings, date)
        + (if IsFree(bookings, last.roomNumber, date) then [last] else [])
  }

  /**
   * Membership in `Available`: every returned room is listed and free on the
   * date, and every listed room that is free on the date is returned.
   */
  lemma {:induction false} AvailableMembers(rooms: seq<Room>, bookings: seq<Booking>, date: Date)
    ensures forall k :: 0 <= k < |Available(rooms, bookings, date)| ==>
              Available(rooms, bookings, date)[k] in rooms &&
              IsFree(bookings, Available(rooms, bookings, date)[k].roomNumber, date)
    ensures forall j :: 0 <= j < |rooms| && IsFree(bookings, rooms[j].roomNumber, date) ==>
              rooms[j] in Available(rooms, bookings, date)
  {
    if rooms != [] {
      var n := |rooms| - 1;
      AvailableMembers(rooms[..n], bookings, date);
      assert rooms == rooms[..n] + [rooms[n]];
    }
  }

  /**
   * `positions` are strictly increasing indices into `rooms`, the rooms at
   * those indices are `Available(rooms, bookings, date)` in order, and an index
   * is among them exactly when its room is free on `date`.
   */
  ghost predicate FilterPositions(rooms: seq<Room>, bookings: seq<Booking>, date: Date, positions: seq<nat>)
  {
    && |positions| == |Available(rooms, bookings, date)|
    && (forall k :: 0 <= k < |positions| ==>
          positions[k] < |rooms| && Available(rooms, bookings, date)[k] == rooms[positions[k]])
    && (forall k, l :: 0 <= k < l < |positions| ==> positions[k] < positions[l])
    && (forall j :: 0 <= j < |rooms| ==> (j in positions <==> IsFree(bookings, rooms[j].roomNumber, date)))
  }

  /**
   * `Available` is exactly an order-preserving filter: the returned `positions`
   * are strictly increasing indices into `rooms`, the result is the rooms at
   * those positions, and a position is chosen exactly when its room is free.
   * Built by induction on the room list, one room at a time.
   */
  lemma {:induction false} AvailableIsOrderedFilter(rooms: seq<Room>, bookings: seq<Booking>, date: Date)
    returns (positions: seq<nat>)
    ensures FilterPositions(rooms, bookings, date, positions)
  {
    if rooms == [] {
      positions := [];
    } else {
      var earlier := AvailableIsOrderedFilter(rooms[..|rooms| - 1], bookings, date);
      positions := FilterPositionsStep(rooms, bookings, date, earlier);
    }
  }

  /** Extends the positions for all rooms but the last to the positions for all rooms. */
  lemma FilterPositionsStep(rooms: seq<Room>, bookings: seq<Booking>, date: Date, earlier: seq<nat>)
    returns (positions: seq<nat>)
    requires rooms != []
    requires FilterPositions(rooms[..|rooms| - 1], bookings, date, earlier)
    ensures FilterPositions(rooms, bookings, date, positions)
  {
    var n := |rooms| - 1;
    var front := rooms[..n];
    var free := IsFree(bookings, rooms[n].roomNumber, date);
    var tail := if free then [n] else [];
    positions := earlier + tail;
    var result := Available(rooms, bookings, date);
    assert result == Available(front, bookings, date) + (if free then [rooms[n]] else []);
    assert |positions| == |result|;
    forall k | 0 <= k < |positions|
      ensures positions[k] < |rooms| && result[k] == rooms[positions[k]]
    {
      if k < |earlier| {
        assert positions[k] == earlier[k];
        assert front[earlier[k]] == rooms[earlier[k]];
      }
    }
    forall k, l | 0 <= k < l < |positions|
      ensures positions[k] < positions[l]
    {
      if l < |earlier| {
        assert positions[k] == earlier[k] && positions[l] == earlier[l];
      }
    }
    forall j | 0 <= j < |rooms|
      ensures j in positions <==> IsFree(bookings, rooms[j].roomNumber, date)
    {
      assert j in positions <==> j in earlier || j in tail;
      if j < n {
        assert front[j] == rooms[j];
        assert j !in tail;
      } else {
        assert j !in earlier;
      }
    }
  }

  /** Appending rooms appends their available part: the filter works room by room. */
  lemma {:induction false} AvailableAppend(front: seq<Room>, back: seq<Room>, bookings: seq<Booking>, date: Date)
    ensures Available(front + back, bookings, date) == Available(front, bookings, date) + Available(back, bookings, date)
  {
    if back == [] {
      assert front + back == front;
    } else {
      var n := |back| - 1;
      assert (front + back)[..|front + back| - 1] == front + back[..n];
      AvailableAppend(front, back[..n], bookings, date);
    }
  }

  /** Free with respect to two booking lists is free with respect to each. */
  lemma IsFreeConcat(first: seq<Booking>, second: seq<Booking>, roomNumber: int, date: Date)
    ensures IsFree(first + second, roomNumber, date)
        <==> IsFree(first, roomNumber, date) && IsFree(second, roomNumber, date)
  {
    if IsFree(first, roomNumber, date) && IsFree(second, roomNumber, date) {
      forall i | 0 <= i < |first + second|
        ensures !Blocks((first + second)[i], roomNumber, date)
      {
        if i >= |first| {
          assert (first + second)[i] == second[i - |first|];
        }
      }
    }
    if IsFree(first + second, roomNumber, date) {
      forall i | 0 <= i < |first|
        ensures !Blocks(first[i], roomNumber, date)
      {
        assert (first + second)[i] == first[i];
      }
      forall i | 0 <= i < |second|
        ensures !Blocks(second[i], roomNumber, date)
      {
        assert (first + second)[|first| + i] == second[i];
      }
    }
  }

  /**
   * Adding bookings narrows availability in stages: the rooms free under
   * `first + second` are those free under `first` that `second` leaves free.
   * In particular one more booking removes rooms from an earlier answer and
   * never adds or reorders any.
   */
  lemma {:induction false} AvailableComposes(rooms: seq<Room>, first: seq<Booking>, second: seq<Booking>, date: Date)
    ensures Available(rooms, first + second, date)
         == Available(Available(rooms, first, date), second, date)
  {
    if rooms != [] {
      var n := |rooms| - 1;
      var last := rooms[n];
      AvailableComposes(rooms[..n], first, second, date);
      IsFreeConcat(first, second, last.roomNumber, date);
      var earlier := Available(rooms[..n], first, date);
      if IsFree(first, last.roomNumber, date) {
        assert Available(rooms, first, date) == earlier + [last];
        AvailableAppend(earlier, [last], second, date);
        AvailableSingle(last, second, date);
      } else {
        assert Available(rooms, first, date) == earlier;
      }
    }
  }

  /** A single room is available exactly when it is free. */
  lemma AvailableSingle(room: Room, bookings: seq<Booking>, date: Date)
    ensures Available([room], bookings, date) == if IsFree(bookings, room.roomNumber, date) then [room] else []
  {
  }

  /** A booking whose interval does not contain `date` leaves that day's answer unchanged. */
  lemma BookingElsewhereChangesNothing(rooms: seq<Room>, bookings: seq<Booking>, b: Booking, date: Date)
    requires !(b.checkIn <= date && date <= b.checkOut)
    ensures Available(rooms, bookings + [b], date) == Available(rooms, bookings, date)
  {
    AvailableComposes(rooms, bookings, [b], date);
    AvailableUnblocked(Available(rooms, bookings, date), [b], date);
  }

  /** When no booking covers the date at all, every room is available. */
  lemma {:induction false} AvailableUnblocked(rooms: seq<Room>, bookings: seq<Booking>, date: Date)
    requires forall i :: 0 <= i < |bookings| ==> !(bookings[i].checkIn <= date && date <= bookings[i].checkOut)
    ensures Available(rooms, bookings, date) == rooms
  {
    if rooms != [] {
      var n := |rooms| - 1;
      AvailableUnblocked(rooms[..n], bookings, date);
      assert rooms[..n] + [rooms[n]] == rooms;
    }
  }

  /**
   * A booking keeps every room carrying its room number out of the answer on
   * every day of the stay, check-in and check-out days included. The booked
   * object need not be in the room list: matching is by number.
   */
  lemma BookingBlocksWholeStay(rooms: seq<Room>, bookings: seq<Booking>, b: Booking, date: Date)
    requires b.checkIn <= date <= b.checkOut
    ensures forall r :: r in Available(rooms, bookings + [b], date) ==> r.roomNumber != b.room.roomNumber
  {
    AvailableMembers(rooms, bookings + [b], date);
    forall r | r in Available(rooms, bookings + [b], date)
      ensures r.roomNumber != b.room.roomNumber
    {
      assert IsFree(bookings + [b], r.roomNumber, date);
      assert (bookings + [b])[|bookings|] == b;
    }
  }

  /**
   * The interval is inclusive on both ends and no wider: a booking
   * [checkIn, checkOut] with checkIn <= checkOut blocks its room number on both
   * boundary days, while a room with that number that no other booking holds
   * is available again the day after check-out and the day before check-in.
   */
  lemma BoundariesInclusive(rooms: seq<Room>, bookings: seq<Booking>, b: Booking, room: Room)
    requires b.checkIn <= b.checkOut
    requires room in rooms && room.roomNumber == b.room.roomNumber
    ensures room !in Available(rooms, bookings + [b], b.checkIn)
    ensures room !in Available(rooms, bookings + [b], b.checkOut)
    ensures IsFree(bookings, room.roomNumber, b.checkOut + 1) ==>
              room in Available(rooms, bookings + [b], b.checkOut + 1)
    ensures IsFree(bookings, room.roomNumber, b.checkIn - 1) ==>
              room in Available(rooms, bookings + [b], b.checkIn - 1)
  {
    BookingBlocksWholeStay(rooms, bookings, b, b.checkIn);
    BookingBlocksWholeStay(rooms, bookings, b, b.checkOut);
    BookingElsewhereChangesNothing(rooms, bookings, b, b.checkOut + 1);
    BookingElsewhereChangesNothing(rooms, bookings, b, b.checkIn - 1);
    AvailableMembers(rooms, bookings, b.checkOut + 1);
    AvailableMembers(rooms, bookings, b.checkIn - 1);
  }

  /** A booking whose check-out precedes its check-in blocks no day at all. */
  lemma InvertedStayBlocksNothing(rooms: seq<Room>, bookings: seq<Booking>, b: Booking, date: Date)
    requires b.checkOut < b.checkIn
    ensures Available(rooms, bookings + [b], date) == Available(rooms, bookings, date)
  {
    BookingElsewhereChangesNothing(rooms, bookings, b, date);
  }
}
