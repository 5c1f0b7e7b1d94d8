/**
 * The hotel's in-memory state: an append-only room list and an append-only
 * booking list, with the availability scan, room registration, unchecked
 * booking and the state change made by loading a saved file.
 */
module Hotel {
  import opened Optional
  import opened Entities
  import opened Availability

  class HotelSystem {
    /** Rooms in registration order; duplicates of a room number are allowed. */
    var rooms: seq<Room>
    /** Bookings in the order they were made. */
    var bookings: seq<Booking>

    constructor ()
      ensures rooms == [] && bookings == []
    {
      rooms := [];
      bookings := [];
    }

    /** Registers a room at the end of the list, with no check on its number. */
    method AddRoom(room: Room)
      modifies this`rooms
      ensures rooms == old(rooms) + [room]
      ensures bookings == old(bookings)
    {
      rooms := rooms + [room];
    }

    /**
     * The rooms free on `date`, in list order: a scan of the room list that
     * keeps each room no booking holds on that day. Reads the state only.
     */
    method GetAvailableRooms(date: Date) returns (available: seq<Room>)
      ensures available == Available(rooms, bookings, date)
    {
      available := [];
      for i := 0 to |rooms|
        invariant available == Available(rooms[..i], bookings, date)
      {
        var free := IsRoomAvailable(rooms[i], date);
        assert rooms[..i + 1][..i] == rooms[..i];
        if free {
          available := available + [rooms[i]];
        }
      }
      assert rooms[..|rooms|] == rooms;
    }

    /**
     * Whether no booking for a room with `room`'s number covers `date`, both
     * ends included; stops at the first booking that does. The room's own
     * availability flag is not consulted.
     */
    method IsRoomAvailable(room: Room, date: Date) returns (free: bool)
      ensures free <==> IsFree(bookings, room.roomNumber, date)
      ensures !free <==> exists i :: 0 <= i < |bookings| && Blocks(bookings[i], room.roomNumber, date)
    {
      for i := 0 to |bookings|
        invariant IsFree(bookings[..i], room.roomNumber, date)
      {
        var booking := bookings[i];
        if booking.room.roomNumber == room.roomNumber && !(date < booking.checkIn) && !(date > booking.checkOut) {
          assert Blocks(bookings[i], room.roomNumber, date);
          return false;
        }
        assert bookings[..i + 1] == bookings[..i] + [booking];
      }
      assert bookings[..|bookings|] == bookings;
      return true;
    }

    /**
     * Books `room` unconditionally: marks the room as taken, records the
     * booking at the end of the list and returns it. Overlapping bookings,
     * rooms outside the room list and inverted dates are all accepted.
     */
    method BookRoom(guest: Guest, room: Room, checkIn: Date, checkOut: Date) returns (booking: Booking)
      modifies this`bookings, room`isAvailable
      ensures booking == NewBooking(guest, room, checkIn, checkOut)
      ensures bookings == old(bookings) + [booking]
      ensures rooms == old(rooms)
      ensures !room.isAvailable
    {
      room.SetAvailable(false);
      booking := NewBooking(guest, room, checkIn, checkOut);
      bookings := bookings + [booking];
    }

    /**
     * The state change of loading a saved file. `roomsRecord` and
     * `bookingsRecord` are the outcomes of reading the two records in turn
     * (None: the read failed). The room list is replaced as soon as the first
     * record is read, so a failure on the second record leaves the new rooms
     * beside the old bookings. Returns whether both records were read.
     */
    method LoadFromFile(roomsRecord: Option<seq<Room>>, bookingsRecord: Option<seq<Booking>>) returns (loaded: bool)
      modifies this`rooms, this`bookings
      ensures loaded <==> roomsRecord.Some? && bookingsRecord.Some?
      ensures rooms == if roomsRecord.Some? then roomsRecord.value else old(rooms)
      ensures bookings == if loaded then bookingsRecord.value else old(bookings)
    {
      loaded := false;
      if roomsRecord.None? {
        return;
      }
      rooms := roomsRecord.value;
      if bookingsRecord.None? {
        return;
      }
      bookings := bookingsRecord.value;
      loaded := true;
    }
  }

  /**
   * The availability query reads state only: two calls with nothing in between
   * return the same sequence.
   */
  method QueryIsRepeatable(hotel: HotelSystem, date: Date) returns (first: seq<Room>, second: seq<Room>)
    ensures first == second
  {
    first := hotel.GetAvailableRooms(date);
    second := hotel.GetAvailableRooms(date);
  }

  /** Changing a room's availability flag does not change the answer to the availability query. */
  method QueryIgnoresFlags(hotel: HotelSystem, room: Room, flag: bool, date: Date) returns (before: seq<Room>, after: seq<Room>)
    modifies room`isAvailable
    ensures before == after
  {
    before := hotel.GetAvailableRooms(date);
    room.SetAvailable(flag);
    after := hotel.GetAvailableRooms(date);
  }

  /**
   * After a booking, the rooms available on a day are those that were available
   * before minus, on the days of the stay, every room with the booked room's
   * number; on other days nothing changes.
   */
  method BookingNarrowsAvailability(hotel: HotelSystem, guest: Guest, room: Room, checkIn: Date, checkOut: Date, date: Date)
    returns (before: seq<Room>, after: seq<Room>)
    modifies hotel`bookings, room`isAvailable
    ensures after == Available(before, [NewBooking(guest, room, checkIn, checkOut)], date)
    ensures checkIn <= date <= checkOut ==> forall k :: 0 <= k < |after| ==> after[k].roomNumber != room.roomNumber
    ensures !(checkIn <= date <= checkOut) ==> after == before
  {
    before := hotel.GetAvailableRooms(date);
    var booking := hotel.BookRoom(guest, room, checkIn, checkOut);
    after := hotel.GetAvailableRooms(date);
    AvailableComposes(hotel.rooms, old(hotel.bookings), [booking], date);
    if checkIn <= date <= checkOut {
      BookingBlocksWholeStay(hotel.rooms, old(hotel.bookings), booking, date);
    } else {
      BookingElsewhereChangesNothing(hotel.rooms, old(hotel.bookings), booking, date);
    }
  }

  /**
   * A worked case, with 2024-01-10 as day 19732: room 101 at 100 per night is
   * booked from 2024-01-10 to 2024-01-12 for a total of 200, and booking it
   * again for 2024-01-11 through the same operation is accepted as a second,
   * overlapping booking. Afterwards the room is not offered on 2024-01-11 and,
   * as long as no earlier booking holds it that day, is offered again on
   * 2024-01-13.
   */
  method TwoNightStayScenario(hotel: HotelSystem, room: Room, guest: Guest) returns (first: Booking, second: Booking)
    requires room.roomNumber == 101 && room.price == 10000
    modifies hotel`bookings, room`isAvailable
    ensures hotel.bookings == old(hotel.bookings) + [first, second]
    ensures first.totalPrice == 20000 && second.totalPrice == 0
    ensures Available([room], hotel.bookings, 19733) == []
    ensures IsFree(old(hotel.bookings), 101, 19735) ==> Available([room], hotel.bookings, 19735) == [room]
  {
    first := hotel.BookRoom(guest, room, 19732, 19734);
    second := hotel.BookRoom(guest, room, 19733, 19733);
    var before := old(hotel.bookings);
    assert hotel.bookings == before + [first] + [second];
    BookingBlocksWholeStay([room], before + [first], second, 19733);
    AvailableMembers([room], hotel.bookings, 19733);
    BookingElsewhereChangesNothing([room], before + [first], second, 19735);
    BookingElsewhereChangesNothing([room], before, first, 19735);
    AvailableSingle(room, before, 19735);
  }
}
