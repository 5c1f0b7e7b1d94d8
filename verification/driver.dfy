/**
 * The two rules of the console driver that are logic rather than input and
 * output: seeding the three default rooms at start-up, and choosing the room
 * to book from the rooms available on the check-in day.
 */
module Driver {
  import opened Optional
  import opened Entities
  import opened Availability
  import opened Hotel

  /** The seeding condition: no room is available on `today`. */
  predicate NeedsDefaultRooms(rooms: seq<Room>, bookings: seq<Booking>, today: Date)
  {
    Available(rooms, bookings, today) == []
  }

  /**
   * Seeding happens exactly when every listed room (none, for an empty list)
   * is held by some booking today.
   */
  lemma NeedsDefaultRoomsIffAllHeld(rooms: seq<Room>, bookings: seq<Booking>, today: Date)
    ensures NeedsDefaultRooms(rooms, bookings, today)
        <==> forall j :: 0 <= j < |rooms| ==> !IsFree(bookings, rooms[j].roomNumber, today)
  {
    AvailableMembers(rooms, bookings, today);
    if !NeedsDefaultRooms(rooms, bookings, today) {
      var first := Available(rooms, bookings, today)[0];
      assert first in rooms;
    }
  }

  /** `added` are the three default rooms: 101 Single, 102 Double, 103 Suite, at 100, 150 and 250 per night, all flagged available. */
  predicate AreDefaultRooms(added: seq<Room>)
    reads added
  {
    && |added| == 3
    && added[0].roomNumber == 101 && added[0].roomType == "Single" && added[0].price == 10000
    && added[1].roomNumber == 102 && added[1].roomType == "Double" && added[1].price == 15000
    && added[2].roomNumber == 103 && added[2].roomType == "Suite" && added[2].price == 25000
    && added[0].isAvailable && added[1].isAvailable && added[2].isAvailable
  }

  /**
   * Start-up seeding: when no room is available on `today`, appends the three
   * default rooms as new objects; otherwise changes nothing. The defaults are
   * added even when rooms with the same numbers exist, and afterwards the
   * rooms available today are exactly the defaults that no booking holds
   * today, so seeding can leave the answer empty.
   */
  method SeedDefaultRooms(hotel: HotelSystem, today: Date) returns (seeded: bool)
    modifies hotel`rooms
    ensures hotel.bookings == old(hotel.bookings)
    ensures seeded <==> NeedsDefaultRooms(old(hotel.rooms), hotel.bookings, today)
    ensures !seeded ==> hotel.rooms == old(hotel.rooms)
    ensures seeded ==> |hotel.rooms| == |old(hotel.rooms)| + 3
    ensures seeded ==> hotel.rooms[..|old(hotel.rooms)|] == old(hotel.rooms)
    ensures seeded ==> AreDefaultRooms(hotel.rooms[|old(hotel.rooms)|..])
    ensures seeded ==> forall k :: |old(hotel.rooms)| <= k < |hotel.rooms| ==> fresh(hotel.rooms[k])
    ensures seeded ==> Available(hotel.rooms, hotel.bookings, today)
                       == Available(hotel.rooms[|old(hotel.rooms)|..], hotel.bookings, today)
  {
    var available := hotel.GetAvailableRooms(today);
    seeded := available == [];
    if seeded {
      var single := new Room(101, "Single", 10000, true);
      var double := new Room(102, "Double", 15000, true);
      var suite := new Room(103, "Suite", 25000, true);
      hotel.AddRoom(single);
      hotel.AddRoom(double);
      hotel.AddRoom(suite);
      var before := old(hotel.rooms);
      assert hotel.rooms == before + [single, double, suite];
      assert hotel.rooms[|before|..] == [single, double, suite];
      AvailableAppend(before, [single, double, suite], hotel.bookings, today);
    }
  }

  /**
   * Room selection: the first room in `available` with the requested number,
   * or None when there is none.
   */
  function SelectRoom(available: seq<Room>, roomNumber: int): (selected: Option<Room>)
    ensures selected.Some? ==> selected.value in available && selected.value.roomNumber == roomNumber
    ensures selected.None? <==> forall k :: 0 <= k < |available| ==> available[k].roomNumber != roomNumber
  {
    if available == [] then None
    else if available[0].roomNumber == roomNumber then Some(available[0])
    else SelectRoom(available[1..], roomNumber)
  }

  /** The selected room is the first match: every earlier room has another number. */
  lemma {:induction false} SelectRoomIsFirstMatch(available: seq<Room>, roomNumber: int, k: nat)
    requires k < |available| && available[k].roomNumber == roomNumber
    requires forall j :: 0 <= j < k ==> available[j].roomNumber != roomNumber
    ensures SelectRoom(available, roomNumber) == Some(available[k])
  {
    if k > 0 {
      SelectRoomIsFirstMatch(available[1..], roomNumber, k - 1);
    }
  }

  /**
   * Selecting from the rooms available on the check-in day yields a listed
   * room with the requested number that no booking holds on that day; it
   * fails exactly when no listed room with that number is free that day.
   */
  lemma SelectionFromAvailable(rooms: seq<Room>, bookings: seq<Booking>, checkIn: Date, roomNumber: int)
    ensures SelectRoom(Available(rooms, bookings, checkIn), roomNumber).Some? ==>
              var r := SelectRoom(Available(rooms, bookings, checkIn), roomNumber).value;
              r in rooms && r.roomNumber == roomNumber && IsFree(bookings, roomNumber, checkIn)
    ensures SelectRoom(Available(rooms, bookings, checkIn), roomNumber).None? <==>
              forall j :: 0 <= j < |rooms| && rooms[j].roomNumber == roomNumber ==> !IsFree(bookings, roomNumber, checkIn)
  {
    AvailableMembers(rooms, bookings, checkIn);
  }

  /** What one "book a room" menu action ends in. */
  datatype BookingOutcome = NoRoomsAvailable | InvalidSelection | Booked(booking: Booking)

  /**
   * One "book a room" menu action after its input has been read: list the
   * rooms available on the check-in day, give up when there are none, pick
   * the first with the requested number, give up when there is none, and book
   * it. Only the check-in day is tested: the rest of the stay is not.
   */
  method BookFromMenu(hotel: HotelSystem, name: string, contact: string, idProof: string,
                      checkIn: Date, checkOut: Date, roomNumber: int) returns (outcome: BookingOutcome)
    modifies hotel`bookings, hotel.rooms
    ensures hotel.rooms == old(hotel.rooms)
    ensures outcome == NoRoomsAvailable <==> old(Available(hotel.rooms, hotel.bookings, checkIn)) == []
    ensures outcome == InvalidSelection <==>
              old(Available(hotel.rooms, hotel.bookings, checkIn)) != [] &&
              old(SelectRoom(Available(hotel.rooms, hotel.bookings, checkIn), roomNumber)).None?
    ensures !outcome.Booked? ==> hotel.bookings == old(hotel.bookings)
    ensures !outcome.Booked? ==> forall k :: 0 <= k < |hotel.rooms| ==> hotel.rooms[k].isAvailable == old(hotel.rooms[k].isAvailable)
    ensures outcome.Booked? ==>
              && old(SelectRoom(Available(hotel.rooms, hotel.bookings, checkIn), roomNumber)) == Some(outcome.booking.room)
              && outcome.booking == NewBooking(Guest(name, contact, idProof), outcome.booking.room, checkIn, checkOut)
              && hotel.bookings == old(hotel.bookings) + [outcome.booking]
              && outcome.booking.room in hotel.rooms
              && !outcome.booking.room.isAvailable
              && forall k :: 0 <= k < |hotel.rooms| && hotel.rooms[k] != outcome.booking.room ==>
                   hotel.rooms[k].isAvailable == old(hotel.rooms[k].isAvailable)
  {
    var available := hotel.GetAvailableRooms(checkIn);
    if available == [] {
      return NoRoomsAvailable;
    }
    var selected := SelectRoom(available, roomNumber);
    AvailableMembers(hotel.rooms, hotel.bookings, checkIn);
    if selected.None? {
      return InvalidSelection;
    }
    var guest := Guest(name, contact, idProof);
    var booking := hotel.BookRoom(guest, selected.value, checkIn, checkOut);
    outcome := Booked(booking);
  }

  /**
   * The driver's filter tests the check-in day only, so it lets through a stay
   * that overlaps a later booking of the same room: with [11, 12] booked, the
   * room is offered for a stay from day 10 to day 12, and both bookings then
   * hold it on day 11.
   */
  lemma CheckInFilterAdmitsOverlap(room: Room, guest: Guest)
    ensures var held := NewBooking(guest, room, 11, 12);
            && SelectRoom(Available([room], [held], 10), room.roomNumber) == Some(room)
            && Blocks(held, room.roomNumber, 11)
            && Blocks(NewBooking(guest, room, 10, 12), room.roomNumber, 11)
  {
  }
}
