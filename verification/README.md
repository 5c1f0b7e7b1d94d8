# Hotel booking core, modelled in Dafny

This project models the booking and availability logic of a small console
hotel-booking application. It covers rooms, guests, bookings and the
`HotelSystem` that holds an append-only room list and an append-only booking
list. It also covers two rules from the console driver: seeding the three
default rooms at start-up, and picking the room to book.

- `entities.dfy` (module `Entities`) has the following:
  - `Room` is a class. Its number, type and price are constant. The
    availability flag is mutable.
  - `Guest` and `Booking` are values. A booking refers to a shared `Room`
    object.
  - The price rule: total = signed night count times the nightly price.
- `availability.dfy` (module `Availability`) defines availability from the
  bookings alone.
  - `Blocks` is the inclusive interval test. `IsFree` and `Available` build
    on it.
  - These functions read no heap, so a room's availability flag cannot
    influence them.
  - Lemmas show that `Available` is an exact order-preserving filter. They
    also cover how it reacts to more rooms and more bookings, and show that
    the interval boundaries are inclusive.
- `hotel_system.dfy` (module `Hotel`) has the class `HotelSystem`.
  - `AddRoom` and `BookRoom` append in place.
  - `GetAvailableRooms` and `IsRoomAvailable` are the source's loops. Each is
    proved against `Available` and `IsFree`.
  - `LoadFromFile` makes the state change of a load.
  - Client methods state that the query reads state only, that it ignores
    flags, and what a booking does to it.
- `driver.dfy` (module `Driver`) holds the start-up seeding rule, the
  first-match room selection and the "book a room" menu action built from
  them.
- `optional.dfy` holds `Option`, the model's stand-in for a reference that
  may be null.

Encoding choices:

- Dates are integer day numbers, so the day count between two dates is a
  subtraction.
- Prices are integer cents. The default rooms cost 10000, 15000 and 25000.
- Room numbers are unbounded integers. The source only compares them, so
  32-bit width plays no role.

Loading is not all-or-nothing. The code assigns the room list as soon as the
first record is read (HotelApp.java:147), before it reads the booking record
(HotelApp.java:148). So if the second read fails, the new rooms sit beside
the old bookings. `Hotel.HotelSystem.LoadFromFile`
states this partial outcome.

The driver filters candidate rooms by the check-in day only
(HotelApp.java:199). `BookRoom` itself checks nothing. Together this means a
stay can overlap a later booking of the same room.
`Driver.CheckInFilterAdmitsOverlap` exhibits such a case. The model keeps
this behaviour as written.

## Model

| member | source | states |
|---|---|---|
| `Entities.Room.constructor` | HotelApp.java:12-17 | A new room has the given number, type, price and availability flag. |
| `Entities.Room.SetAvailable` | HotelApp.java:23 | Sets the flag and changes no other field. Every other field of a room is constant. |
| `Entities.CalculateTotal` | HotelApp.java:68-71 | The total is zero for equal dates. With a positive price it is negative when check-out precedes check-in and at least one night's price otherwise. No error is raised. |
| `Entities.NewBooking` | HotelApp.java:56-62 | A new booking records its guest, room and dates, and fixes its total once as (checkOut - checkIn) times the room's nightly price. |
| `Availability.Available` | HotelApp.java:88-96 | The result is never longer than the room list. |
| `Availability.AvailableMembers` | HotelApp.java:88-107 | Every returned room is listed and free on the date. Every listed room that is free on the date is returned. |
| `Availability.AvailableIsOrderedFilter` | HotelApp.java:88-96 | The result is exactly the listed rooms at a strictly increasing set of positions. A position is chosen iff no booking with that room's number covers the date. |
| `Availability.AvailableAppend` | HotelApp.java:84-96 | The availability of `front + back` is the availability of `front` followed by that of `back`. So registering a room appends it to the answer iff it is free. |
| `Availability.AvailableComposes` | HotelApp.java:98-107 | The answer under bookings `first + second` equals the answer under `first`, filtered again by `second`. Extra bookings only remove rooms; they never add or reorder any. |
| `Availability.BookingElsewhereChangesNothing` | HotelApp.java:99-102 | A booking whose interval does not contain the date leaves that date's answer unchanged. |
| `Availability.AvailableUnblocked` | HotelApp.java:98-107 | When no booking's interval contains the date, every listed room is available, in list order. |
| `Availability.BookingBlocksWholeStay` | HotelApp.java:99-112 | On every day from check-in to check-out inclusive, no room with the booked room's number is available. Matching is by number, not by object. |
| `Availability.BoundariesInclusive` | HotelApp.java:101-102 | A booking with checkIn <= checkOut blocks its room number on both boundary days. A listed room with that number that no other booking holds is available again the day after check-out and the day before check-in. |
| `Availability.InvertedStayBlocksNothing` | HotelApp.java:101-102 | A booking whose check-out precedes its check-in changes availability on no date. |
| `Hotel.HotelSystem.constructor` | HotelApp.java:81-82 | A new system has no rooms and no bookings. |
| `Hotel.HotelSystem.AddRoom` | HotelApp.java:84-86 | Appends the room at the end and accepts any room, duplicate numbers included. Earlier rooms and all bookings are unchanged. |
| `Hotel.HotelSystem.GetAvailableRooms` | HotelApp.java:88-96 | The loop returns `Available(rooms, bookings, date)`: the free rooms in list order. It changes no state. |
| `Hotel.HotelSystem.IsRoomAvailable` | HotelApp.java:98-107 | The early-exit scan returns true iff no booking with the room's number has an inclusive interval containing the date. It returns false iff such a booking exists. The room's flag is not read. |
| `Hotel.HotelSystem.BookRoom` | HotelApp.java:109-114 | Has no precondition, so overlapping bookings are accepted. Appends exactly the new booking at the end and returns it. Leaves the room list unchanged and clears the room's flag. It may change nothing else. |
| `Hotel.HotelSystem.LoadFromFile` | HotelApp.java:145-153 | If the first record fails, nothing changes. If only the second record fails, the rooms are replaced and the bookings kept. Success is reported iff both records were read. |
| `Hotel.QueryIsRepeatable` | HotelApp.java:88-107 | Two availability queries with nothing in between return the same sequence. |
| `Hotel.QueryIgnoresFlags` | HotelApp.java:98-107 | Changing a room's availability flag does not change the availability answer. |
| `Hotel.BookingNarrowsAvailability` | HotelApp.java:109-114 | After `BookRoom`, the answer for a date is the earlier answer filtered by the new booking alone. Inside the stay, no room with the booked number remains. Outside it, the answer is unchanged. |
| `Driver.NeedsDefaultRoomsIffAllHeld` | HotelApp.java:164 | The seeding condition holds iff every listed room is held by a booking today. This includes the empty room list. |
| `Driver.SeedDefaultRooms` | HotelApp.java:164-168 | When no room is available today, appends three fresh rooms: 101 Single, 102 Double, 103 Suite, priced 100, 150 and 250, all flagged available. Otherwise it changes nothing. Afterwards the rooms available today are exactly the defaults that no booking holds today. |
| `Driver.SelectRoom` | HotelApp.java:210-213 | A selected room is in the list and has the requested number. Nothing is selected iff no room in the list has that number. |
| `Driver.SelectRoomIsFirstMatch` | HotelApp.java:210-213 | The selected room is the first one in list order with the requested number. |
| `Driver.SelectionFromAvailable` | HotelApp.java:199-213 | Selecting from the check-in day's available rooms yields a listed room with the requested number that is free on that day. Selection fails iff no listed room with that number is free that day. |
| `Driver.BookFromMenu` | HotelApp.java:199-222 | One "book a room" action ends in one of three ways. With no room free on the check-in day it stops. With no free room of the requested number it stops. Otherwise it books the first such room: one booking is appended and only that room's flag is cleared. The two failure outcomes change nothing. |
| `Driver.CheckInFilterAdmitsOverlap` | HotelApp.java:195-217 | A room booked for days 11-12 is offered, and selected, for a stay starting on day 10. The new stay and the existing booking then both hold the room on day 11. |
| `Hotel.TwoNightStayScenario` | HotelApp.java:56-114 | Two `BookRoom` calls on room 101 at 100 per night, for 2024-01-10 to 2024-01-12 and then 2024-01-11 alone, both succeed and append two bookings. The first costs 200. The room is unavailable on 2024-01-11. It is available on 2024-01-13 when no earlier booking holds it that day. |

## Left out

- Console output is not modelled. This covers `Room.toString`,
  `Guest.toString`, `Booking.toString`, `listRooms`, `listBookings`, the menu
  text and `Scanner` input parsing (HotelApp.java:25-29, 43-46, 73-77,
  116-132, 170-236). These are formatting and I/O only.
- Saving (`saveToFile`, HotelApp.java:134-142) is not modelled. It writes the
  two lists through Java object serialization and changes no state. That
  library is not part of this model.
- Loading is modelled only as its effect on the state. The outcomes of the
  two `readObject` calls are parameters. Deserialization creates fresh room
  and booking objects, shared between the two records. The model passes them
  in as given references.
- Dates are plain day numbers. `LocalDate` parsing, calendar rules and
  `LocalDate.now()` are not modelled; the current day is a parameter.
- Prices are exact integer cents. `double` rounding in prices and totals is
  not modelled.
- Process exit (`System.exit`) and the menu loop's control flow are not
  modelled.
- The plain getters of `Room` and `Booking` are not separate members.
  `getRoomNumber`, `getType`, `getPrice`, `isAvailable`, `getRoom`,
  `getCheckIn` and `getCheckOut` are field reads in the model.
