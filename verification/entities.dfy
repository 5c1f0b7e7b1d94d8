/**
 * The hotel's entities: rooms (mutable inventory objects), guests and bookings
 * (values fixed at construction), and the booking price rule.
 *
 * Dates are day numbers counted from a fixed epoch, so the signed number of days
 * between two dates is a subtraction. Prices are whole cents per night.
 */
module Entities {

  /** A calendar date as a day number; the later day has the larger number. */
  type Date = int

  /**
   * An inventory unit. Its number, type and nightly price never change after
   * construction; the availability flag is set when the room is booked and is
   * advisory only: no availability query reads it.
   */
  class Room {
    const roomNumber: int
    const roomType: string
    /** Nightly price in cents. */
    const price: int
    var isAvailable: bool

    constructor (roomNumber: int, roomType: string, price: int, isAvailable: bool)
      ensures this.roomNumber == roomNumber && this.roomType == roomType
      ensures this.price == price && this.isAvailable == isAvailable
    {
      this.roomNumber := roomNumber;
      this.roomType := roomType;
      this.price := price;
      this.isAvailable := isAvailable;
    }

    method SetAvailable(available: bool)
      modifies this`isAvailable
      ensures isAvailable == available
    {
      isAvailable := available;
    }
  }

  /** The holder of a reservation; no field is checked or unique. */
  datatype Guest = Guest(name: string, contactInfo: string, idProof: string)

  /**
   * A reservation of `room` for `guest` from `checkIn` to `checkOut`. The room is
   * shared with the hotel's room list (the same object, not a copy).
   * `totalPrice` is computed once, by `NewBooking`.
   */
  datatype Booking = Booking(guest: Guest, room: Room, checkIn: Date, checkOut: Date, totalPrice: int)

  /** Signed number of days from `checkIn` to `checkOut`; negative when check-out comes first. */
  function DaysBetween(checkIn: Date, checkOut: Date): (days: int)
  {
    checkOut - checkIn
  }

  /**
   * The price of a stay: nights times the room's nightly price, with no check
   * on the dates. It is zero for a same-day stay; at a positive price it is
   * negative when check-out precedes check-in (no error is raised) and at least
   * one night's price otherwise.
   */
  function CalculateTotal(room: Room, checkIn: Date, checkOut: Date): (total: int)
    ensures checkIn == checkOut ==> total == 0
    ensures checkOut < checkIn && room.price > 0 ==> total < 0
    ensures checkIn < checkOut && room.price > 0 ==> total >= room.price
  {
    DaysBetween(checkIn, checkOut) * room.price
  }

  /**
   * The booking constructor: records its arguments and fixes the total price
   * once, as the signed number of nights times the nightly price.
   */
  function NewBooking(guest: Guest, room: Room, checkIn: Date, checkOut: Date): (booking: Booking)
    ensures booking.guest == guest && booking.room == room
    ensures booking.checkIn == checkIn && booking.checkOut == checkOut
    ensures booking.totalPrice == (checkOut - checkIn) * room.price
  {
    Booking(guest, room, checkIn, checkOut, CalculateTotal(room, checkIn, checkOut))
  }
}
