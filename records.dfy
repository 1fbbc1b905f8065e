/** Rows of the three stores the booking server keeps (restaurants, tables,
    bookings), the request bodies its handlers read, and the outcomes they
    report. */
module Records {

  datatype Option<+T> = None | Some(value: T)

  /** The error replies of the handlers, by meaning rather than HTTP code:
      400 for a missing field, 400 "already booked" when the table is not
      free, 403 when the caller may not touch the row. */
  datatype Error = BadRequest | AlreadyBooked | Forbidden

  datatype Result<+T> = Ok(value: T) | Err(error: Error)

  /** A reservation instant as the database stores it (a timestamp). */
  type Instant = int

  /** The only two values the server ever writes into `tables.status`. */
  datatype TableStatus = Available | Reserved

  /** The server writes 'confirmed' and nothing else: cancelling deletes. */
  datatype BookingStatus = Confirmed

  datatype Restaurant = Restaurant(
    id: int,
    name: string,
    address: string,
    phone: string,
    description: Option<string>,
    cuisineType: Option<string>,
    ownerId: int)

  datatype Table = Table(
    id: int,
    restaurantId: int,
    seats: int,
    tableNumber: int,
    status: TableStatus)

  datatype Booking = Booking(
    id: int,
    userId: int,
    restaurantId: int,
    tableId: int,
    reservationTime: Instant,
    status: BookingStatus)

  /** Request bodies. A field the client left out or sent as null is `None`. */
  datatype RestaurantRequest = RestaurantRequest(
    name: Option<string>,
    address: Option<string>,
    phone: Option<string>,
    description: Option<string>,
    cuisineType: Option<string>)

  datatype TableRequest = TableRequest(seats: Option<int>, tableNumber: Option<int>)

  /** `reservationTime` is `Some` when the client sent a non-empty time text;
      the database turns that text into the stored instant. */
  datatype BookRequest = BookRequest(
    restaurantId: Option<int>,
    tableId: Option<int>,
    reservationTime: Option<Instant>)

  /** JavaScript truthiness of a numeric field: absent, null and 0 are falsy. */
  predicate NumberGiven(f: Option<int>) {
    f.Some? && f.value != 0
  }

  /** JavaScript truthiness of a text field: absent, null and "" are falsy. */
  predicate TextGiven(f: Option<string>) {
    f.Some? && f.value != ""
  }
}
