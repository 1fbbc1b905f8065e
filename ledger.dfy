/** The server's shared reservation ledger as an object: the three stores
    and their serial counters are fields, and each writing handler is a
    method that updates them in the order the handler issues its queries. */
module Server {
  import opened Records
  import opened Rows
  import opened LedgerState
  import Handlers

  class Ledger {
    var restaurants: seq<Restaurant>
    var tables: seq<Table>
    var bookings: seq<Booking>
    var nextRestaurantId: int
    var nextTableId: int
    var nextBookingId: int

    /** The stores as one value, for the specification in Handlers. */
    function Snapshot(): Db
      reads this
    {
      Db(restaurants, tables, bookings, nextRestaurantId, nextTableId, nextBookingId)
    }

    ghost predicate Valid()
      reads this
    {
      Consistent(Snapshot())
    }

    constructor ()
      ensures Valid() && Snapshot() == Empty()
    {
      restaurants, tables, bookings := [], [], [];
      nextRestaurantId, nextTableId, nextBookingId := 1, 1, 1;
      EmptyConsistent();
    }

    /** POST /restaurants/add: check the fields, then INSERT. */
    method AddRestaurant(owner: int, req: RestaurantRequest) returns (r: Result<Restaurant>)
      requires Valid()
      modifies this
      ensures Valid()
      ensures Handlers.AddRestaurant(old(Snapshot()), owner, req) == Handlers.Reply(r, Snapshot())
    {
      ghost var before := Snapshot();
      Handlers.AddRestaurantPreserves(before, owner, req);
      if !Handlers.RestaurantFieldsGiven(req) {
        return Err(BadRequest);
      }
      var x := Restaurant(nextRestaurantId, req.name.value, req.address.value, req.phone.value,
                          req.description, req.cuisineType, owner);
      restaurants := restaurants + [x];
      nextRestaurantId := nextRestaurantId + 1;
      r := Ok(x);
    }

    /** POST /restaurants/:id/tables/add: check the fields, then INSERT a
        table whose status is 'available'. */
    method AddTable(restaurantId: int, req: TableRequest) returns (r: Result<Table>)
      requires Valid()
      modifies this
      ensures Valid()
      ensures Handlers.AddTable(old(Snapshot()), restaurantId, req) == Handlers.Reply(r, Snapshot())
    {
      ghost var before := Snapshot();
      Handlers.AddTablePreserves(before, restaurantId, req);
      if !Handlers.TableFieldsGiven(req) {
        return Err(BadRequest);
      }
      var t := Table(nextTableId, restaurantId, req.seats.value, req.tableNumber.value, Available);
      tables := tables + [t];
      nextTableId := nextTableId + 1;
      r := Ok(t);
    }

    /** POST /book: check the fields, SELECT the table if it is available,
        INSERT the confirmed booking, then UPDATE the table to 'reserved'. */
    method Book(user: int, req: BookRequest) returns (r: Result<Booking>)
      requires Valid()
      modifies this
      ensures Valid()
      ensures Handlers.Book(old(Snapshot()), user, req) == Handlers.Reply(r, Snapshot())
    {
      ghost var before := Snapshot();
      Handlers.BookPreserves(before, user, req);
      if !Handlers.BookFieldsGiven(req) {
        return Err(BadRequest);
      }
      var tableId := req.tableId.value;
      var free := First(tables, (t: Table) => t.id == tableId && t.status == Available);
      if free.None? {
        return Err(AlreadyBooked);
      }
      var b := Booking(nextBookingId, user, req.restaurantId.value, tableId,
                       req.reservationTime.value, Confirmed);
      bookings := bookings + [b];
      nextBookingId := nextBookingId + 1;
      tables := SetStatus(tables, tableId, Reserved);
      r := Ok(b);
    }

    /** POST /cancel-booking: check the field, SELECT the caller's booking
        with that id, DELETE it, then UPDATE its table to 'available'. */
    method Cancel(user: int, bookingId: Option<int>) returns (r: Result<()>)
      requires Valid()
      modifies this
      ensures Valid()
      ensures Handlers.Cancel(old(Snapshot()), user, bookingId) == Handlers.Reply(r, Snapshot())
    {
      ghost var before := Snapshot();
      Handlers.CancelPreserves(before, user, bookingId);
      if !NumberGiven(bookingId) {
        return Err(BadRequest);
      }
      var found := First(bookings, (b: Booking) => b.id == bookingId.value && b.userId == user);
      if found.None? {
        return Err(Forbidden);
      }
      var tableId := found.value.tableId;
      bookings := DeleteBooking(bookings, bookingId.value);
      tables := SetStatus(tables, tableId, Available);
      r := Ok(());
    }
  }

  /** Two users race for one table at one time, and the second is refused. */
  method RaceForOneTable() returns (ledger: Ledger)
    ensures ledger.Valid()
    ensures ledger.tables == [Table(1, 1, 4, 1, Reserved)]
    ensures ledger.bookings == [Booking(1, 1, 1, 1, 1748804400, Confirmed)]
  {
    ledger := new Ledger();
    var restaurant := ledger.AddRestaurant(7, RestaurantRequest(Some("R1"), Some("Main St"), Some("555"), None, None));
    var table := ledger.AddTable(1, TableRequest(Some(4), Some(1)));
    assert table == Ok(Table(1, 1, 4, 1, Available));
    assert ledger.tables == [Table(1, 1, 4, 1, Available)];
    // 2025-06-01T19:00:00Z
    var req := BookRequest(Some(1), Some(1), Some(1748804400));

    assert Handlers.TableFree(ledger.tables, 1) by {
      assert ledger.tables[0].id == 1;
    }
    var first := ledger.Book(1, req);
    assert first == Ok(Booking(1, 1, 1, 1, 1748804400, Confirmed));
    assert ledger.tables[0] == Table(1, 1, 4, 1, Reserved);
    assert ledger.tables == [Table(1, 1, 4, 1, Reserved)];
    assert ledger.bookings == [Booking(1, 1, 1, 1, 1748804400, Confirmed)];

    assert !Handlers.TableFree(ledger.tables, 1);
    var second := ledger.Book(2, req);
    assert second == Err(AlreadyBooked);
  }

  /** After that race, the loser cannot cancel the winner's booking; once the
      winner cancels, the loser's booking of the same slot goes through. */
  method CancelFreesTheSlot(ledger: Ledger)
    requires ledger.Valid()
    requires ledger.tables == [Table(1, 1, 4, 1, Reserved)]
    requires ledger.bookings == [Booking(1, 1, 1, 1, 1748804400, Confirmed)]
    modifies ledger
  {
    var stolen := ledger.Cancel(2, Some(1));
    assert stolen == Err(Forbidden);
    assert ledger.tables == [Table(1, 1, 4, 1, Reserved)];
    assert ledger.bookings == [Booking(1, 1, 1, 1, 1748804400, Confirmed)];

    assert Handlers.OwnsBooking(ledger.bookings, 1, 1) by {
      assert ledger.bookings[0].id == 1;
    }
    var cancelled := ledger.Cancel(1, Some(1));
    assert cancelled == Ok(());
    assert ledger.tables[0] == Table(1, 1, 4, 1, Available);
    assert ledger.tables == [Table(1, 1, 4, 1, Available)];

    assert Handlers.TableFree(ledger.tables, 1) by {
      assert ledger.tables[0].id == 1;
    }
    var again := ledger.Book(2, BookRequest(Some(1), Some(1), Some(1748804400)));
    assert again.Ok? && again.value.userId == 2;
  }
}
