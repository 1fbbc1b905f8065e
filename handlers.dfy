/** The four handlers that write to the ledger (add restaurant, add table,
    book, cancel), each as one atomic step from a ledger value to a reply and
    the next ledger value, with the properties they keep. */
module Handlers {
  import opened Records
  import opened Rows
  import opened LedgerState

  /** What a handler answers, and the ledger it leaves behind. */
  datatype Reply<T> = Reply(result: Result<T>, db: Db)

  predicate RestaurantFieldsGiven(req: RestaurantRequest) {
    TextGiven(req.name) && TextGiven(req.address) && TextGiven(req.phone)
  }

  predicate TableFieldsGiven(req: TableRequest) {
    NumberGiven(req.seats) && NumberGiven(req.tableNumber)
  }

  predicate BookFieldsGiven(req: BookRequest) {
    NumberGiven(req.restaurantId) && NumberGiven(req.tableId) && req.reservationTime.Some?
  }

  /** Some row of `tables` has this id and status 'available'. */
  predicate TableFree(ts: seq<Table>, tableId: int) {
    exists i :: 0 <= i < |ts| && ts[i].id == tableId && ts[i].status == Available
  }

  /** Some row of `bookings` has this id and belongs to `user`. */
  predicate OwnsBooking(bs: seq<Booking>, bookingId: int, user: int) {
    exists i :: 0 <= i < |bs| && bs[i].id == bookingId && bs[i].userId == user
  }

  /** POST /restaurants/add, called by `owner`. */
  function AddRestaurant(db: Db, owner: int, req: RestaurantRequest): (r: Reply<Restaurant>)
    ensures r.result.Ok? <==> RestaurantFieldsGiven(req)
    ensures r.result.Err? ==> r.result.error == BadRequest && r.db == db
    ensures r.result.Ok? ==>
      var x := r.result.value;
      && x.id == db.nextRestaurantId && x.ownerId == owner
      && Some(x.name) == req.name && Some(x.address) == req.address && Some(x.phone) == req.phone
      && x.description == req.description && x.cuisineType == req.cuisineType
      && r.db == db.(restaurants := db.restaurants + [x], nextRestaurantId := db.nextRestaurantId + 1)
  {
    if !RestaurantFieldsGiven(req) then Reply(Err(BadRequest), db)
    else
      var x := Restaurant(db.nextRestaurantId, req.name.value, req.address.value, req.phone.value,
                          req.description, req.cuisineType, owner);
      Reply(Ok(x), db.(restaurants := db.restaurants + [x], nextRestaurantId := db.nextRestaurantId + 1))
  }

  /** POST /restaurants/:id/tables/add. Any authenticated caller may add a
      table, and the restaurant id is not looked up. */
  function AddTable(db: Db, restaurantId: int, req: TableRequest): (r: Reply<Table>)
    ensures r.result.Ok? <==> TableFieldsGiven(req)
    ensures r.result.Err? ==> r.result.error == BadRequest && r.db == db
    ensures r.result.Ok? ==>
      var t := r.result.value;
      && t.id == db.nextTableId && t.restaurantId == restaurantId
      && Some(t.seats) == req.seats && Some(t.tableNumber) == req.tableNumber
      && t.status == Available
      && r.db == db.(tables := db.tables + [t], nextTableId := db.nextTableId + 1)
  {
    if !TableFieldsGiven(req) then Reply(Err(BadRequest), db)
    else
      var t := Table(db.nextTableId, restaurantId, req.seats.value, req.tableNumber.value, Available);
      Reply(Ok(t), db.(tables := db.tables + [t], nextTableId := db.nextTableId + 1))
  }

  /** POST /book, called by `user`. Only the table's status decides whether
      it can be booked; the time and the restaurant id are stored unchecked. */
  function Book(db: Db, user: int, req: BookRequest): (r: Reply<Booking>)
    ensures r.result == Err(BadRequest) <==> !BookFieldsGiven(req)
    ensures r.result == Err(AlreadyBooked)
        <==> BookFieldsGiven(req) && !TableFree(db.tables, req.tableId.value)
    ensures r.result.Ok? <==> BookFieldsGiven(req) && TableFree(db.tables, req.tableId.value)
    ensures r.result.Err? ==> r.db == db
    ensures r.result.Ok? ==>
      var b := r.result.value;
      && b == Booking(db.nextBookingId, user, req.restaurantId.value, req.tableId.value,
                      req.reservationTime.value, Confirmed)
      && r.db == Reserve(db, b)
  {
    if !BookFieldsGiven(req) then Reply(Err(BadRequest), db)
    else
      var tableId := req.tableId.value;
      match First(db.tables, (t: Table) => t.id == tableId && t.status == Available)
      case None => Reply(Err(AlreadyBooked), db)
      case Some(_) =>
        var b := Booking(db.nextBookingId, user, req.restaurantId.value, tableId,
                         req.reservationTime.value, Confirmed);
        Reply(Ok(b), Reserve(db, b))
  }

  /** POST /cancel-booking, called by `user`. A booking id that does not exist
      and one that belongs to someone else get the same Forbidden reply. */
  function Cancel(db: Db, user: int, bookingId: Option<int>): (r: Reply<()>)
    ensures r.result == Err(BadRequest) <==> !NumberGiven(bookingId)
    ensures r.result == Err(Forbidden)
        <==> NumberGiven(bookingId) && !OwnsBooking(db.bookings, bookingId.value, user)
    ensures r.result.Ok? <==> NumberGiven(bookingId) && OwnsBooking(db.bookings, bookingId.value, user)
    ensures r.result.Err? ==> r.db == db
    ensures r.result.Ok? ==>
      exists k :: 0 <= k < |db.bookings| && db.bookings[k].id == bookingId.value
        && db.bookings[k].userId == user
        && r.db == Release(db, bookingId.value, db.bookings[k].tableId)
  {
    if !NumberGiven(bookingId) then Reply(Err(BadRequest), db)
    else
      match First(db.bookings, (b: Booking) => b.id == bookingId.value && b.userId == user)
      case None => Reply(Err(Forbidden), db)
      case Some(b) =>
        Reply(Ok(()), Release(db, bookingId.value, b.tableId))
  }

  // ---------------------------------------------------------------------
  // The invariant is kept by every handler.

  lemma AddRestaurantPreserves(db: Db, owner: int, req: RestaurantRequest)
    requires Consistent(db)
    ensures Consistent(AddRestaurant(db, owner, req).db)
  {
  }

  lemma AddTablePreserves(db: Db, restaurantId: int, req: TableRequest)
    requires Consistent(db)
    ensures Consistent(AddTable(db, restaurantId, req).db)
  {
    var r := AddTable(db, restaurantId, req);
    if r.result.Ok? {
      var db', t := r.db, r.result.value;
      assert forall i :: 0 <= i < |db.tables| ==> db'.tables[i] == db.tables[i];
      forall i | 0 <= i < |db'.tables|
        ensures 1 <= db'.tables[i].id < db'.nextTableId
      {
        if i < |db.tables| {
          assert db'.tables[i] == db.tables[i];
        }
      }
      forall i | 0 <= i < |db.bookings|
        ensures HasTable(db'.tables, db.bookings[i].tableId)
      {
        assert HasTable(db.tables, db.bookings[i].tableId);
      }
      // The fresh table id is above every id, so no booking references it.
      forall i | 0 <= i < |db.bookings| ensures db.bookings[i].tableId != t.id {
        assert HasTable(db.tables, db.bookings[i].tableId);
      }
      RefsPositive(db.bookings, t.id);
      assert StatusAgrees(db'.tables[|db.tables|], db'.bookings);
    }
  }

  lemma BookPreserves(db: Db, user: int, req: BookRequest)
    requires Consistent(db)
    ensures Consistent(Book(db, user, req).db)
  {
    var r := Book(db, user, req);
    if r.result.Ok? {
      var k :| 0 <= k < |db.tables| && db.tables[k].id == req.tableId.value && db.tables[k].status == Available;
      ReserveKeepsConsistent(db, r.result.value, k);
    }
  }

  lemma CancelPreserves(db: Db, user: int, bookingId: Option<int>)
    requires Consistent(db)
    ensures Consistent(Cancel(db, user, bookingId).db)
  {
    var r := Cancel(db, user, bookingId);
    if r.result.Ok? {
      var k :| 0 <= k < |db.bookings| && db.bookings[k].id == bookingId.value
        && db.bookings[k].userId == user
        && r.db == Release(db, bookingId.value, db.bookings[k].tableId);
      ReleaseKeepsConsistent(db, k);
    }
  }

  // ---------------------------------------------------------------------
  // Behaviour of booking and cancelling.

  /** A successful booking touches nothing but its own row and its table's
      status: restaurants and earlier bookings stay, every other table stays,
      and the booked table, now reserved, keeps its other columns. */
  lemma BookChangesOnlyItsTable(db: Db, user: int, req: BookRequest)
    requires Book(db, user, req).result.Ok?
    ensures
      var r := Book(db, user, req);
      && r.db.restaurants == db.restaurants
      && r.db.bookings == db.bookings + [r.result.value]
      && |r.db.tables| == |db.tables|
      && (forall i :: 0 <= i < |db.tables| && db.tables[i].id != req.tableId.value ==>
            r.db.tables[i] == db.tables[i])
      && (forall i :: 0 <= i < |db.tables| && db.tables[i].id == req.tableId.value ==>
            r.db.tables[i] == db.tables[i].(status := Reserved))
  {
  }

  /** A table that any booking references is refused to every booker, at any
      time: the only check is the table's status. */
  lemma BookedTableRefused(db: Db, user: int, req: BookRequest)
    requires Consistent(db) && BookFieldsGiven(req)
    requires exists i :: 0 <= i < |db.bookings| && db.bookings[i].tableId == req.tableId.value
    ensures Book(db, user, req) == Reply(Err(AlreadyBooked), db)
  {
    var tableId := req.tableId.value;
    RefsPositive(db.bookings, tableId);
    forall k | 0 <= k < |db.tables| && db.tables[k].id == tableId
      ensures db.tables[k].status != Available
    {
      assert StatusAgrees(db.tables[k], db.bookings);
    }
  }

  /** Once a table is booked, a second booking of it is refused, whoever
      asks and whatever the reservation time. */
  lemma SecondBookingRefused(db: Db, user: int, req: BookRequest, other: int, req2: BookRequest)
    requires Book(db, user, req).result.Ok?
    requires BookFieldsGiven(req2) && req2.tableId == req.tableId
    ensures
      var db' := Book(db, user, req).db;
      Book(db', other, req2) == Reply(Err(AlreadyBooked), db')
  {
  }

  /** Cancelling a booking that does not exist, or that exists but belongs to
      another user, fails alike with Forbidden and changes nothing. */
  lemma CancelOthersForbidden(db: Db, user: int, bookingId: int)
    requires Consistent(db) && bookingId != 0
    requires (forall i :: 0 <= i < |db.bookings| ==> db.bookings[i].id != bookingId)
          || (exists i :: 0 <= i < |db.bookings| && db.bookings[i].id == bookingId && db.bookings[i].userId != user)
    ensures Cancel(db, user, Some(bookingId)) == Reply(Err(Forbidden), db)
  {
  }

  /** After a successful cancel the same booking id is gone: repeating the
      cancel fails with Forbidden and changes nothing. */
  lemma CancelTwiceForbidden(db: Db, user: int, bookingId: Option<int>)
    requires Cancel(db, user, bookingId).result.Ok?
    ensures
      var db' := Cancel(db, user, bookingId).db;
      Cancel(db', user, bookingId) == Reply(Err(Forbidden), db')
  {
  }

  /** A cancel removes exactly the one booking it names, and nothing else. */
  lemma CancelRemovesOne(db: Db, user: int, bookingId: Option<int>)
    requires Consistent(db) && Cancel(db, user, bookingId).result.Ok?
    ensures
      var db' := Cancel(db, user, bookingId).db;
      && |db'.bookings| == |db.bookings| - 1
      && (forall b :: b in db'.bookings <==> b in db.bookings && b.id != bookingId.value)
  {
    var k :| 0 <= k < |db.bookings| && db.bookings[k].id == bookingId.value && db.bookings[k].userId == user;
    DeleteOneShortens(db.bookings, k);
  }

  /** Cancelling frees the table: the next booking of it succeeds, for any
      user and any time. */
  lemma CancelFreesTable(db: Db, user: int, bookingId: Option<int>, k: int,
                         other: int, req: BookRequest)
    requires Consistent(db) && Cancel(db, user, bookingId).result.Ok?
    requires 0 <= k < |db.bookings| && db.bookings[k].id == bookingId.value
    requires BookFieldsGiven(req) && req.tableId.value == db.bookings[k].tableId
    ensures Book(Cancel(db, user, bookingId).db, other, req).result.Ok?
  {
  }
}
