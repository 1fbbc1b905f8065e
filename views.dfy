/** The read-only handlers: the tables of a restaurant, the caller's own
    bookings, and a restaurant's bookings for its owner. Each is a WHERE
    filter (the inner joins included) followed by an ORDER BY. */
module Views {
  import opened Records
  import opened Rows
  import opened LedgerState

  predicate NewestFirst(bs: seq<Booking>) {
    forall i, j :: 0 <= i < j < |bs| ==> bs[i].reservationTime >= bs[j].reservationTime
  }

  /** Ranks later reservations first, for `ORDER BY reservation_time DESC`. */
  function Lateness(b: Booking): int {
    -b.reservationTime
  }

  /** GET /restaurants/:id/tables: the restaurant's tables, lowest number
      first, each with its stored status. */
  function TablesOf(db: Db, restaurantId: int): (r: seq<Table>)
    ensures forall t :: multiset(r)[t] == if t.restaurantId == restaurantId then multiset(db.tables)[t] else 0
    ensures forall i, j :: 0 <= i < j < |r| ==> r[i].tableNumber <= r[j].tableNumber
  {
    SortBy(Filter(db.tables, (t: Table) => t.restaurantId == restaurantId), (t: Table) => t.tableNumber)
  }

  /** The WHERE clause of my-bookings with its two inner joins: the caller's
      booking, with a restaurant row and a table row to join. */
  predicate UserRow(db: Db, user: int, b: Booking) {
    b.userId == user && HasRestaurant(db.restaurants, b.restaurantId) && HasTable(db.tables, b.tableId)
  }

  /** The WHERE clause of a restaurant's bookings with its join on tables. */
  predicate RestaurantRow(db: Db, restaurantId: int, b: Booking) {
    b.restaurantId == restaurantId && HasTable(db.tables, b.tableId)
  }

  /** GET /my-bookings: the caller's bookings, newest first. The query joins
      restaurants and tables, so a booking whose restaurant or table row is
      missing is not listed. */
  function MyBookings(db: Db, user: int): (r: seq<Booking>)
    ensures forall b :: multiset(r)[b] == if UserRow(db, user, b) then multiset(db.bookings)[b] else 0
    ensures NewestFirst(r)
  {
    SortBy(Filter(db.bookings, (b: Booking) => UserRow(db, user, b)), Lateness)
  }

  /** GET /restaurant/:id/bookings: Forbidden unless `caller` owns a restaurant
      with that id; otherwise its bookings, newest first. The query joins
      tables, so a booking whose table row is missing is not listed. */
  function RestaurantBookings(db: Db, caller: int, restaurantId: int): (r: Result<seq<Booking>>)
    ensures r.Err? <==> !exists i :: 0 <= i < |db.restaurants|
                          && db.restaurants[i].id == restaurantId && db.restaurants[i].ownerId == caller
    ensures r.Err? ==> r.error == Forbidden
    ensures r.Ok? ==> forall b ::
              multiset(r.value)[b] == if RestaurantRow(db, restaurantId, b) then multiset(db.bookings)[b] else 0
    ensures r.Ok? ==> NewestFirst(r.value)
  {
    match First(db.restaurants, (x: Restaurant) => x.id == restaurantId && x.ownerId == caller)
    case None => Err(Forbidden)
    case Some(_) =>
      Ok(SortBy(Filter(db.bookings, (b: Booking) => RestaurantRow(db, restaurantId, b)), Lateness))
  }

  // ---------------------------------------------------------------------
  // What the views show of a consistent ledger.

  /** Every listed table's status says whether a booking holds it. */
  lemma ListedStatusMatchesBookings(db: Db, restaurantId: int, t: Table)
    requires Consistent(db) && t in TablesOf(db, restaurantId)
    ensures t.restaurantId == restaurantId
    ensures t.status == Reserved <==> exists i :: 0 <= i < |db.bookings| && db.bookings[i].tableId == t.id
  {
    assert t in multiset(TablesOf(db, restaurantId));
    var k :| 0 <= k < |db.tables| && db.tables[k] == t;
    ReservedIffBooked(db, k);
  }

  /** In a consistent ledger every booking's table exists, so my-bookings
      lists exactly the caller's bookings whose restaurant exists. */
  lemma MyBookingsExactly(db: Db, user: int)
    requires Consistent(db)
    ensures forall b :: multiset(MyBookings(db, user))[b] ==
              if b.userId == user && HasRestaurant(db.restaurants, b.restaurantId) then multiset(db.bookings)[b] else 0
  {
  }

  /** In a consistent ledger the owner sees exactly the restaurant's bookings. */
  lemma RestaurantBookingsExactly(db: Db, owner: int, k: int)
    requires Consistent(db) && 0 <= k < |db.restaurants| && db.restaurants[k].ownerId == owner
    ensures
      var r := RestaurantBookings(db, owner, db.restaurants[k].id);
      && r.Ok?
      && forall b :: multiset(r.value)[b] ==
                      if b.restaurantId == db.restaurants[k].id then multiset(db.bookings)[b] else 0
  {
  }
}
