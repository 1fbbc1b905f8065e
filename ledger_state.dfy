/** The reservation ledger as one value: the three stores, the next id each
    store's serial column hands out, and the invariant tying table status to
    the bookings that reference the table. */
module LedgerState {
  import opened Records

  datatype Db = Db(
    restaurants: seq<Restaurant>,
    tables: seq<Table>,
    bookings: seq<Booking>,
    nextRestaurantId: int,
    nextTableId: int,
    nextBookingId: int)

  /** A fresh database: no rows, every serial column starting at 1. */
  function Empty(): Db {
    Db([], [], [], 1, 1, 1)
  }

  predicate HasRestaurant(rs: seq<Restaurant>, id: int) {
    exists i :: 0 <= i < |rs| && rs[i].id == id
  }

  predicate HasTable(ts: seq<Table>, id: int) {
    exists i :: 0 <= i < |ts| && ts[i].id == id
  }

  /** How many bookings reference table `tableId`. */
  function Refs(bs: seq<Booking>, tableId: int): nat {
    if bs == [] then 0
    else (if bs[0].tableId == tableId then 1 else 0) + Refs(bs[1..], tableId)
  }

  /** `UPDATE tables SET status = s WHERE id = tableId`. */
  function SetStatus(ts: seq<Table>, tableId: int, s: TableStatus): (r: seq<Table>)
    ensures |r| == |ts|
    ensures forall i :: 0 <= i < |ts| && ts[i].id != tableId ==> r[i] == ts[i]
    ensures forall i :: 0 <= i < |ts| && ts[i].id == tableId ==> r[i] == ts[i].(status := s)
  {
    seq(|ts|, i requires 0 <= i < |ts| => if ts[i].id == tableId then ts[i].(status := s) else ts[i])
  }

  /** `DELETE FROM bookings WHERE id = bookingId`: the other rows, in order. */
  function DeleteBooking(bs: seq<Booking>, bookingId: int): (r: seq<Booking>)
    ensures forall b :: b in r <==> b in bs && b.id != bookingId
    ensures |r| <= |bs|
  {
    if bs == [] then []
    else if bs[0].id == bookingId then DeleteBooking(bs[1..], bookingId)
    else [bs[0]] + DeleteBooking(bs[1..], bookingId)
  }

  predicate UniqueBookingIds(bs: seq<Booking>) {
    forall i, j :: 0 <= i < |bs| && 0 <= j < |bs| && bs[i].id == bs[j].id ==> i == j
  }

  predicate UniqueTableIds(ts: seq<Table>) {
    forall i, j :: 0 <= i < |ts| && 0 <= j < |ts| && ts[i].id == ts[j].id ==> i == j
  }

  predicate UniqueRestaurantIds(rs: seq<Restaurant>) {
    forall i, j :: 0 <= i < |rs| && 0 <= j < |rs| && rs[i].id == rs[j].id ==> i == j
  }

  /** Every id a serial column handed out is positive and below the next one. */
  predicate IdsIssued(db: Db) {
    && 1 <= db.nextRestaurantId && 1 <= db.nextTableId && 1 <= db.nextBookingId
    && (forall i :: 0 <= i < |db.restaurants| ==> 1 <= db.restaurants[i].id < db.nextRestaurantId)
    && (forall i :: 0 <= i < |db.tables| ==> 1 <= db.tables[i].id < db.nextTableId)
    && (forall i :: 0 <= i < |db.bookings| ==> 1 <= db.bookings[i].id < db.nextBookingId)
  }

  /** A table is reserved with exactly one booking on it, or available with none. */
  predicate StatusAgrees(t: Table, bs: seq<Booking>) {
    || (t.status == Reserved && Refs(bs, t.id) == 1)
    || (t.status == Available && Refs(bs, t.id) == 0)
  }

  /** Ids are primary keys handed out by the serial columns. */
  predicate KeysValid(db: Db) {
    && IdsIssued(db)
    && UniqueRestaurantIds(db.restaurants)
    && UniqueTableIds(db.tables)
    && UniqueBookingIds(db.bookings)
  }

  predicate BookingsNameTables(db: Db) {
    forall i :: 0 <= i < |db.bookings| ==> HasTable(db.tables, db.bookings[i].tableId)
  }

  predicate StatusesAgree(db: Db) {
    forall i :: 0 <= i < |db.tables| ==> StatusAgrees(db.tables[i], db.bookings)
  }

  /** The ledger invariant: ids are primary keys, every booking names an
      existing table, and every table's status agrees with its bookings. */
  predicate Consistent(db: Db) {
    KeysValid(db) && BookingsNameTables(db) && StatusesAgree(db)
  }

  /** INSERT booking `b`, then UPDATE its table to 'reserved'. */
  function Reserve(db: Db, b: Booking): Db {
    db.(bookings := db.bookings + [b],
        tables := SetStatus(db.tables, b.tableId, Reserved),
        nextBookingId := db.nextBookingId + 1)
  }

  /** DELETE booking `bookingId`, then UPDATE table `tableId` to 'available'. */
  function Release(db: Db, bookingId: int, tableId: int): Db {
    db.(bookings := DeleteBooking(db.bookings, bookingId),
        tables := SetStatus(db.tables, tableId, Available))
  }

  lemma EmptyConsistent()
    ensures Consistent(Empty())
  {
  }

  /** Appending a booking adds one reference to its table and none elsewhere. */
  lemma {:induction false} RefsAppend(bs: seq<Booking>, b: Booking, tableId: int)
    ensures Refs(bs + [b], tableId) == Refs(bs, tableId) + (if b.tableId == tableId then 1 else 0)
  {
    if bs != [] {
      assert (bs + [b])[1..] == bs[1..] + [b];
      RefsAppend(bs[1..], b, tableId);
    }
  }

  /** A table some booking references has at least one reference. */
  lemma {:induction false} RefsPositive(bs: seq<Booking>, tableId: int)
    ensures Refs(bs, tableId) > 0 <==> exists i :: 0 <= i < |bs| && bs[i].tableId == tableId
  {
    if bs != [] {
      RefsPositive(bs[1..], tableId);
      if bs[0].tableId != tableId && exists i :: 0 <= i < |bs| && bs[i].tableId == tableId {
        var i :| 0 <= i < |bs| && bs[i].tableId == tableId;
        assert bs[1..][i - 1].tableId == tableId;
      }
    }
  }

  /** Two distinct bookings on one table make two references. */
  lemma {:induction false} RefsTwo(bs: seq<Booking>, i: int, j: int)
    requires 0 <= i < j < |bs| && bs[i].tableId == bs[j].tableId
    ensures Refs(bs, bs[i].tableId) >= 2
  {
    if i == 0 {
      RefsPositive(bs[1..], bs[i].tableId);
      assert bs[1..][j - 1].tableId == bs[i].tableId;
    } else {
      RefsTwo(bs[1..], i - 1, j - 1);
    }
  }

  /** The DELETE keeps every other booking as often as the store holds it,
      whether or not ids are unique. */
  lemma {:induction false} DeleteBookingBag(bs: seq<Booking>, bookingId: int)
    ensures forall b :: multiset(DeleteBooking(bs, bookingId))[b]
                     == if b.id != bookingId then multiset(bs)[b] else 0
  {
    if bs != [] {
      DeleteBookingBag(bs[1..], bookingId);
      assert bs == [bs[0]] + bs[1..];
    }
  }

  /** Deleting a booking id no booking carries changes nothing. */
  lemma {:induction false} DeleteAbsent(bs: seq<Booking>, bookingId: int)
    requires forall i :: 0 <= i < |bs| ==> bs[i].id != bookingId
    ensures DeleteBooking(bs, bookingId) == bs
  {
    if bs != [] {
      DeleteAbsent(bs[1..], bookingId);
    }
  }

  /** Deleting an id exactly one booking carries shortens the store by one. */
  lemma {:induction false} DeleteOneShortens(bs: seq<Booking>, k: int)
    requires UniqueBookingIds(bs) && 0 <= k < |bs|
    ensures |DeleteBooking(bs, bs[k].id)| == |bs| - 1
  {
    if k == 0 {
      DeleteAbsent(bs[1..], bs[0].id);
    } else {
      assert bs[0].id != bs[k].id;
      DeleteOneShortens(bs[1..], k - 1);
    }
  }

  /** Deleting one booking by its (unique) id removes exactly its reference. */
  lemma {:induction false} RefsDelete(bs: seq<Booking>, k: int, tableId: int)
    requires UniqueBookingIds(bs) && 0 <= k < |bs|
    ensures Refs(DeleteBooking(bs, bs[k].id), tableId)
         == Refs(bs, tableId) - (if bs[k].tableId == tableId then 1 else 0)
  {
    if k == 0 {
      DeleteAbsent(bs[1..], bs[0].id);
    } else {
      assert bs[0].id != bs[k].id;
      RefsDelete(bs[1..], k - 1, tableId);
    }
  }

  /** Deleting from a store with unique ids keeps its ids unique. */
  lemma {:induction false} DeleteKeepsUnique(bs: seq<Booking>, bookingId: int)
    requires UniqueBookingIds(bs)
    ensures UniqueBookingIds(DeleteBooking(bs, bookingId))
  {
    if bs != [] {
      DeleteKeepsUnique(bs[1..], bookingId);
      var rest := DeleteBooking(bs[1..], bookingId);
      if bs[0].id != bookingId {
        forall j | 0 <= j < |rest| ensures bs[0].id != rest[j].id {
          assert rest[j] in bs[1..];
        }
      }
    }
  }

  /** No double booking: in a consistent ledger no two bookings share a table. */
  lemma NoDoubleBooking(db: Db, i: int, j: int)
    requires Consistent(db)
    requires 0 <= i < j < |db.bookings|
    ensures db.bookings[i].tableId != db.bookings[j].tableId
  {
    assert HasTable(db.tables, db.bookings[i].tableId);
    var k :| 0 <= k < |db.tables| && db.tables[k].id == db.bookings[i].tableId;
    assert StatusAgrees(db.tables[k], db.bookings);
    if db.bookings[i].tableId == db.bookings[j].tableId {
      RefsTwo(db.bookings, i, j);
    }
  }

  /** In a consistent ledger the stored status says whether the table is booked. */
  lemma ReservedIffBooked(db: Db, k: int)
    requires Consistent(db) && 0 <= k < |db.tables|
    ensures db.tables[k].status == Reserved
        <==> exists i :: 0 <= i < |db.bookings| && db.bookings[i].tableId == db.tables[k].id
  {
    RefsPositive(db.bookings, db.tables[k].id);
    assert StatusAgrees(db.tables[k], db.bookings);
  }

  // ---------------------------------------------------------------------
  // Reserving a free table and releasing a booking keep the invariant.

  /** Reserving available table `k` for a booking with a fresh id keeps the
      ledger consistent. */
  lemma ReserveKeepsConsistent(db: Db, b: Booking, k: int)
    requires Consistent(db) && b.id == db.nextBookingId
    requires 0 <= k < |db.tables| && db.tables[k].id == b.tableId && db.tables[k].status == Available
    ensures Consistent(Reserve(db, b))
  {
    ReserveKeepsKeys(db, b);
    ReserveKeepsTableRefs(db, b, k);
    ReserveKeepsStatuses(db, b, k);
  }

  lemma ReserveKeepsKeys(db: Db, b: Booking)
    requires KeysValid(db) && b.id == db.nextBookingId
    ensures KeysValid(Reserve(db, b))
  {
  }

  lemma ReserveKeepsTableRefs(db: Db, b: Booking, k: int)
    requires BookingsNameTables(db)
    requires 0 <= k < |db.tables| && db.tables[k].id == b.tableId
    ensures BookingsNameTables(Reserve(db, b))
  {
  }

  lemma ReserveKeepsStatuses(db: Db, b: Booking, k: int)
    requires StatusesAgree(db)
    requires 0 <= k < |db.tables| && db.tables[k].id == b.tableId && db.tables[k].status == Available
    ensures StatusesAgree(Reserve(db, b))
  {
    var db' := Reserve(db, b);
    assert StatusAgrees(db.tables[k], db.bookings);
    forall i | 0 <= i < |db'.tables|
      ensures StatusAgrees(db'.tables[i], db'.bookings)
    {
      RefsAppend(db.bookings, b, db.tables[i].id);
      assert StatusAgrees(db.tables[i], db.bookings);
    }
  }

  /** Deleting booking `k` and making its table available keeps the ledger
      consistent. */
  lemma ReleaseKeepsConsistent(db: Db, k: int)
    requires Consistent(db) && 0 <= k < |db.bookings|
    ensures Consistent(Release(db, db.bookings[k].id, db.bookings[k].tableId))
  {
    ReleaseKeepsKeysAndRefs(db, k);
    ReleaseKeepsStatuses(db, k);
  }

  lemma ReleaseKeepsKeysAndRefs(db: Db, k: int)
    requires KeysValid(db) && BookingsNameTables(db) && 0 <= k < |db.bookings|
    ensures
      var db' := Release(db, db.bookings[k].id, db.bookings[k].tableId);
      KeysValid(db') && BookingsNameTables(db')
  {
    var db' := Release(db, db.bookings[k].id, db.bookings[k].tableId);
    DeleteKeepsUnique(db.bookings, db.bookings[k].id);
    forall i | 0 <= i < |db'.bookings|
      ensures 1 <= db'.bookings[i].id < db'.nextBookingId
      ensures HasTable(db'.tables, db'.bookings[i].tableId)
    {
      assert db'.bookings[i] in db.bookings;
      var j :| 0 <= j < |db.bookings| && db.bookings[j] == db'.bookings[i];
      assert HasTable(db.tables, db.bookings[j].tableId);
    }
  }

  lemma ReleaseKeepsStatuses(db: Db, k: int)
    requires UniqueBookingIds(db.bookings) && StatusesAgree(db) && 0 <= k < |db.bookings|
    ensures StatusesAgree(Release(db, db.bookings[k].id, db.bookings[k].tableId))
  {
    var tableId := db.bookings[k].tableId;
    var db' := Release(db, db.bookings[k].id, tableId);
    forall i | 0 <= i < |db'.tables|
      ensures StatusAgrees(db'.tables[i], db'.bookings)
    {
      RefsDelete(db.bookings, k, db.tables[i].id);
      assert StatusAgrees(db.tables[i], db.bookings);
      if db.tables[i].id == tableId {
        RefsPositive(db.bookings, tableId);
      }
    }
  }
}
