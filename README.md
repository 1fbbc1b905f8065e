# Restaurant table reservations: the ledger core

This project models the part of the restaurant booking server (`server.js`) that
keeps the reservation ledger. The ledger holds three stores: restaurants, their
tables, and bookings. Seven HTTP handlers read or write it:

- add a restaurant (`POST /restaurants/add`);
- add a table to a restaurant (`POST /restaurants/:id/tables/add`);
- book a table (`POST /book`);
- cancel a booking (`POST /cancel-booking`);
- list a restaurant's tables (`GET /restaurants/:id/tables`);
- list the caller's bookings (`GET /my-bookings`) and a restaurant's bookings
  for its owner (`GET /restaurant/:id/bookings`).

Modules:

- `Records`: the rows and the request bodies. A body field is an `Option`:
  `None` means the field is absent or null. `NumberGiven` and `TextGiven` model
  JavaScript truthiness: a number is given when it is not 0, a text when it is
  not empty.
- `Rows`: the three query shapes the handlers use. `First` is the first row a
  WHERE clause selects, `Filter` keeps every row it selects, and `SortBy` is an
  ORDER BY (an insertion sort on a rank).
- `LedgerState`: the ledger as a value (`Db`). The serial counters start at 1.
  `SetStatus` and `DeleteBooking` are the UPDATE and DELETE statements.
  `Reserve` is the booking INSERT followed by the UPDATE to 'reserved'
  (server.js:166-172); `Release` is the DELETE followed by the UPDATE to
  'available' (server.js:202-205).
  `Consistent` is the invariant:
  - ids are unique and already issued;
  - every booking names an existing table;
  - a table is `Reserved` with exactly one booking on it, or `Available` with
    none.
- `Handlers`: each writing handler is one function from a ledger to a reply
  and the next ledger. Preservation and behaviour lemmas are proved about these
  functions.
- `Views`: the three read handlers as a filter (the inner joins included)
  followed by an ordering.
- `Server`: class `Ledger` holds the stores and counters as fields. Each writing
  handler is a method that checks the request and then updates the fields step
  by step, in the order the handler issues its queries. Each method is proved
  to agree with its `Handlers` function and to keep `Consistent`. Two scenario
  methods replay a race for one table (`RaceForOneTable`) and its sequel
  (`CancelFreesTheSlot`, whose assertions check that the loser's cancel of the
  winner's booking is Forbidden, the winner's cancel frees the table, and the
  loser can then book it).

Error replies are the enum `Error`:

- `BadRequest`: HTTP 400 for a missing field.
- `AlreadyBooked`: HTTP 400 for a table that is not available.
- `Forbidden`: HTTP 403.

Modelled as the code does it, where a reader might expect otherwise:

- Adding a table checks only that the caller is authenticated. The handler's
  comment says admins only, but no owner or role check is made. The restaurant
  id is not looked up either.
- A booking is refused only because of its table's status. The reservation time
  plays no part, and neither does whether the table belongs to the named
  restaurant. So one booking blocks a table at every time until it is cancelled.
- My-bookings joins restaurants and tables. A booking whose `restaurant_id`
  names no restaurant is stored but never listed for its owner
  (`Views.MyBookingsExactly`).
- Cancelling a booking id that does not exist and cancelling another user's
  booking give the same Forbidden reply.

## Model

| member | source | states |
|---|---|---|
| Rows.First | server.js:160-161 | the row returned satisfies the WHERE clause and is in the store; no row means no row of the store matches |
| Rows.Filter | server.js:245-247 | the result holds each row the WHERE clause selects as often as the store does, and no other row |
| Rows.SortBy | server.js:246 | the result is a permutation (same multiset) of the input, in non-decreasing order of the sort key |
| Rows.Insert | server.js:246 | inserting into an ordered sequence adds exactly that row and keeps the order |
| LedgerState.SetStatus | server.js:172 | the UPDATE changes the status of the rows with that id and leaves every other row and column as it was |
| LedgerState.DeleteBooking | server.js:202 | the DELETE keeps exactly the bookings with another id and never grows the store |
| LedgerState.DeleteBookingBag | server.js:202 | the DELETE keeps every booking with another id as often as the store holds it, and none with that id, even without unique ids |
| LedgerState.RefsAppend | server.js:166-169 | inserting a booking adds one reference to its table and none to any other table |
| LedgerState.RefsPositive | server.js:160 | a table has a positive reference count iff some booking names it |
| LedgerState.RefsTwo | server.js:160-172 | two distinct bookings on one table give it at least two references |
| LedgerState.DeleteAbsent | server.js:202 | deleting an id no booking carries leaves the store unchanged |
| LedgerState.RefsDelete | server.js:202 | deleting a booking by its unique id removes exactly one reference, from that booking's table |
| LedgerState.DeleteKeepsUnique | server.js:202 | the DELETE keeps booking ids unique |
| LedgerState.EmptyConsistent | server.js:110-212 | a fresh database satisfies the ledger invariant |
| LedgerState.NoDoubleBooking | server.js:160-172 | in a consistent ledger no two bookings share a table |
| LedgerState.ReservedIffBooked | server.js:160-172 | in a consistent ledger a table's status is 'reserved' iff some booking references it |
| LedgerState.ReserveKeepsConsistent | server.js:166-172 | inserting a booking with a fresh id on an available table, then marking the table reserved, keeps the invariant |
| LedgerState.ReserveKeepsKeys | server.js:166-169 | the booking insert keeps ids unique and issued |
| LedgerState.ReserveKeepsTableRefs | server.js:160-169 | after the insert every booking still names an existing table |
| LedgerState.ReserveKeepsStatuses | server.js:166-172 | after the insert and the update every table's status agrees with its bookings |
| LedgerState.ReleaseKeepsConsistent | server.js:199-205 | deleting a booking, then marking its table available, keeps the invariant |
| LedgerState.ReleaseKeepsKeysAndRefs | server.js:202 | the delete keeps ids unique and issued, and every remaining booking names an existing table |
| LedgerState.ReleaseKeepsStatuses | server.js:199-205 | after the delete and the update every table's status agrees with its bookings |
| Handlers.AddRestaurant | server.js:110-127 | Ok iff name, address and phone are all given; otherwise BadRequest and nothing changes; on Ok the new row carries the next id, the caller as owner and the request's fields, and is appended |
| Handlers.AddTable | server.js:130-148 | Ok iff seats and table number are both given (so 0 is rejected); otherwise BadRequest and nothing changes; on Ok the new table has the next id, the given restaurant id, seats and number, and status 'available' |
| Handlers.Book | server.js:151-179 | BadRequest iff a field is missing; AlreadyBooked iff the fields are given but no table with that id is available; Ok iff fields given and table available; errors change nothing; on Ok a confirmed booking with the next id and the caller's data is appended and its table set to reserved |
| Handlers.Cancel | server.js:182-212 | BadRequest iff the id is missing; Forbidden iff the caller owns no booking with that id; Ok iff they own one; errors change nothing; on Ok that booking is deleted and its table set to available |
| Handlers.AddRestaurantPreserves | server.js:110-127 | adding a restaurant keeps the ledger invariant |
| Handlers.AddTablePreserves | server.js:130-148 | adding a table keeps the ledger invariant: the new table is available and no booking references it |
| Handlers.BookPreserves | server.js:151-179 | booking keeps the ledger invariant |
| Handlers.CancelPreserves | server.js:182-212 | cancelling keeps the ledger invariant |
| Handlers.BookChangesOnlyItsTable | server.js:166-172 | a successful booking leaves restaurants, earlier bookings and every other table untouched, and changes only the status of the booked table |
| Handlers.BookedTableRefused | server.js:160-163 | in a consistent ledger a table that some booking references is refused with AlreadyBooked, whoever books and at whatever time, and nothing changes |
| Handlers.SecondBookingRefused | server.js:151-179 | in any ledger, consistent or not, right after a successful booking every booking of the same table is refused with AlreadyBooked, whoever asks and at whatever time |
| Handlers.CancelOthersForbidden | server.js:191-197 | a missing booking id and another user's booking get the same Forbidden reply, with nothing changed |
| Handlers.CancelTwiceForbidden | server.js:191-202 | after a successful cancel, repeating it is Forbidden and changes nothing |
| Handlers.CancelRemovesOne | server.js:199-202 | a successful cancel removes exactly one booking, the one with that id, and keeps all others |
| LedgerState.DeleteOneShortens | server.js:202 | deleting an id that exactly one booking carries shortens the store by one |
| Handlers.CancelFreesTable | server.js:204-205 | after a successful cancel the freed table can be booked by anyone at any time |
| Views.TablesOf | server.js:241-254 | exactly the restaurant's tables (as a bag), in ascending table number |
| Views.MyBookings | server.js:257-273 | exactly the caller's bookings whose restaurant and table exist (as a bag), newest reservation first |
| Views.RestaurantBookings | server.js:276-304 | Forbidden iff the caller owns no restaurant with that id; otherwise exactly that restaurant's bookings whose table exists, newest first |
| Views.ListedStatusMatchesBookings | server.js:241-254 | in a consistent ledger a listed table belongs to the restaurant and shows 'reserved' iff some booking references it |
| Views.MyBookingsExactly | server.js:257-273 | in a consistent ledger my-bookings lists exactly the caller's bookings whose restaurant exists |
| Views.RestaurantBookingsExactly | server.js:276-304 | in a consistent ledger the owner is served, and sees exactly the restaurant's bookings |
| Server.Ledger.constructor | server.js:110-212 | a new ledger is empty, with counters at 1, and consistent |
| Server.Ledger.AddRestaurant | server.js:110-127 | the in-place update gives the reply and new state of Handlers.AddRestaurant, and keeps the invariant |
| Server.Ledger.AddTable | server.js:130-148 | the in-place update gives the reply and new state of Handlers.AddTable, and keeps the invariant |
| Server.Ledger.Book | server.js:151-179 | the check, insert and update give the reply and new state of Handlers.Book, and keep the invariant |
| Server.Ledger.Cancel | server.js:182-212 | the check, delete and update give the reply and new state of Handlers.Cancel, and keep the invariant |
| Server.RaceForOneTable | server.js:151-179 | two users book the same table at the same time: the first gets booking 1 and the table is reserved; the second is refused and nothing changes |

## Left out

- Registration, login and JWT issuing and checking (server.js:30-107) are not modelled. The caller's user id is a parameter of each handler. Requests with a missing or invalid token, which the middleware answers with 403, are not modelled.
- `GET /restaurants` (server.js:230-238) is not modelled: it is a plain `SELECT * FROM restaurants ORDER BY id` with no filter and no owner check. `GET /` and `GET /profile` do not touch the ledger.
- The 500 replies on a storage fault are not modelled. The database is assumed to answer every query. Also not modelled: a handler failing partway, such as the insert succeeding and then the status update failing.
- Concurrency is not modelled. Each handler runs as one atomic step. The source runs the availability check and the insert as separate queries without a transaction, so two concurrent bookings could both pass the check. The model shows only the sequential outcome.
- The database schema is not part of this model. No foreign keys, uniqueness or type constraints beyond the serial ids are assumed. Rows are stored as the handlers write them, and values the database would reject (a non-numeric id, unparsable time text) are out of scope.
- Values of the wrong JavaScript type are not modelled. Request fields are typed: numbers as `int`, text as `string`, and the reservation time as an already-parsed instant. A given time therefore counts as present whatever its value.
- The projected columns of the JOIN queries are not modelled. The model returns the booking rows; the source returns `restaurant_name`, `customer_name` and `table_number`.
- The join on users in the restaurant's bookings (server.js:293) is not modelled, because users are not modelled. Every booking is treated as having a user row.
- The React Native client (App.tsx and the screens) is not modelled.
