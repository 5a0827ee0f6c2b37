# Party seating: admission control

A Dafny model of the admission-control core of the GetGround party service. It covers:

- **Tables.** Each table has a fixed number of seats.
- **The guest list.** These are *reservations*: names booked in advance at a table.
- **Guests.** These are people who actually arrive and check in. A check-in finds the person's reservation and takes its table.

Each reservation and each guest counts for a party of `1 + accompanying` people. Before a record is inserted, the store's `BeforeCreate` hook does three things:

1. It validates the record.
2. It loads the record's table and the records of the same kind already seated there.
3. It sums their party sizes. The insert is refused when that sum plus the new party would exceed the table's capacity, and the error reports the overflow.

The two tracks, reservations and guests, are checked separately against the same capacities and never against each other. The venue's `seats_empty` figure counts only the guest track.

The model has three layers:

- **Record models.** `TableModel`, `ReservationModel` and `GuestModel` hold the record types, their validation, and each hook's decision as a function (`Admit`). `TableModel.BeforeCreate` only repeats the table's validation. The reservation and guest `BeforeCreate` hooks are methods whose summing loops are proved equal to their `Admit` function.
- **The store.** `Store.Ledger` is a class holding the three collections as sequences, with one method per write path. Its invariant `Valid()` says:
  - tables are numbered 1, 2, 3, … in insertion order and all have at least one seat;
  - every stored record passed validation and refers to a stored table;
  - names are unique within each track;
  - for every table and each track, the seats taken do not exceed the capacity.

  Every write path preserves this invariant.
- **Controllers.** `TableController`, `ReservationController` and `GuestController` model the HTTP handlers. Each controller method works on the ledger, and its contract states the reply and the new store contents in terms of the record functions.

Names are byte sequences (`seq<byte>`) because Go's `len` counts bytes. Arithmetic uses exact integers. Module `Int64` models Go's 64-bit `int` wrap-around, for the finding below.

## Model

| member | source | states |
|---|---|---|
| Common.CapacityCheck | models/reservation.go:63-65 | passes exactly when the party fits in the seats left (`party <= capacity - occupied`); otherwise reports capacity exceeded by an excess of at least 1, with `occupied + party == capacity + excess` |
| Common.Reply | api/reservation_controller.go:49-54 | the reply is a success carrying the record's name exactly when the create passed; otherwise it carries the create's error |
| Int64.WrapSumCongruent | models/guest.go:66 | wrapping a sum of values congruent to `x` and `y` modulo 2^64 gives a value congruent to `x + y`: each wrapped `sum +=` step stays congruent to the exact sum |
| Int64.Wrap | models/guest.go:29 | the wrapped value is the unique 64-bit `int` congruent to the exact result modulo 2^64; so a value already in range is unchanged, and `MaxInt64 + 1` wraps to `MinInt64` |
| TableModel.Validate | models/table.go:28-34 | fails exactly when capacity is at most 0, with the capacity-not-positive error; so a valid table has at least one seat |
| TableModel.BeforeCreate | models/table.go:36-42 | fails if and only if `Validate` fails, with the same error; it adds no condition of its own |
| TableModel.FindTable | models/reservation.go:43-47 | finds a stored table with the requested id, and finds none exactly when no stored table has that id |
| TableModel.FindNumbered | models/table.go:20 | with auto-increment keys 1 .. n, the lookup returns the table at position `id - 1`, and fails exactly for ids outside 1 .. n |
| TableModel.TableScenarios | tests/table_test.go:68-87 | capacity 4 is accepted; capacities 0 and -1 are rejected |
| ReservationModel.Guests | models/reservation.go:27 | the party size `1 + AccompanyingGuests` holds at least one person exactly when the accompanying count is not negative |
| ReservationModel.Validate | models/reservation.go:30-36 | fails exactly when the name is shorter than 6 bytes, reporting that length; the accompanying count is not looked at |
| ReservationModel.OnTable | models/reservation.go:50-55 | the table's reservations are exactly the stored reservations with that table id |
| ReservationModel.Admit | models/reservation.go:38-68 | the hook's decision: an accepted reservation is valid and refers to a stored table; a refusal is always a validation, table-not-found or capacity error, never a name conflict |
| ReservationModel.OccupancyAppend | models/reservation.go:58-61 | the booked sum `Occupancy` grows by exactly `Guests()` for each reservation added, as the loop's `sum += r.Guests()` |
| ReservationModel.BeforeCreate | models/reservation.go:38-68 | the hook's loop computes exactly the decision `Admit`: validation first, then the table lookup, then the sum of `Guests()` compared with capacity |
| ReservationModel.OnTableAppend | models/reservation.go:53 | a new reservation joins its own table's reservations, at the end, and no other table's |
| ReservationModel.OnTableCounts | models/reservation.go:53-61 | the table's list holds each reservation of that table exactly as many times as the store does and nothing else, so the loop's sum counts every booking once |
| ReservationModel.OnTableNone | models/reservation.go:58-61 | a table with no reservations has an empty list and a booked sum of 0 |
| ReservationModel.AdmitValidatesFirst | models/reservation.go:39-41 | an invalid reservation is refused with the validation error, whatever the tables and bookings |
| ReservationModel.AdmitDecision | models/reservation.go:57-65 | accepted exactly when valid, the table exists and `sum + Guests() <= capacity`; table not found exactly when valid and the table is missing; capacity exceeded exactly when valid, the table exists and `sum + Guests() > capacity`, and then the excess is `sum + Guests() - capacity` |
| ReservationModel.AdmitKeepsCapacity | models/reservation.go:63-67 | when a reservation is accepted, its table exists and stays within capacity once the reservation is added |
| ReservationModel.AppendKeepsUnique | models/reservation.go:20 | adding a reservation whose name is not taken keeps the names unique |
| ReservationModel.ReservationScenarios | tests/reservation_test.go:68-148 | the test cases: a party of 6 fits an empty 6-seat table; a party of 6 fits 8 seats holding a party of 2; a 4-byte name is refused; a party of 6 overflows an empty 4-seat table by 2, and 8 seats holding a party of 3 by 1 |
| ReservationModel.NegativeAccompanyingOverbooks | models/reservation.go:30-36 | a reservation with accompanying -5 is valid, and with it three bookings are all accepted on a 6-seat table although the other two parties alone hold 10 people |
| GuestModel.TotalGuests | models/guest.go:29 | the party size `1 + AccompanyingGuests` holds at least one person exactly when the accompanying count is not negative |
| GuestModel.Validate | models/guest.go:32-42 | passes exactly when the name has at least 6 bytes and accompanying is not negative; the name is checked first; each failure reports its cause; a valid guest's party is at least 1 |
| GuestModel.OnTable | models/guest.go:56-61 | the table's guests are exactly the stored guests with that table id |
| GuestModel.Admit | models/guest.go:44-74 | the hook's decision: an accepted guest is valid and refers to a stored table; a refusal is always a validation, table-not-found or capacity error, never a name conflict |
| GuestModel.OccupancyAtLeastCount | models/guest.go:64-67 | guests with no negative count take at least one seat each, so the occupied sum is at least the number of guests |
| GuestModel.BeforeCreate | models/guest.go:44-74 | the hook's loop computes exactly the decision `Admit`: validation first, then the table lookup, then the sum of `TotalGuests()` compared with capacity |
| GuestModel.WithoutName | api/guest_controller.go:90 | the guests left are exactly the stored guests with a different name, each as many times as before |
| GuestModel.OnTableAppend | models/guest.go:59 | a new guest joins its own table's guests, at the end, and no other table's |
| GuestModel.OnTableCounts | models/guest.go:59-67 | the table's list holds each guest of that table exactly as many times as the store does and nothing else, so the loop's sum counts every party once |
| GuestModel.OnTableNone | models/guest.go:64-67 | a table with no guests has an empty list and an occupied sum of 0 |
| GuestModel.OccupancyAppend | models/guest.go:64-67 | one more guest adds exactly its `TotalGuests()` to the sum |
| GuestModel.AdmitValidatesFirst | models/guest.go:45-47 | an invalid guest is refused with the validation error before any table is consulted |
| GuestModel.AdmitDecision | models/guest.go:63-71 | accepted exactly when valid, the table exists and `sum + TotalGuests() <= capacity`; table not found exactly when valid and the table is missing; capacity exceeded exactly in the remaining valid case, with the excess `sum + TotalGuests() - capacity` |
| GuestModel.AdmitKeepsCapacity | models/guest.go:69-73 | when a guest is accepted, its table exists and stays within capacity once the guest is added |
| GuestModel.AppendKeepsUnique | models/guest.go:21 | adding a guest whose name is not taken keeps the names unique |
| GuestModel.RemovalFreesSeats | api/guest_controller.go:90 | when no accompanying count is negative, deleting by name never raises any table's occupied seats |
| GuestModel.WithoutAbsentName | api/guest_controller.go:90 | deleting a name no guest has leaves the guests unchanged |
| GuestModel.WithoutNameKeepsUnique | api/guest_controller.go:90 | deleting keeps the remaining names unique |
| GuestModel.GuestScenarios | tests/guest_test.go:69-167 | the test cases: a party of 6 fits an empty 6-seat table, and 9 seats holding a party of 3; the 4-byte name `user` with 5 companions is refused as too short; accompanying -5 is refused; a party of 6 overflows an empty 5-seat table by 1, and 8 seats holding a party of 3 by 1; in addition, a 4-byte name with accompanying -5 is refused for its name, as validation checks the name first |
| GuestModel.TotalGuestsInt64 | models/guest.go:29 | `TotalGuests()` in Go's `int`: a 64-bit value congruent to the exact party size modulo 2^64 |
| GuestModel.OccupancyInt64 | models/guest.go:64-67 | the loop's `sum` in Go's `int`: a 64-bit value congruent to the exact occupied sum modulo 2^64 |
| GuestModel.AdmitInt64 | models/guest.go:44-74 | the hook as the Go code computes it: an invalid guest gets the validation error, and an accepted guest is valid and refers to a stored table |
| GuestModel.WrappedCheckAdmitsOversizedParty | models/guest.go:64-71 | with Go's 64-bit arithmetic, a valid guest with accompanying `MaxInt64` gets party size `MinInt64` and is seated at a one-seat table; the exact check refuses them with an overflow of `MaxInt64` |
| Store.Commit | api/reservation_controller.go:49 | a create passes exactly when the hook passes and the name is free; a hook failure is reported as is; a taken name is a conflict |
| Store.AdmittedReservationKeepsConsistent | models/reservation.go:63-67 | appending a reservation the hook accepts, under a free name, keeps the guest list consistent: every table's bookings stay within capacity |
| Store.AdmittedGuestKeepsConsistent | models/guest.go:69-73 | appending a guest the hook accepts, under a free name, keeps the guest track consistent: every table's seated parties stay within capacity |
| Store.Ledger.constructor | api/handler.go:12-14 | the store starts empty and consistent |
| Store.Ledger.CreateTable | api/table_controller.go:40 | inserts exactly when capacity is at least 1, giving the table the next key `n + 1`; otherwise reports the validation error and inserts nothing; reservations and guests are unchanged; the invariant is kept; the id on the record passed in is ignored, as the controller always passes a fresh record with id 0 |
| Store.Ledger.CreateReservation | api/reservation_controller.go:49 | the outcome is the hook's decision, or a conflict for a taken name; on success exactly that reservation is appended; on failure nothing changes; the invariant (per-table bookings within capacity) is kept |
| Store.Ledger.CreateGuest | api/guest_controller.go:55 | the outcome is the hook's decision, or a conflict for a taken name; on success exactly that guest is appended; on failure nothing changes; the invariant (per-table seating within capacity) is kept |
| Store.Ledger.DeleteGuests | api/guest_controller.go:90 | the guests become those without that name, in order; tables and reservations are unchanged; the invariant is kept |
| TableController.CreateTable | api/table_controller.go:20-46 | capacity at most 0 is refused with the validation error and nothing inserted; otherwise exactly one table, with the requested capacity and the next key, is added and returned |
| TableController.GetTables | api/table_controller.go:54-63 | returns every stored table, in order |
| TableController.TotalCapacity | api/table_controller.go:79 | `SUM(capacity)`: when every table has a seat, the total is at least the number of tables |
| TableController.TotalAccompanying | api/table_controller.go:84 | `SUM(accompanying_guests)`: never negative when no count is negative |
| TableController.SeatsEmpty | api/table_controller.go:89 | the reply `capacity - occupied` equals total capacity minus the seats the checked-in parties occupy |
| TableController.HeadcountIsOccupancy | api/table_controller.go:84 | `COUNT(*) + SUM(accompanying_guests)` equals the sum of the guests' party sizes |
| TableController.SeatedWithinCapacity | api/table_controller.go:77-89 | in a consistent store, the guests at the first k tables take no more seats than those tables have together |
| TableController.SeatsEmptyNonNegative | api/table_controller.go:77-89 | in a consistent store, the empty-seat figure is never negative |
| TableController.GetSeatsEmpty | api/table_controller.go:73-90 | returns total capacity minus (guest count plus total accompanying), which is total capacity minus the seats the guests occupy, and never negative in a consistent store |
| TableController.SeatsScenario | tests/table_test.go:115-125 | 6 seats and one guest with one companion leave 4 |
| ReservationController.CreateReservation | api/reservation_controller.go:24-55 | builds the reservation from the path name and the body's table and accompanying count; the reply is validation, lookup, capacity check, then the name conflict; on success exactly that reservation is added and the name is returned; on any failure the guest list is unchanged; a name under 6 bytes is refused as too short |
| ReservationController.GetReservations | api/reservation_controller.go:65-74 | returns every stored reservation, in order |
| GuestController.ReservationFor | api/guest_controller.go:36-40 | finds a reservation with that name, and finds none exactly when no reservation has it |
| GuestController.CreateGuest | api/guest_controller.go:23-61 | with no reservation of that name, the reply is not-found and nothing is inserted; otherwise the guest gets the path name, the body's accompanying count and the reservation's table only, and the reply is validation, lookup, capacity check, then the name conflict; on success exactly that guest is added; on failure the guests are unchanged |
| GuestController.GetGuests | api/guest_controller.go:71-80 | returns every stored guest, in order |
| GuestController.DeleteGuest | api/guest_controller.go:86-96 | removes exactly the guests with that name and keeps every other guest, in order; a name nobody has changes nothing; the invariant is kept |
| Scenarios.BookTable | tests/reservation_test.go:68-86 | from an empty store: a table with capacity 0 is refused with the validation error (the case of tests/table_test.go:79-82), table 1 with 6 seats is created, a party of 6 books it, and a further booking of one person is refused with an overflow of 1; the ensures return both refusals and the final store |
| Scenarios.RefuseUnbooked | api/guest_controller.go:36-40 | a check-in under a name with no reservation changes nothing |
| Scenarios.CheckIn | api/guest_controller.go:42-46 | the booked person checks in with one companion from the request body, at the reservation's table |
| Scenarios.CountAndLeave | tests/table_test.go:115-125 | 6 seats and a checked-in party of 2 leave 4 empty, the figure of the test; after that guest is deleted through the controller no guests remain, and the model reports 6 empty seats because it takes the empty `SUM` as 0 (the handler would reply with an error there, see Left out) |
| Scenarios.Evening | tests/guest_test.go:169-178 | booking, a refused and an accepted check-in, the seat count and the delete, in sequence, give 4 empty seats and then 6; the 6 rests on the model's empty-`SUM`-is-0 choice, as for `Scenarios.CountAndLeave` |

## Left out

- HTTP, routing, status codes and JSON decoding are left out. Each reply is a `Result` whose error kind names the failure, not an HTTP status. A body that fails to decode is not modelled.
- Startup code (`cmd/server/main.go`: flags, DSN, connection, migration) is input/output and is not part of this model.
- Database failures (connection errors, failed queries) are left out. Every store call in the model succeeds unless the hook or the primary key refuses it.
- A missing table makes the hooks fail with `TableNotFound`. gorm's `Find` with a key that matches nothing reports no error and leaves a zero `Table`. The hook would then compare against capacity 0 and usually report capacity exceeded. The model states the lookup's absence explicitly instead.
- Concurrency and transaction isolation are left out. Two check-ins racing for the last seats could both pass the hook; the ledger is sequential.
- The guest's `CreatedAt` timestamp is set by the store and carries no logic, so it is not modelled.
- The database's collation is left out. MySQL compares names case-insensitively by default; the model compares bytes exactly.
- Store.Ledger.CreateTable ignores the id on the record it is given and always assigns the next key. gorm would insert a non-zero preset id as given; the only caller, `TableController.CreateTable`, always passes id 0.
- Auto-increment keys are modelled without gaps (`id == position + 1`). Tables are never deleted, so a gap could only come from a failed insert that the store still numbered.
- TableController.GetSeatsEmpty: `SUM` over no rows is SQL `NULL`, and scanning it into an `int` fails. The model takes the empty sum as 0, so with no tables or no guests it gives a number where the handler replies with an error.
- GuestController.CreateGuest: when several reservations could match a name, `First` orders by name. With unique names only one can match, so the model takes the first in store order.
- Store.Ledger.CreateGuest and GuestController.CreateGuest compute with exact integers. The 64-bit wrap-around the Go code has is stated separately in `GuestModel.AdmitInt64` (see Findings).
- GuestModel.BeforeCreate computes `TotalGuests()` and `sum` with exact integers. In Go both are 64-bit `int` (models/guest.go:29, 64-69); the Findings row shows the input this lets through, and `GuestModel.AdmitInt64` is the hook as Go computes it.
- ReservationModel.BeforeCreate computes `Guests()` and `sum` with exact integers. In Go both are 64-bit `int` (models/reservation.go:27, 58-63), so the same wrap-around as in the guest finding lets a reservation with accompanying count `MaxInt64` onto a one-seat table; the model refuses it.
- Store.Ledger.CreateReservation inherits the exact arithmetic of `ReservationModel.Admit`, so it does not capture the 64-bit wrap-around of the reservation hook.
- ReservationController.CreateReservation inherits the exact arithmetic of `ReservationModel.Admit`, so it does not capture the 64-bit wrap-around of the reservation hook.
- TableController.GetSeatsEmpty computes both sums with exact integers. In the handler, MySQL computes `SUM(capacity)` and `COUNT(*) + SUM(accompanying_guests)` (api/table_controller.go:79, 84) as decimals, and a sum above MaxInt64 makes the scan into an `int` fail, so the handler replies with an error (lines 80-81, 85-86) where the model returns the exact figure. The subtraction `capacity - occupied` (line 89) never wraps, because both operands are non-negative 64-bit values once scanned.
- `api/handler.go` registers no route for `seats_empty`, although `tests/table_test.go:115-125` requests it. `GetSeatsEmpty` is modelled as the handler function it is.

## Open issues

- `Reservation.Validate` (models/reservation.go:30-36) does not reject a negative accompanying count, but `Guest.Validate` does. The test at tests/reservation_test.go:114-117 expects such a reservation to be refused. The model keeps the code as written. `ReservationModel.NegativeAccompanyingOverbooks` shows what this allows: a reservation for -4 people lowers the table's booked total, so real parties can be booked beyond the capacity.
- The reservation tests send a request field `Guests` (tests/reservation_test.go:83), but `CreateReservationRequest` has only `Table` and `AccompanyingGuests` (api/reservation_controller.go:15-18). The guest tests call `Router(&RouterConfig{...})` (tests/guest_test.go:52), but `Router` takes no argument (api/handler.go:26). The scenarios here read those requests as meaning the accompanying count.
- The test at tests/guest_test.go:116-122 feeds a stored reservation named `user`. A consistent store cannot hold one, since every reservation passed validation. There, `GuestController.CreateGuest` replies not-found to a short name, and the guest's own name check is never reached from that path.

## Findings

| source | as written | input that shows it | evidently intended | confidence | as-written member | corrected member |
|---|---|---|---|---|---|---|
| models/guest.go:29 | `TotalGuests()` and the hook's `sum` are Go `int`, so `1 + AccompanyingGuests` wraps on a 64-bit platform and `Validate` only rules out negative counts | a check-in with `accompanying_guests` = 9223372036854775807 at a table with 1 seat: `TotalGuests()` wraps to -9223372036854775808, `sum + TotalGuests() > Capacity` is false, and the guest is seated | a party larger than the free seats is refused, whatever its size | not executed | GuestModel.WrappedCheckAdmitsOversizedParty | GuestModel.AdmitKeepsCapacity |
