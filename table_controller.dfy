/** api/table_controller.go: creating and listing tables, and the venue's
    count of empty seats. */
module TableController {
  import opened Common
  import TableModel
  import GuestModel
  import opened Store

  /** The decoded request body. */
  datatype CreateTableRequest = CreateTableRequest(capacity: int)

  /** Builds the record, validates it and inserts it. A capacity below one
      is rejected with nothing inserted; otherwise exactly one table is
      added, with the requested capacity and the next key, and returned. */
  method CreateTable(db: Ledger, body: CreateTableRequest) returns (res: Result<TableModel.Table>)
    requires db.Valid()
    modifies db
    ensures db.Valid()
    ensures db.reservations == old(db.reservations) && db.guests == old(db.guests)
    ensures res.Err? <==> body.capacity <= 0
    ensures res.Err? ==> res.error == Invalid(CapacityNotPositive(body.capacity)) && db.tables == old(db.tables)
    ensures res.Ok? ==> res.value == TableModel.Table(|old(db.tables)| + 1, body.capacity)
    ensures res.Ok? ==> db.tables == old(db.tables) + [res.value]
  {
    var record := TableModel.Table(0, body.capacity);
    var v := TableModel.Validate(record);
    if v.Fail? {
      return Err(v.error);
    }
    res := db.CreateTable(record);
  }

  /** Every table in the store, in store order. */
  method GetTables(db: Ledger) returns (tables: seq<TableModel.Table>)
    ensures tables == db.tables
  {
    tables := db.tables;
  }

  /** `SUM(capacity)` over the tables, 0 when there are none. */
  function TotalCapacity(tables: seq<TableModel.Table>): (total: int)
    ensures (forall t | t in tables :: t.capacity >= 1) ==> total >= |tables|
  {
    if tables == [] then 0 else TotalCapacity(tables[..|tables| - 1]) + tables[|tables| - 1].capacity
  }

  /** `SUM(accompanying_guests)` over the guests, 0 when there are none. */
  function TotalAccompanying(gs: seq<GuestModel.Guest>): (total: int)
    ensures (forall g | g in gs :: g.accompanyingGuests >= 0) ==> total >= 0
  {
    if gs == [] then 0 else TotalAccompanying(gs[..|gs| - 1]) + gs[|gs| - 1].accompanyingGuests
  }

  /** The reply of `GetSeatsEmpty`: the seats of all tables minus the guests
      checked in and the people accompanying them. Reservations are not
      counted. */
  function SeatsEmpty(tables: seq<TableModel.Table>, gs: seq<GuestModel.Guest>): (seats: int)
    ensures seats == TotalCapacity(tables) - GuestModel.Occupancy(gs)
  {
    HeadcountIsOccupancy(gs);
    TotalCapacity(tables) - (|gs| + TotalAccompanying(gs))
  }

  /** `COUNT(*) + SUM(accompanying_guests)` is the number of seats the guests
      occupy: the sum of their party sizes. */
  lemma {:induction false} HeadcountIsOccupancy(gs: seq<GuestModel.Guest>)
    ensures |gs| + TotalAccompanying(gs) == GuestModel.Occupancy(gs)
  {
    if gs != [] {
      HeadcountIsOccupancy(gs[..|gs| - 1]);
    }
  }

  /** The seats occupied at the tables with keys 1 .. n, table by table. */
  ghost function SeatedAtFirst(gs: seq<GuestModel.Guest>, n: nat): int {
    if n == 0 then 0 else SeatedAtFirst(gs, n - 1) + GuestModel.Occupancy(GuestModel.OnTable(gs, n))
  }

  /** A new guest adds its party to exactly its own table's count. */
  lemma {:induction false} SeatedAtFirstAppend(gs: seq<GuestModel.Guest>, g: GuestModel.Guest, n: nat)
    ensures SeatedAtFirst(gs + [g], n) ==
            SeatedAtFirst(gs, n) + if 1 <= g.tableId <= n then GuestModel.TotalGuests(g) else 0
  {
    if n > 0 {
      SeatedAtFirstAppend(gs, g, n - 1);
      GuestModel.OnTableAppend(gs, g, n);
    }
  }

  /** When every guest sits at one of the tables 1 .. n, counting table by
      table counts every guest's party exactly once. */
  lemma {:induction false} SeatedAtFirstCoversAll(gs: seq<GuestModel.Guest>, n: nat)
    requires forall g | g in gs :: 1 <= g.tableId <= n
    ensures SeatedAtFirst(gs, n) == GuestModel.Occupancy(gs)
  {
    if gs == [] {
      SeatedAtFirstEmpty(n);
    } else {
      var init, last := gs[..|gs| - 1], gs[|gs| - 1];
      assert gs == init + [last];
      SeatedAtFirstCoversAll(init, n);
      SeatedAtFirstAppend(init, last, n);
    }
  }

  lemma {:induction false} SeatedAtFirstEmpty(n: nat)
    ensures SeatedAtFirst([], n) == 0
  {
    if n > 0 {
      SeatedAtFirstEmpty(n - 1);
    }
  }

  /** Per-table capacity bounds add up: the first k tables seat no more
      guests than their capacities together. */
  lemma {:induction false} SeatedWithinCapacity(tables: seq<TableModel.Table>, gs: seq<GuestModel.Guest>, k: nat)
    requires TablesConsistent(tables) && GuestsConsistent(tables, gs)
    requires k <= |tables|
    ensures SeatedAtFirst(gs, k) <= TotalCapacity(tables[..k])
  {
    if k > 0 {
      SeatedWithinCapacity(tables, gs, k - 1);
      assert tables[..k][..k - 1] == tables[..k - 1];
      assert tables[k - 1].id == k;
    }
  }

  /** In a consistent store the venue never reports fewer than zero empty
      seats, because every guest sits at a stored table that has room. */
  lemma SeatsEmptyNonNegative(tables: seq<TableModel.Table>, rs: seq<ReservationModel.Reservation>,
                              gs: seq<GuestModel.Guest>)
    requires Consistent(tables, rs, gs)
    ensures SeatsEmpty(tables, gs) >= 0
  {
    HeadcountIsOccupancy(gs);
    SeatedAtFirstCoversAll(gs, |tables|);
    SeatedWithinCapacity(tables, gs, |tables|);
    assert tables[..|tables|] == tables;
  }

  /** The venue's empty seats: total capacity minus the seats the checked-in
      guests occupy, never negative in a consistent store. */
  method GetSeatsEmpty(db: Ledger) returns (seats: int)
    ensures seats == SeatsEmpty(db.tables, db.guests)
    ensures seats == TotalCapacity(db.tables) - GuestModel.Occupancy(db.guests)
    ensures db.Valid() ==> seats >= 0
  {
    seats := TotalCapacity(db.tables) - (|db.guests| + TotalAccompanying(db.guests));
    HeadcountIsOccupancy(db.guests);
    if db.Valid() {
      SeatsEmptyNonNegative(db.tables, db.reservations, db.guests);
    }
  }

  /** The empty-seats test case: 6 seats and a guest with one companion
      leave 4. */
  lemma SeatsScenario()
    ensures SeatsEmpty([TableModel.Table(1, 6)], [GuestModel.Guest(Ascii("user01"), 1, 1)]) == 4
  {
  }
}
