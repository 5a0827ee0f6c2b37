/** api/reservation_controller.go: adding an entry to the guest list and
    listing the guest list. */
module ReservationController {
  import opened Common
  import ReservationModel
  import opened Store

  /** The decoded request body; the name comes from the request path. */
  datatype CreateReservationRequest = CreateReservationRequest(table: int, accompanyingGuests: int)

  /** Builds the record from the path name and the body's table and
      accompanying count, validates it, then creates it through the store.
      The reply is the hook's decision, or a conflict for a taken name;
      on success exactly that record is added and the reply carries its
      name, on any failure the guest list is unchanged. */
  method CreateReservation(db: Ledger, name: Name, body: CreateReservationRequest)
    returns (res: Result<Name>)
    requires db.Valid()
    modifies db
    ensures db.Valid()
    ensures db.tables == old(db.tables) && db.guests == old(db.guests)
    ensures var record := ReservationModel.Reservation(name, body.accompanyingGuests, body.table);
      res == Reply(Commit(ReservationModel.Admit(record, old(db.tables), old(db.reservations)),
                          ReservationModel.NameTaken(old(db.reservations), name)), name)
    ensures res.Ok? ==>
      db.reservations == old(db.reservations) + [ReservationModel.Reservation(name, body.accompanyingGuests, body.table)]
    ensures res.Err? ==> db.reservations == old(db.reservations)
    ensures |name| < MinNameLength ==> res == Err(Invalid(NameTooShort(|name|)))
  {
    var record := ReservationModel.Reservation(name, body.accompanyingGuests, body.table);
    var v := ReservationModel.Validate(record);
    if v.Fail? {
      return Err(v.error);
    }
    var o := db.CreateReservation(record);
    res := Reply(o, record.name);
  }

  /** Every reservation in the store, in store order. */
  method GetReservations(db: Ledger) returns (reservations: seq<ReservationModel.Reservation>)
    ensures reservations == db.reservations
  {
    reservations := db.reservations;
  }
}
