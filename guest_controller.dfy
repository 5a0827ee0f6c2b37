/** api/guest_controller.go: checking a guest in, listing the guests and
    deleting a guest. */
module GuestController {
  import opened Common
  import ReservationModel
  import GuestModel
  import opened Store

  /** The decoded request body; the name comes from the request path. */
  datatype CreateGuestRequest = CreateGuestRequest(accompanyingGuests: int)

  /** The reservation `First(..., "name = ?", name)` loads: one with this
      name, or `None` when the guest list has no such name. */
  function ReservationFor(rs: seq<ReservationModel.Reservation>, name: Name)
    : (found: Option<ReservationModel.Reservation>)
    ensures found.Some? ==> found.value in rs && found.value.name == name
    ensures found.None? <==> !ReservationModel.NameTaken(rs, name)
  {
    if rs == [] then None
    else if rs[0].name == name then Some(rs[0])
    else ReservationFor(rs[1..], name)
  }

  /** Looks up the reservation with the path name and fails, inserting
      nothing, when there is none. Otherwise builds the guest from the path
      name, the body's accompanying count and the reservation's table only,
      validates it, and creates it through the store: the reply is the
      hook's decision or a conflict for a name already checked in; on
      success exactly that guest is added and the reply carries its name,
      on any failure the guests are unchanged. As every reservation has a
      name of at least six bytes, a shorter name is always not found. */
  method CreateGuest(db: Ledger, name: Name, body: CreateGuestRequest) returns (res: Result<Name>)
    requires db.Valid()
    modifies db
    ensures db.Valid()
    ensures db.tables == old(db.tables) && db.reservations == old(db.reservations)
    ensures ReservationFor(old(db.reservations), name).None? ==>
              res == Err(ReservationNotFound) && db.guests == old(db.guests)
    ensures ReservationFor(old(db.reservations), name).Some? ==>
              var g := GuestModel.Guest(name, body.accompanyingGuests,
                                        ReservationFor(old(db.reservations), name).value.tableId);
              && res == Reply(Commit(GuestModel.Admit(g, old(db.tables), old(db.guests)),
                                     GuestModel.NameTaken(old(db.guests), name)), name)
              && (res.Ok? ==> db.guests == old(db.guests) + [g])
              && (res.Err? ==> db.guests == old(db.guests))
    ensures |name| < MinNameLength ==> res == Err(ReservationNotFound)
  {
    var found := ReservationFor(db.reservations, name);
    if found.None? {
      return Err(ReservationNotFound);
    }
    var reservation := found.value;
    var record := GuestModel.Guest(name, body.accompanyingGuests, reservation.tableId);
    var v := GuestModel.Validate(record);
    if v.Fail? {
      return Err(v.error);
    }
    var o := db.CreateGuest(record);
    res := Reply(o, record.name);
  }

  /** Every guest in the store, in store order. */
  method GetGuests(db: Ledger) returns (guests: seq<GuestModel.Guest>)
    ensures guests == db.guests
  {
    guests := db.guests;
  }

  /** Deletes the guests with this name and keeps every other guest, in
      order; deleting a name nobody has is a success that changes nothing. */
  method DeleteGuest(db: Ledger, name: Name)
    requires db.Valid()
    modifies db
    ensures db.Valid()
    ensures db.tables == old(db.tables) && db.reservations == old(db.reservations)
    ensures db.guests == GuestModel.WithoutName(old(db.guests), name)
    ensures !GuestModel.NameTaken(old(db.guests), name) ==> db.guests == old(db.guests)
  {
    if !GuestModel.NameTaken(db.guests, name) {
      GuestModel.WithoutAbsentName(db.guests, name);
    }
    db.DeleteGuests(name);
  }
}
