/** Values shared by every part of the seating model: bytes and names,
    the error kinds the hooks and controllers report, and the capacity
    comparison that both occupancy tracks use. */
module Common {

  /** Go's `len` on a string counts bytes, so names are byte sequences. */
  newtype byte = x: int | 0 <= x < 256

  type Name = seq<byte>

  /** Both record kinds demand a name of at least this many bytes. */
  const MinNameLength: nat := 6

  /** Converts an ASCII string literal into its bytes, one per character,
      which is also its UTF-8 encoding; used by the scenario lemmas. */
  function Ascii(s: string): (b: Name)
    requires forall i :: 0 <= i < |s| ==> s[i] as int < 128
    ensures |b| == |s|
    ensures forall i :: 0 <= i < |s| ==> b[i] as int == s[i] as int
  {
    seq(|s|, i requires 0 <= i < |s| => s[i] as int as byte)
  }

  /** What a record's `Validate` found wrong with it. */
  datatype Violation =
    | CapacityNotPositive(capacity: int)
    | NameTooShort(length: nat)
    | NegativeAccompanying(amount: int)

  /** The kinds of failure of the write paths. `Conflict` is the store's
      primary-key violation on a duplicate name. */
  datatype Error =
    | Invalid(violation: Violation)
    | ReservationNotFound
    | TableNotFound
    | CapacityExceeded(excess: int)
    | Conflict

  /** A Go `error` return: nil (`Pass`) or an error (`Fail`). */
  datatype Outcome = Pass | Fail(error: Error)

  /** A controller's reply: the created value or the error it reports. */
  datatype Result<T> = Ok(value: T) | Err(error: Error)

  datatype Option<T> = None | Some(value: T)

  /** The comparison at the end of both `BeforeCreate` hooks: a party fits
      when it needs no more seats than the table has left, and otherwise
      the hook reports by how many seats the table would overflow. */
  function CapacityCheck(occupied: int, party: int, capacity: int): (o: Outcome)
    ensures o.Pass? <==> party <= capacity - occupied
    ensures o.Fail? ==> o.error.CapacityExceeded? && o.error.excess >= 1
    ensures o.Fail? ==> occupied + party == capacity + o.error.excess
  {
    if occupied + party > capacity then Fail(CapacityExceeded(occupied + party - capacity)) else Pass
  }

  /** Turns an `Outcome` of a create into the controller's reply, which
      carries `v` on success. */
  function Reply<T>(o: Outcome, v: T): (r: Result<T>)
    ensures r.Ok? <==> o.Pass?
    ensures r.Ok? ==> r.value == v
    ensures r.Err? ==> r.error == o.error
  {
    match o
    case Pass => Ok(v)
    case Fail(e) => Err(e)
  }
}
