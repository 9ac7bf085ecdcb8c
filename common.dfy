/** Values shared by the three record stores: an optional value and the kind
    of outcome a request handler reports. */
module Common {

  datatype Option<+T> = None | Some(value: T) {
    function GetOr(default: T): T {
      match this
      case Some(v) => v
      case None => default
    }
  }

  /** What a handler reports. Every kind except `Ok` leaves the store as it was.
      - `NoData`: a JSON handler got no body, or an empty one (400).
      - `MissingField`: a required field is absent or empty.
      - `InvalidName`, `InvalidEmail`: a field fails a shape check.
      - `Duplicate`: a value that must be unique is already stored.
      - `BadReference`: the course the record points to does not exist.
      - `NotFound`: no record has the requested id (404).
      - `StorageError`: the database refuses the write (a NOT NULL or UNIQUE
        column constraint); the transaction is rolled back. */
  datatype Outcome =
    | Ok
    | NoData
    | MissingField
    | InvalidName
    | InvalidEmail
    | Duplicate
    | BadReference
    | NotFound
    | StorageError

  /** One guard of a handler: whether the request passes it, and what the
      handler reports when it does not. */
  datatype Guard = Guard(pass: bool, failure: Outcome)

  /** A chain of guards checked in order with early returns: the report of
      the first guard that fails, or `Ok` when every guard passes. */
  function FirstFailure(gs: seq<Guard>): (r: Outcome)
    requires forall i :: 0 <= i < |gs| ==> gs[i].failure != Ok
    ensures r == Ok <==> forall i :: 0 <= i < |gs| ==> gs[i].pass
    ensures r != Ok ==> exists i :: 0 <= i < |gs| && !gs[i].pass && r == gs[i].failure
  {
    if gs == [] then Ok
    else if !gs[0].pass then gs[0].failure
    else FirstFailure(gs[1..])
  }

  /** When guard `i` is the first to fail, its report is the outcome: a later
      failing guard never shows. */
  lemma {:induction false} FirstFailureAt(gs: seq<Guard>, i: int)
    requires forall j :: 0 <= j < |gs| ==> gs[j].failure != Ok
    requires 0 <= i < |gs| && !gs[i].pass
    requires forall j :: 0 <= j < i ==> gs[j].pass
    ensures FirstFailure(gs) == gs[i].failure
  {
    if i > 0 {
      FirstFailureAt(gs[1..], i - 1);
    }
  }
}
