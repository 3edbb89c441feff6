/** What a handler writes back, and the ways the handlers map a repository
    result to it.

    JSON encoding is not modelled: a reply carries the Go value that would
    be encoded. `http.Error` replies carry their status and message. */
module Http {
  import opened Wrappers

  const StatusOK: int := 200
  const StatusCreated: int := 201
  const StatusNoContent: int := 204
  const StatusBadRequest: int := 400
  const StatusUnauthorized: int := 401
  const StatusNotFound: int := 404
  const StatusConflict: int := 409
  const StatusInternalServerError: int := 500

  /** A JSON reply, an `http.Error` reply, or an empty 204. */
  datatype Response<T> =
    | Reply(code: int, body: T)
    | Failure(code: int, message: string)
    | NoContent
  {
    function Status(): int {
      match this
      case Reply(code, _) => code
      case Failure(code, _) => code
      case NoContent => StatusNoContent
    }
  }

  /** What an in-memory handler leaves behind: its package's slices and
      counters after the request, and the reply. */
  datatype Step<S, T> = Step(state: S, out: Response<T>)

  /** The handlers' treatment of a lookup that may find nothing: an error is
      a 500 with `failed`, nothing is a 404 with `missing`, and a value is a
      reply with status `ok`. */
  function FromLookup<T>(r: Result<Option<T>>, ok: int, failed: string, missing: string): (resp: Response<T>)
    requires ok != StatusInternalServerError && ok != StatusNotFound
    ensures resp.Status() == StatusInternalServerError <==> r.Err?
    ensures resp.Status() == StatusNotFound <==> r == Ok(None)
    ensures r.Err? ==> resp == Failure(StatusInternalServerError, failed)
    ensures r == Ok(None) ==> resp == Failure(StatusNotFound, missing)
    ensures r.Ok? && r.value.Some? ==> resp == Reply(ok, r.value.value)
  {
    match r
    case Err(_) => Failure(StatusInternalServerError, failed)
    case Ok(None) => Failure(StatusNotFound, missing)
    case Ok(Some(x)) => Reply(ok, x)
  }

  /** A list read: an error is a 500, anything else a 200. */
  function FromList<T>(r: Result<T>, failed: string): (resp: Response<T>)
    ensures resp.Status() == StatusOK <==> r.Ok?
    ensures r.Err? ==> resp == Failure(StatusInternalServerError, failed)
    ensures r.Ok? ==> resp == Reply(StatusOK, r.value)
  {
    match r
    case Err(_) => Failure(StatusInternalServerError, failed)
    case Ok(x) => Reply(StatusOK, x)
  }

  /** A delete: an error is a 500, anything else a 204, whether or not a
      row was removed. */
  function FromOutcome<T>(r: Outcome, failed: string): (resp: Response<T>)
    ensures resp.Status() == StatusNoContent <==> r == Pass
    ensures r.Fail? ==> resp == Failure(StatusInternalServerError, failed)
  {
    match r
    case Fail(_) => Failure(StatusInternalServerError, failed)
    case Pass => NoContent
  }
}
