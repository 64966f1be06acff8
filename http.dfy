/** The parts of the web framework's HTTP vocabulary that the authorization core produces:
    response statuses, the three-way outcome of a request guard, and a bare response. */
module Http {

  /** The two statuses the extractors ever attach to a failure. */
  datatype Status = BadRequest | Unauthorized {
    function Code(): nat {
      match this
      case BadRequest => 400
      case Unauthorized => 401
    }
  }

  /** A request guard's outcome: a value, a failure with a status and an error, or a
      forward to the next matching route (whose payload is the unit value and is dropped). */
  datatype Outcome<+S, +E> = Success(value: S) | Failure(status: Status, error: E) | Forward

  /** A response as the builder produces it: a raw status code, its reason phrase and the
      raw headers in the order they were added. */
  datatype Response = Response(code: nat, reason: string, headers: seq<(string, string)>)
}
