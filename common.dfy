/** Shared vocabulary of the route handlers and pages: optional values,
    listing rows, result codes, JavaScript string truthiness. */
module Common {

  datatype Option<+T> = None | Some(value: T)

  /** A record together with its primary key, as a listing returns it. */
  datatype Row<T> = Row(id: nat, value: T)

  /** The result codes the route handlers answer with. */
  datatype Code = Created | Ok | BadRequest | Unauthorized | Forbidden | NotFound | InternalError
  {
    function Http(): int
    {
      match this
      case Created => 201
      case Ok => 200
      case BadRequest => 400
      case Unauthorized => 401
      case Forbidden => 403
      case NotFound => 404
      case InternalError => 500
    }
  }

  /** A string field of a JSON body is truthy in JavaScript iff it is
      present and not the empty string. */
  predicate Present(s: Option<string>)
  {
    s.Some? && s.value != ""
  }

  /** ASCII part of JavaScript's whitespace class (`\s`, also what `trim` removes). */
  predicate IsSpace(c: char)
  {
    c == ' ' || c == '\t' || c == '\n' || c == '\U{B}' || c == '\U{C}' || c == '\r'
  }

  /** `s.trim() === ''`: the string has no character other than whitespace. */
  predicate IsBlank(s: string)
  {
    forall i :: 0 <= i < |s| ==> IsSpace(s[i])
  }

  /** The four values the status-update route accepts. */
  const ValidStatuses: seq<string> := ["Operational", "Degraded Performance", "Partial Outage", "Major Outage"]

  predicate IsValidStatus(s: string)
  {
    s in ValidStatuses
  }
}
