/**
 * Shared vocabulary of the BookTrack handlers: optional values, the HTTP
 * outcomes every endpoint answers with, the request methods, and PHP's
 * truthiness rules for the request parameters the handlers test.
 */
module Common {

  datatype Option<+T> = None | Some(value: T) {
    /** PHP's `??`: the value when present, the fallback otherwise. */
    function GetOr(fallback: T): T {
      match this
      case Some(v) => v
      case None => fallback
    }
  }

  /** HTTP status codes the handlers answer with. */
  const BadRequest: nat := 400
  const Unauthorized: nat := 401
  const Forbidden: nat := 403
  const NotFound: nat := 404
  const MethodNotAllowed: nat := 405
  const Conflict: nat := 409

  /** What a state-changing handler reports: success, or an HTTP error code with its JSON message. */
  datatype Outcome = Ok | Fail(code: nat, message: string)

  /** What a reading handler reports: its payload, or an HTTP error code with its JSON message. */
  datatype Reply<T> = Data(value: T) | Refused(code: nat, message: string)

  /** The request method, as `$_SERVER['REQUEST_METHOD']`. */
  datatype Method = HttpGet | HttpPost | HttpPut | HttpDelete | HttpOther

  /** PHP `empty()` on a string: both "" and "0" are empty. */
  predicate Empty(s: string) {
    s == "" || s == "0"
  }

  /** A nullable column takes the given value, or keeps its own. */
  function Pick<T>(given: Option<T>, current: Option<T>): Option<T> {
    if given.Some? then given else current
  }

  /** A column an update may write: given, it takes the given value; not given, it keeps its own. */
  predicate Patched<T(==)>(given: Option<T>, before: T, after: T) {
    && (given.Some? ==> after == given.value)
    && (given.None? ==> after == before)
  }

  /** The same for a nullable column, whose value is itself optional. */
  predicate PatchedNullable<T(==)>(given: Option<T>, before: Option<T>, after: Option<T>) {
    && (given.Some? ==> after == given)
    && (given.None? ==> after == before)
  }

  /**
   * PHP truthiness of an integer id taken from the request (`if ($bookId)`):
   * a missing id and the id 0 are both falsy.
   */
  predicate GivenId(x: Option<int>) {
    x.Some? && x.value != 0
  }
}
