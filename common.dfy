/** Values shared by every part of the model: optional values, results and
    the way JavaScript reads a possibly-undefined string field. */
module Common {

  /** A value that may be `undefined` (or `null`) in JavaScript. */
  datatype Option<+T> = None | Some(value: T) {
    function GetOr(default: T): T {
      match this
      case Some(v) => v
      case None => default
    }
  }

  /** A settled promise: resolved with a value or rejected with an error. */
  datatype Result<+T, +E> = Success(value: T) | Failure(error: E)

  /** A MongoDB ObjectId, compared through its string form (`id.toString()`). */
  type ObjectId = string

  /** A point in time as `Date.now()` reports it, in milliseconds. */
  type Time = int

  /** JavaScript truthiness of a string that may be absent: both `undefined`
      and the empty string are falsy. */
  predicate Truthy(s: Option<string>) {
    s.Some? && s.value != []
  }

  /** Reading a property of a parsed JSON body: absent keys give `undefined`. */
  function Get(fields: map<string, string>, key: string): (r: Option<string>)
    ensures r.Some? <==> key in fields
    ensures r.Some? ==> r.value == fields[key]
  {
    if key in fields then Some(fields[key]) else None
  }
}
