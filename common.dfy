/** Small shared datatypes: optional values, results and one time-series point. */
module Common {

  datatype Option<+T> = None | Some(value: T) {
    function GetOr(default: T): T {
      match this
      case Some(v) => v
      case None => default
    }
  }

  /** Python truthiness of an optional string: present and non-empty. */
  predicate Truthy(s: Option<string>) {
    s.Some? && s.value != ""
  }

  datatype Result<+R, +E> = Success(value: R) | Failure(error: E)

  /** One `{time, volume}` record of an API response; `time` is the bucket start in epoch seconds. */
  datatype Entry<+V> = Entry(time: int, volume: V)
}
