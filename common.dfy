/** Values shared by every route handler of the mock API server. */
module Common {

  /** An optional value: a request field that may be absent, or a lookup that may fail. */
  datatype Option<T> = None | Some(value: T) {
    function GetOr(default: T): T {
      if Some? then value else default
    }
  }

  /**
   * What a handler sends back. The two success statuses (200 and 201) carry the
   * JSON payload; each error status stands for the `res.status(...)` branch of
   * the same name (400, 401, 403, 404, 409), and InternalError for the 500 a
   * handler's `catch` sends when its body throws.
   */
  datatype Response<T> =
    | Ok(body: T)
    | Created(body: T)
    | BadRequest
    | Unauthorized
    | Forbidden
    | NotFound
    | Conflict
    | InternalError
  {
    predicate Success() { Ok? || Created? }
  }

  /** JavaScript truthiness of an optional string field: absent and "" are falsy. */
  predicate Truthy(s: Option<string>) {
    s.Some? && s.value != ""
  }

  function Min(a: int, b: int): int {
    if a <= b then a else b
  }
}
