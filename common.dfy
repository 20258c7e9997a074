/** Shared vocabulary of the route handlers: optional values, JSON responses,
    store faults, JavaScript truthiness of string fields, and the environment
    check every route performs before it touches the store. */
module Common {

  datatype Option<+T> = None | Some(value: T) {
    function GetOr(default: T): T {
      match this
      case Some(v) => v
      case None => default
    }
  }

  datatype Result<+T> = Ok(value: T) | Err(message: string)

  /** A JSON response of a route handler: a success body or an error message,
      each with its HTTP status. */
  datatype Response<+T> = Success(status: nat, body: T) | Failure(status: nat, error: string)

  /** The outcome of one query as the store client reports it: `data` may be
      null even without an error; on an error the route only sees the error. */
  datatype Fetched<+T> = Fetched(data: Option<seq<T>>) | FetchFailed(message: string)

  /** A store call that is about to be made either succeeds (None) or fails
      with the store's error message. */
  type Fault = Option<string>

  /** A string-valued request field: absent/null is None. JavaScript treats
      both a missing value and the empty string as falsy. */
  predicate Falsy(f: Option<string>) {
    f.None? || f.value == ""
  }

  /** The two environment variables a route reads; an unset variable is "". */
  datatype RouteEnv = RouteEnv(url: string, serviceKey: string)

  /** Each route builds its own admin client and throws (caught as a 500)
      when either variable is unset or empty. */
  predicate AdminEnvPresent(env: RouteEnv) {
    env.url != "" && env.serviceKey != ""
  }

  predicate StartsWith(s: string, prefix: string) {
    |prefix| <= |s| && s[..|prefix|] == prefix
  }

  predicate Contains(s: string, part: string) {
    exists i :: 0 <= i <= |s| && StartsWith(s[i..], part)
  }
}
