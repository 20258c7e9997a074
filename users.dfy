/** /api/users: listing users, and creating a user whose email is not
    already taken. */
module Users {
  import opened Common
  import opened Store

  /** A row of the `users` table; `id` and `createdAt` are assigned by the
      store. */
  datatype User = User(id: string, name: string, email: string, phone: Option<string>, createdAt: string)

  /** The fields POST reads from its JSON body; a missing or null field is None. */
  datatype UserBody = UserBody(name: Option<string>, email: Option<string>, phone: Option<string>)

  function EmailOf(u: User): string {
    u.email
  }

  /** The row the insert creates from a validated body. */
  function NewUser(body: UserBody, id: string, now: string): (user: User)
    requires !Falsy(body.name) && !Falsy(body.email)
    ensures user.name == body.name.value && user.name != ""
    ensures EmailOf(user) == body.email.value && user.email != ""
    ensures user.phone == body.phone
  {
    User(id, body.name.value, body.email.value, body.phone, now)
  }

  /** GET /api/users: the rows the store returns (newest first, each with
      its farms), or [] when it returns no data. */
  function ListUsers<R>(env: RouteEnv, read: Fetched<R>): (resp: Response<seq<R>>)
    ensures !AdminEnvPresent(env) ==> resp == Failure(500, "Internal server error")
    ensures AdminEnvPresent(env) && read.FetchFailed? ==> resp == Failure(500, "Failed to fetch users")
    ensures AdminEnvPresent(env) && read.Fetched? ==> resp.Success? && resp.status == 200
    ensures resp.Success? ==> (read.data.Some? ==> resp.body == read.data.value) && (read.data.None? ==> resp.body == [])
  {
    if !AdminEnvPresent(env) then Failure(500, "Internal server error")
    else match read
      case FetchFailed(_) => Failure(500, "Failed to fetch users")
      case Fetched(data) => Success(200, data.GetOr([]))
  }

  /** POST /api/users. `body` is None when the request is not JSON; the
      faults are the outcomes the email lookup and the insert would have;
      `id` and `now` are what the store would assign. */
  method CreateUser(table: Table<User>, env: RouteEnv, body: Option<UserBody>,
                    lookupFault: Fault, insertFault: Fault, id: string, now: string)
    returns (resp: Response<User>)
    modifies table
    ensures !AdminEnvPresent(env) || body.None? ==>
              resp == Failure(500, "Internal server error") && unchanged(table)
    ensures AdminEnvPresent(env) && body.Some? && (Falsy(body.value.name) || Falsy(body.value.email)) ==>
              resp == Failure(400, "Name and email are required") && unchanged(table)
    ensures AdminEnvPresent(env) && body.Some? && !Falsy(body.value.name) && !Falsy(body.value.email) ==>
              var found := lookupFault.None? && SingleBy(old(table.rows), EmailOf, body.value.email.value).Some?;
              var user := NewUser(body.value, id, now);
              if found then
                resp == Failure(409, "User with this email already exists") &&
                table.rows == old(table.rows) && table.calls == old(table.calls) + 1
              else if insertFault.Some? then
                resp == Failure(500, "Failed to create user") &&
                table.rows == old(table.rows) && table.calls == old(table.calls) + 2
              else
                resp == Success(201, user) &&
                table.rows == old(table.rows) + [user] && table.calls == old(table.calls) + 2
    ensures lookupFault.None? && UniqueBy(old(table.rows), EmailOf) ==> UniqueBy(table.rows, EmailOf)
  {
    if !AdminEnvPresent(env) || body.None? {
      return Failure(500, "Internal server error");
    }
    var b := body.value;
    if Falsy(b.name) || Falsy(b.email) {
      return Failure(400, "Name and email are required");
    }
    var existing := table.SelectSingle(EmailOf, b.email.value, lookupFault);
    if existing.Some? {
      return Failure(409, "User with this email already exists");
    }
    var user := NewUser(b, id, now);
    if lookupFault.None? && UniqueBy(old(table.rows), EmailOf) {
      InsertAfterMissKeepsUnique(table.rows, EmailOf, user);
    }
    var inserted := table.InsertSingle(user, insertFault);
    if inserted.Err? {
      return Failure(500, "Failed to create user");
    }
    resp := Success(201, inserted.value);
  }
}
