/** /api/farms: listing farms with their owners, and creating a farm whose
    email is not already taken. */
module Farms {
  import opened Common
  import opened Store

  /** A row of the `farms` table; `id` and `createdAt` are assigned by the
      store, `ownerId` refers to a user's id. */
  datatype Farm = Farm(
    id: string, name: string, description: Option<string>, email: string,
    phone: Option<string>, website: Option<string>, address: Option<string>,
    ownerName: Option<string>, ownerId: Option<string>, createdAt: string)

  /** The eight fields POST reads from its JSON body; a missing or null
      field is None. */
  datatype FarmBody = FarmBody(
    name: Option<string>, description: Option<string>, email: Option<string>,
    phone: Option<string>, website: Option<string>, address: Option<string>,
    ownerName: Option<string>, ownerId: Option<string>)

  /** The user columns GET selects to describe an owner. */
  datatype Owner = Owner(id: string, name: string, email: string, phone: Option<string>)

  /** A farm of the GET response with its `owner` (null when none). */
  datatype FarmWithOwner = FarmWithOwner(farm: Farm, owner: Option<Owner>)

  function EmailOf(f: Farm): string {
    f.email
  }

  /** `owner_id || null`: an absent or empty owner id is stored as null. */
  function NormaliseOwnerId(ownerId: Option<string>): (stored: Option<string>)
    ensures stored.None? <==> Falsy(ownerId)
    ensures stored.Some? ==> stored == ownerId && stored.value != ""
  {
    if Falsy(ownerId) then None else ownerId
  }

  /** The row the insert creates from a validated body. */
  function NewFarm(body: FarmBody, id: string, now: string): (farm: Farm)
    requires !Falsy(body.name) && !Falsy(body.email)
    ensures farm.name == body.name.value && farm.name != ""
    ensures EmailOf(farm) == body.email.value && farm.email != ""
    ensures farm.ownerId.None? <==> Falsy(body.ownerId)
    ensures farm.ownerId.Some? ==> farm.ownerId == body.ownerId
  {
    Farm(id, body.name.value, body.description, body.email.value, body.phone,
         body.website, body.address, body.ownerName, NormaliseOwnerId(body.ownerId), now)
  }

  /** `users?.find(user => user.id === farm.owner_id) || null`: the first
      user whose id is the farm's owner id. A null owner id matches no user. */
  function FindOwner(users: seq<Owner>, ownerId: Option<string>): (owner: Option<Owner>)
    ensures owner.Some? ==> ownerId == Some(owner.value.id) && owner.value in users
    ensures owner.None? <==> ownerId.None? || forall i :: 0 <= i < |users| ==> users[i].id != ownerId.value
  {
    if |users| == 0 then None
    else if ownerId == Some(users[0].id) then Some(users[0])
    else FindOwner(users[1..], ownerId)
  }

  /** The owner found is the first matching user. */
  lemma {:induction false} FindOwnerIsFirst(users: seq<Owner>, ownerId: Option<string>)
    requires FindOwner(users, ownerId).Some?
    ensures exists i :: 0 <= i < |users| && users[i] == FindOwner(users, ownerId).value &&
              forall j :: 0 <= j < i ==> Some(users[j].id) != ownerId
  {
    if ownerId != Some(users[0].id) {
      FindOwnerIsFirst(users[1..], ownerId);
      var i :| 0 <= i < |users| - 1 && users[1..][i] == FindOwner(users, ownerId).value &&
                forall j :: 0 <= j < i ==> Some(users[1..][j].id) != ownerId;
      assert users[i + 1] == users[1..][i];
      forall j | 0 <= j < i + 1 ensures Some(users[j].id) != ownerId {
        if j > 0 {
          assert users[j] == users[1..][j - 1];
        }
      }
    }
  }

  /** The farms of the response, in the order read, each with its owner;
      without user data (`users` is None) every owner is null. */
  function WithOwners(farms: seq<Farm>, users: Option<seq<Owner>>): (r: seq<FarmWithOwner>)
    ensures |r| == |farms|
    ensures forall i :: 0 <= i < |r| ==> r[i].farm == farms[i]
    ensures users.None? ==> forall i :: 0 <= i < |r| ==> r[i].owner.None?
    ensures users.Some? ==> forall i :: 0 <= i < |r| && r[i].owner.Some? ==>
              r[i].owner.value in users.value && farms[i].ownerId == Some(r[i].owner.value.id)
    ensures users.Some? ==> forall i :: 0 <= i < |r| ==>
              (r[i].owner.None? <==> farms[i].ownerId.None? ||
                                     forall j :: 0 <= j < |users.value| ==> users.value[j].id != farms[i].ownerId.value)
  {
    seq(|farms|, i requires 0 <= i < |farms| => FarmWithOwner(farms[i], FindOwner(users.GetOr([]), farms[i].ownerId)))
  }

  /** GET /api/farms. A failed farms read is a 500; a failed users read is
      logged and the farms are returned without owners. */
  function ListFarms(env: RouteEnv, farmsRead: Fetched<Farm>, usersRead: Fetched<Owner>)
    : (resp: Response<seq<FarmWithOwner>>)
    ensures !AdminEnvPresent(env) ==> resp == Failure(500, "Internal server error")
    ensures AdminEnvPresent(env) && farmsRead.FetchFailed? ==> resp == Failure(500, "Failed to fetch farms")
    ensures AdminEnvPresent(env) && farmsRead.Fetched? ==>
              resp.Success? && resp.status == 200 &&
              |resp.body| == |farmsRead.data.GetOr([])| &&
              (usersRead.FetchFailed? || usersRead.data.None? ==> forall i :: 0 <= i < |resp.body| ==> resp.body[i].owner.None?)
    ensures AdminEnvPresent(env) && farmsRead.Fetched? ==>
              resp.body == WithOwners(farmsRead.data.GetOr([]), if usersRead.FetchFailed? then None else usersRead.data)
  {
    if !AdminEnvPresent(env) then Failure(500, "Internal server error")
    else match farmsRead
      case FetchFailed(_) => Failure(500, "Failed to fetch farms")
      case Fetched(farms) =>
        var users := if usersRead.FetchFailed? then None else usersRead.data;
        Success(200, WithOwners(farms.GetOr([]), users))
  }

  /** POST /api/farms. `body` is None when the request is not JSON; the
      faults are the outcomes the email lookup and the insert would have;
      `id` and `now` are what the store would assign. */
  method CreateFarm(table: Table<Farm>, env: RouteEnv, body: Option<FarmBody>,
                    lookupFault: Fault, insertFault: Fault, id: string, now: string)
    returns (resp: Response<Farm>)
    modifies table
    ensures !AdminEnvPresent(env) || body.None? ==>
              resp == Failure(500, "Internal server error") && unchanged(table)
    ensures AdminEnvPresent(env) && body.Some? && (Falsy(body.value.name) || Falsy(body.value.email)) ==>
              resp == Failure(400, "Farm name and email are required") && unchanged(table)
    ensures AdminEnvPresent(env) && body.Some? && !Falsy(body.value.name) && !Falsy(body.value.email) ==>
              var found := lookupFault.None? && SingleBy(old(table.rows), EmailOf, body.value.email.value).Some?;
              var farm := NewFarm(body.value, id, now);
              if found then
                resp == Failure(409, "Farm with this email already exists") &&
                table.rows == old(table.rows) && table.calls == old(table.calls) + 1
              else if insertFault.Some? then
                resp == Failure(500, "Failed to create farm") &&
                table.rows == old(table.rows) && table.calls == old(table.calls) + 2
              else
                resp == Success(201, farm) &&
                table.rows == old(table.rows) + [farm] && table.calls == old(table.calls) + 2
    ensures lookupFault.None? && UniqueBy(old(table.rows), EmailOf) ==> UniqueBy(table.rows, EmailOf)
  {
    if !AdminEnvPresent(env) || body.None? {
      return Failure(500, "Internal server error");
    }
    var b := body.value;
    if Falsy(b.name) || Falsy(b.email) {
      return Failure(400, "Farm name and email are required");
    }
    var existing := table.SelectSingle(EmailOf, b.email.value, lookupFault);
    if existing.Some? {
      return Failure(409, "Farm with this email already exists");
    }
    var farm := NewFarm(b, id, now);
    if lookupFault.None? && UniqueBy(old(table.rows), EmailOf) {
      InsertAfterMissKeepsUnique(table.rows, EmailOf, farm);
    }
    var inserted := table.InsertSingle(farm, insertFault);
    if inserted.Err? {
      return Failure(500, "Failed to create farm");
    }
    resp := Success(201, inserted.value);
  }
}
