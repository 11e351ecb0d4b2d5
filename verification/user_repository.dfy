/**
 * internal/repositories/user_repository.go: the repository over U1.USERS
 * whose RETURNING and SELECT lists leave out PASSWORD. Each operation takes
 * the table before the statement and returns it after, with what the Go
 * method returns; the driver's outcome is the `fault` parameter, and the
 * store supplies the new ID and the `now()` timestamp.
 */
module UserRepository {
  import opened Wrappers
  import opened Uuids
  import opened Models
  import opened Store
  import opened Pagination
  import opened Convert
  import opened UserQuery

  const Read: Columns := AllButPassword

  /** `CreateUser`: INSERT the caller's six columns with a new ID and both timestamps set to now. */
  function CreateUser(t: Table, user: User, newId: Uuid, now: Timestamp, fault: Fault): (out: Step<User>)
    requires Valid(t)
    ensures Valid(out.table)
    ensures out.result.Success? <==> fault.NoFault? && newId !in Contents(t.rows)
    ensures out.result.Failure? ==> out.table == t
    ensures fault.FailAtPrepare? ==> out.result == Failure(PrepareFailed(CreateOp))
    ensures !fault.FailAtPrepare? && out.result.Failure? ==> out.result == Failure(StoreFailed(CreateOp))
    ensures out.result.Success? ==>
              && newId in Contents(out.table.rows)
              && var stored := Contents(out.table.rows)[newId];
              && Contents(out.table.rows) == Contents(t.rows)[newId := stored]
              && SameProfile(stored, user)
              && stored.createdAt == now && stored.updatedAt == now
              && out.result.value.id == newId
              && out.result.value.password == ""
              && out.result.value.(password := stored.password) == stored
  {
    if fault.FailAtPrepare? then Step(t, Failure(PrepareFailed(CreateOp)))
    // A driver error, or the primary key already taken, surfaces as "CreateUser failed".
    else if fault.FailAtExecute? || Lookup(t.rows, newId).Some? then Step(t, Failure(StoreFailed(CreateOp)))
    else
      var row := User(newId, user.firstName, user.lastName, user.nickname, user.password,
                      user.email, user.country, now, now);
      InsertSpec(t.rows, row);
      Step(Table(Insert(t.rows, row)), Success(ReadBack(row, Read)))
  }

  /** `UpdateUser`: overwrite the six columns of the row with the caller's ID and refresh UPDATED_AT. */
  function UpdateUser(t: Table, user: User, now: Timestamp, fault: Fault): (out: Step<User>)
    requires Valid(t)
    ensures Valid(out.table)
    ensures out.result.Failure? ==> out.table == t
    ensures fault.FailAtPrepare? ==> out.result == Failure(PrepareFailed(UpdateOp))
    ensures fault.FailAtExecute? ==> out.result == Failure(StoreFailed(UpdateOp))
    ensures fault.NoFault? && user.id !in Contents(t.rows) ==> out.result == Failure(NoRows(UpdateOp))
    ensures fault.NoFault? && user.id in Contents(t.rows) ==>
              && out.result.Success?
              && user.id in Contents(out.table.rows)
              && var before := Contents(t.rows)[user.id];
              && var after := Contents(out.table.rows)[user.id];
              && Contents(out.table.rows) == Contents(t.rows)[user.id := after]
              && SameProfile(after, user)
              && after.createdAt == before.createdAt
              && after.updatedAt == now
              && out.result.value.id == user.id
              && out.result.value.password == ""
              && out.result.value.(password := after.password) == after
  {
    if fault.FailAtPrepare? then Step(t, Failure(PrepareFailed(UpdateOp)))
    else if fault.FailAtExecute? then Step(t, Failure(StoreFailed(UpdateOp)))
    else
      match Lookup(t.rows, user.id)
      case None => Step(t, Failure(NoRows(UpdateOp)))
      case Some(before) =>
        var row := before.(firstName := user.firstName, lastName := user.lastName,
                           nickname := user.nickname, password := user.password,
                           email := user.email, country := user.country, updatedAt := now);
        ReplaceSpec(t.rows, row);
        Step(Table(Replace(t.rows, row)), Success(ReadBack(row, Read)))
  }

  /** `FindUsers`: one page of the matching rows in ID order, PASSWORD not read. */
  function FindUsers(t: Table, filter: User, pageToken: string, limit: int, fault: Fault): (r: Result<UsersResponse, Error>)
    requires Valid(t)
    ensures DecodeBase64ToUuid(pageToken).Failure? ==> r.Failure? && r.error.PageTokenInvalid?
    ensures r.Success? ==> |r.value.users| <= ClampLimit(limit) <= PageLimit
    ensures r.Success? ==> forall i :: 0 <= i < |r.value.users| ==>
              && r.value.users[i].password == ""
              && Matches(r.value.users[i], DecodeBase64ToUuid(pageToken).value, filter)
              && Lookup(t.rows, r.value.users[i].id).Some?
              && r.value.users[i] == ReadBack(Lookup(t.rows, r.value.users[i].id).value, Read)
    ensures r.Success? ==> forall i, j :: 0 <= i < j < |r.value.users| ==> Less(r.value.users[i].id, r.value.users[j].id)
  {
    var r := Find(t, filter, pageToken, limit, fault, Read);
    if r.Success? then
      PageFacts(t, filter, pageToken, limit, fault, Read);
      PageRowsStored(t, filter, pageToken, limit, fault, Read);
      r
    else r
  }

  /** Keyset continuity of FindUsers over a fixed table. */
  lemma KeysetContinuity(t: Table, filter: User, pageToken: string, limit: int)
    requires Valid(t)
    requires DecodeBase64ToUuid(pageToken).Success?
    requires |Select(t.rows, DecodeBase64ToUuid(pageToken).value, filter)| > ClampLimit(limit)
    ensures var first := FindUsers(t, filter, pageToken, limit, NoFault).value;
            var next := FindUsers(t, filter, first.pageToken, limit, NoFault);
            var all := Listing(t, DecodeBase64ToUuid(pageToken).value, filter, Read);
            var n := ClampLimit(limit);
            && first.pageToken != ""
            && next.Success?
            && next.value.users == all[n..][..Min(|all| - n, n)]
            && first.users + next.value.users == all[..Min(|all|, 2 * n)]
  {
    FindContinuity(t, filter, pageToken, limit, Read);
  }

  /** `RemoveUser`: the number of rows the DELETE affected, which is 0 for an absent ID and no error. */
  function RemoveUser(t: Table, id: Uuid, fault: Fault): (out: Step<int>)
    requires Valid(t)
    ensures Valid(out.table)
    ensures out.result.Failure? ==> out.table == t
    ensures fault.FailAtPrepare? ==> out.result == Failure(PrepareFailed(RemoveOp))
    ensures fault.FailAtExecute? ==> out.result == Failure(StoreFailed(RemoveOp))
    ensures fault.NoFault? ==>
              && out.result == Success(if id in Contents(t.rows) then 1 else 0)
              && Contents(out.table.rows) == Contents(t.rows) - {id}
  {
    if fault.FailAtPrepare? then Step(t, Failure(PrepareFailed(RemoveOp)))
    else if fault.FailAtExecute? then Step(t, Failure(StoreFailed(RemoveOp)))
    else
      var rows := Delete(t.rows, id);
      DeleteSpec(t.rows, id);
      Step(Table(rows), Success(|t.rows| - |rows|))
  }
}
