/**
 * internal/repositories/userRepo.go, the older repository variant. Its
 * RETURNING and SELECT lists include PASSWORD, and CreateUser and
 * UpdateUser scan the returned row into the caller's own struct and return
 * that struct: here, the returned record is the stored row itself.
 */
module LegacyUserRepo {
  import opened Wrappers
  import opened Uuids
  import opened Models
  import opened Store
  import opened Pagination
  import opened Convert
  import opened UserQuery

  const Read: Columns := AllColumns

  /** `CreateUser`: the caller's struct comes back as the stored row, new ID and password included. */
  function CreateUser(t: Table, user: User, newId: Uuid, now: Timestamp, fault: Fault): (out: Step<User>)
    requires Valid(t)
    ensures Valid(out.table)
    ensures out.result.Success? <==> fault.NoFault? && newId !in Contents(t.rows)
    ensures out.result.Failure? ==> out.table == t
    ensures fault.FailAtPrepare? ==> out.result == Failure(PrepareFailed(CreateOp))
    ensures !fault.FailAtPrepare? && out.result.Failure? ==> out.result == Failure(StoreFailed(CreateOp))
    ensures out.result.Success? ==>
              && Contents(out.table.rows) == Contents(t.rows)[newId := out.result.value]
              && out.result.value.id == newId
              && SameProfile(out.result.value, user)
              && out.result.value.createdAt == now && out.result.value.updatedAt == now
  {
    if fault.FailAtPrepare? then Step(t, Failure(PrepareFailed(CreateOp)))
    // A driver error, or the primary key already taken, surfaces as "CreateUser failed".
    else if fault.FailAtExecute? || Lookup(t.rows, newId).Some? then Step(t, Failure(StoreFailed(CreateOp)))
    else
      var row := user.(id := newId, createdAt := now, updatedAt := now);
      InsertSpec(t.rows, row);
      Step(Table(Insert(t.rows, row)), Success(ReadBack(row, Read)))
  }

  /** `UpdateUser`: the caller's struct comes back as the updated row, CREATED_AT as stored. */
  function UpdateUser(t: Table, user: User, now: Timestamp, fault: Fault): (out: Step<User>)
    requires Valid(t)
    ensures Valid(out.table)
    ensures out.result.Failure? ==> out.table == t
    ensures fault.FailAtPrepare? ==> out.result == Failure(PrepareFailed(UpdateOp))
    ensures fault.FailAtExecute? ==> out.result == Failure(StoreFailed(UpdateOp))
    ensures fault.NoFault? && user.id !in Contents(t.rows) ==> out.result == Failure(NoRows(UpdateOp))
    ensures fault.NoFault? && user.id in Contents(t.rows) ==>
              && out.result.Success?
              && Contents(out.table.rows) == Contents(t.rows)[user.id := out.result.value]
              && out.result.value.id == user.id
              && SameProfile(out.result.value, user)
              && out.result.value.createdAt == Contents(t.rows)[user.id].createdAt
              && out.result.value.updatedAt == now
  {
    if fault.FailAtPrepare? then Step(t, Failure(PrepareFailed(UpdateOp)))
    else if fault.FailAtExecute? then Step(t, Failure(StoreFailed(UpdateOp)))
    else
      match Lookup(t.rows, user.id)
      case None => Step(t, Failure(NoRows(UpdateOp)))
      case Some(before) =>
        var row := user.(createdAt := before.createdAt, updatedAt := now);
        ReplaceSpec(t.rows, row);
        Step(Table(Replace(t.rows, row)), Success(ReadBack(row, Read)))
  }

  /** `FindUsers`: one page of the matching rows in ID order, each row exactly as stored. */
  function FindUsers(t: Table, filter: User, pageToken: string, limit: int, fault: Fault): (r: Result<UsersResponse, Error>)
    requires Valid(t)
    ensures DecodeBase64ToUuid(pageToken).Failure? ==> r.Failure? && r.error.PageTokenInvalid?
    ensures r.Success? ==> |r.value.users| <= ClampLimit(limit) <= PageLimit
    ensures r.Success? ==> forall i :: 0 <= i < |r.value.users| ==>
              && Matches(r.value.users[i], DecodeBase64ToUuid(pageToken).value, filter)
              && Lookup(t.rows, r.value.users[i].id) == Some(r.value.users[i])
    ensures r.Success? ==> forall i, j :: 0 <= i < j < |r.value.users| ==> Less(r.value.users[i].id, r.value.users[j].id)
  {
    var r := Find(t, filter, pageToken, limit, fault, Read);
    if r.Success? then
      PageFacts(t, filter, pageToken, limit, fault, Read);
      StoredRows(t, filter, pageToken, limit, fault);
      r
    else r
  }

  /** Read with every column, each returned row is the table's row for its ID. */
  lemma StoredRows(t: Table, filter: User, pageToken: string, limit: int, fault: Fault)
    requires Valid(t)
    requires Find(t, filter, pageToken, limit, fault, Read).Success?
    ensures var users := Find(t, filter, pageToken, limit, fault, Read).value.users;
            forall i :: 0 <= i < |users| ==> users[i].id in Contents(t.rows) && Contents(t.rows)[users[i].id] == users[i]
  {
    PageRowsStored(t, filter, pageToken, limit, fault, Read);
  }

  /** Keyset continuity of FindUsers over a fixed table. */
  lemma KeysetContinuity(t: Table, filter: User, pageToken: string, limit: int)
    requires Valid(t)
    requires DecodeBase64ToUuid(pageToken).Success?
    requires |Select(t.rows, DecodeBase64ToUuid(pageToken).value, filter)| > ClampLimit(limit)
    ensures var first := FindUsers(t, filter, pageToken, limit, NoFault).value;
            var next := FindUsers(t, filter, first.pageToken, limit, NoFault);
            var all := Listing(t, DecodeBase64ToUuid(pageToken).value, filter, Read);
            var n := ClampLimit(limit);
            && first.pageToken != ""
            && next.Success?
            && next.value.users == all[n..][..Min(|all| - n, n)]
            && first.users + next.value.users == all[..Min(|all|, 2 * n)]
  {
    FindContinuity(t, filter, pageToken, limit, Read);
  }

  /** `RemoveUser`: the affected-row count, 0 or 1; an absent ID is not an error. */
  function RemoveUser(t: Table, id: Uuid, fault: Fault): (out: Step<int>)
    requires Valid(t)
    ensures Valid(out.table)
    ensures out.result.Failure? ==> out.table == t
    ensures fault.FailAtPrepare? ==> out.result == Failure(PrepareFailed(RemoveOp))
    ensures fault.FailAtExecute? ==> out.result == Failure(StoreFailed(RemoveOp))
    ensures fault.NoFault? ==>
              && out.result == Success(if id in Contents(t.rows) then 1 else 0)
              && Contents(out.table.rows) == Contents(t.rows) - {id}
  {
    if fault.FailAtPrepare? then Step(t, Failure(PrepareFailed(RemoveOp)))
    else if fault.FailAtExecute? then Step(t, Failure(StoreFailed(RemoveOp)))
    else
      var rows := Delete(t.rows, id);
      DeleteSpec(t.rows, id);
      Step(Table(rows), Success(|t.rows| - |rows|))
  }
}
