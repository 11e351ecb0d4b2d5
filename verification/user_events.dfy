/**
 * internal/messages/user_events.go: the repository decorator that publishes
 * a domain event after each successful mutation. The decorated repository
 * is an abstract function returning Go's (value, error) pair; the detached
 * publish to the "users" queue is an append to the returned event log.
 */
module UserEvents {
  import opened Wrappers
  import opened Octets
  import opened Uuids
  import opened Models

  /** The events handed to the publisher, oldest first. */
  type EventLog = seq<UserEvent>

  /** `json.Marshal` of an event, which may fail. */
  type Marshal = UserEvent -> Result<seq<Byte>, JsonError>

  /**
   * Marshal the event and publish it when that works. The first component
   * is what the Go variable `err` holds afterwards: the marshalling error,
   * or nil.
   */
  function Emit(event: UserEvent, marshal: Marshal, log: EventLog): (out: (Option<Error>, EventLog))
    ensures out.0.None? <==> marshal(event).Success?
    ensures out.0.None? ==> out.1 == log + [event]
    ensures out.0.Some? ==> out.0.value == MarshalFailed(marshal(event).error) && out.1 == log
  {
    match marshal(event)
    case Success(_) => (None, log + [event])
    case Failure(e) => (Some(MarshalFailed(e)), log)
  }

  /**
   * `CreateUser`. A successful inner call must return a user (Go would
   * dereference a nil result), whose ID and snapshot go into the event.
   */
  function CreateUser(inner: User -> Ret<Option<User>>, marshal: Marshal, user: User, log: EventLog)
    : (out: (Ret<Option<User>>, EventLog))
    requires inner(user).err.None? ==> inner(user).value.Some?
    ensures out.0.value == inner(user).value
    ensures inner(user).err.Some? ==> out == (inner(user), log)
    ensures inner(user).err.None? ==>
              var created := inner(user).value.value;
              var event := UserEvent("create_user", String(created.id), Some(created));
              && (marshal(event).Success? ==> out == (inner(user), log + [event]))
              && (marshal(event).Failure? ==> out == (Ret(inner(user).value, Some(MarshalFailed(marshal(event).error))), log))
  {
    var r := inner(user);
    if r.err.Some? then (r, log)
    else
      var (err, log') := Emit(UserEvent("create_user", String(r.value.value.id), r.value), marshal, log);
      (Ret(r.value, err), log')
  }

  /** `UpdateUser`: the event carries the caller's `user`, not the returned row. */
  function UpdateUser(inner: User -> Ret<Option<User>>, marshal: Marshal, user: User, log: EventLog)
    : (out: (Ret<Option<User>>, EventLog))
    ensures out.0.value == inner(user).value
    ensures inner(user).err.Some? ==> out == (inner(user), log)
    ensures inner(user).err.None? ==>
              var event := UserEvent("update_user", String(user.id), Some(user));
              && (marshal(event).Success? ==> out == (inner(user), log + [event]))
              && (marshal(event).Failure? ==> out == (Ret(inner(user).value, Some(MarshalFailed(marshal(event).error))), log))
  {
    var r := inner(user);
    if r.err.Some? then (r, log)
    else
      var (err, log') := Emit(UserEvent("update_user", String(user.id), Some(user)), marshal, log);
      (Ret(r.value, err), log')
  }

  /** `FindUsers`: a pass-through; reads publish nothing. */
  function FindUsers(inner: (User, string, int) -> Ret<Option<UsersResponse>>, filter: User, pageToken: string,
                     limit: int, log: EventLog): (out: (Ret<Option<UsersResponse>>, EventLog))
    ensures out.0 == inner(filter, pageToken, limit)
    ensures out.1 == log
  {
    (inner(filter, pageToken, limit), log)
  }

  /** `RemoveUser`: a "delete_user" event without a snapshot, even when no row was affected. */
  function RemoveUser(inner: Uuid -> Ret<int>, marshal: Marshal, id: Uuid, log: EventLog): (out: (Ret<int>, EventLog))
    ensures out.0.value == inner(id).value
    ensures inner(id).err.Some? ==> out == (inner(id), log)
    ensures inner(id).err.None? ==>
              var event := UserEvent("delete_user", String(id), None);
              && (marshal(event).Success? ==> out == (inner(id), log + [event]))
              && (marshal(event).Failure? ==> out == (Ret(inner(id).value, Some(MarshalFailed(marshal(event).error))), log))
  {
    var r := inner(id);
    if r.err.Some? then (r, log)
    else
      var (err, log') := Emit(UserEvent("delete_user", String(id), None), marshal, log);
      (Ret(r.value, err), log')
  }

  /**
   * For every mutation, one event is published exactly when the caller sees
   * a nil error; otherwise the log is untouched.
   */
  lemma EventIffNilError(inner: User -> Ret<Option<User>>, remove: Uuid -> Ret<int>, marshal: Marshal,
                         user: User, id: Uuid, log: EventLog)
    requires inner(user).err.None? ==> inner(user).value.Some?
    ensures var out := CreateUser(inner, marshal, user, log);
            && (out.0.err.None? <==> |out.1| == |log| + 1)
            && (out.0.err.Some? <==> out.1 == log)
            && out.1[..|log|] == log
    ensures var out := UpdateUser(inner, marshal, user, log);
            && (out.0.err.None? <==> |out.1| == |log| + 1)
            && (out.0.err.Some? <==> out.1 == log)
            && out.1[..|log|] == log
    ensures var out := RemoveUser(remove, marshal, id, log);
            && (out.0.err.None? <==> |out.1| == |log| + 1)
            && (out.0.err.Some? <==> out.1 == log)
            && out.1[..|log|] == log
  {
  }

  /** When marshalling succeeds the decorator returns the inner (value, error) pair unchanged. */
  lemma TransparentWhenMarshalSucceeds(inner: User -> Ret<Option<User>>, remove: Uuid -> Ret<int>, marshal: Marshal,
                                       user: User, id: Uuid, log: EventLog)
    requires inner(user).err.None? ==> inner(user).value.Some?
    requires forall e :: marshal(e).Success?
    ensures CreateUser(inner, marshal, user, log).0 == inner(user)
    ensures UpdateUser(inner, marshal, user, log).0 == inner(user)
    ensures RemoveUser(remove, marshal, id, log).0 == remove(id)
  {
  }

  /**
   * A caller can tell a lost event from a failed mutation: the decorator
   * returns a marshalling error exactly when the inner call succeeded, so the
   * mutation is committed, and marshalling its event failed.
   */
  lemma MarshalErrorMeansCommitted(inner: User -> Ret<Option<User>>, remove: Uuid -> Ret<int>, marshal: Marshal,
                                   user: User, id: Uuid, log: EventLog)
    requires inner(user).err.None? ==> inner(user).value.Some?
    requires inner(user).err.Some? ==> RepositoryError(inner(user).err.value)
    requires remove(id).err.Some? ==> RepositoryError(remove(id).err.value)
    ensures var err := CreateUser(inner, marshal, user, log).0.err;
            (err.Some? && err.value.MarshalFailed?) <==>
              && inner(user).err.None?
              && marshal(UserEvent("create_user", String(inner(user).value.value.id), inner(user).value)).Failure?
    ensures var err := UpdateUser(inner, marshal, user, log).0.err;
            (err.Some? && err.value.MarshalFailed?) <==>
              inner(user).err.None? && marshal(UserEvent("update_user", String(user.id), Some(user))).Failure?
    ensures var err := RemoveUser(remove, marshal, id, log).0.err;
            (err.Some? && err.value.MarshalFailed?) <==>
              remove(id).err.None? && marshal(UserEvent("delete_user", String(id), None)).Failure?
  {
  }
}
