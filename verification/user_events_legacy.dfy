/**
 * internal/messages/userEvents.go, the older decorator: after a successful
 * mutation it "sends" an event by printing a line, ignoring whether the
 * send was accepted. The printed lines are the returned console.
 */
module LegacyUserEvents {
  import opened Wrappers
  import opened Uuids
  import opened Models

  /** Lines printed to standard output, oldest first. */
  type Console = seq<string>

  function SendingLine(name: string): string
  {
    "sending " + name + " event."
  }

  /** `sendObjectEvent`: refuses an empty name or a nil user. */
  function SendObjectEvent(name: string, user: Option<User>, console: Console): (out: (Option<Error>, Console))
    ensures out.0.Some? <==> name == "" || user.None?
    ensures out.0.Some? ==> out == (Some(NameOrUserNotDefined), console)
    ensures out.0.None? ==> out.1 == console + [SendingLine(name)]
  {
    if name == "" || user.None? then (Some(NameOrUserNotDefined), console)
    else (None, console + [SendingLine(name)])
  }

  /** `sendMessageEvent`: refuses an empty name. */
  function SendMessageEvent(name: string, console: Console): (out: (Option<Error>, Console))
    ensures out.0.Some? <==> name == ""
    ensures out.0.Some? ==> out == (Some(NameOrUserNotDefined), console)
    ensures out.0.None? ==> out.1 == console + [SendingLine(name)]
  {
    if name == "" then (Some(NameOrUserNotDefined), console)
    else (None, console + [SendingLine(name)])
  }

  /** `TestConnection`: delegated. */
  function TestConnection(inner: () -> Option<Error>): (err: Option<Error>)
    ensures err == inner()
  {
    inner()
  }

  /**
   * `CreateUser`: the inner pair comes back unchanged in every case; the
   * event is sent only after a success, and only a non-nil `user` is sent.
   */
  function CreateUser(inner: Option<User> -> Ret<Option<User>>, user: Option<User>, console: Console)
    : (out: (Ret<Option<User>>, Console))
    ensures out.0 == inner(user)
    ensures inner(user).err.Some? || user.None? ==> out.1 == console
    ensures inner(user).err.None? && user.Some? ==> out.1 == console + [SendingLine("create_user")]
  {
    var r := inner(user);
    if r.err.Some? then (r, console)
    else
      var (_, console') := SendObjectEvent("create_user", user, console);
      (r, console')
  }

  /** `UpdateUser`: as CreateUser, with "update_user". */
  function UpdateUser(inner: Option<User> -> Ret<Option<User>>, user: Option<User>, console: Console)
    : (out: (Ret<Option<User>>, Console))
    ensures out.0 == inner(user)
    ensures inner(user).err.Some? || user.None? ==> out.1 == console
    ensures inner(user).err.None? && user.Some? ==> out.1 == console + [SendingLine("update_user")]
  {
    var r := inner(user);
    if r.err.Some? then (r, console)
    else
      var (_, console') := SendObjectEvent("update_user", user, console);
      (r, console')
  }

  /** `FindUsers`: delegated, nothing sent. */
  function FindUsers(inner: (Option<User>, string, int) -> Ret<(seq<User>, string)>, filter: Option<User>,
                     pageToken: string, limit: int, console: Console): (out: (Ret<(seq<User>, string)>, Console))
    ensures out.0 == inner(filter, pageToken, limit)
    ensures out.1 == console
  {
    (inner(filter, pageToken, limit), console)
  }

  /** `RemoveUser`: the inner count comes back unchanged; a success sends "delete_user". */
  function RemoveUser(inner: Uuid -> Ret<int>, id: Uuid, console: Console): (out: (Ret<int>, Console))
    ensures out.0 == inner(id)
    ensures inner(id).err.Some? ==> out.1 == console
    ensures inner(id).err.None? ==> out.1 == console + [SendingLine("delete_user")]
  {
    var r := inner(id);
    if r.err.Some? then (r, console)
    else
      var (_, console') := SendMessageEvent("delete_user", console);
      (r, console')
  }
}
