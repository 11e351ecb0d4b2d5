/** The records of internal/models/user.go and the error values of the core. */
module Models {
  import opened Wrappers
  import opened Uuids
  import Convert

  /** A server-assigned `now() AT TIME ZONE 'utc'` value, opaque to the model. */
  type Timestamp = int

  /** One row of U1.USERS, and the Go struct that carries it. */
  datatype User = User(
    id: Uuid,
    firstName: string,
    lastName: string,
    nickname: string,
    password: string,
    email: string,
    country: string,
    createdAt: Timestamp,
    updatedAt: Timestamp)

  /** The six columns that INSERT and UPDATE take from the caller's struct. */
  predicate SameProfile(a: User, b: User)
  {
    && a.firstName == b.firstName
    && a.lastName == b.lastName
    && a.nickname == b.nickname
    && a.password == b.password
    && a.email == b.email
    && a.country == b.country
  }

  /** One page of a lookup and the token of the next page ("" at the end). */
  datatype UsersResponse = UsersResponse(users: seq<User>, pageToken: string)

  /** The domain event published after a successful mutation. */
  datatype UserEvent = UserEvent(operation: string, userId: string, user: Option<User>)

  datatype Operation = CreateOp | UpdateOp | FindOp | RemoveOp

  /** The failures `json.Marshal` reports: an unsupported type or value, or a failing `MarshalJSON`. */
  datatype JsonError = UnsupportedType | UnsupportedValue | MarshalerFailed

  /**
   * The errors of the core, each standing for the wrapped Go error that
   * carries the operation's name in its message.
   */
  datatype Error =
    | PrepareFailed(op: Operation)                    // "<op> PrepareContext failed" / "FindUsers Preparation failed"
    | NoRows(op: Operation)                           // "<op> returned no rows", wrapping sql.ErrNoRows
    | StoreFailed(op: Operation)                      // "<op> failed", "FindUsers Query failed", "RemoveUser ExecContext failed"
    | PageTokenInvalid(cause: Convert.DecodeError)    // "FindUsers pageToken decoding failed"
    | NameOrUserNotDefined                            // the legacy event sender's validation error
    | MarshalFailed(jsonError: JsonError)             // json.Marshal's error, returned by the event decorator

  /** An error a repository can report; marshalling errors come only from the event decorator. */
  predicate RepositoryError(e: Error)
  {
    !e.MarshalFailed?
  }

  /** A Go `(value, error)` return pair; `err == None` is a nil error. */
  datatype Ret<T> = Ret(value: T, err: Option<Error>)
}
