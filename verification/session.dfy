/** The session guard both API handlers consult first: who is calling, and
    whether that caller may act on a given user's records. The session
    provider itself is outside the model; the session it would return is an
    explicit input. */
module Session {
  import opened Common

  datatype User = User(id: string, email: string, role: string)

  /** What `getSession()` returns when it returns something: a session may
      exist without a signed-in user. */
  datatype SessionData = SessionData(user: Option<User>)

  const AdminRole: string := "admin"

  /** The signed-in caller, if the session has one. */
  function Caller(session: Option<SessionData>): (caller: Option<User>)
    ensures caller.Some? <==> session.Some? && session.value.user.Some?
    ensures caller.Some? ==> caller == session.value.user
  {
    match session
    case None => None
    case Some(data) => data.user
  }

  /** The ownership rule of both handlers: a caller may act on `userId`'s
      records when it is their own id or when they are an administrator. */
  predicate MayActFor(caller: User, userId: string) {
    caller.id == userId || caller.role == AdminRole
  }
}
