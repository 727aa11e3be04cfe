/**
 * The two database tables the services touch (users and TempUserOTP), the
 * exception type the services raise, and the read-only queries over the tables.
 */
module Store {
  import opened Outcomes

  /** The services' CustomException: a message and an HTTP status code. */
  datatype Failure = CustomException(message: string, statusCode: int)

  /**
   * A stored datetime in whole seconds since the Unix epoch. An aware value
   * carries UTC; a naive value carries no zone at all.
   */
  datatype Timestamp = Aware(utcSeconds: int) | Naive(wallSeconds: int)

  /** A naive timestamp is read as UTC (tzinfo replaced by UTC). */
  function AsUtc(t: Timestamp): int
  {
    match t
    case Aware(s) => s
    case Naive(s) => s
  }

  /** A row of the users table. */
  datatype User = User(
    id: int,
    email: string,
    password: string,
    firstName: string,
    lastName: string,
    role: string,
    isActive: bool)

  /** A row of the TempUserOTP table. */
  datatype OtpRecord = OtpRecord(email: string, code: string, createdAt: Timestamp)

  /**
   * Both tables: users keyed by their primary key, OTP rows keyed by email, and
   * the next value of the users' autoincrement sequence.
   */
  datatype Tables = Tables(users: map<int, User>, otps: map<string, OtpRecord>, nextId: int)

  /**
   * What the database guarantees about the rows: a user's key is its id and
   * lies below the sequence, emails identify at most one user, and an OTP row
   * is filed under its own email.
   */
  ghost predicate Consistent(t: Tables)
  {
    && (forall id :: id in t.users ==> t.users[id].id == id && id < t.nextId)
    && (forall a, b :: a in t.users && b in t.users && t.users[a].email == t.users[b].email ==> a == b)
    && (forall e :: e in t.otps ==> t.otps[e].email == e)
  }

  /** UserService.get_user_by_email: the user with that email, if any. */
  function GetUserByEmail(t: Tables, email: string): (r: Option<User>)
    requires Consistent(t)
    ensures r.None? <==> forall id :: id in t.users ==> t.users[id].email != email
    ensures r.Some? ==> r.value.id in t.users && t.users[r.value.id] == r.value && r.value.email == email
  {
    if exists id :: id in t.users && t.users[id].email == email then
      var id :| id in t.users && t.users[id].email == email;
      Some(t.users[id])
    else
      None
  }

  function UserNotFound(id: int): Failure
  {
    CustomException("User with id " + IntToString(id) + " does not exist.", 404)
  }

  /** UserService.get_user_by_id: the user with that id, or a 404 failure. */
  function GetUserById(t: Tables, id: int): (r: Result<User, Failure>)
    ensures r.Ok? <==> id in t.users
    ensures r.Ok? ==> r.value == t.users[id]
    ensures r.Err? ==> r.error == UserNotFound(id) && r.error.statusCode == 404
  {
    if id in t.users then Ok(t.users[id]) else Err(UserNotFound(id))
  }

  /** TempUserOTPService._get_otp_by_email: the OTP row of that email, if any. */
  function GetOtpByEmail(t: Tables, email: string): (r: Option<OtpRecord>)
    requires Consistent(t)
    ensures r.Some? <==> email in t.otps
    ensures r.Some? ==> r.value == t.otps[email] && r.value.email == email
  {
    if email in t.otps then Some(t.otps[email]) else None
  }

  /** Decimal rendering of an integer, as Python's f-string formats it. */
  function IntToString(i: int): string
  {
    if i < 0 then "-" + NatToString(-i) else NatToString(i)
  }

  function NatToString(n: nat): string
  {
    if n < 10 then ["0123456789"[n]] else NatToString(n / 10) + ["0123456789"[n % 10]]
  }
}
