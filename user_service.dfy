/**
 * UserService's verification, registration and login flows as transitions
 * over the tables, and what any sequence of these calls preserves.
 */
module UserService {
  import opened Outcomes
  import opened Store
  import opened Security
  import opened OtpService

  const EmailAlreadyExists := CustomException("Email already exists", 400)
  const InvalidOtp := CustomException("Invalid OTP", 400)
  const DuplicateActiveUser := CustomException("A user with this username or email already exists.", 400)
  const UsernameTaken := CustomException("A user with this username already exists.", 400)
  const EmailNotExists := CustomException("email not exists", 400)
  const InvalidCredentials := CustomException("Invalid credentials.", 401)

  /** The fields of a registration request. */
  datatype Registration = Registration(
    email: string,
    password: string,
    firstName: string,
    lastName: string,
    otp: string,
    role: string)

  /** What verify_email hands to the email sender. */
  datatype EmailRequest = EmailRequest(
    recipient: string,
    subject: string,
    templateName: string,
    templateData: map<string, string>,
    useAdminEmail: bool)

  /** How a send ends: delivered, a CustomException, or any other exception with its text. */
  datatype Delivery = Delivered | RaisedCustom(failure: Failure) | Raised(message: string)

  /** The response of a successful login. */
  datatype TokenResponse = TokenResponse(accessToken: string, tokenType: string, role: string)

  function VerificationEmail(email: string, firstName: string, code: string): EmailRequest
  {
    EmailRequest(email, "Verify Your Account", "verify_account.html", map["otp" := code, "name" := firstName], true)
  }

  /** An active user holds this email. */
  predicate HasActiveUser(t: Tables, email: string)
    requires Consistent(t)
  {
    var existing := GetUserByEmail(t, email);
    existing.Some? && existing.value.isActive
  }

  /**
   * verify_email: refuses an email with an active user before touching any
   * OTP; otherwise replaces the code, then sends it. The new code is stored
   * whether or not sending succeeds; a CustomException from sending passes
   * through unchanged and any other exception becomes a 400 with its text.
   */
  function VerifyEmail(t: Tables, email: string, firstName: string, code: string, now: int,
                       send: EmailRequest -> Delivery): (r: Step<()>)
    requires Consistent(t)
    ensures Consistent(r.tables)
    ensures r.tables.users == t.users && r.tables.nextId == t.nextId
    ensures HasActiveUser(t, email) ==> r == Step(t, Err(EmailAlreadyExists))
    ensures !HasActiveUser(t, email) ==>
      && r.tables.otps == t.otps[email := OtpRecord(email, code, Naive(now))]
      && match send(VerificationEmail(email, firstName, code))
         case Delivered => r.result == Ok(())
         case RaisedCustom(f) => r.result == Err(f)
         case Raised(m) => r.result == Err(CustomException(m, 400))
  {
    if HasActiveUser(t, email) then
      Step(t, Err(EmailAlreadyExists))
    else
      var created := CreateUserOtp(t, email, code, now);
      var result := match send(VerificationEmail(email, firstName, created.result.value.code))
        case Delivered => Ok(())
        case RaisedCustom(f) => Err(f)
        case Raised(m) => Err(CustomException(m, 400));
      Step(created.tables, result)
  }

  /**
   * verify_email_otp: succeeds exactly when no active user holds the email
   * and the stored, unexpired code equals the submitted one. Success does not
   * consume the code; the only change it can make is deleting an expired code.
   */
  function VerifyEmailOtp(t: Tables, email: string, otp: string, now: int): (r: Step<()>)
    requires Consistent(t)
    ensures Consistent(r.tables)
    ensures r.tables.users == t.users && r.tables.nextId == t.nextId
    ensures r.result.Ok? <==>
      !HasActiveUser(t, email) && email in t.otps && !Expired(t.otps[email], now) && t.otps[email].code == otp
    ensures r.result.Ok? ==> r.tables == t
    ensures HasActiveUser(t, email) ==> r == Step(t, Err(EmailAlreadyExists))
    ensures !HasActiveUser(t, email) && email in t.otps && !Expired(t.otps[email], now) && t.otps[email].code != otp ==>
              r == Step(t, Err(InvalidOtp))
    ensures !HasActiveUser(t, email) ==> r.tables == GetUserOtp(t, email, now).tables
    ensures !HasActiveUser(t, email) && GetUserOtp(t, email, now).result.Err? ==>
              r == Step(GetUserOtp(t, email, now).tables, Err(GetUserOtp(t, email, now).result.error))
  {
    if HasActiveUser(t, email) then
      Step(t, Err(EmailAlreadyExists))
    else
      var read := GetUserOtp(t, email, now);
      if read.result.Err? then Step(read.tables, Err(read.result.error))
      else if read.result.value.code != otp then Step(t, Err(InvalidOtp))
      else Step(t, Ok(()))
  }

  /**
   * register_user: checks, in this order, the OTP (missing or expired), the
   * code, and an active user with the email; then inserts a new user or
   * updates the inactive one's password and role. The stored password is the
   * hash of the submitted one, is_active is never set, and the OTP row stays.
   * The user model's is_active column default is a parameter.
   */
  function RegisterUser(t: Tables, crypt: CryptContext, data: Registration, now: int, isActiveDefault: bool): (r: Step<User>)
    requires Consistent(t)
    ensures Consistent(r.tables)
    // 1. the OTP must exist and be unexpired; its failure and store change pass through
    ensures GetUserOtp(t, data.email, now).result.Err? ==>
              r == Step(GetUserOtp(t, data.email, now).tables, Err(GetUserOtp(t, data.email, now).result.error))
    // 2. then the code must match
    ensures GetUserOtp(t, data.email, now).result.Ok? && t.otps[data.email].code != data.otp ==>
              r == Step(t, Err(InvalidOtp))
    // 3. then no active user may hold the email
    ensures GetUserOtp(t, data.email, now).result.Ok? && t.otps[data.email].code == data.otp && HasActiveUser(t, data.email) ==>
              r == Step(t, Err(DuplicateActiveUser))
    // passing all three checks always ends in success
    ensures GetUserOtp(t, data.email, now).result.Ok? && t.otps[data.email].code == data.otp && !HasActiveUser(t, data.email) ==>
              r.result.Ok?
    // a failure never changes the users table; at most it deletes this email's expired code
    ensures r.result.Err? ==>
              && r.tables.users == t.users && r.tables.nextId == t.nextId
              && (r.tables.otps == t.otps || r.tables.otps == t.otps - {data.email})
    // the final branch of the source is unreachable
    ensures r.result != Err(UsernameTaken)
    // success: the code is not consumed and the user stored holds the hash
    ensures r.result.Ok? ==>
              var u := r.result.value;
              && r.tables.otps == t.otps
              && u.email == data.email && u.password == crypt.hash(data.password) && u.role == data.role
              && u.id in r.tables.users && r.tables.users[u.id] == u
              && (forall id :: id in t.users && id != u.id ==> id in r.tables.users && r.tables.users[id] == t.users[id])
    // a new user takes the next id and the column default for is_active
    ensures r.result.Ok? && GetUserByEmail(t, data.email).None? ==>
              && r.result.value == User(t.nextId, data.email, crypt.hash(data.password), data.firstName, data.lastName, data.role, isActiveDefault)
              && r.tables.users == t.users[t.nextId := r.result.value]
              && r.tables.nextId == t.nextId + 1
    // an inactive user keeps everything but password and role
    ensures r.result.Ok? && GetUserByEmail(t, data.email).Some? ==>
              var prior := GetUserByEmail(t, data.email).value;
              && !prior.isActive
              && r.result.value == prior.(password := crypt.hash(data.password), role := data.role)
              && r.tables.users == t.users[prior.id := r.result.value]
              && r.tables.nextId == t.nextId
  {
    var read := GetUserOtp(t, data.email, now);
    if read.result.Err? then Step(read.tables, Err(read.result.error))
    else if read.result.value.code != data.otp then Step(t, Err(InvalidOtp))
    else
      var existing := GetUserByEmail(t, data.email);
      if existing.Some? && existing.value.isActive then Step(t, Err(DuplicateActiveUser))
      else
        var hashed := crypt.hash(data.password);
        if existing.None? then
          var user := User(t.nextId, data.email, hashed, data.firstName, data.lastName, data.role, isActiveDefault);
          Step(t.(users := t.users[t.nextId := user], nextId := t.nextId + 1), Ok(user))
        else if !existing.value.isActive && existing.value.email == data.email then
          var user := existing.value.(password := hashed, role := data.role);
          Step(t.(users := t.users[user.id := user]), Ok(user))
        else
          Step(t, Err(UsernameTaken))
  }

  /**
   * login_user: an unknown email fails with 400, a wrong password with 401;
   * otherwise a Bearer token over {"user_id": id} with the default lifetime,
   * and the user's role. Activation is not consulted and nothing is stored.
   */
  function LoginUser(t: Tables, crypt: CryptContext, jwt: Jwt, settings: Settings, now: int,
                     email: string, password: string): (r: Result<TokenResponse, Failure>)
    requires Consistent(t)
    ensures GetUserByEmail(t, email).None? ==> r == Err(EmailNotExists)
    ensures r.Ok? <==>
      exists id :: id in t.users && t.users[id].email == email && crypt.verify(password, t.users[id].password)
    ensures GetUserByEmail(t, email).Some? && !crypt.verify(password, GetUserByEmail(t, email).value.password) ==>
              r == Err(InvalidCredentials)
    ensures r.Err? ==> r.error == EmailNotExists || r.error == InvalidCredentials
    ensures r.Ok? ==>
      exists id :: id in t.users && t.users[id].email == email &&
        r.value == TokenResponse(CreateAccessToken(jwt, settings, map["user_id" := Int(id)], now, None), "Bearer", t.users[id].role)
  {
    match GetUserByEmail(t, email)
    case None => Err(EmailNotExists)
    case Some(user) =>
      if !crypt.verify(password, user.password) then Err(InvalidCredentials)
      else
        var token := CreateAccessToken(jwt, settings, map["user_id" := Int(user.id)], now, None);
        Ok(TokenResponse(token, "Bearer", user.role))
  }

  /** Flipping a user's is_active never changes what login returns. */
  lemma LoginIgnoresActivation(t: Tables, id: int, active: bool, crypt: CryptContext, jwt: Jwt, settings: Settings,
                               now: int, email: string, password: string)
    requires Consistent(t) && id in t.users
    ensures Consistent(t.(users := t.users[id := t.users[id].(isActive := active)]))
    ensures LoginUser(t.(users := t.users[id := t.users[id].(isActive := active)]), crypt, jwt, settings, now, email, password)
         == LoginUser(t, crypt, jwt, settings, now, email, password)
  {
    var t' := t.(users := t.users[id := t.users[id].(isActive := active)]);
    var before := GetUserByEmail(t, email);
    var after := GetUserByEmail(t', email);
    if before.Some? {
      assert after.Some? by {
        assert t'.users[before.value.id].email == email;
      }
      assert after.value.id == before.value.id;
    } else {
      assert after.None?;
    }
  }

  /**
   * The token of a successful login verifies to the user who logged in until
   * 1080 minutes after the login, against the tables as they stand then,
   * whatever was served in between (`later` evolved from `t`). Against the
   * unchanged tables that user's hash still verifies the password.
   */
  lemma LoginTokenVerifies(t: Tables, later: Tables, crypt: CryptContext, jwt: Jwt, settings: Settings, loginAt: int,
                           email: string, password: string, now: int)
    requires Consistent(t)
    requires Consistent(later) && Evolves(t, later)
    requires DecodesOwnTokens(jwt, settings)
    requires LoginUser(t, crypt, jwt, settings, loginAt, email, password).Ok?
    requires now < loginAt + DefaultTokenLifetime
    ensures
      var r := VerifyTokenGetUser(jwt, settings, later, LoginUser(t, crypt, jwt, settings, loginAt, email, password).value.accessToken, now);
      && r.Ok? && r.value.email == email
      && r.value.id == GetUserByEmail(t, email).value.id
      && (later.users == t.users ==> crypt.verify(password, r.value.password))
  {
    var user := GetUserByEmail(t, email).value;
    IssuedTokenVerifies(jwt, settings, later, user.id, loginAt, None, now);
  }

  /** From 1080 minutes after the login on, its token fails with "Token has expired", whatever the tables are then. */
  lemma LoginTokenExpires(t: Tables, later: Tables, crypt: CryptContext, jwt: Jwt, settings: Settings, loginAt: int,
                          email: string, password: string, now: int)
    requires Consistent(t)
    requires DecodesOwnTokens(jwt, settings)
    requires LoginUser(t, crypt, jwt, settings, loginAt, email, password).Ok?
    requires now >= loginAt + DefaultTokenLifetime
    ensures VerifyTokenGetUser(jwt, settings, later, LoginUser(t, crypt, jwt, settings, loginAt, email, password).value.accessToken, now)
         == Err(TokenExpired)
  {
    var user := GetUserByEmail(t, email).value;
    IssuedTokenExpires(jwt, settings, later, map["user_id" := Int(user.id)], loginAt, None, now);
  }

  /** The flow the auth routes offer: request a code, confirm it, register with it. */
  lemma VerifyThenRegister(t: Tables, crypt: CryptContext, data: Registration, code: string,
                           issuedAt: int, confirmedAt: int, registeredAt: int,
                           send: EmailRequest -> Delivery, isActiveDefault: bool)
    requires Consistent(t)
    requires !HasActiveUser(t, data.email)
    requires data.otp == code
    requires issuedAt <= confirmedAt <= registeredAt <= issuedAt + OtpLifetime
    ensures
      var requested := VerifyEmail(t, data.email, data.firstName, code, issuedAt, send).tables;
      var confirmed := VerifyEmailOtp(requested, data.email, code, confirmedAt);
      var registered := RegisterUser(confirmed.tables, crypt, data, registeredAt, isActiveDefault);
      && confirmed == Step(requested, Ok(()))
      && registered.result.Ok?
      && registered.result.value.password == crypt.hash(data.password)
      && data.email in registered.tables.otps
  {
  }

  /** After a second code is issued, submitting the first one (if different) fails as a mismatch. */
  lemma ReplacedCodeRejected(t: Tables, email: string, name: string, first: string, second: string,
                             t1: int, t2: int, now: int, send: EmailRequest -> Delivery)
    requires Consistent(t)
    requires !HasActiveUser(t, email)
    requires first != second
    requires t2 <= now <= t2 + OtpLifetime
    ensures
      var once := VerifyEmail(t, email, name, first, t1, send).tables;
      var twice := VerifyEmail(once, email, name, second, t2, send).tables;
      VerifyEmailOtp(twice, email, first, now) == Step(twice, Err(InvalidOtp))
  {
  }

  /** A call a client can make that may change the tables. */
  datatype Request =
    | RequestCode(email: string, firstName: string, code: string, now: int, send: EmailRequest -> Delivery)
    | ConfirmCode(email: string, otp: string, now: int)
    | Register(data: Registration, now: int)

  /**
   * How the tables may change over time: no user row disappears, no user's
   * email, names or activation change, an active user's row is never
   * touched, and the id sequence never goes back.
   */
  ghost predicate Evolves(t: Tables, t': Tables)
  {
    && t.nextId <= t'.nextId
    && (forall id :: id in t.users ==>
          && id in t'.users
          && t'.users[id].email == t.users[id].email
          && t'.users[id].firstName == t.users[id].firstName
          && t'.users[id].lastName == t.users[id].lastName
          && t'.users[id].isActive == t.users[id].isActive
          && (t.users[id].isActive ==> t'.users[id] == t.users[id]))
  }

  function Apply(t: Tables, req: Request, crypt: CryptContext, isActiveDefault: bool): (r: Tables)
    requires Consistent(t)
    ensures Consistent(r) && Evolves(t, r)
  {
    match req
    case RequestCode(email, name, code, now, send) => VerifyEmail(t, email, name, code, now, send).tables
    case ConfirmCode(email, otp, now) => VerifyEmailOtp(t, email, otp, now).tables
    case Register(data, now) => RegisterUser(t, crypt, data, now, isActiveDefault).tables
  }

  /**
   * The tables after serving the requests one at a time. Whatever the order,
   * emails stay unique (so every by-email lookup finds at most one user) and
   * the tables only evolve as Evolves allows.
   */
  function Run(t: Tables, reqs: seq<Request>, crypt: CryptContext, isActiveDefault: bool): (r: Tables)
    requires Consistent(t)
    ensures Consistent(r) && Evolves(t, r)
    decreases |reqs|
  {
    if reqs == [] then t
    else Run(Apply(t, reqs[0], crypt, isActiveDefault), reqs[1..], crypt, isActiveDefault)
  }
}
