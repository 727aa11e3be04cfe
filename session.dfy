/**
 * The database session the services run against, updated in place. Each
 * method performs the source's steps one by one and is proved to leave the
 * tables exactly as the corresponding transition in OtpService or
 * UserService says, and to return what it returns.
 */
module Session {
  import opened Outcomes
  import opened Store
  import opened Security
  import OtpService
  import UserService

  class Database {
    var users: map<int, User>
    var otps: map<string, OtpRecord>
    var nextId: int

    /** Both tables as a value. */
    function State(): Tables
      reads this
    {
      Tables(users, otps, nextId)
    }

    ghost predicate Valid()
      reads this
    {
      Consistent(State())
    }

    constructor (initial: Tables)
      requires Consistent(initial)
      ensures Valid() && State() == initial
    {
      users, otps, nextId := initial.users, initial.otps, initial.nextId;
    }

    /** TempUserOTPService.delete_user_otp */
    method DeleteUserOtp(email: string) returns (r: Result<string, Failure>)
      requires Valid()
      modifies this
      ensures Valid()
      ensures State() == OtpService.DeleteUserOtp(old(State()), email).tables
      ensures r == OtpService.DeleteUserOtp(old(State()), email).result
    {
      var otp := GetOtpByEmail(State(), email);
      if otp.None? {
        return Err(OtpService.OtpNotFound);
      }
      otps := otps - {email};
      return Ok(OtpService.OtpDeleted);
    }

    /** TempUserOTPService.get_user_otp */
    method GetUserOtp(email: string, now: int) returns (r: Result<OtpRecord, Failure>)
      requires Valid()
      modifies this
      ensures Valid()
      ensures State() == OtpService.GetUserOtp(old(State()), email, now).tables
      ensures r == OtpService.GetUserOtp(old(State()), email, now).result
    {
      var otp := GetOtpByEmail(State(), email);
      if otp.None? {
        return Err(OtpService.OtpNotFound);
      }
      var createdAt := AsUtc(otp.value.createdAt);
      if createdAt < now - OtpService.OtpLifetime {
        var _ := DeleteUserOtp(email);
        return Err(OtpService.OtpExpired);
      }
      return Ok(otp.value);
    }

    /** TempUserOTPService.create_user_otp, with `code` the output of generate_otp. */
    method CreateUserOtp(email: string, code: string, now: int) returns (otp: OtpRecord)
      requires Valid()
      modifies this
      ensures Valid()
      ensures State() == OtpService.CreateUserOtp(old(State()), email, code, now).tables
      ensures Ok(otp) == OtpService.CreateUserOtp(old(State()), email, code, now).result
    {
      var existing := GetOtpByEmail(State(), email);
      if existing.Some? {
        var _ := DeleteUserOtp(email);
      }
      otp := OtpRecord(email, code, Naive(now));
      otps := otps[email := otp];
    }

    /** UserService.verify_email, with `code` from generate_otp and `send` the email sender. */
    method VerifyEmail(email: string, firstName: string, code: string, now: int,
                       send: UserService.EmailRequest -> UserService.Delivery)
      returns (r: Result<(), Failure>)
      requires Valid()
      modifies this
      ensures Valid()
      ensures State() == UserService.VerifyEmail(old(State()), email, firstName, code, now, send).tables
      ensures r == UserService.VerifyEmail(old(State()), email, firstName, code, now, send).result
    {
      var user := GetUserByEmail(State(), email);
      if user.Some? && user.value.isActive {
        return Err(UserService.EmailAlreadyExists);
      }
      var otp := CreateUserOtp(email, code, now);
      match send(UserService.VerificationEmail(email, firstName, otp.code))
      case Delivered => r := Ok(());
      case RaisedCustom(f) => r := Err(f);
      case Raised(m) => r := Err(CustomException(m, 400));
    }

    /** UserService.verify_email_otp */
    method VerifyEmailOtp(email: string, otp: string, now: int) returns (r: Result<(), Failure>)
      requires Valid()
      modifies this
      ensures Valid()
      ensures State() == UserService.VerifyEmailOtp(old(State()), email, otp, now).tables
      ensures r == UserService.VerifyEmailOtp(old(State()), email, otp, now).result
    {
      var existing := GetUserByEmail(State(), email);
      if existing.Some? && existing.value.isActive {
        return Err(UserService.EmailAlreadyExists);
      }
      var stored := GetUserOtp(email, now);
      if stored.Err? {
        return Err(stored.error);
      }
      if stored.value.code != otp {
        return Err(UserService.InvalidOtp);
      }
      return Ok(());
    }

    /** UserService.register_user; `isActiveDefault` is the users model's is_active default. */
    method RegisterUser(crypt: CryptContext, data: UserService.Registration, now: int, isActiveDefault: bool)
      returns (r: Result<User, Failure>)
      requires Valid()
      modifies this
      ensures Valid()
      ensures State() == UserService.RegisterUser(old(State()), crypt, data, now, isActiveDefault).tables
      ensures r == UserService.RegisterUser(old(State()), crypt, data, now, isActiveDefault).result
    {
      var otp := GetUserOtp(data.email, now);
      if otp.Err? {
        return Err(otp.error);
      }
      if otp.value.code != data.otp {
        return Err(UserService.InvalidOtp);
      }
      var existing := GetUserByEmail(State(), data.email);
      if existing.Some? && existing.value.isActive {
        return Err(UserService.DuplicateActiveUser);
      }
      var hashed := crypt.hash(data.password);
      if existing.None? {
        var user := User(nextId, data.email, hashed, data.firstName, data.lastName, data.role, isActiveDefault);
        users := users[nextId := user];
        nextId := nextId + 1;
        return Ok(user);
      } else if !existing.value.isActive && existing.value.email == data.email {
        var user := existing.value.(password := hashed, role := data.role);
        users := users[user.id := user];
        return Ok(user);
      } else {
        return Err(UserService.UsernameTaken);
      }
    }
  }
}
