/**
 * TempUserOTPService as transitions over the tables: each operation maps the
 * tables before the call to the tables after it and to what the call returns
 * or raises. At most one code per email holds by construction, since the OTP
 * rows are keyed by email.
 */
module OtpService {
  import opened Outcomes
  import opened Store

  /** The tables after a service call, and what the call returned or raised. */
  datatype Step<+T> = Step(tables: Tables, result: Result<T, Failure>)

  /** A code stays valid for 5 minutes, in seconds. */
  const OtpLifetime: int := 5 * 60

  const OtpNotFound := CustomException("Otp not found", 400)
  const OtpExpired := CustomException("Otp expired", 400)
  const OtpDeleted := "Otp deleted successfully"

  /** The row was created strictly earlier than `now` minus the lifetime. */
  predicate Expired(otp: OtpRecord, now: int)
  {
    AsUtc(otp.createdAt) < now - OtpLifetime
  }

  /** delete_user_otp: removes that email's row, or fails when there is none. */
  function DeleteUserOtp(t: Tables, email: string): (r: Step<string>)
    requires Consistent(t)
    ensures Consistent(r.tables)
    ensures r.tables.users == t.users && r.tables.nextId == t.nextId
    ensures email !in t.otps ==> r == Step(t, Err(OtpNotFound))
    ensures email in t.otps ==> r.result == Ok(OtpDeleted) && r.tables.otps.Keys == t.otps.Keys - {email}
    ensures forall e :: e in r.tables.otps ==> e in t.otps && r.tables.otps[e] == t.otps[e]
  {
    match GetOtpByEmail(t, email)
    case None => Step(t, Err(OtpNotFound))
    case Some(_) => Step(t.(otps := t.otps - {email}), Ok(OtpDeleted))
  }

  /**
   * get_user_otp: the stored row while it is at most 5 minutes old. An
   * expired row is deleted on this read (lazy expiry) and the call fails.
   */
  function GetUserOtp(t: Tables, email: string, now: int): (r: Step<OtpRecord>)
    requires Consistent(t)
    ensures Consistent(r.tables)
    ensures r.tables.users == t.users && r.tables.nextId == t.nextId
    ensures email !in t.otps ==> r == Step(t, Err(OtpNotFound))
    ensures email in t.otps && now - OtpLifetime <= AsUtc(t.otps[email].createdAt) ==>
              r == Step(t, Ok(t.otps[email]))
    ensures email in t.otps && AsUtc(t.otps[email].createdAt) < now - OtpLifetime ==>
              r.result == Err(OtpExpired) && r.tables.otps == t.otps - {email}
    ensures r.result.Ok? ==> r.tables == t && r.result.value.email == email
  {
    match GetOtpByEmail(t, email)
    case None => Step(t, Err(OtpNotFound))
    case Some(otp) =>
      if Expired(otp, now) then
        var deleted := DeleteUserOtp(t, email);
        Step(deleted.tables, Err(OtpExpired))
      else
        Step(t, Ok(otp))
  }

  /**
   * create_user_otp: deletes any row for the email, then inserts the freshly
   * generated code stamped with the clock at insert. The stamp is stored
   * naive; AsUtc reads naive and aware stamps alike, so this choice changes
   * no outcome.
   */
  function CreateUserOtp(t: Tables, email: string, code: string, now: int): (r: Step<OtpRecord>)
    requires Consistent(t)
    ensures Consistent(r.tables)
    ensures r.result == Ok(OtpRecord(email, code, Naive(now)))
    ensures r.tables == t.(otps := t.otps[email := OtpRecord(email, code, Naive(now))])
  {
    var cleared := if GetOtpByEmail(t, email).Some? then DeleteUserOtp(t, email).tables else t;
    var otp := OtpRecord(email, code, Naive(now));
    Step(cleared.(otps := cleared.otps[email := otp]), Ok(otp))
  }

  /** A new code is accepted up to and including the instant 5 minutes after it was issued. */
  lemma FreshCodeValidForFiveMinutes(t: Tables, email: string, code: string, issuedAt: int, now: int)
    requires Consistent(t)
    requires issuedAt <= now <= issuedAt + OtpLifetime
    ensures
      var issued := CreateUserOtp(t, email, code, issuedAt).tables;
      GetUserOtp(issued, email, now) == Step(issued, Ok(OtpRecord(email, code, Naive(issuedAt))))
  {
  }

  /** One second past the window the code is rejected as expired and its row is gone. */
  lemma CodeExpiresAfterFiveMinutes(t: Tables, email: string, code: string, issuedAt: int, now: int)
    requires Consistent(t)
    requires now > issuedAt + OtpLifetime
    ensures
      var issued := CreateUserOtp(t, email, code, issuedAt).tables;
      var read := GetUserOtp(issued, email, now);
      && read.result == Err(OtpExpired)
      && email !in read.tables.otps
      && read.tables.otps == t.otps - {email}
  {
  }

  /** Issuing a second code for an email leaves only the second one readable. */
  lemma SecondCodeReplacesFirst(t: Tables, email: string, first: string, second: string, t1: int, t2: int, now: int)
    requires Consistent(t)
    requires now <= t2 + OtpLifetime && t2 <= now
    ensures
      var once := CreateUserOtp(t, email, first, t1).tables;
      var twice := CreateUserOtp(once, email, second, t2).tables;
      && twice.otps[email].code == second
      && GetUserOtp(twice, email, now).result == Ok(OtpRecord(email, second, Naive(t2)))
  {
  }
}
