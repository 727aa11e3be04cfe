/**
 * Password hashing delegates, access-token issuance and token verification.
 * bcrypt and the JWT library are foreign code: they appear as records of
 * uninterpreted function values that every operation takes as a parameter.
 */
module Security {
  import opened Outcomes
  import opened Store

  /** A JSON claim value as far as the core uses it: null or an integer. */
  datatype ClaimValue = Null | Int(value: int)

  type Claims = map<string, ClaimValue>

  /** Process-wide configuration: the signing secret and the one algorithm. */
  datatype Settings = Settings(secretKey: string, algorithm: string)

  /** The bcrypt context: `hash_password` and `verify_password` return exactly these. */
  datatype CryptContext = CryptContext(hash: string -> string, verify: (string, string) -> bool)

  /** What the JWT library's decode does with a token: claims, or one of its two error kinds. */
  datatype DecodeOutcome = Decoded(payload: Claims) | ExpiredSignature | InvalidToken(reason: string)

  /**
   * The JWT library: encode(claims, key, algorithm) and
   * decode(token, key, allowed algorithms, clock at decoding).
   */
  datatype Jwt = Jwt(
    encode: (Claims, string, string) -> string,
    decode: (string, string, seq<string>, int) -> DecodeOutcome)

  /** Default token lifetime: 1080 minutes (18 hours), in seconds. */
  const DefaultTokenLifetime: int := 1080 * 60

  /**
   * The `exp` of a new token. A missing delta and a zero delta (a falsy
   * timedelta) both fall back to the default lifetime.
   */
  function TokenExpiry(now: int, expiresDelta: Option<int>): (exp: int)
    ensures expiresDelta.Some? && expiresDelta.value != 0 ==> exp == now + expiresDelta.value
    ensures expiresDelta == None || expiresDelta == Some(0) ==> exp == now + DefaultTokenLifetime
  {
    var delta := if expiresDelta.Some? && expiresDelta.value != 0 then expiresDelta.value else DefaultTokenLifetime;
    now + delta
  }

  /**
   * The claims create_access_token encodes: a copy of the caller's claims
   * with `exp` set (replacing any `exp` the caller gave). The caller's map is
   * a value and is therefore never modified.
   */
  function TokenPayload(data: Claims, now: int, expiresDelta: Option<int>): (r: Claims)
    ensures r.Keys == data.Keys + {"exp"}
    ensures r["exp"] == Int(TokenExpiry(now, expiresDelta))
    ensures forall k :: k in data && k != "exp" ==> r[k] == data[k]
  {
    data["exp" := Int(TokenExpiry(now, expiresDelta))]
  }

  /**
   * How the JWT library treats a token it signed itself, decoded at `now`:
   * the claims come back while `now` is before an integer `exp`, and from
   * `exp` on the signature counts as expired.
   */
  function OwnTokenOutcome(c: Claims, now: int): DecodeOutcome
  {
    if "exp" in c && c["exp"].Int? && c["exp"].value <= now then ExpiredSignature else Decoded(c)
  }

  /**
   * Registered claim names the JWT library may validate besides `exp`
   * (audience, issuer, not-before and so on), depending on its version and
   * the options passed to it.
   */
  const ValidatedClaims: set<string> := {"aud", "iat", "iss", "jti", "nbf", "sub"}

  /**
   * The decoder inverts its own encoder, up to expiry, for the configured key
   * and algorithm, on claims that carry an integer `exp` and none of the
   * other validated names.
   */
  ghost predicate DecodesOwnTokens(jwt: Jwt, settings: Settings)
  {
    forall c: Claims, now: int {:trigger jwt.decode(jwt.encode(c, settings.secretKey, settings.algorithm), settings.secretKey, [settings.algorithm], now)} ::
      c.Keys !! ValidatedClaims && "exp" in c && c["exp"].Int? ==>
      jwt.decode(jwt.encode(c, settings.secretKey, settings.algorithm), settings.secretKey, [settings.algorithm], now)
        == OwnTokenOutcome(c, now)
  }

  /**
   * create_access_token: the payload signed with the configured key and
   * algorithm. With a decoder that inverts its encoder, the token decodes to
   * the caller's claims plus `exp` at every instant before `exp`, and is
   * reported expired from `exp` on.
   */
  function CreateAccessToken(jwt: Jwt, settings: Settings, data: Claims, now: int, expiresDelta: Option<int>): (token: string)
    ensures token == jwt.encode(TokenPayload(data, now, expiresDelta), settings.secretKey, settings.algorithm)
    ensures DecodesOwnTokens(jwt, settings) && data.Keys !! ValidatedClaims ==>
      forall at :: jwt.decode(token, settings.secretKey, [settings.algorithm], at)
        == if at < TokenExpiry(now, expiresDelta) then Decoded(TokenPayload(data, now, expiresDelta)) else ExpiredSignature
  {
    jwt.encode(TokenPayload(data, now, expiresDelta), settings.secretKey, settings.algorithm)
  }

  const TokenExpired := CustomException("Token has expired", 401)
  const MissingUserId := CustomException("Token is missing user id", 401)

  function TokenInvalid(reason: string): Failure
  {
    CustomException("Token is invalid: " + reason, 401)
  }

  /** payload.get("user_id") is None: the claim is absent or null. */
  predicate LacksUserId(payload: Claims)
  {
    "user_id" !in payload || payload["user_id"] == Null
  }

  /**
   * verify_token_get_user: decode with the configured algorithm only, classify
   * the outcome into 401 failures, then look the user up by the `user_id` claim.
   */
  function VerifyTokenGetUser(jwt: Jwt, settings: Settings, t: Tables, token: string, now: int): (r: Result<User, Failure>)
    ensures
      var outcome := jwt.decode(token, settings.secretKey, [settings.algorithm], now);
      && (outcome.ExpiredSignature? ==> r == Err(TokenExpired))
      && (outcome.InvalidToken? ==> r == Err(TokenInvalid(outcome.reason)))
      && (outcome.Decoded? && LacksUserId(outcome.payload) ==> r == Err(MissingUserId))
      && (outcome.Decoded? && !LacksUserId(outcome.payload) ==>
            var id := outcome.payload["user_id"].value;
            && (r.Ok? <==> id in t.users)
            && (r.Ok? ==> r.value == t.users[id])
            && (r.Err? ==> r.error == UserNotFound(id)))
    ensures r.Err? ==> r.error.statusCode == 401 || r.error.statusCode == 404
  {
    match jwt.decode(token, settings.secretKey, [settings.algorithm], now)
    case ExpiredSignature => Err(TokenExpired)
    case InvalidToken(reason) => Err(TokenInvalid(reason))
    case Decoded(payload) =>
      if LacksUserId(payload) then Err(MissingUserId)
      else GetUserById(t, payload["user_id"].value)
  }

  /** The three 401 failures are distinct from one another, whatever the library's reason text. */
  lemma TokenFailuresDistinct(reason: string)
    ensures TokenExpired != MissingUserId
    ensures TokenInvalid(reason) != TokenExpired
    ensures TokenInvalid(reason) != MissingUserId
  {
    assert TokenInvalid(reason).message[6] == 'i' && TokenInvalid(reason).message[9] == 'i';
    assert TokenExpired.message[6] == 'h';
    assert MissingUserId.message[9] == 'm';
  }

  /**
   * Verification consults the decoder only with the configured algorithm:
   * two decoders that agree on that single query give the same verdict.
   */
  lemma OnlyConfiguredAlgorithm(jwt1: Jwt, jwt2: Jwt, settings: Settings, t: Tables, token: string, now: int)
    requires jwt1.decode(token, settings.secretKey, [settings.algorithm], now)
          == jwt2.decode(token, settings.secretKey, [settings.algorithm], now)
    ensures VerifyTokenGetUser(jwt1, settings, t, token, now) == VerifyTokenGetUser(jwt2, settings, t, token, now)
  {
  }

  /** A token issued over {"user_id": id} verifies to the user with that id at every instant before its `exp`. */
  lemma IssuedTokenVerifies(jwt: Jwt, settings: Settings, t: Tables, id: int, issuedAt: int, expiresDelta: Option<int>, now: int)
    requires DecodesOwnTokens(jwt, settings)
    requires id in t.users
    requires now < TokenExpiry(issuedAt, expiresDelta)
    ensures VerifyTokenGetUser(jwt, settings, t, CreateAccessToken(jwt, settings, map["user_id" := Int(id)], issuedAt, expiresDelta), now)
         == Ok(t.users[id])
  {
    var payload := TokenPayload(map["user_id" := Int(id)], issuedAt, expiresDelta);
    assert payload["user_id"] == Int(id);
  }

  /**
   * From its `exp` on, an issued token fails with "Token has expired"; with a
   * negative delta that is already the case at issue.
   */
  lemma IssuedTokenExpires(jwt: Jwt, settings: Settings, t: Tables, data: Claims, issuedAt: int, expiresDelta: Option<int>, now: int)
    requires DecodesOwnTokens(jwt, settings)
    requires data.Keys !! ValidatedClaims
    requires now >= TokenExpiry(issuedAt, expiresDelta)
    ensures VerifyTokenGetUser(jwt, settings, t, CreateAccessToken(jwt, settings, data, issuedAt, expiresDelta), now)
         == Err(TokenExpired)
  {
  }
}
