# Email-verification OTP lifecycle, registration, login and session tokens

A Dafny model of the identity core of a FastAPI authentication backend:

- **TempUserOTPService** (`app/services/user_service.py`): one-time codes kept per email, which
  expire lazily 5 minutes after they were stored. Creating a code replaces the previous one.
- **UserService** (same file): the verify-email → verify-code → register → login flow, a
  sequence of guarded checks. Each check raises a `CustomException` with its own message and
  HTTP status.
- **security** (`app/core/security.py`): building the access-token claims with their `exp`, and
  sorting the outcome of JWT decoding into typed 401 failures before the user is looked up.

## Layout

| file | module | contents |
|---|---|---|
| `outcomes.dfy` | `Outcomes` | `Option`, `Result` |
| `store.dfy` | `Store` | the `users` and `TempUserOTP` rows, `Tables` (both tables plus the id sequence), `Consistent`, and the read-only queries |
| `security.dfy` | `Security` | claims, token expiry and payload, `VerifyTokenGetUser`, the bcrypt and JWT abstractions |
| `otp_service.dfy` | `OtpService` | get / create / delete of codes as transitions `Tables → Step` |
| `user_service.dfy` | `UserService` | verify-email, verify-code, register and login as transitions, plus `Run` over any sequence of requests |
| `session.dfy` | `Session` | class `Database`, with the two tables as mutable `map` fields; its methods perform the source's steps in order and are proved equal to the transitions |

Design choices:

- **Time.** The clock is an integer number of seconds, passed in as `now`. A code lives
  `OtpLifetime` = 300 s. The default token lifetime `DefaultTokenLifetime` is 64 800 s
  (1080 minutes).
- **Timestamps.** A stored timestamp is either aware (UTC) or naive. `AsUtc` reads a naive
  one as UTC, as the source does. New codes are stamped with the clock at insert and stored
  naive; since `AsUtc` reads both kinds alike, this is a modelling choice that changes no
  outcome.
- **Foreign code becomes parameters.**
  - bcrypt is `CryptContext(hash, verify)`. `hash_password` and `verify_password` are exactly
    these two uninterpreted functions.
  - PyJWT is `Jwt(encode, decode)`. Decoding takes the clock and yields `Decoded(claims)`,
    `ExpiredSignature` or `InvalidToken(reason)`. The token lemmas assume a decoder that
    inverts its own encoder while the clock is before `exp` and reports `ExpiredSignature`
    from `exp` on (`DecodesOwnTokens`).
  - `generate_otp` becomes the `code` argument.
  - The email sender is `send: EmailRequest -> Delivery`.
  - The users model's `is_active` column default is `isActiveDefault`.
- **Atomic calls.** Every service call is one atomic step.
- **Purity shows in the types.** Login and the token functions return no tables, so they
  change nothing. `TokenPayload` builds a new map, so the caller's claims cannot be modified.

The model follows the code, including these behaviours a reader may not expect:

- A successful registration does **not** delete the code.
- Registration neither activates a user nor sets `is_active`.
- Login does not look at `is_active`.
- A code mismatch is reported as "Invalid OTP".

## Model

| member | source | states |
|---|---|---|
| `Store.GetUserByEmail` | app/services/user_service.py:14-20 | returns a user exactly when some row has that email, and that row is the one returned; the email is unique under `Consistent` |
| `Store.GetUserById` | app/services/user_service.py:22-30 | returns the row whose id is given, or the 404 "User with id … does not exist." exactly when there is none |
| `Store.GetOtpByEmail` | app/services/user_service.py:119-124 | returns the email's code row exactly when one is stored, and that row carries the email |
| `Security.TokenExpiry` | app/core/security.py:32 | `exp = now + delta` for a non-zero delta; a missing delta and a zero (falsy) delta both give `now + 1080 min` |
| `Security.TokenPayload` | app/core/security.py:30-33 | the encoded claims hold the caller's keys plus `exp`; every caller claim except `exp` is kept; `exp` overrides any given one |
| `Security.CreateAccessToken` | app/core/security.py:27-36 | signs `TokenPayload` with the configured key and algorithm; for claims without the other registered names the library may validate (`aud`, `nbf`, …) and a decoder that inverts its encoder up to an integer `exp`, the token decodes to the caller's claims plus `exp` at every instant before `exp` and is reported expired from `exp` on |
| `Security.VerifyTokenGetUser` | app/core/security.py:38-56 | expired signature → 401 "Token has expired"; other decode error → 401 "Token is invalid: reason"; missing or null `user_id` → 401 "Token is missing user id"; otherwise the user with that id, or the lookup's 404; every failure is a 401 or a 404 |
| `Security.TokenFailuresDistinct` | app/core/security.py:46-56 | the expired, invalid and missing-claim failures are pairwise distinct, whatever the library's reason text |
| `Security.OnlyConfiguredAlgorithm` | app/core/security.py:43-45 | the verdict depends only on decoding with the single configured algorithm; the caller cannot pick another |
| `Security.IssuedTokenVerifies` | app/core/security.py:27-51 | a token issued over `{"user_id": id}` verifies to the user with that id at every instant before its `exp` |
| `Security.IssuedTokenExpires` | app/core/security.py:27-54 | from its `exp` on, an issued token fails with 401 "Token has expired"; a negative delta makes that true at issue |
| `OtpService.DeleteUserOtp` | app/services/user_service.py:151-160 | fails "Otp not found" (400) with nothing changed when the email has no code; otherwise removes only that email's code; users are untouched |
| `OtpService.GetUserOtp` | app/services/user_service.py:126-137 | no code → "Otp not found" with no change. A code created strictly before `now − 5 min` is deleted and the call fails "Otp expired". A code exactly 5 minutes old is still accepted. A valid code is returned and left in place |
| `OtpService.CreateUserOtp` | app/services/user_service.py:139-149 | afterwards the email maps to exactly the new code, stamped `now`; the previous code is gone; other emails' codes and the users are unchanged |
| `OtpService.FreshCodeValidForFiveMinutes` | app/services/user_service.py:131-137 | a code just issued is accepted at every instant up to 5 minutes later |
| `OtpService.CodeExpiresAfterFiveMinutes` | app/services/user_service.py:131-136 | after 5 minutes a code is rejected as expired, and the read removes it |
| `OtpService.SecondCodeReplacesFirst` | app/services/user_service.py:140-149 | after two issues for one email, only the second code is stored and readable |
| `UserService.VerifyEmail` | app/services/user_service.py:82-101 | an email with an active user → 400 "Email already exists", nothing changed. Otherwise the code is replaced before sending and stays stored even when sending fails. A CustomException from sending passes through unchanged; any other exception becomes 400 with its text. Users untouched |
| `UserService.VerifyEmailOtp` | app/services/user_service.py:103-112 | succeeds iff no active user holds the email and the stored code is unexpired and equal to the submitted one. Success consumes nothing. A missing or expired code gives `get_user_otp`'s "Otp not found" / "Otp expired" with its store change. A wrong code → "Invalid OTP" (400). The only possible change is deleting an expired code |
| `UserService.RegisterUser` | app/services/user_service.py:32-62 | checks in order: OTP missing/expired, code mismatch, active user; passing all three always succeeds. A failure leaves the users table as it was. Success stores the hash of the password, never the plaintext. A new user gets the next id; an inactive user has only password and role replaced. `is_active` is not set, the code stays, and the final `else` is unreachable |
| `UserService.LoginUser` | app/services/user_service.py:64-80 | unknown email → 400 "email not exists"; a known email whose hash does not verify the password → 401 "Invalid credentials."; succeeds iff the password verifies against that user's hash, returning a Bearer token over `{"user_id": id}` and the user's role |
| `UserService.LoginIgnoresActivation` | app/services/user_service.py:65-80 | flipping any user's `is_active` never changes what login returns |
| `UserService.LoginTokenVerifies` | app/services/user_service.py:64-80 | until 1080 minutes after the login, the token verifies to the user who logged in, against the tables as they stand then, whatever verify-email, verify-code and register calls were served in between; against unchanged tables that user's hash still verifies the password |
| `UserService.LoginTokenExpires` | app/services/user_service.py:64-80 | from 1080 minutes after the login on, its token fails with 401 "Token has expired", whatever the tables are then |
| `UserService.VerifyThenRegister` | app/services/user_service.py:32-112 | request a code, confirm it, then register with it inside the window: confirmation changes nothing and registration succeeds with the hashed password, keeping the code |
| `UserService.ReplacedCodeRejected` | app/services/user_service.py:89-112 | once a second code has been issued, submitting the first (different) one fails with "Invalid OTP" |
| `UserService.Apply` | app/services/user_service.py:32-112 | each of verify-email, verify-code and register keeps the tables consistent. No user row disappears. Emails, names and activation never change, an active user's row is never touched, and the id sequence never goes back |
| `UserService.Run` | app/services/user_service.py:32-112 | the same holds after any sequence of those requests, so by-email lookups never meet two rows |
| `Session.Database.DeleteUserOtp` | app/services/user_service.py:151-160 | the in-place deletion leaves the tables and result of `OtpService.DeleteUserOtp` |
| `Session.Database.GetUserOtp` | app/services/user_service.py:126-137 | the in-place read (with lazy deletion) matches `OtpService.GetUserOtp` |
| `Session.Database.CreateUserOtp` | app/services/user_service.py:139-149 | delete-then-insert in place matches `OtpService.CreateUserOtp` |
| `Session.Database.VerifyEmail` | app/services/user_service.py:82-101 | the in-place flow matches `UserService.VerifyEmail` |
| `Session.Database.VerifyEmailOtp` | app/services/user_service.py:103-112 | the in-place flow matches `UserService.VerifyEmailOtp` |
| `Session.Database.RegisterUser` | app/services/user_service.py:32-62 | the in-place insert or field update matches `UserService.RegisterUser` |

## Left out

- bcrypt and PyJWT internals: hashing, salts and signatures are uninterpreted parameters. Nothing is claimed about collisions or signature soundness. The library's expiry rule (expired once the clock reaches `exp`) is an assumption in `DecodesOwnTokens`, not something proved, and it covers only claims that carry an integer `exp` and none of the other registered names the library may validate (`aud`, `iat`, `iss`, `jti`, `nbf`, `sub`). A token with a missing or non-integer `exp` is outside the model. The tokens the service issues carry only `user_id` and an integer `exp`.
- `asyncio.to_thread` offloading, `await` points and DB commit/refresh: every service call is one atomic step, and there is no concurrency.
- The clock counts whole seconds. Python compares `datetime` values to the microsecond, and a `timedelta` can be fractional.
- Claims other than null and integers are not modelled. A non-integer `user_id` in a decoded token is outside the model.
- Database errors (connection loss, constraint violations, `MultipleResultsFound`) are not modelled; `Consistent` states the uniqueness the queries rely on.
- `app/services/email_service.py` (SMTP transport, TLS, template rendering, the email-settings query) is reduced to the `send` parameter. A missing email setting makes it return normally, which counts as `Delivered`.
- The connection registry is not part of this model. `app/websockets/connection_manager.py` is absent, and the shown websocket loop (`app/routes/ws/v1/chat_ws.py`) exists only for concurrent connection handling.
- HTTP routing and error formatting (`app/routes/`, `app/middlewares/exception_handler.py`, `app/main.py`, `cli.py`) are left out. `app/routes/v1/auth_routes.py:27-31` passes a schema without an `otp` field to `verify_email_otp`. The model gives the service the email and code it expects instead.
- Email lookups are taken as exact, case-sensitive string matches; the database collation is not part of this model. Under a case-insensitive collation the final `else` of `register_user` (app/services/user_service.py:61-62) could be reached, which `UserService.RegisterUser` rules out.
- The `User` and `TempUserOTP` models and the `UserRole` enum are not part of this model. Roles are strings. The `is_active` column default is the `isActiveDefault` parameter.
