# AuthService account engine, modelled in Dafny

This project models the account engine of a NestJS authentication back end:
the `AuthService` class (`src/auth/auth.service.ts`) and the single `users`
table it reads and writes. The service has four operations. `register`
validates its input, refuses a taken email, hashes the password with bcrypt
(cost 10), inserts a row and signs a seven-day JWT. `login` looks the email
up, compares the password and signs a token; it only reads. `updateProfile`
optionally uploads an avatar image, refuses a request with nothing to write,
and then runs one of three partial UPDATE statements. `changePassword`
validates the two passwords, re-reads the row, checks the current password,
refuses reuse of it, re-hashes at cost 12 and updates the row. Inside its
`try` block every failure is rewritten to 500 "Internal server error" by a
catch-all.

Structure, one module per file:

- `common.dfy` (`Common`): `Option`, JavaScript truthiness (an absent value
  and `""` are both falsy, as `!email`, `!name` and `!avatarUrl` treat them),
  and JavaScript's `length` counted in UTF-16 code units.
- `bcrypt.dfy` (`Bcrypt`): `Hash(password, cost, salt)` and
  `Compare(candidate, digest)`. A digest keeps the password it was made from,
  so that `Compare` can be defined; bcrypt's one-wayness is not modelled. The
  random salt is a parameter.
- `jwt.dfy` (`Jwt`): a token is its claims `(subject, iat, exp)`, with
  `exp = iat + 7 days`. `Verify` is the expiry check a verifier applies.
- `users_table.dfy` (`UsersTable`): the row type follows the columns of
  `CREATE TABLE users`. `Change` is the SET clause of an UPDATE. `Table` is
  the table as a value, and `WellFormed` states its constraints: SERIAL ids
  and a UNIQUE email. The `Database` class holds the mutable table
  (`users: map<int, Row>`, `nextId`). Its `Insert` and `Update` methods are
  the INSERT and UPDATE statements, and both preserve `Valid()`.
- `auth_spec.dfy` (`AuthSpec`): one step function per operation. Each takes
  the table before the call, the inputs, the salt and the time `NOW()` reads,
  and gives the result (`Ok` or `Err`) and the table after. Thrown
  `HttpException`s become `Err(Http(status, message))`. An exception from the
  image host, which the service does not catch, becomes `Err(Thrown)`.
- `auth_service.dfy` (`AuthService`): the four operations as imperative
  methods on a `Database`, following the source's guards one by one. Each
  method is proved to return exactly what its step function returns and to
  leave the table exactly as its step function says. `Login` has no
  `modifies` clause, so it cannot write.
- `auth_properties.dfy` (`AuthProperties`): lemmas over the step functions.

The views the operations return (`NewUser`, `LoginUser`, `ProfileUser`) have
no password column. Returning a password or a digest is therefore a type
error in the model.

Two behaviours of the code are easy to miss, and the model keeps both:

- **changePassword errors.** A missing row, a wrong current password and a
  reused password are each thrown inside the `try` block
  (`src/auth/auth.service.ts:255-326`) with their own status (404 or 400).
  The `catch` (`:327-336`) rewrites every one of them to 500 "Internal server
  error". So `changePassword(token, "secret1", "secret1")` answers 500
  "Internal server error", not 400 "New password must be different from
  current password" (lemmas `PasswordChangeWalkthrough`, `AccountWalkthrough`).
- **Upload results in updateProfile.** A falsy `secure_url` from the image
  host is not an error (`:163`): it only leaves `avatarUrl` falsy. A request
  that also carries a name then does a name-only update, and one without a
  name gets 400 "No data to update". An upload that throws is not caught by
  the service.

## Model

| member | source | states |
|---|---|---|
| `Common.Truthy` | src/auth/auth.service.ts:23 | `!x` on an optional string: a string is truthy exactly when it is present and not `""` |
| `Common.Utf16Length` | src/auth/auth.service.ts:245 | JavaScript's `length`: the number of characters plus the number of characters above U+FFFF, so between `|s|` and `2 * |s|`, and exactly `|s|` when no character lies above U+FFFF |
| `Bcrypt.Hash` | src/auth/auth.service.ts:49 | the digest records its cost factor, and `bcrypt.compare` accepts exactly the hashed password and no other |
| `Bcrypt.Compare` | src/auth/auth.service.ts:101 | `bcrypt.compare` accepts a candidate exactly when the digest is that candidate's, at the digest's own cost and salt |
| `Bcrypt.HashIsSalted` | src/auth/auth.service.ts:302-303 | hashing one password with two different salts gives two different digests, and both verify |
| `Jwt.Verify` | src/auth/auth.service.ts:59-63 | the `exp` check that `expiresIn` sets up: a token resolves to its subject exactly while `now < exp`, and is refused from `exp` on |
| `Jwt.ExpiryIsFinal` | src/auth/auth.service.ts:59-63 | a token refused at some time stays refused at every later time, and one accepted later was accepted earlier with the same subject |
| `Jwt.Sign` | src/auth/auth.service.ts:59-63 | a signed token carries the id, is issued at `now`, resolves to that id for seven days and is refused from then on |
| `UsersTable.WellFormed` | src/database/database.module.ts:13-14 | `id SERIAL PRIMARY KEY` and `email ... UNIQUE`: ids are positive and below the sequence's next value, no two rows share an email, and so the next value is never an id in use |
| `UsersTable.SelectByEmail` | src/auth/auth.service.ts:34-36 | the SELECT by email returns exactly the ids of rows with that exact email, and is empty exactly when the email is free |
| `UsersTable.EmailTaken` | src/auth/auth.service.ts:38 | `existingUser.length > 0`: the email is taken exactly when it is among the emails of the table's rows |
| `UsersTable.FindByEmail` | src/auth/auth.service.ts:87-89 | the login lookup finds a row with that email whenever one exists, and finds none otherwise |
| `UsersTable.FindByEmailUnique` | src/database/database.module.ts:14 | since email is UNIQUE, looking up a row's email finds that same row |
| `UsersTable.Apply` | src/auth/auth.service.ts:180-200 | an UPDATE sets the columns its SET clause names and `updated_at = now`, and leaves email, `created_at` and every unnamed column unchanged |
| `UsersTable.InsertRow` | src/auth/auth.service.ts:52-56 | the INSERT as a value: the row appears under the next SERIAL id, every other row stays, and the sequence advances by one |
| `UsersTable.UpdateRow` | src/auth/auth.service.ts:181-200 | the UPDATE ... WHERE id as a value: the set of ids and the sequence stay, the row with that id (if any) is changed as `Apply` says, and every other row stays |
| `UsersTable.InsertKeepsWellFormed` | src/auth/auth.service.ts:52-56 | inserting a free email adds exactly one row under a fresh SERIAL id, keeps every other row, and keeps ids and emails unique |
| `UsersTable.UpdateKeepsWellFormed` | src/auth/auth.service.ts:306-311 | an UPDATE by id keeps the set of ids, every other row and the table's constraints |
| `UsersTable.Database.constructor` | src/database/database.module.ts:12-20 | a new table is empty, and its sequence starts at 1 |
| `UsersTable.Database.Insert` | src/auth/auth.service.ts:52-56 | INSERT ... RETURNING id returns the next sequence value, adds the row under it and keeps the constraints |
| `UsersTable.Database.Update` | src/auth/auth.service.ts:181-200 | UPDATE ... WHERE id ... RETURNING returns the updated row, or nothing when no row has that id, and changes only that row |
| `AuthSpec.ProfileOf` | src/auth/auth.service.ts:185 | the RETURNING view of a row carries its id and every column except the password; putting the password back gives the row |
| `AuthSpec.AvatarUrl` | src/auth/auth.service.ts:143-164 | `avatarUrl` stays null when no file is given; with a file and a successful upload it is exactly the host's `secure_url`, and a non-null URL always comes from such an upload |
| `AuthSpec.RegisterStep` | src/auth/auth.service.ts:20-71 | a failed register leaves the table unchanged; on success, the token's subject and the returned id are both the new SERIAL id |
| `AuthSpec.LoginStep` | src/auth/auth.service.ts:73-129 | every 401 from login carries the one message "Invalid email or password"; success happens only for a row with that email whose digest matches the password, and returns exactly that row's id, email and name with `Sign(id, now)`, so the token's subject is that row's id |
| `AuthSpec.ProfileChange` | src/auth/auth.service.ts:180-201 | the UPDATE chosen sets `name` exactly when the name is truthy and `avatar` exactly when the URL is truthy, each to that value, and never the password |
| `AuthSpec.UpdateProfileStep` | src/auth/auth.service.ts:131-218 | a failed update writes nothing; content reaches the image host only when a file was given, and it is that file's buffer content |
| `AuthSpec.ChangePasswordTryStep` | src/auth/auth.service.ts:255-326 | a failure inside the try block writes nothing, and a write happens only for an existing row whose digest matches the current password |
| `AuthSpec.CatchAll` | src/auth/auth.service.ts:327-336 | the catch turns every failure into 500 "Internal server error" and passes success and the table through unchanged |
| `AuthSpec.ChangePasswordStep` | src/auth/auth.service.ts:220-337 | a failed password change leaves the table unchanged |
| `AuthService.Register` | src/auth/auth.service.ts:20-71 | the register method returns and writes exactly what `RegisterStep` says, and keeps the table's constraints |
| `AuthService.Login` | src/auth/auth.service.ts:73-129 | the login method returns exactly `LoginStep` of the current table and writes nothing |
| `AuthService.UpdateProfile` | src/auth/auth.service.ts:131-218 | the updateProfile method returns, uploads and writes exactly what `UpdateProfileStep` says, and keeps the constraints |
| `AuthService.ChangePasswordTry` | src/auth/auth.service.ts:255-326 | the try block returns and writes exactly what `ChangePasswordTryStep` says |
| `AuthService.ChangePassword` | src/auth/auth.service.ts:220-337 | the changePassword method returns and writes exactly what `ChangePasswordStep` says, and keeps the constraints |
| `AuthProperties.RegisterKeepsWellFormed` | src/auth/auth.service.ts:33-56 | register keeps ids and emails unique in the table |
| `AuthProperties.RegisterRequiresFields` | src/auth/auth.service.ts:21-31 | register fails 400 "Email, name, and password are required" exactly when email, name or password is missing or empty, and then writes nothing |
| `AuthProperties.RegisterRejectsTakenEmail` | src/auth/auth.service.ts:33-46 | register with an email some row already has fails 409 "Email already exists" and writes nothing |
| `AuthProperties.RegisterSuccess` | src/auth/auth.service.ts:48-70 | register succeeds exactly when all three fields are present and the email is free; it then adds exactly one row (cost-10 digest, not the password) and returns id, email, name, `created_at` and a token for the new id |
| `AuthProperties.LoginOutcome` | src/auth/auth.service.ts:76-128 | login fails 400 on a missing field and 401 "Invalid email or password" when no row matches both email and password; otherwise it returns that row's id, email and name and a token for that id |
| `AuthProperties.LoginHidesWhichCheckFailed` | src/auth/auth.service.ts:91-111 | an unknown email and a wrong password give the identical 401 result |
| `AuthProperties.RegisterThenLogin` | src/auth/auth.service.ts:20-128 | after a successful register, login with the same credentials succeeds, and its token resolves to the new id |
| `AuthProperties.UpdateProfileKeepsWellFormed` | src/auth/auth.service.ts:177-201 | updateProfile keeps ids and emails unique |
| `AuthProperties.UpdateProfileUploadGuard` | src/auth/auth.service.ts:145-164 | an upload is attempted exactly when a caller is present and a file with non-empty buffer content is given; an empty buffer fails 500 "Failed to generate file buffer" with no upload and no write |
| `AuthProperties.UpdateProfileNoData` | src/auth/auth.service.ts:166-175 | with neither a truthy name nor a truthy uploaded URL, updateProfile fails 400 "No data to update" and writes nothing |
| `AuthProperties.UpdateProfileMissingUser` | src/auth/auth.service.ts:203-211 | updateProfile for an id with no row fails 404 "User not found" and writes nothing |
| `AuthProperties.UpdateProfileSuccess` | src/auth/auth.service.ts:177-217 | updateProfile succeeds exactly when the file (if any) uploaded, there is data, and the row exists. It then changes only that row: name only if the name is truthy, avatar only if the URL is truthy, `updated_at` to now. Email, password and `created_at` are kept, and the row is returned without its password |
| `AuthProperties.ChangePasswordValidatesFirst` | src/auth/auth.service.ts:233-253 | a missing password or a new password whose JavaScript length is under 6 fails 400 with the same answer whatever the table holds, so no row is read |
| `AuthProperties.AstralPasswordPassesLengthGuard` | src/auth/auth.service.ts:245 | three characters above U+FFFF have JavaScript length 6 and are not refused as too short |
| `AuthProperties.ChangePasswordOutcome` | src/auth/auth.service.ts:255-336 | with valid inputs, the password changes exactly when the current password verifies and the new one does not; then only password (cost-12 digest) and `updated_at` change, and every other failure is 500 "Internal server error" |
| `AuthProperties.ChangePasswordThenLogin` | src/auth/auth.service.ts:101-111 | after a password change, login with the new password succeeds for the same id and login with the old one fails 401 |
| `AuthProperties.PasswordChangeWalkthrough` | src/auth/auth.service.ts:255-336 | on a table holding only `a@x.com` with password "secret1": reuse gets 500, a change to "secret2" succeeds, and afterwards only "secret2" logs in |
| `AuthProperties.AccountWalkthrough` | src/auth/auth.service.ts:20-337 | one account's life on an empty table: register gives id 1; a wrong password gets 401, the right one a token; a name-only update keeps the avatar; reuse gets 500; a real change makes the old password fail |

## Left out

- `src/auth/auth.controller.ts`: the NestJS routes. Each route re-wraps an exception with `error.message` and `error.status || 500`, and how `HttpException` derives these is not part of this model; `getProfile` just echoes the guard's user.
- The JWT guard and signing: the guard that resolves a token to the caller is not part of this model, so the caller reaches the engine as an optional account id. Signing keys, signatures and a missing `JWT_SEC` (which makes `jwt.sign` throw) are not modelled; `Jwt.Verify` checks expiry only.
- `src/utils/dataUri.ts`: `getBuffer` is represented only by its result, an optional `FileBuffer` whose `content` may be missing.
- `src/cloudinary/cloudinary.service.ts`: the upload is not performed. Its answer (`secure_url`, or an exception) is an input, and the content sent is an output; the `avatars` folder option is not modelled.
- Bcrypt.Hash: bcrypt's 72-byte password truncation, cost-dependent timing and a `compare` that throws on a malformed digest are not modelled. The model assumes `compare` accepts only the exact password that was hashed. A digest keeps its password, so the one-wayness of bcrypt (a stored row reveals no plaintext) is not modelled.
- UsersTable.Database.Insert: requires that the email is free instead of modelling the unique-constraint error. The model is sequential and `register` checks first, so the race between that check and the INSERT (whose error `register` does not catch) cannot arise.
- AuthSpec.ChangePasswordTryStep: has no "Failed to update password" case (`src/auth/auth.service.ts:313-321`). In the sequential model, the row read at the start of the `try` block still exists when the UPDATE runs. `AuthService.ChangePasswordTry` keeps the branch, and it is proved unreachable there. Through the catch-all it would give 500 "Internal server error" in any case.
- The `VARCHAR(255)` length limits and database failures (connection errors, statement errors) are not modelled, and neither is any exception they would raise.
- The clock: `NOW()` and `CURRENT_TIMESTAMP` are the `now` parameter. JWT times are the same number read as seconds.
- Constant response decorations: `success: true`, the success messages, and the literal `success: true` inside login's `user` object are not modelled.
- `console.error` logging in `changePassword`, module wiring (`src/app.module.ts`, `src/auth/auth.module.ts`), bootstrap and CORS (`src/main.ts`) are not modelled.
- Strings are sequences of Unicode scalar values; JavaScript's `length` is computed by `Common.Utf16Length`. A string holding a lone surrogate code unit, which JavaScript allows, cannot be represented. Values of non-string type in request bodies are not modelled.
- AuthProperties.ChangePasswordThenLogin: requires that the account's email is non-empty. The engine never stores an empty email (`register` refuses one and nothing updates email), but that invariant is not tracked in the table's constraints.
