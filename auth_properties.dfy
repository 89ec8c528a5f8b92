/** Properties of the account engine, stated over the step functions that
    the AuthService methods are proved to follow. */
module AuthProperties {
  import opened Common
  import opened Bcrypt
  import opened Jwt
  import opened UsersTable
  import opened AuthSpec

  // ---------------------------------------------------------------- register

  /** `register` keeps the table's constraints, in particular unique emails. */
  lemma RegisterKeepsWellFormed(t: Table, email: Option<string>, name: Option<string>, password: Option<string>,
                                salt: nat, now: int)
    requires WellFormed(t)
    ensures WellFormed(RegisterStep(t, email, name, password, salt, now).after)
  {
  }

  /** `register` fails with 400 exactly when email, name or password is
      missing or empty, and then writes nothing. */
  lemma RegisterRequiresFields(t: Table, email: Option<string>, name: Option<string>, password: Option<string>,
                               salt: nat, now: int)
    ensures var s := RegisterStep(t, email, name, password, salt, now);
      (s.result == Err(Http(BadRequest, MsgRegisterRequired))) <==> (!Truthy(email) || !Truthy(name) || !Truthy(password))
    ensures var s := RegisterStep(t, email, name, password, salt, now);
      !Truthy(email) || !Truthy(name) || !Truthy(password) ==> s.after == t
  {
  }

  /** `register` with an email already in the table (exact match) fails with
      409 and writes nothing. */
  lemma RegisterRejectsTakenEmail(t: Table, id: int, email: Option<string>, name: Option<string>,
                                  password: Option<string>, salt: nat, now: int)
    requires Truthy(email) && Truthy(name) && Truthy(password)
    requires id in t.rows && t.rows[id].email == email.value
    ensures RegisterStep(t, email, name, password, salt, now) == Step(Err(Http(Conflict, MsgEmailExists)), t)
  {
  }

  /** `register` succeeds exactly when all three fields are present and the
      email is free; it then adds exactly one row, under the next id, holding
      the bcrypt digest (cost 10) of the password rather than the password,
      and returns that id, the email, the name and the creation time together
      with a token for that id. */
  lemma RegisterSuccess(t: Table, email: Option<string>, name: Option<string>, password: Option<string>,
                        salt: nat, now: int)
    requires WellFormed(t)
    ensures var s := RegisterStep(t, email, name, password, salt, now);
      s.result.Ok? <==> Truthy(email) && Truthy(name) && Truthy(password) && !EmailTaken(t.rows, email.value)
    ensures var s := RegisterStep(t, email, name, password, salt, now);
      s.result.Ok? ==>
        var id := t.nextId;
        && id !in t.rows
        && s.after.rows.Keys == t.rows.Keys + {id}
        && |s.after.rows| == |t.rows| + 1
        && (forall other :: other in t.rows ==> s.after.rows[other] == t.rows[other])
        && s.after.rows[id] == Row(email.value, name, Hash(password.value, RegisterSaltRounds, salt), None, now, now)
        && s.after.rows[id].password.cost == RegisterSaltRounds
        && Compare(password.value, s.after.rows[id].password)
        && s.result.value.user == NewUser(id, email.value, name, now)
        && s.result.value.token == Sign(id, now)
  {
  }

  // ------------------------------------------------------------------- login

  /** `login` succeeds exactly when the email and password are present and
      some row has that email and a digest of that password; the token's
      subject and the returned user are that row's. A missing email and a
      wrong password give the same 401 "Invalid email or password". */
  lemma LoginOutcome(t: Table, email: Option<string>, password: Option<string>, now: int)
    requires WellFormed(t)
    ensures !Truthy(email) || !Truthy(password) ==>
      LoginStep(t, email, password, now) == Err(Http(BadRequest, MsgLoginRequired))
    ensures Truthy(email) && Truthy(password) && !Authenticates(t, email.value, password.value) ==>
      LoginStep(t, email, password, now) == Err(Http(Unauthorized, MsgInvalidCredentials))
    ensures forall id :: id in t.rows && Truthy(email) && Truthy(password) && t.rows[id].email == email.value
                         && Compare(password.value, t.rows[id].password) ==>
      LoginStep(t, email, password, now) == Ok(LoggedIn(LoginUser(id, email.value, t.rows[id].name), Sign(id, now)))
  {
  }

  /** Enumeration resistance: "no such email" and "wrong password" cannot be
      told apart; both are 401 "Invalid email or password". */
  lemma LoginHidesWhichCheckFailed(t: Table, unknown: string, known: int, wrong: string, password: string, now: int)
    requires WellFormed(t)
    requires unknown != "" && wrong != "" && password != ""
    requires !EmailTaken(t.rows, unknown)
    requires known in t.rows && t.rows[known].email != "" && !Compare(wrong, t.rows[known].password)
    ensures LoginStep(t, Some(unknown), Some(password), now) == LoginStep(t, Some(t.rows[known].email), Some(wrong), now)
    ensures LoginStep(t, Some(unknown), Some(password), now) == Err(Http(Unauthorized, MsgInvalidCredentials))
  {
  }

  /** A freshly registered account can log in with the same credentials at any
      later time, and the token resolves to the new account's id for seven
      days. */
  lemma RegisterThenLogin(t: Table, email: Option<string>, name: Option<string>, password: Option<string>,
                          salt: nat, now: int, later: int)
    requires WellFormed(t)
    requires RegisterStep(t, email, name, password, salt, now).result.Ok?
    ensures var s := RegisterStep(t, email, name, password, salt, now);
      var id := s.result.value.user.id;
      && LoginStep(s.after, email, password, later) == Ok(LoggedIn(LoginUser(id, email.value, name), Sign(id, later)))
      && Verify(LoginStep(s.after, email, password, later).value.token, later) == Some(id)
  {
    var s := RegisterStep(t, email, name, password, salt, now);
    RegisterSuccess(t, email, name, password, salt, now);
    RegisterKeepsWellFormed(t, email, name, password, salt, now);
    FindByEmailUnique(s.after, t.nextId);
  }

  // ----------------------------------------------------------- updateProfile

  /** `updateProfile` keeps the table's constraints. */
  lemma UpdateProfileKeepsWellFormed(t: Table, caller: Option<int>, name: Option<string>, buffer: Option<FileBuffer>,
                                     reply: UploadReply, now: int)
    requires WellFormed(t)
    ensures WellFormed(UpdateProfileStep(t, caller, name, buffer, reply, now).after)
  {
  }

  /** The image host is contacted only when a file was given and its buffer has
      content; a file whose buffer is empty fails with 500 before any upload
      or write. */
  lemma UpdateProfileUploadGuard(t: Table, caller: Option<int>, name: Option<string>, buffer: Option<FileBuffer>,
                                 reply: UploadReply, now: int)
    ensures var s := UpdateProfileStep(t, caller, name, buffer, reply, now);
      s.sent.Some? <==> caller.Some? && buffer.Some? && Truthy(buffer.value.content)
    ensures var s := UpdateProfileStep(t, caller, name, buffer, reply, now);
      caller.Some? && buffer.Some? && !Truthy(buffer.value.content) ==>
        s == ProfileStep(Err(Http(InternalServerError, MsgNoFileBuffer)), t, None)
  {
  }

  /** With neither a truthy name nor a truthy avatar URL after the upload step,
      `updateProfile` fails with 400 "No data to update" and writes nothing. */
  lemma UpdateProfileNoData(t: Table, id: int, name: Option<string>, buffer: Option<FileBuffer>,
                            reply: UploadReply, now: int)
    requires buffer.None? || (Truthy(buffer.value.content) && reply.Uploaded?)
    requires !Truthy(name) && !Truthy(AvatarUrl(buffer, reply))
    ensures var s := UpdateProfileStep(t, Some(id), name, buffer, reply, now);
      s.result == Err(Http(BadRequest, MsgNoData)) && s.after == t
  {
  }

  /** `updateProfile` for an id with no row fails with 404 and writes nothing. */
  lemma UpdateProfileMissingUser(t: Table, id: int, name: Option<string>, buffer: Option<FileBuffer>,
                                 reply: UploadReply, now: int)
    requires id !in t.rows
    requires buffer.None? || (Truthy(buffer.value.content) && reply.Uploaded?)
    requires Truthy(name) || Truthy(AvatarUrl(buffer, reply))
    ensures var s := UpdateProfileStep(t, Some(id), name, buffer, reply, now);
      s.result == Err(Http(NotFound, MsgUserNotFound)) && s.after == t
  {
  }

  /** A successful `updateProfile` changes one row only: its name becomes the
      given name when that is truthy, its avatar the uploaded URL when that is
      truthy, `updated_at` becomes `now`, and email, password, `created_at`
      and every column not named keep their values. It returns that row
      without its password. */
  lemma UpdateProfileSuccess(t: Table, id: int, name: Option<string>, buffer: Option<FileBuffer>,
                             reply: UploadReply, now: int)
    requires WellFormed(t)
    ensures var s := UpdateProfileStep(t, Some(id), name, buffer, reply, now);
      s.result.Ok? <==>
        && (buffer.None? || (Truthy(buffer.value.content) && reply.Uploaded?))
        && (Truthy(name) || Truthy(AvatarUrl(buffer, reply)))
        && id in t.rows
    ensures var s := UpdateProfileStep(t, Some(id), name, buffer, reply, now);
      s.result.Ok? ==>
        var before := t.rows[id];
        var url := AvatarUrl(buffer, reply);
        && s.after.rows.Keys == t.rows.Keys && s.after.nextId == t.nextId
        && (forall other :: other in t.rows && other != id ==> s.after.rows[other] == t.rows[other])
        && s.after.rows[id].email == before.email
        && s.after.rows[id].password == before.password
        && s.after.rows[id].createdAt == before.createdAt
        && s.after.rows[id].updatedAt == now
        && s.after.rows[id].name == (if Truthy(name) then name else before.name)
        && s.after.rows[id].avatar == (if Truthy(url) then url else before.avatar)
        && s.result.value == ProfileOf(id, s.after.rows[id])
  {
  }

  // ---------------------------------------------------------- changePassword

  /** A missing password or a new password shorter than six characters is
      refused with 400 before the table is read: the answer is the same
      whatever the table holds. */
  lemma ChangePasswordValidatesFirst(t1: Table, t2: Table, id: int, current: Option<string>,
                                     newPassword: Option<string>, salt: nat, now: int)
    requires !Truthy(current) || !Truthy(newPassword) || Utf16Length(newPassword.value) < MinPasswordLength
    ensures ChangePasswordStep(t1, Some(id), current, newPassword, salt, now).result
         == ChangePasswordStep(t2, Some(id), current, newPassword, salt, now).result
    ensures var r := ChangePasswordStep(t1, Some(id), current, newPassword, salt, now).result;
      r.Err? && r.failure.Http? && r.failure.status == BadRequest
  {
  }

  /** The length guard counts UTF-16 code units, as JavaScript's `length`
      does: three characters outside the Basic Multilingual Plane have length
      6 and pass it. */
  lemma AstralPasswordPassesLengthGuard(t: Table, id: int, salt: nat, now: int)
    ensures Utf16Length("\U{1D51E}\U{1D51F}\U{1D520}") == 6
    ensures ChangePasswordStep(t, Some(id), Some("secret1"), Some("\U{1D51E}\U{1D51F}\U{1D520}"), salt, now).result
         != Err(Http(BadRequest, MsgPasswordTooShort))
  {
    assert Utf16Length("\U{1D51E}\U{1D51F}\U{1D520}") == 6;
  }

  /** Once the inputs are valid, `changePassword` writes exactly when the
      current password matches the stored digest and the new one does not; it
      then replaces only the password, by its cost-12 digest, and `updated_at`.
      Every failure past validation (no row, wrong current password, reused
      password) comes out as 500 "Internal server error". */
  lemma ChangePasswordOutcome(t: Table, id: int, current: string, newPassword: string, salt: nat, now: int)
    requires WellFormed(t)
    requires current != "" && Utf16Length(newPassword) >= MinPasswordLength
    ensures var s := ChangePasswordStep(t, Some(id), Some(current), Some(newPassword), salt, now);
      s.result.Ok? <==>
        id in t.rows && Compare(current, t.rows[id].password) && !Compare(newPassword, t.rows[id].password)
    ensures var s := ChangePasswordStep(t, Some(id), Some(current), Some(newPassword), salt, now);
      s.result.Err? ==> s.result == Err(Http(InternalServerError, MsgInternal)) && s.after == t
    ensures var s := ChangePasswordStep(t, Some(id), Some(current), Some(newPassword), salt, now);
      s.result.Ok? ==>
        && s.after.rows == t.rows[id := t.rows[id].(password := Hash(newPassword, ChangePasswordSaltRounds, salt), updatedAt := now)]
        && s.after.nextId == t.nextId
        && s.after.rows[id].password.cost == ChangePasswordSaltRounds
        && WellFormed(s.after)
  {
  }

  /** After a successful password change the account logs in with the new
      password and no longer with the old one. */
  lemma ChangePasswordThenLogin(t: Table, id: int, current: string, newPassword: string,
                                salt: nat, now: int, later: int)
    requires WellFormed(t)
    requires id in t.rows && t.rows[id].email != ""
    requires ChangePasswordStep(t, Some(id), Some(current), Some(newPassword), salt, now).result.Ok?
    ensures var s := ChangePasswordStep(t, Some(id), Some(current), Some(newPassword), salt, now);
      var email := t.rows[id].email;
      && LoginStep(s.after, Some(email), Some(newPassword), later).Ok?
      && LoginStep(s.after, Some(email), Some(newPassword), later).value.user.id == id
      && LoginStep(s.after, Some(email), Some(current), later) == Err(Http(Unauthorized, MsgInvalidCredentials))
  {
    var s := ChangePasswordStep(t, Some(id), Some(current), Some(newPassword), salt, now);
    assert current != "" && newPassword != "" && Utf16Length(newPassword) >= MinPasswordLength;
    ChangePasswordOutcome(t, id, current, newPassword, salt, now);
    var email := t.rows[id].email;
    assert s.after.rows[id].email == email;
    FindByEmailUnique(s.after, id);
    assert current != newPassword;
  }

  // ------------------------------------------------------------- walkthrough

  /** The password part of the walkthrough, on a table holding only the
      account `a@x.com` (id 1) whose password is "secret1": reusing it is
      refused, changing it to "secret2" succeeds, and afterwards only the new
      password logs in. */
  lemma PasswordChangeWalkthrough(t: Table, row: Row)
    requires t == Table(map[1 := row], 2)
    requires row.email == "a@x.com" && Compare("secret1", row.password)
    ensures ChangePasswordStep(t, Some(1), Some("secret1"), Some("secret1"), 2, 150)
         == Step(Err(Http(InternalServerError, MsgInternal)), t)
    ensures var changed := ChangePasswordStep(t, Some(1), Some("secret1"), Some("secret2"), 3, 160);
      && changed.result == Ok(PasswordChanged)
      && LoginStep(changed.after, Some("a@x.com"), Some("secret1"), 170) == Err(Http(Unauthorized, MsgInvalidCredentials))
      && LoginStep(changed.after, Some("a@x.com"), Some("secret2"), 180).Ok?
  {
    assert WellFormed(t);
    assert Utf16Length("secret1") >= |"secret1"| == 7 && Utf16Length("secret2") >= |"secret2"| == 7;
    ChangePasswordOutcome(t, 1, "secret1", "secret1", 2, 150);
    ChangePasswordOutcome(t, 1, "secret1", "secret2", 3, 160);
    ChangePasswordThenLogin(t, 1, "secret1", "secret2", 3, 160, 170);
    ChangePasswordThenLogin(t, 1, "secret1", "secret2", 3, 160, 180);
  }

  /** One account's life on an empty table: register, a failed and a
      successful login, a name-only profile update with the token's subject as
      the caller, a refused reuse of the current password (500 "Internal server
      error", as the catch-all in `changePassword` reports it), a password
      change, and a refused login with the old password. */
  lemma AccountWalkthrough()
    ensures
      var email := "a@x.com";
      var registered := RegisterStep(Table(map[], 1), Some(email), Some("Ann"), Some("secret1"), 1, 100);
      var t1 := registered.after;
      && registered.result.Ok? && registered.result.value.user.id == 1
      && LoginStep(t1, Some(email), Some("wrong"), 110) == Err(Http(Unauthorized, MsgInvalidCredentials))
      && LoginStep(t1, Some(email), Some("secret1"), 120).Ok?
      && var caller := Verify(LoginStep(t1, Some(email), Some("secret1"), 120).value.token, 130);
         && caller == Some(1)
         && var updated := UpdateProfileStep(t1, caller, Some("Ann B"), None, UploadThrew, 140);
            var t2 := updated.after;
            && updated.result == Ok(ProfileUser(1, email, Some("Ann B"), None, 100, 140))
            && ChangePasswordStep(t2, caller, Some("secret1"), Some("secret1"), 2, 150)
               == Step(Err(Http(InternalServerError, MsgInternal)), t2)
            && var changed := ChangePasswordStep(t2, caller, Some("secret1"), Some("secret2"), 3, 160);
               && changed.result == Ok(PasswordChanged)
               && LoginStep(changed.after, Some(email), Some("secret1"), 170) == Err(Http(Unauthorized, MsgInvalidCredentials))
               && LoginStep(changed.after, Some(email), Some("secret2"), 180).Ok?
  {
    var email := "a@x.com";
    var t0 := Table(map[], 1);
    assert WellFormed(t0);
    var registered := RegisterStep(t0, Some(email), Some("Ann"), Some("secret1"), 1, 100);
    assert !EmailTaken(t0.rows, email);
    var row1 := Row(email, Some("Ann"), Hash("secret1", RegisterSaltRounds, 1), None, 100, 100);
    assert registered == Step(Ok(Registered(NewUser(1, email, Some("Ann"), 100), Sign(1, 100))), Table(map[1 := row1], 2));
    var t1 := registered.after;
    RegisterThenLogin(t0, Some(email), Some("Ann"), Some("secret1"), 1, 100, 120);
    RegisterKeepsWellFormed(t0, Some(email), Some("Ann"), Some("secret1"), 1, 100);
    LoginOutcome(t1, Some(email), Some("wrong"), 110);
    var updated := UpdateProfileStep(t1, Some(1), Some("Ann B"), None, UploadThrew, 140);
    var row2 := row1.(name := Some("Ann B"), updatedAt := 140);
    assert updated == ProfileStep(Ok(ProfileOf(1, row2)), Table(map[1 := row2], 2), None);
    PasswordChangeWalkthrough(updated.after, row2);
  }
}
