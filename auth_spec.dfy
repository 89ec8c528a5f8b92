/** What each operation of the account engine does, as a function of the
    table before it, its inputs, the salt bcrypt would draw and the time
    `NOW()` would read. The methods in AuthService are proved to behave
    exactly like these functions. */
module AuthSpec {
  import opened Common
  import opened Bcrypt
  import opened Jwt
  import opened UsersTable

  // HTTP statuses the engine raises.
  const BadRequest := 400
  const Unauthorized := 401
  const NotFound := 404
  const Conflict := 409
  const InternalServerError := 500

  /** bcrypt cost factors: registration and password change. */
  const RegisterSaltRounds: nat := 10
  const ChangePasswordSaltRounds: nat := 12

  const MinPasswordLength := 6

  const MsgRegisterRequired := "Email, name, and password are required"
  const MsgEmailExists := "Email already exists"
  const MsgLoginRequired := "Email and password are required"
  const MsgInvalidCredentials := "Invalid email or password"
  const MsgUnauthorized := "Unauthorized"
  const MsgNoFileBuffer := "Failed to generate file buffer"
  const MsgNoData := "No data to update"
  const MsgUserNotFound := "User not found"
  const MsgPasswordsRequired := "Current password and new password are required"
  const MsgPasswordTooShort := "New password must be at least 6 characters long"
  const MsgCurrentIncorrect := "Current password is incorrect"
  const MsgSamePassword := "New password must be different from current password"
  const MsgUpdateFailed := "Failed to update password"
  const MsgInternal := "Internal server error"

  /** Why an operation failed: an `HttpException` the engine throws, or an
      exception thrown by a collaborator (the image host) that the engine lets
      through, whose status the engine does not set. */
  datatype Failure = Http(status: int, message: string) | Thrown

  datatype Result<T> = Ok(value: T) | Err(failure: Failure)

  /** What `register` returns: `RETURNING id, email, name, created_at`. */
  datatype NewUser = NewUser(id: int, email: string, name: Option<string>, createdAt: int)
  datatype Registered = Registered(user: NewUser, token: Token)

  /** What `login` returns: id, email and name. */
  datatype LoginUser = LoginUser(id: int, email: string, name: Option<string>)
  datatype LoggedIn = LoggedIn(user: LoginUser, token: Token)

  /** What `updateProfile` returns: `RETURNING id, email, name, avatar,
      created_at, updated_at`. None of the three views has a password column. */
  datatype ProfileUser = ProfileUser(
    id: int, email: string, name: Option<string>, avatar: Option<string>,
    createdAt: int, updatedAt: int)

  /** `changePassword`'s acknowledgement: no account, no token. */
  datatype PasswordChanged = PasswordChanged

  /** What `getBuffer(file)` yields for an uploaded file: its data URI. */
  datatype FileBuffer = FileBuffer(content: Option<string>)

  /** What the image host answers to an upload: a response carrying
      `secure_url`, or an exception. */
  datatype UploadReply = Uploaded(secureUrl: Option<string>) | UploadThrew

  /** An operation's result and the table after it. */
  datatype Step<T> = Step(result: Result<T>, after: Table)

  /** `updateProfile`'s result, the table after it, and the content handed
      to the image host, if any. */
  datatype ProfileStep = ProfileStep(result: Result<ProfileUser>, after: Table, sent: Option<string>)

  /** The account `email` with password `password` exists. */
  ghost predicate Authenticates(t: Table, email: string, password: string)
  {
    exists id :: id in t.rows && t.rows[id].email == email && Compare(password, t.rows[id].password)
  }

  /** The `RETURNING id, email, name, avatar, created_at, updated_at` view of
      a row: everything but the password, so putting the password back gives
      the row. */
  function ProfileOf(id: int, row: Row): (p: ProfileUser)
    ensures p.id == id
    ensures Row(p.email, p.name, row.password, p.avatar, p.createdAt, p.updatedAt) == row
  {
    ProfileUser(id, row.email, row.name, row.avatar, row.createdAt, row.updatedAt)
  }

  /** `register`. */
  function RegisterStep(t: Table, email: Option<string>, name: Option<string>, password: Option<string>,
                        salt: nat, now: int): (s: Step<Registered>)
    ensures s.result.Err? ==> s.after == t
    ensures s.result.Ok? ==> s.result.value.token.subject == s.result.value.user.id == t.nextId
  {
    if !Truthy(email) || !Truthy(name) || !Truthy(password) then
      Step(Err(Http(BadRequest, MsgRegisterRequired)), t)
    else if EmailTaken(t.rows, email.value) then
      Step(Err(Http(Conflict, MsgEmailExists)), t)
    else
      var id := t.nextId;
      var row := Row(email.value, name, Hash(password.value, RegisterSaltRounds, salt), None, now, now);
      Step(Ok(Registered(NewUser(id, email.value, name, now), Sign(id, now))), InsertRow(t, row))
  }

  /** `login`; it reads the table and never writes it. */
  ghost function LoginStep(t: Table, email: Option<string>, password: Option<string>, now: int): (r: Result<LoggedIn>)
    ensures r.Err? && r.failure.Http? && r.failure.status == Unauthorized ==> r.failure.message == MsgInvalidCredentials
    ensures r.Ok? ==> Truthy(email) && Truthy(password) && Authenticates(t, email.value, password.value)
    ensures r.Ok? ==> r.value.token.subject == r.value.user.id && r.value.user.id in t.rows
    ensures r.Ok? ==>
              (var id := r.value.user.id;
               && id in t.rows
               && t.rows[id].email == email.value
               && Compare(password.value, t.rows[id].password)
               && r.value == LoggedIn(LoginUser(id, t.rows[id].email, t.rows[id].name), Sign(id, now)))
  {
    if !Truthy(email) || !Truthy(password) then
      Err(Http(BadRequest, MsgLoginRequired))
    else
      match FindByEmail(t.rows, email.value)
      case None => Err(Http(Unauthorized, MsgInvalidCredentials))
      case Some(id) =>
        var row := t.rows[id];
        if !Compare(password.value, row.password) then
          Err(Http(Unauthorized, MsgInvalidCredentials))
        else
          Ok(LoggedIn(LoginUser(id, row.email, row.name), Sign(id, now)))
  }

  /** The avatar URL `updateProfile` holds after its upload step: the host's
      `secure_url` when a file was given, `null` otherwise. */
  function AvatarUrl(buffer: Option<FileBuffer>, reply: UploadReply): (url: Option<string>)
    ensures buffer.None? ==> url.None?
    ensures url.Some? ==> buffer.Some? && reply == Uploaded(url)
    ensures buffer.Some? && reply.Uploaded? ==> url == reply.secureUrl
  {
    if buffer.Some? && reply.Uploaded? then reply.secureUrl else None
  }

  /** The three-way choice of UPDATE statement in `updateProfile`: the SET
      clause names `name` exactly when the name is truthy and `avatar` exactly
      when the URL is truthy, each with that value. */
  function ProfileChange(name: Option<string>, avatarUrl: Option<string>): (c: Change)
    requires Truthy(name) || Truthy(avatarUrl)
    ensures !c.SetPassword?
    ensures (c.SetNameAndAvatar? || c.SetName?) <==> Truthy(name)
    ensures (c.SetNameAndAvatar? || c.SetAvatar?) <==> Truthy(avatarUrl)
    ensures (c.SetNameAndAvatar? || c.SetName?) ==> name == Some(c.name)
    ensures (c.SetNameAndAvatar? || c.SetAvatar?) ==> avatarUrl == Some(c.avatar)
  {
    if Truthy(name) && Truthy(avatarUrl) then SetNameAndAvatar(name.value, avatarUrl.value)
    else if Truthy(name) then SetName(name.value)
    else SetAvatar(avatarUrl.value)
  }

  /** `updateProfile` for the authenticated account `caller` (`None` when the
      request carries none). */
  function UpdateProfileStep(t: Table, caller: Option<int>, name: Option<string>, buffer: Option<FileBuffer>,
                             reply: UploadReply, now: int): (s: ProfileStep)
    ensures s.result.Err? ==> s.after == t
    ensures s.sent.Some? ==> buffer.Some? && s.sent == buffer.value.content
  {
    if caller.None? then
      ProfileStep(Err(Http(Unauthorized, MsgUnauthorized)), t, None)
    else if buffer.Some? && !Truthy(buffer.value.content) then
      ProfileStep(Err(Http(InternalServerError, MsgNoFileBuffer)), t, None)
    else
      var sent := if buffer.Some? then buffer.value.content else None;
      if buffer.Some? && reply.UploadThrew? then
        ProfileStep(Err(Thrown), t, sent)
      else
        var avatarUrl := AvatarUrl(buffer, reply);
        if !Truthy(name) && !Truthy(avatarUrl) then
          ProfileStep(Err(Http(BadRequest, MsgNoData)), t, sent)
        else
          var id := caller.value;
          var change := ProfileChange(name, avatarUrl);
          if id !in t.rows then
            ProfileStep(Err(Http(NotFound, MsgUserNotFound)), t, sent)
          else
            ProfileStep(Ok(ProfileOf(id, Apply(t.rows[id], change, now))), UpdateRow(t, id, change, now), sent)
  }

  /** The body of `changePassword`'s `try` block, before its `catch` rewrites
      the failure. */
  function ChangePasswordTryStep(t: Table, id: int, current: string, newPassword: string,
                                 salt: nat, now: int): (s: Step<PasswordChanged>)
    ensures s.result.Err? ==> s.after == t
    ensures s.result.Ok? ==> id in t.rows && Compare(current, t.rows[id].password)
  {
    if id !in t.rows then
      Step(Err(Http(NotFound, MsgUserNotFound)), t)
    else
      var stored := t.rows[id].password;
      if !Compare(current, stored) then
        Step(Err(Http(BadRequest, MsgCurrentIncorrect)), t)
      else if Compare(newPassword, stored) then
        Step(Err(Http(BadRequest, MsgSamePassword)), t)
      else
        Step(Ok(PasswordChanged), UpdateRow(t, id, SetPassword(Hash(newPassword, ChangePasswordSaltRounds, salt)), now))
  }

  /** The `catch` of `changePassword`: whatever was thrown inside the `try`
      becomes 500 "Internal server error"; success and the table pass through. */
  function CatchAll<T>(s: Step<T>): (r: Step<T>)
    ensures r.after == s.after
    ensures r.result.Ok? <==> s.result.Ok?
    ensures r.result.Ok? ==> r.result == s.result
    ensures r.result.Err? ==> r.result.failure == Http(InternalServerError, MsgInternal)
  {
    if s.result.Err? then Step(Err(Http(InternalServerError, MsgInternal)), s.after) else s
  }

  /** `changePassword` for the authenticated account `caller`. */
  function ChangePasswordStep(t: Table, caller: Option<int>, current: Option<string>, newPassword: Option<string>,
                              salt: nat, now: int): (s: Step<PasswordChanged>)
    ensures s.result.Err? ==> s.after == t
  {
    if caller.None? then
      Step(Err(Http(Unauthorized, MsgUnauthorized)), t)
    else if !Truthy(current) || !Truthy(newPassword) then
      Step(Err(Http(BadRequest, MsgPasswordsRequired)), t)
    else if Utf16Length(newPassword.value) < MinPasswordLength then
      Step(Err(Http(BadRequest, MsgPasswordTooShort)), t)
    else
      CatchAll(ChangePasswordTryStep(t, caller.value, current.value, newPassword.value, salt, now))
  }
}
