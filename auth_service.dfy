/** The account engine, `AuthService`: each operation is a straight line of
    guards ending in at most one statement on the `users` table, and is proved
    to behave exactly as its step function in AuthSpec says. */
module AuthService {
  import opened Common
  import opened Bcrypt
  import opened Jwt
  import opened UsersTable
  import opened AuthSpec

  /** `register`: validate, refuse a taken email, hash at cost 10, insert,
      issue a token for the new id. */
  method Register(db: Database, email: Option<string>, name: Option<string>, password: Option<string>,
                  salt: nat, now: int) returns (r: Result<Registered>)
    requires db.Valid()
    modifies db
    ensures db.Valid()
    ensures r == RegisterStep(old(db.Value()), email, name, password, salt, now).result
    ensures db.Value() == RegisterStep(old(db.Value()), email, name, password, salt, now).after
  {
    if !Truthy(email) || !Truthy(name) || !Truthy(password) {
      return Err(Http(BadRequest, MsgRegisterRequired));
    }
    var existingUser := SelectByEmail(db.users, email.value);
    if existingUser != {} {
      return Err(Http(Conflict, MsgEmailExists));
    }
    var hashedPassword := Hash(password.value, RegisterSaltRounds, salt);
    var id := db.Insert(Row(email.value, name, hashedPassword, None, now, now));
    var token := Sign(id, now);
    r := Ok(Registered(NewUser(id, email.value, name, now), token));
  }

  /** `login`: look the email up, compare the password, issue a token. It has
      no `modifies` clause: the table is only read. */
  method Login(db: Database, email: Option<string>, password: Option<string>, now: int)
    returns (r: Result<LoggedIn>)
    requires db.Valid()
    ensures r == LoginStep(db.Value(), email, password, now)
  {
    if !Truthy(email) || !Truthy(password) {
      return Err(Http(BadRequest, MsgLoginRequired));
    }
    var user := SelectByEmail(db.users, email.value);
    if user == {} {
      return Err(Http(Unauthorized, MsgInvalidCredentials));
    }
    var id :| id in user;
    FindByEmailUnique(db.Value(), id);
    var row := db.users[id];
    var isMatch := Compare(password.value, row.password);
    if !isMatch {
      return Err(Http(Unauthorized, MsgInvalidCredentials));
    }
    var token := Sign(id, now);
    r := Ok(LoggedIn(LoginUser(id, row.email, row.name), token));
  }

  /** `updateProfile`: upload the file when one is given, refuse a request
      with nothing to write, then run one of three UPDATE statements. Also
      returns the content handed to the image host, if any. */
  method UpdateProfile(db: Database, caller: Option<int>, name: Option<string>, buffer: Option<FileBuffer>,
                       reply: UploadReply, now: int) returns (r: Result<ProfileUser>, sent: Option<string>)
    requires db.Valid()
    modifies db
    ensures db.Valid()
    ensures r == UpdateProfileStep(old(db.Value()), caller, name, buffer, reply, now).result
    ensures sent == UpdateProfileStep(old(db.Value()), caller, name, buffer, reply, now).sent
    ensures db.Value() == UpdateProfileStep(old(db.Value()), caller, name, buffer, reply, now).after
  {
    if caller.None? {
      return Err(Http(Unauthorized, MsgUnauthorized)), None;
    }
    sent := None;
    var avatarUrl: Option<string> := None;
    if buffer.Some? {
      if !Truthy(buffer.value.content) {
        return Err(Http(InternalServerError, MsgNoFileBuffer)), None;
      }
      sent := buffer.value.content;
      match reply
      case UploadThrew =>
        return Err(Thrown), sent;
      case Uploaded(url) =>
        avatarUrl := url;
    }
    if !Truthy(name) && !Truthy(avatarUrl) {
      return Err(Http(BadRequest, MsgNoData)), sent;
    }
    var updatedUsers: Option<Row> := None;
    if Truthy(name) && Truthy(avatarUrl) {
      updatedUsers := db.Update(caller.value, SetNameAndAvatar(name.value, avatarUrl.value), now);
    } else if Truthy(name) && !Truthy(avatarUrl) {
      updatedUsers := db.Update(caller.value, SetName(name.value), now);
    } else if !Truthy(name) && Truthy(avatarUrl) {
      updatedUsers := db.Update(caller.value, SetAvatar(avatarUrl.value), now);
    }
    if updatedUsers.None? {
      return Err(Http(NotFound, MsgUserNotFound)), sent;
    }
    r := Ok(ProfileOf(caller.value, updatedUsers.value));
  }

  /** The `try` block of `changePassword`: re-read the row, check the current
      password, refuse reuse, hash at cost 12, update. */
  method ChangePasswordTry(db: Database, id: int, currentPassword: string, newPassword: string,
                           salt: nat, now: int) returns (r: Result<PasswordChanged>)
    requires db.Valid()
    modifies db
    ensures db.Valid()
    ensures r == ChangePasswordTryStep(old(db.Value()), id, currentPassword, newPassword, salt, now).result
    ensures db.Value() == ChangePasswordTryStep(old(db.Value()), id, currentPassword, newPassword, salt, now).after
  {
    if id !in db.users {
      return Err(Http(NotFound, MsgUserNotFound));
    }
    var currentUser := db.users[id];
    var isCurrentPasswordValid := Compare(currentPassword, currentUser.password);
    if !isCurrentPasswordValid {
      return Err(Http(BadRequest, MsgCurrentIncorrect));
    }
    var isSamePassword := Compare(newPassword, currentUser.password);
    if isSamePassword {
      return Err(Http(BadRequest, MsgSamePassword));
    }
    var hashedNewPassword := Hash(newPassword, ChangePasswordSaltRounds, salt);
    var updatedUser := db.Update(id, SetPassword(hashedNewPassword), now);
    if updatedUser.None? {
      return Err(Http(InternalServerError, MsgUpdateFailed));
    }
    r := Ok(PasswordChanged);
  }

  /** `changePassword`: validate the two passwords, then run the `try` block;
      its `catch` turns every failure into 500 "Internal server error". */
  method ChangePassword(db: Database, caller: Option<int>, currentPassword: Option<string>,
                        newPassword: Option<string>, salt: nat, now: int) returns (r: Result<PasswordChanged>)
    requires db.Valid()
    modifies db
    ensures db.Valid()
    ensures r == ChangePasswordStep(old(db.Value()), caller, currentPassword, newPassword, salt, now).result
    ensures db.Value() == ChangePasswordStep(old(db.Value()), caller, currentPassword, newPassword, salt, now).after
  {
    if caller.None? {
      return Err(Http(Unauthorized, MsgUnauthorized));
    }
    if !Truthy(currentPassword) || !Truthy(newPassword) {
      return Err(Http(BadRequest, MsgPasswordsRequired));
    }
    if Utf16Length(newPassword.value) < MinPasswordLength {
      return Err(Http(BadRequest, MsgPasswordTooShort));
    }
    r := ChangePasswordTry(db, caller.value, currentPassword.value, newPassword.value, salt, now);
    if r.Err? {
      r := Err(Http(InternalServerError, MsgInternal));
    }
  }
}
