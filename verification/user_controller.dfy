/** The decision rules of the user endpoints: sign-up, profile update,
    privilege change and profile visibility. Lookups, `isValidObjectId`,
    `validateEmail` and bcrypt are parameters; the accounts are a map from
    user id to record. */
module UserController {
  import opened Wrappers
  import opened Text
  import opened Json
  import opened Accounts
  import ControllerUtils

  /** `body.f && body.f.trim()`: a falsy field is kept as it is, any other
      is trimmed. */
  function TrimField(f: Option<string>): (r: Option<string>)
    ensures r.None? <==> f.None?
    ensures Present(r) ==> Present(f) && r.value == Trim(f.value)
    ensures Present(f) && Trim(f.value) != "" ==> Present(r)
  {
    if Present(f) then Some(Trim(f.value)) else f
  }

  /** The request body of sign-up and update. */
  datatype Fields = Fields(username: Option<string>, email: Option<string>, password: Option<string>)

  /** The fields after trimming. */
  function Trimmed(req: Fields): Fields {
    Fields(TrimField(req.username), TrimField(req.email), TrimField(req.password))
  }

  const InvalidEmail := Reply(400, "Invalid email address")
  const InvalidPassword := Reply(400, "Invalid password")
  const UsernameTaken := Reply(409, "username already exists")
  const EmailTaken := Reply(409, "email already exists")

  function NotFound(userId: string): Reply {
    Reply(404, "User " + userId + " not found")
  }

  // ---------------------------------------------------------------------
  // createUser

  const FieldsMissing := Reply(400, "username, email and/or password are missing")

  /** The account `createUser` stores. */
  datatype NewAccount = NewAccount(username: string, email: string, passwordHash: string)

  /** All three fields are non-blank after trimming. */
  predicate Filled(req: Fields) {
    Present(Trimmed(req).username) && Present(Trimmed(req).email) && Present(Trimmed(req).password)
  }

  /** The existing account clashes on the username. */
  predicate NameClash(existing: Option<User>, username: string) {
    existing.Some? && existing.value.username == username
  }

  /** The existing account clashes on its primary or its pending email. */
  predicate EmailClash(existing: Option<User>, email: string) {
    existing.Some? && (existing.value.email == email || existing.value.tempEmail == Some(email))
  }

  /** `createUser`: the reply and the account created, if any. `findClash`
      looks up an account by username or by primary or pending email. An
      account is created exactly when all fields are filled, the email and
      password are well formed and the lookup finds no clash. */
  function CreateUser(req: Fields, validEmail: string -> bool, findClash: (string, string) -> Option<User>,
                      hash: string -> string): (r: (Reply, Option<NewAccount>))
    ensures !Filled(req) ==> r == (FieldsMissing, None)
    ensures r.1.Some? <==> r.0.status == 201
    ensures r.1.Some? <==>
      var t := Trimmed(req);
      && Filled(req)
      && validEmail(t.email.value)
      && ControllerUtils.PasswordOk(t.password.value)
      && !NameClash(findClash(t.username.value, t.email.value), t.username.value)
      && !EmailClash(findClash(t.username.value, t.email.value), t.email.value)
    ensures r.1.Some? ==>
      r.1.value == NewAccount(Trim(req.username.value), Trim(req.email.value), hash(Trim(req.password.value)))
  {
    var t := Trimmed(req);
    if !Filled(req) then (FieldsMissing, None)
    else if !validEmail(t.email.value) then (InvalidEmail, None)
    else if !ControllerUtils.PasswordOk(t.password.value) then (InvalidPassword, None)
    else
      var existing := findClash(t.username.value, t.email.value);
      if NameClash(existing, t.username.value) then (UsernameTaken, None)
      else if EmailClash(existing, t.email.value) then (EmailTaken, None)
      else
        (Reply(201, "Created new user " + t.username.value + " successfully"),
         Some(NewAccount(t.username.value, t.email.value, hash(t.password.value))))
  }

  /** A malformed email is reported whatever the password is: the email is
      checked first. */
  lemma EmailCheckedBeforePassword(req: Fields, password: Option<string>, validEmail: string -> bool,
                                   findClash: (string, string) -> Option<User>, hash: string -> string)
    requires Filled(req) && Filled(req.(password := password))
    requires !validEmail(Trim(req.email.value))
    ensures CreateUser(req, validEmail, findClash, hash) == CreateUser(req.(password := password), validEmail, findClash, hash)
    ensures CreateUser(req, validEmail, findClash, hash) == (InvalidEmail, None)
  {
  }

  /** A well-formed request is answered "username already exists" when the
      clashing account has the username, even if the email clashes too; an
      account whose pending email is the requested one is an email clash. */
  lemma ClashOrder(req: Fields, validEmail: string -> bool, findClash: (string, string) -> Option<User>,
                   hash: string -> string)
    requires Filled(req)
    requires validEmail(Trim(req.email.value)) && ControllerUtils.PasswordOk(Trim(req.password.value))
    requires findClash(Trim(req.username.value), Trim(req.email.value)).Some?
    ensures var existing := findClash(Trim(req.username.value), Trim(req.email.value)).value;
      && (existing.username == Trim(req.username.value) ==>
            CreateUser(req, validEmail, findClash, hash) == (UsernameTaken, None))
      && (existing.username != Trim(req.username.value) && existing.tempEmail == Some(Trim(req.email.value)) ==>
            CreateUser(req, validEmail, findClash, hash) == (EmailTaken, None))
  {
  }

  // ---------------------------------------------------------------------
  // updateUser

  const NothingToUpdate := Reply(400, "No field to update: username and email and password are all missing!")
  const InvalidUserId := Reply(400, "Invalid user ID")

  /** At least one field is non-blank after trimming. */
  predicate AnyField(req: Fields) {
    Present(Trimmed(req).username) || Present(Trimmed(req).email) || Present(Trimmed(req).password)
  }

  /** `$set` of the update: a field left undefined is not written. A new
      email goes to `tempEmail` only; the primary email is not a target. */
  function Apply(user: User, username: Option<string>, pending: Option<string>, hashed: Option<string>): (r: User)
    ensures r.email == user.email && r.id == user.id && r.isVerified == user.isVerified
    ensures r.isAdmin == user.isAdmin && r.profileImage == user.profileImage
    ensures r.username == (if username.Some? then username.value else user.username)
    ensures r.tempEmail == (if pending.Some? then pending else user.tempEmail)
    ensures r.passwordHash == (if hashed.Some? then hashed.value else user.passwordHash)
  {
    user.(username := if username.Some? then username.value else user.username,
          tempEmail := if pending.Some? then pending else user.tempEmail,
          passwordHash := if hashed.Some? then hashed.value else user.passwordHash)
  }

  /** The outcome of `updateUser`: the reply, the accounts afterwards and
      the account a verification link goes to. */
  datatype UpdateOutcome = UpdateOutcome(reply: Reply, users: map<string, User>, verify: Option<User>)

  /** Every check of `updateUser` passes: some field is given, the id is
      well formed, a given email and password are well formed, the account
      exists, and when a username or email is given neither lookup finds
      another account. */
  predicate Accepted(req: Fields, userId: string, validId: string -> bool, validEmail: string -> bool,
                     users: map<string, User>, findByUsername: Option<string> -> Option<User>,
                     findByAnyEmail: Option<string> -> Option<User>)
  {
    var t := Trimmed(req);
    && AnyField(req)
    && validId(userId)
    && (Present(t.email) ==> validEmail(t.email.value))
    && (Present(t.password) ==> ControllerUtils.PasswordOk(t.password.value))
    && userId in users
    && (Present(t.username) || Present(t.email) ==>
          !Other(findByUsername(t.username), userId) && !Other(findByAnyEmail(t.email), userId))
  }

  /** `updateUser`. It succeeds exactly when every check passes, and a
      refusal is the first failing check's reply. The email is written as
      the pending `tempEmail`, and not at all when it equals the current
      primary email; a verification link is sent exactly when a non-blank
      pending email is written. */
  function UpdateUser(req: Fields, userId: string, validId: string -> bool, validEmail: string -> bool,
                      users: map<string, User>, findByUsername: Option<string> -> Option<User>,
                      findByAnyEmail: Option<string> -> Option<User>, hash: string -> string): (r: UpdateOutcome)
    ensures r.reply.status == 200 <==> Accepted(req, userId, validId, validEmail, users, findByUsername, findByAnyEmail)
    ensures r.reply.status != 200 ==>
      && Refusal(req, userId, validId, validEmail, users, findByUsername, findByAnyEmail) == Some(r.reply)
      && r.users == users && r.verify.None?
    ensures r.users.Keys == users.Keys
    ensures forall id | id in users && id != userId :: r.users[id] == users[id]
    ensures r.reply.status == 200 ==>
      && userId in users
      && r.users[userId] == Apply(users[userId], Trimmed(req).username,
                                  if Trimmed(req).email == Some(users[userId].email) then None else Trimmed(req).email,
                                  ControllerUtils.HashPassword(Trimmed(req).password, hash))
    ensures r.reply.status == 200 ==> r.users[userId].email == users[userId].email
    ensures r.verify.Some? <==>
      r.reply.status == 200 && Present(Trimmed(req).email) && Trimmed(req).email.value != users[userId].email
    ensures r.verify.Some? ==> r.verify.value == r.users[userId] && r.verify.value.tempEmail == Trimmed(req).email
  {
    match Refusal(req, userId, validId, validEmail, users, findByUsername, findByAnyEmail)
    case Some(reply) => UpdateOutcome(reply, users, None)
    case None => Commit(req, userId, users, hash)
  }

  /** The first check of `updateUser` that fails, if any, in the source's
      order: no field, the id, the email, the password, the account, the
      username clash, the email clash. */
  function Refusal(req: Fields, userId: string, validId: string -> bool, validEmail: string -> bool,
                   users: map<string, User>, findByUsername: Option<string> -> Option<User>,
                   findByAnyEmail: Option<string> -> Option<User>): (r: Option<Reply>)
    ensures r.None? <==> Accepted(req, userId, validId, validEmail, users, findByUsername, findByAnyEmail)
    ensures r.Some? ==> r.value.status != 200
    ensures var t := Trimmed(req);
      && (!AnyField(req) ==> r == Some(NothingToUpdate))
      && (AnyField(req) && !validId(userId) ==> r == Some(InvalidUserId))
      && (AnyField(req) && validId(userId) && Present(t.email) && !validEmail(t.email.value) ==>
            r == Some(InvalidEmail))
      && (AnyField(req) && validId(userId) && (Present(t.email) ==> validEmail(t.email.value))
          && Present(t.password) && !ControllerUtils.PasswordOk(t.password.value) ==>
            r == Some(InvalidPassword))
    ensures var t := Trimmed(req);
      AnyField(req) && validId(userId) && (Present(t.email) ==> validEmail(t.email.value))
      && (Present(t.password) ==> ControllerUtils.PasswordOk(t.password.value)) ==>
        && (userId !in users ==> r == Some(NotFound(userId)))
        && (userId in users && (Present(t.username) || Present(t.email)) ==>
              && (Other(findByUsername(t.username), userId) ==> r == Some(UsernameTaken))
              && (!Other(findByUsername(t.username), userId) && Other(findByAnyEmail(t.email), userId) ==>
                    r == Some(EmailTaken)))
  {
    var t := Trimmed(req);
    if !AnyField(req) then Some(NothingToUpdate)
    else if !validId(userId) then Some(InvalidUserId)
    else if Present(t.email) && !validEmail(t.email.value) then Some(InvalidEmail)
    else if Present(t.password) && !ControllerUtils.PasswordOk(t.password.value) then Some(InvalidPassword)
    else if userId !in users then Some(NotFound(userId))
    else if (Present(t.username) || Present(t.email)) && Other(findByUsername(t.username), userId) then Some(UsernameTaken)
    else if (Present(t.username) || Present(t.email)) && Other(findByAnyEmail(t.email), userId) then Some(EmailTaken)
    else None
  }

  /** The write of a checked update, and the verification link it sends. */
  function Commit(req: Fields, userId: string, users: map<string, User>, hash: string -> string): (r: UpdateOutcome)
    requires userId in users
    ensures r.reply.status == 200
    ensures r.users.Keys == users.Keys
    ensures forall id | id in users && id != userId :: r.users[id] == users[id]
    ensures r.users[userId] == Apply(users[userId], Trimmed(req).username,
                                     if Trimmed(req).email == Some(users[userId].email) then None else Trimmed(req).email,
                                     ControllerUtils.HashPassword(Trimmed(req).password, hash))
    ensures r.verify.Some? <==> Present(Trimmed(req).email) && Trimmed(req).email.value != users[userId].email
    ensures r.verify.Some? ==> r.verify.value == r.users[userId]
  {
    var t := Trimmed(req);
    var user := users[userId];
    var hashed := ControllerUtils.HashPassword(t.password, hash);
    var pending := if t.email == Some(user.email) then None else t.email;
    var updated := Apply(user, t.username, pending, hashed);
    UpdateOutcome(Reply(200, "Updated data for user " + userId), users[userId := updated],
                  if Present(pending) then Some(updated) else None)
  }

  /** The lookup found an account other than the one being updated. */
  predicate Other(found: Option<User>, userId: string) {
    found.Some? && found.value.id != userId
  }

  /** Updating to the current primary email writes no pending email and
      sends no verification link. */
  lemma SameEmailSendsNothing(req: Fields, userId: string, validId: string -> bool, validEmail: string -> bool,
                              users: map<string, User>, findByUsername: Option<string> -> Option<User>,
                              findByAnyEmail: Option<string> -> Option<User>, hash: string -> string)
    requires userId in users && Trimmed(req).email == Some(users[userId].email)
    ensures var r := UpdateUser(req, userId, validId, validEmail, users, findByUsername, findByAnyEmail, hash);
      r.verify.None? && r.users[userId].tempEmail == users[userId].tempEmail
  {
  }

  /** A successful update with a new, non-blank email leaves it pending:
      the primary email stays and a verification link goes out. */
  lemma NewEmailIsPending(req: Fields, userId: string, validId: string -> bool, validEmail: string -> bool,
                          users: map<string, User>, findByUsername: Option<string> -> Option<User>,
                          findByAnyEmail: Option<string> -> Option<User>, hash: string -> string)
    requires var r := UpdateUser(req, userId, validId, validEmail, users, findByUsername, findByAnyEmail, hash);
      r.reply.status == 200
    requires Present(Trimmed(req).email) && Trimmed(req).email.value != users[userId].email
    ensures var r := UpdateUser(req, userId, validId, validEmail, users, findByUsername, findByAnyEmail, hash);
      && r.users[userId].email == users[userId].email
      && r.users[userId].tempEmail == Some(Trim(req.email.value))
      && r.verify == Some(r.users[userId])
  {
  }

  /** A password field of blanks trims to the empty string, which is
      falsy: it is not checked, so it adds no refusal to a request that
      would otherwise be accepted, and `hashPassword` hands it back as it
      is. Since only undefined fields are left out of the update, the
      stored hash becomes empty. */
  lemma BlankPasswordClearsHash(req: Fields, userId: string, validId: string -> bool, validEmail: string -> bool,
                                users: map<string, User>, findByUsername: Option<string> -> Option<User>,
                                findByAnyEmail: Option<string> -> Option<User>, hash: string -> string)
    requires req.password.Some? && req.password.value != "" && Trim(req.password.value) == ""
    requires Accepted(req.(password := None), userId, validId, validEmail, users, findByUsername, findByAnyEmail)
    ensures var r := UpdateUser(req, userId, validId, validEmail, users, findByUsername, findByAnyEmail, hash);
      r.reply.status == 200 && r.users[userId].passwordHash == ""
  {
  }

  // ---------------------------------------------------------------------
  // updateUserPrivilege

  const PrivilegeMissing := Reply(400, "isAdmin is missing!")

  /** `updateUserPrivilege`: any `isAdmin` value is accepted, and the
      account becomes an administrator exactly when it is boolean true. */
  function UpdateUserPrivilege(isAdmin: Option<Value>, userId: string, validId: string -> bool,
                               users: map<string, User>): (r: (Reply, map<string, User>))
    ensures isAdmin.None? ==> r == (PrivilegeMissing, users)
    ensures r.0.status == 200 <==> isAdmin.Some? && validId(userId) && userId in users
    ensures r.0.status != 200 ==> r.1 == users
    ensures r.0.status == 200 ==>
      r.1 == users[userId := users[userId].(isAdmin := isAdmin == Some(Bool(true)))]
    ensures isAdmin.Some? && r.0.status != 200 ==> r.0 == NotFound(userId)
  {
    if isAdmin.None? then (PrivilegeMissing, users)
    else if !validId(userId) || userId !in users then (NotFound(userId), users)
    else (Reply(200, "Updated privilege for user " + userId),
          users[userId := users[userId].(isAdmin := isAdmin.value == Bool(true))])
  }

  /** Any accepted value other than boolean true demotes, including the
      string "true". */
  lemma OnlyTrueGrants(isAdmin: Value, userId: string, validId: string -> bool, users: map<string, User>)
    requires validId(userId) && userId in users
    ensures UpdateUserPrivilege(Some(isAdmin), userId, validId, users).1[userId].isAdmin <==> isAdmin == Bool(true)
    ensures !UpdateUserPrivilege(Some(Str("true")), userId, validId, users).1[userId].isAdmin
  {
  }

  // ---------------------------------------------------------------------
  // getUserById / getUserByUsername

  /** The authenticated caller. */
  datatype Requester = Requester(id: string, username: string, isAdmin: bool)

  /** The `data` of a profile reply: `formatFullUserResponse` or
      `formatPartialUserResponse`, field by field. Neither carries the
      password hash or the pending email. */
  datatype Profile =
    | FullProfile(id: string, username: string, email: string, profileImage: string,
                  history: seq<string>, isAdmin: bool, isVerified: bool, createdAt: nat)
    | PartialProfile(username: string, profileImage: string, createdAt: nat)

  /** Where profile images live: the default image's name and the signer of
      read URLs. */
  datatype ImageStore = ImageStore(defaultImage: string, sign: string -> string)

  /** The profile shown: the full one when `full` holds, else the public
      part (username, image URL and creation time). */
  function Show(user: User, full: bool, store: ImageStore): (p: Profile)
    ensures p.FullProfile? <==> full
    ensures p.username == user.username && p.createdAt == user.createdAt
    ensures p.profileImage == ControllerUtils.ImageSignedUrl(user, store.defaultImage, store.sign)
    ensures p.FullProfile? ==>
      && p.id == user.id && p.email == user.email && p.history == user.history
      && p.isAdmin == user.isAdmin && p.isVerified == user.isVerified
  {
    var url := ControllerUtils.ImageSignedUrl(user, store.defaultImage, store.sign);
    if full then FullProfile(user.id, user.username, user.email, url, user.history, user.isAdmin, user.isVerified, user.createdAt)
    else PartialProfile(user.username, url, user.createdAt)
  }

  /** No profile depends on the password hash or the pending email: two
      accounts that differ only there are shown alike. */
  lemma ProfileHidesSecrets(user: User, passwordHash: string, tempEmail: Option<string>, full: bool, store: ImageStore)
    ensures Show(user, full, store) == Show(user.(passwordHash := passwordHash, tempEmail := tempEmail), full, store)
  {
  }

  /** `getUserById`: the reply and the profile shown. */
  function GetUserById(requester: Requester, userId: string, validId: string -> bool,
                       users: map<string, User>, store: ImageStore): (r: (Reply, Option<Profile>))
    ensures r.1.Some? <==> validId(userId) && userId in users
    ensures r.1.None? ==> r.0 == NotFound(userId)
    ensures r.1.Some? ==> r.0.status == 200 && r.1.value == Show(users[userId], requester.isAdmin || requester.id == userId, store)
  {
    if !validId(userId) || userId !in users then (NotFound(userId), None)
    else (Reply(200, "Found user"), Some(Show(users[userId], requester.isAdmin || requester.id == userId, store)))
  }

  /** `getUserByUsername`: the reply and the profile shown. */
  function GetUserByUsername(requester: Requester, username: string,
                             findByUsername: string -> Option<User>, store: ImageStore): (r: (Reply, Option<Profile>))
    ensures r.1.Some? <==> findByUsername(username).Some?
    ensures r.1.None? ==> r.0 == NotFound(username)
    ensures r.1.Some? ==>
      r.0.status == 200 && r.1.value == Show(findByUsername(username).value, requester.isAdmin || requester.username == username, store)
  {
    match findByUsername(username)
    case None => (NotFound(username), None)
    case Some(user) => (Reply(200, "Found user"), Some(Show(user, requester.isAdmin || requester.username == username, store)))
  }

  /** Another, non-administrator caller cannot tell two accounts apart
      unless their username, image URL or creation time differ: email,
      pending email, password hash, history and flags stay hidden. */
  lemma StrangerSeesOnlyPublicPart(requester: Requester, userId: string, validId: string -> bool,
                                   users1: map<string, User>, users2: map<string, User>, store: ImageStore)
    requires !requester.isAdmin && requester.id != userId
    requires validId(userId) && userId in users1 && userId in users2
    ensures var u1, u2 := users1[userId], users2[userId];
      GetUserById(requester, userId, validId, users1, store) == GetUserById(requester, userId, validId, users2, store)
      <==>
      && u1.username == u2.username && u1.createdAt == u2.createdAt
      && ControllerUtils.ImageSignedUrl(u1, store.defaultImage, store.sign)
         == ControllerUtils.ImageSignedUrl(u2, store.defaultImage, store.sign)
  {
  }
}
