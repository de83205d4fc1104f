/** The authentication endpoints: login, email verification and resending
    the verification link. Account lookups, bcrypt and JWT decoding are
    parameters; the accounts are a map from user id to record. */
module AuthController {
  import opened Wrappers
  import opened Accounts

  // ---------------------------------------------------------------------
  // handleLogin

  /** The login request body; `None` is a field left undefined. */
  datatype LoginRequest = LoginRequest(username: Option<string>, email: Option<string>, password: Option<string>)

  /** A refused login, or a login that issues an access token for the user. */
  datatype LoginResult = Refused(reply: Reply) | LoggedIn(userId: string)

  const MissingCredentials := Reply(400, "Missing username/email or password")
  const OnlyOneIdentifier := Reply(400, "Use only one of username or email")
  const WrongCredentials := Reply(401, "Wrong username/email or password")
  const NotVerified := Reply(401, "Account is not yet verified. Please check your email for verification link.")

  /** The request passes the checks made before any lookup. */
  predicate WellFormedLogin(req: LoginRequest) {
    && Present(req.password)
    && (Present(req.username) || Present(req.email))
    && !(Present(req.username) && Present(req.email))
  }

  /** `handleLogin`. `find` is the lookup by username or email, `matches`
      the bcrypt comparison of a password with a stored hash. A token is
      issued only to an existing, verified user whose password matches. */
  function Login(req: LoginRequest, find: (Option<string>, Option<string>) -> Option<User>,
                 matches: (string, string) -> bool): (r: LoginResult)
    ensures !Present(req.password) || !(Present(req.username) || Present(req.email)) ==> r == Refused(MissingCredentials)
    ensures Present(req.password) && Present(req.username) && Present(req.email) ==> r == Refused(OnlyOneIdentifier)
    ensures r.LoggedIn? <==>
      && WellFormedLogin(req)
      && find(req.username, req.email).Some?
      && matches(req.password.value, find(req.username, req.email).value.passwordHash)
      && find(req.username, req.email).value.isVerified
    ensures r.LoggedIn? ==> r.userId == find(req.username, req.email).value.id
  {
    if !Present(req.password) || !(Present(req.username) || Present(req.email)) then Refused(MissingCredentials)
    else if Present(req.username) && Present(req.email) then Refused(OnlyOneIdentifier)
    else
      match find(req.username, req.email)
      case None => Refused(WrongCredentials)
      case Some(user) =>
        if !matches(req.password.value, user.passwordHash) then Refused(WrongCredentials)
        else if !user.isVerified then Refused(NotVerified)
        else LoggedIn(user.id)
  }

  /** `handleLogin` as its import list reads. `formatFullUserResponse` is
      imported from the user controller, which imports that name from the
      controller utilities but does not export it. Where the module loads
      at all, the name is undefined, so the success reply's call throws and
      the `catch` answers 500 with the error's message, `thrown`. Every
      other outcome is the intended one. */
  function LoginAsWritten(req: LoginRequest, find: (Option<string>, Option<string>) -> Option<User>,
                          matches: (string, string) -> bool, thrown: string): (r: LoginResult)
    ensures !r.LoggedIn?
    ensures Login(req, find, matches).Refused? ==> r == Login(req, find, matches)
  {
    match Login(req, find, matches)
    case Refused(reply) => Refused(reply)
    case LoggedIn(_) => Refused(Reply(500, thrown))
  }

  /** The discrepancy: an existing, verified user with the right password,
      whom the intended handler logs in, gets a 500 from the handler as
      written. */
  lemma LoginAsWrittenFailsGoodCredentials(req: LoginRequest, find: (Option<string>, Option<string>) -> Option<User>,
                                          matches: (string, string) -> bool, thrown: string)
    requires WellFormedLogin(req)
    requires find(req.username, req.email).Some?
    requires matches(req.password.value, find(req.username, req.email).value.passwordHash)
    requires find(req.username, req.email).value.isVerified
    ensures Login(req, find, matches).LoggedIn?
    ensures LoginAsWritten(req, find, matches, thrown) == Refused(Reply(500, thrown))
  {
  }

  /** A malformed request is refused the same way whatever the accounts
      and passwords are: the checks come before any lookup. */
  lemma MalformedLoginIgnoresAccounts(req: LoginRequest,
                                      find1: (Option<string>, Option<string>) -> Option<User>, matches1: (string, string) -> bool,
                                      find2: (Option<string>, Option<string>) -> Option<User>, matches2: (string, string) -> bool)
    requires !WellFormedLogin(req)
    ensures Login(req, find1, matches1) == Login(req, find2, matches2)
    ensures Login(req, find1, matches1).Refused? && Login(req, find1, matches1).reply.status == 400
  {
  }

  /** An unknown user and a wrong password get the identical reply, so the
      reply does not reveal whether the account exists. */
  lemma UnknownUserLooksLikeWrongPassword(req: LoginRequest,
                                          find1: (Option<string>, Option<string>) -> Option<User>, matches1: (string, string) -> bool,
                                          find2: (Option<string>, Option<string>) -> Option<User>, matches2: (string, string) -> bool)
    requires WellFormedLogin(req)
    requires find1(req.username, req.email).None?
    requires find2(req.username, req.email).Some?
    requires !matches2(req.password.value, find2(req.username, req.email).value.passwordHash)
    ensures Login(req, find1, matches1) == Login(req, find2, matches2) == Refused(WrongCredentials)
  {
  }

  /** Correct credentials on an unverified account are refused with 401 and
      no token. */
  lemma UnverifiedRefused(req: LoginRequest, find: (Option<string>, Option<string>) -> Option<User>,
                          matches: (string, string) -> bool)
    requires WellFormedLogin(req)
    requires find(req.username, req.email).Some?
    requires matches(req.password.value, find(req.username, req.email).value.passwordHash)
    requires !find(req.username, req.email).value.isVerified
    ensures Login(req, find, matches) == Refused(NotVerified)
  {
  }

  // ---------------------------------------------------------------------
  // handleVerifyEmailToken

  /** What `jwt.verify` makes of a token: expired, otherwise rejected, or
      its claims. */
  datatype Decoded = Expired | Rejected | Claims(id: string, email: string)

  const TokenMissing := Reply(400, "'token' field missing")
  const TokenExpired := Reply(401, "Expired token")
  const TokenInvalid := Reply(403, "Invalid token")
  const NoSuchUser := Reply(404, "User does not exist")
  const Verified := Reply(200, "Successfully verified.")

  /** `handleVerifyEmailToken`: the reply and the accounts afterwards. A new
      account is marked verified; a verified account whose token names its
      pending address gets that address as its email and the pending one
      cleared; a token naming neither address is refused. */
  function VerifyEmailToken(token: Option<string>, decode: string -> Decoded, users: map<string, User>): (r: (Reply, map<string, User>))
    ensures r.0 != Verified ==> r.1 == users
    ensures r.1.Keys == users.Keys
    ensures forall id | id in users && id != DecodedId(token, decode) :: r.1[id] == users[id]
    ensures !Present(token) ==> r.0 == TokenMissing
    ensures Present(token) && decode(token.value).Expired? ==> r.0 == TokenExpired
    ensures Present(token) && decode(token.value).Rejected? ==> r.0 == TokenInvalid
    ensures Present(token) && decode(token.value).Claims? ==>
      var c := decode(token.value);
      && (c.id !in users ==> r.0 == NoSuchUser)
      && (c.id in users && !users[c.id].isVerified ==>
            r == (Verified, users[c.id := users[c.id].(isVerified := true)]))
      && (c.id in users && users[c.id].isVerified && c.email != users[c.id].email ==>
            if Present(users[c.id].tempEmail) && c.email == users[c.id].tempEmail.value
            then r == (Verified, users[c.id := users[c.id].(email := c.email, tempEmail := None)])
            else r == (TokenInvalid, users))
      && (c.id in users && users[c.id].isVerified && c.email == users[c.id].email ==> r == (Verified, users))
  {
    if !Present(token) then (TokenMissing, users)
    else
      match decode(token.value)
      case Expired => (TokenExpired, users)
      case Rejected => (TokenInvalid, users)
      case Claims(id, email) =>
        if id !in users then (NoSuchUser, users)
        else
          var user := users[id];
          if !user.isVerified then (Verified, users[id := user.(isVerified := true)])
          else if email != user.email then
            if !Present(user.tempEmail) || email != user.tempEmail.value then (TokenInvalid, users)
            else (Verified, users[id := user.(email := user.tempEmail.value, tempEmail := None)])
          else (Verified, users)
  }

  /** The account a token's claims name, if it carries claims. */
  function DecodedId(token: Option<string>, decode: string -> Decoded): string {
    if Present(token) && decode(token.value).Claims? then decode(token.value).id else ""
  }

  /** Once a token has promoted the pending address, replaying the same
      token succeeds and changes nothing. */
  lemma PromotionReplayIsNoOp(token: Option<string>, decode: string -> Decoded, users: map<string, User>)
    requires Present(token) && decode(token.value).Claims?
    requires var c := decode(token.value);
      c.id in users && users[c.id].isVerified && c.email != users[c.id].email
      && users[c.id].tempEmail == Some(c.email) && c.email != ""
    ensures var after := VerifyEmailToken(token, decode, users).1;
      VerifyEmailToken(token, decode, after) == (Verified, after)
  {
  }

  /** Replaying any token that succeeded changes nothing more, provided the
      account's email is then the one the token names. */
  lemma VerifiedReplayIsNoOp(token: Option<string>, decode: string -> Decoded, users: map<string, User>)
    requires VerifyEmailToken(token, decode, users).0 == Verified
    requires var c := decode(token.value); VerifyEmailToken(token, decode, users).1[c.id].email == c.email
    ensures var after := VerifyEmailToken(token, decode, users).1;
      VerifyEmailToken(token, decode, after) == (Verified, after)
  {
  }

  // ---------------------------------------------------------------------
  // handleResendVerification

  const EmailMissing := Reply(400, "Email is missing")
  const AlreadyVerified := Reply(200, "User is already verified")
  const LinkSent := Reply(200, "Verification link sent to email")

  /** `handleResendVerification`: the reply, and the account a new
      verification link goes to. `findByAnyEmail` looks an address up among
      primary and pending emails. */
  function ResendVerification(email: Option<string>, findByAnyEmail: string -> Option<User>): (r: (Reply, Option<User>))
    ensures !Present(email) ==> r == (EmailMissing, None)
    ensures Present(email) && findByAnyEmail(email.value).None? ==> r.0.status == 404 && r.1.None?
    ensures r.1.Some? <==>
      Present(email) && findByAnyEmail(email.value).Some?
      && !(email.value == findByAnyEmail(email.value).value.email && findByAnyEmail(email.value).value.isVerified)
    ensures r.1.Some? ==> r == (LinkSent, findByAnyEmail(email.value))
  {
    if !Present(email) then (EmailMissing, None)
    else
      match findByAnyEmail(email.value)
      case None => (Reply(404, "User with '" + email.value + "' not found"), None)
      case Some(user) =>
        if email.value == user.email && user.isVerified then (AlreadyVerified, None)
        else (LinkSent, Some(user))
  }

  /** Asking again for the verified primary address of an account sends
      nothing. */
  lemma ResendToVerifiedSendsNothing(email: string, findByAnyEmail: string -> Option<User>)
    requires email != "" && findByAnyEmail(email).Some?
    requires findByAnyEmail(email).value.email == email && findByAnyEmail(email).value.isVerified
    ensures ResendVerification(Some(email), findByAnyEmail) == (AlreadyVerified, None)
  {
  }
}
