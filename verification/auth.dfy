/** Login and the current-user lookup. Login answers an unknown address and a
    wrong password with the same response, so a client cannot tell which
    addresses are registered. */
module Auth {
  import opened Model
  import opened Users

  const PasswordRequired: ErrorItem := FieldError("password", "password is required")
  const InvalidCredentials: Response := Response(400, Errors("errors", [Message("Invalid credentials")]))

  /** The password field of a login body: absent, a string, or some other JSON
      value (null, a number, ...), which the `exists` check lets through. */
  datatype PasswordField = Absent | Given(value: string) | NotAString

  /** The login body. */
  datatype Credentials = Credentials(email: string, password: PasswordField)

  /** The failed checks of a login request, in the order the checks are declared. */
  function LoginErrors(env: Env, req: Credentials): (errs: seq<ErrorItem>)
    ensures EmailInvalid in errs <==> !env.isEmail(req.email)
    ensures PasswordRequired in errs <==> req.password.Absent?
    ensures forall e :: e in errs ==> e in [EmailInvalid, PasswordRequired]
    ensures |errs| <= 2
  {
    (if !env.isEmail(req.email) then [EmailInvalid] else [])
    + (if req.password.Absent? then [PasswordRequired] else [])
  }

  /** The one account registered under `email`. */
  function UserByEmail(users: map<UserId, User>, email: string): (k: UserId)
    requires EmailsUnique(users) && EmailTaken(users, email)
    ensures k in users && users[k].email == email
  {
    var k :| k in users && users[k].email == email; k
  }

  /** Some account has this address and accepts this password. */
  ghost predicate Opens(env: Env, users: map<UserId, User>, email: string, password: string)
  {
    exists k :: k in users && users[k].email == email && env.compare(password, users[k].password)
  }

  /** POST api/auth. A password that is not a string makes bcrypt's compare
      reject, which the error path answers with a server error; that happens
      only once an account with the address has been found. */
  function Login(env: Env, s: Store, req: Credentials, now: int): (r: Response)
    requires EmailsUnique(s.users)
    ensures !(env.isEmail(req.email) && !req.password.Absent?) ==>
      r.status == 400 && r.body.Errors? && r.body.key == "errors"
      && |r.body.items| > 0 && r.body.items == LoginErrors(env, req)
    ensures env.isEmail(req.email) && req.password.Given? && !Opens(env, s.users, req.email, req.password.value) ==>
      r == InvalidCredentials
    ensures env.isEmail(req.email) && req.password.NotAString? ==>
      r == (if EmailTaken(s.users, req.email) then ServerError else InvalidCredentials)
    ensures r.status == 200 <==>
      env.isEmail(req.email) && req.password.Given? && Opens(env, s.users, req.email, req.password.value)
    ensures r.status == 200 ==>
      exists k :: k in s.users && s.users[k].email == req.email
        && env.compare(req.password.value, s.users[k].password)
        && r.body == TokenBody(env.sign(Claims(s.users[k].id, now)))
  {
    var errs := LoginErrors(env, req);
    if |errs| > 0 then Response(400, Errors("errors", errs))
    else if !EmailTaken(s.users, req.email) then InvalidCredentials
    else
      var user := s.users[UserByEmail(s.users, req.email)];
      match req.password
      case Given(password) =>
        if !env.compare(password, user.password) then InvalidCredentials
        else Response(200, TokenBody(env.sign(Claims(user.id, now))))
      case _ => ServerError  // compare rejects a non-string argument
  }

  /** An address nobody registered and a registered address with the wrong
      password get the same answer. */
  lemma UnknownEmailLikeWrongPassword(env: Env, s1: Store, s2: Store, email: string, password: string, now: int)
    requires EmailsUnique(s1.users) && EmailsUnique(s2.users)
    requires env.isEmail(email)
    requires !EmailTaken(s1.users, email)
    requires EmailTaken(s2.users, email) && !env.compare(password, s2.users[UserByEmail(s2.users, email)].password)
    ensures Login(env, s1, Credentials(email, Given(password)), now) == Login(env, s2, Credentials(email, Given(password)), now)
    ensures Login(env, s1, Credentials(email, Given(password)), now) == InvalidCredentials
  {
  }

  /** A freshly registered account can log in with the password it registered
      with, provided bcrypt's compare accepts the hash it produced; the
      token names the new account and carries the login time. */
  lemma RegisterThenLogin(env: Env, s: Store, req: Registration, newId: UserId, salt: string, registeredAt: int, now: int)
    requires ValidUsers(s.users)
    requires Acceptable(env, req) && !EmailTaken(s.users, req.email) && newId !in s.users
    requires env.compare(req.password, env.hash(req.password, salt))
    ensures var s1 := Register(env, s, req, newId, salt, registeredAt).store;
      EmailsUnique(s1.users) &&
      Login(env, s1, Credentials(req.email, Given(req.password)), now)
        == Response(200, TokenBody(env.sign(Claims(newId, now))))
  {
  }

  /** A user as selected with the password field excluded. */
  function Redact(u: User): (p: PublicUser)
    ensures User(p.id, p.name, p.email, p.avatar, u.password) == u
  {
    PublicUser(u.id, u.name, u.email, u.avatar)
  }

  /** GET api/auth: the caller's record without its password. A missing
      account is answered with a null body; an id that is not an ObjectId
      makes the lookup throw, and the error path sends no response at all
      (None). */
  function CurrentUser(env: Env, s: Store, caller: UserId): (r: Option<Response>)
    ensures r.None? <==> !env.isObjectId(caller)
    ensures r.Some? ==> r.value.status == 200
    ensures r.Some? && caller in s.users ==>
      var u := s.users[caller];
      r.value.body == UserBody(PublicUser(u.id, u.name, u.email, u.avatar))
    ensures r.Some? && caller !in s.users ==> r.value.body == Null
  {
    match FindById(env, s.users, caller)
    case Found(user) => Some(Response(200, UserBody(Redact(user))))
    case Missing => Some(Response(200, Null))
    case CastFailure => None
  }

  /** The current-user answer does not depend on any stored password. */
  lemma CurrentUserHidesPassword(env: Env, s: Store, caller: UserId, k: UserId, password: string)
    requires k in s.users
    ensures var s' := s.(users := s.users[k := s.users[k].(password := password)]);
      CurrentUser(env, s', caller) == CurrentUser(env, s, caller)
  {
  }

  /** After a registration, the new account's id looks up its record without
      the password. */
  lemma RegisterThenCurrentUser(env: Env, s: Store, req: Registration, newId: UserId, salt: string, now: int)
    requires Acceptable(env, req) && !EmailTaken(s.users, req.email) && newId !in s.users
    requires env.isObjectId(newId)
    ensures var s1 := Register(env, s, req, newId, salt, now).store;
      CurrentUser(env, s1, newId)
        == Some(Response(200, UserBody(PublicUser(newId, req.name, req.email, env.gravatar(req.email)))))
  {
  }
}
