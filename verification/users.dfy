/** User registration: field validation, the duplicate-email check, and the
    new account with its hashed password, answered with a signed token. */
module Users {
  import opened Model

  const NameRequired: ErrorItem := FieldError("name", "Name is required")
  const EmailInvalid: ErrorItem := FieldError("email", "Please enter a valid enmail")
  const PasswordTooShort: ErrorItem := FieldError("password", "Please enter a password with 6 or more characters")
  const UserExists: Response := Response(400, Errors("errors", [Message("User already exists")]))
  const ServerError: Response := Response(500, Text("Server error"))

  /** Shortest password registration accepts. */
  const MinPasswordLength: nat := 6

  /** The registration body; a missing field is the empty string. */
  datatype Registration = Registration(name: string, email: string, password: string)

  /** `findOne({ email })` finds a document: some stored account has the address. */
  predicate EmailTaken(users: map<UserId, User>, email: string): (b: bool)
    ensures b <==> exists u :: u in users.Values && u.email == email
  {
    exists k :: k in users && users[k].email == email
  }

  /** No two accounts share an e-mail address. */
  ghost predicate EmailsUnique(users: map<UserId, User>)
  {
    forall j, k :: j in users && k in users && users[j].email == users[k].email ==> j == k
  }

  /** Every account is stored under its own id, and addresses are unique. */
  ghost predicate ValidUsers(users: map<UserId, User>)
  {
    (forall k :: k in users ==> users[k].id == k) && EmailsUnique(users)
  }

  /** The failed checks of a registration, in the order the checks are declared. */
  function RegistrationErrors(env: Env, req: Registration): (errs: seq<ErrorItem>)
    ensures NameRequired in errs <==> req.name == ""
    ensures EmailInvalid in errs <==> !env.isEmail(req.email)
    ensures PasswordTooShort in errs <==> |req.password| < MinPasswordLength
    ensures forall e :: e in errs ==> e in [NameRequired, EmailInvalid, PasswordTooShort]
    ensures |errs| <= 3
  {
    (if req.name == "" then [NameRequired] else [])
    + (if !env.isEmail(req.email) then [EmailInvalid] else [])
    + (if |req.password| < MinPasswordLength then [PasswordTooShort] else [])
  }

  /** A registration that passes validation. */
  predicate Acceptable(env: Env, req: Registration)
  {
    req.name != "" && env.isEmail(req.email) && |req.password| >= MinPasswordLength
  }

  /** POST api/users: `newId` is the id the new document receives, `salt`
      the freshly generated bcrypt salt and `now` the time the token is
      signed. */
  function Register(env: Env, s: Store, req: Registration, newId: UserId, salt: string, now: int): (r: Reply)
    ensures !Acceptable(env, req) ==>
      r.store == s && r.res.status == 400 && r.res.body.Errors? && r.res.body.key == "errors"
      && |r.res.body.items| > 0 && r.res.body.items == RegistrationErrors(env, req)
    ensures Acceptable(env, req) && EmailTaken(s.users, req.email) ==> r == Reply(UserExists, s)
    ensures r.res.status == 200 <==> Acceptable(env, req) && !EmailTaken(s.users, req.email) && newId !in s.users
    ensures r.res.status != 200 ==> r.store == s
    ensures r.res.status == 200 ==>
      && r.store.posts == s.posts
      && r.store.users.Keys == s.users.Keys + {newId}
      && |r.store.users| == |s.users| + 1
      && (forall k :: k in s.users ==> r.store.users[k] == s.users[k])
      && var u := r.store.users[newId];
         && u.id == newId && u.name == req.name && u.email == req.email
         && u.avatar == env.gravatar(req.email)
         && u.password == env.hash(req.password, salt)
         && r.res.body == TokenBody(env.sign(Claims(newId, now)))
    ensures ValidUsers(s.users) ==> ValidUsers(r.store.users)
  {
    var errs := RegistrationErrors(env, req);
    if |errs| > 0 then Reply(Response(400, Errors("errors", errs)), s)
    else if EmailTaken(s.users, req.email) then Reply(UserExists, s)
    else if newId in s.users then Reply(ServerError, s)  // save fails on the duplicate key
    else
      var user := User(newId, req.name, req.email, env.gravatar(req.email), env.hash(req.password, salt));
      var token := env.sign(Claims(newId, now));
      Reply(Response(200, TokenBody(token)), s.(users := s.users[newId := user]))
  }

  /** A second registration with the same address is refused and changes
      nothing, so an address never belongs to two accounts. */
  lemma RegisterTwice(env: Env, s: Store, req: Registration, id1: UserId, salt1: string, now1: int,
                      req2: Registration, id2: UserId, salt2: string, now2: int)
    requires Acceptable(env, req) && !EmailTaken(s.users, req.email) && id1 !in s.users
    requires req2.email == req.email
    ensures var s1 := Register(env, s, req, id1, salt1, now1).store;
      Acceptable(env, req2) ==> Register(env, s1, req2, id2, salt2, now2) == Reply(UserExists, s1)
  {
  }
}
