/**
  Registration, login, logout and the current-user endpoint
  (backend/src/controllers/authController.js). Password hashing is a
  parameter: a `Hasher` gives the hash bcrypt computes for a password, a cost
  and a salt, and what `bcrypt.compare` answers; the salt is an input, as is
  the id MongoDB assigns to a new user.
*/
module AuthController {
  import opened Wrappers
  import opened Errors
  import opened Config
  import opened Models
  import opened Jwt
  import opened UserStore
  import opened Http

  const SALT_ROUNDS: nat := 10

  const EmailTaken := "Email is already registered"
  const BadCredentials := "Invalid email or password"
  const NotAuthenticated := "Not authenticated"

  datatype Hasher = Hasher(
    hash: (string, nat, string) -> string,
    compare: (string, string) -> bool)

  /** `bcrypt.compare` accepts a password against any hash made of it. */
  ghost predicate Verifies(h: Hasher) {
    forall password, rounds, salt :: h.compare(password, h.hash(password, rounds, salt))
  }

  /** The user document `register` creates: the password is stored only as its hash. */
  function NewUser(id: ObjectId, name: string, email: string, password: string, hasher: Hasher, salt: string): (u: User)
    ensures u.id == id && u.name == name && u.email == email
    ensures u.password == hasher.hash(password, SALT_ROUNDS, salt)
  {
    User(id, name, email, hasher.hash(password, SALT_ROUNDS, salt))
  }

  /**
    The successful end of `register` and `login`: a session token for the
    user in the `token` cookie, and the user's public fields in the body; a
    token that cannot be signed goes to the error handler instead.
  */
  function Session(status: nat, message: string, u: User, env: Env, now: int, signer: Signer): (o: Outcome)
    ensures o.NextError? <==> !Truthy(env.jwtSecret)
    ensures o.Respond? ==>
      o.response.status == status && o.response.success &&
      o.response.cookie.SetCookie? && o.response.cookie.name == "token" &&
      o.response.cookie.options == GetCookieOptions(env) &&
      o.response.data == UserData(PublicUser(IdString(u.id), u.email, u.name))
  {
    match GenerateToken(IdString(u.id), env, now, signer)
    case Err(e) => NextError(e)
    case Ok(token) =>
      Respond(Response(status, SetCookie("token", token, GetCookieOptions(env)), true, Some(message), UserData(Public(u))))
  }

  /**
    `register`. A taken email is refused with 400 and nothing stored.
    Otherwise the user is stored with the hashed password before the token is
    signed, so a missing signing secret leaves the new user stored while the
    request fails.
  */
  method Register(store: UserCollection, name: string, email: string, password: string,
                  env: Env, now: int, hasher: Hasher, salt: string, newId: ObjectId, signer: Signer)
    returns (o: Outcome)
    requires store.Valid()
    modifies store
    ensures store.Valid()
    ensures FindByEmail(old(store.users), email).Some? ==>
      o == Respond(Failure(400, EmailTaken)) && store.users == old(store.users)
    ensures FindByEmail(old(store.users), email).None? && FindById(old(store.users), newId).Some? ==>
      o == NextError(DuplicateKey) && store.users == old(store.users)
    ensures FindByEmail(old(store.users), email).None? && FindById(old(store.users), newId).None? ==>
      var u := NewUser(newId, name, email, password, hasher, salt);
      store.users == old(store.users) + [u] &&
      o == Session(201, "User registered successfully", u, env, now, signer)
  {
    var existing := FindByEmail(store.users, email);
    if existing.Some? {
      return Respond(Failure(400, EmailTaken));
    }
    var hashed := hasher.hash(password, SALT_ROUNDS, salt);
    var user := User(newId, name, email, hashed);
    var created := store.Insert(user);
    if !created {
      return NextError(DuplicateKey);
    }
    o := Session(201, "User registered successfully", user, env, now, signer);
  }

  /**
    `login`: an unknown email and a wrong password get the same 400 answer;
    a matching password opens a session for the stored user.
  */
  function Login(users: seq<User>, email: string, password: string, env: Env, now: int,
                 hasher: Hasher, signer: Signer): (o: Outcome)
    ensures FindByEmail(users, email).None? ==> o == Respond(Failure(400, BadCredentials))
    ensures o.Respond? && o.response.status == 200 ==>
      exists u :: u in users && u.email == email && hasher.compare(password, u.password) &&
        o == Session(200, "Logged in successfully", u, env, now, signer)
  {
    match FindByEmail(users, email)
    case None => Respond(Failure(400, BadCredentials))
    case Some(u) =>
      if !hasher.compare(password, u.password) then Respond(Failure(400, BadCredentials))
      else Session(200, "Logged in successfully", u, env, now, signer)
  }

  /** `logout`: clears the `token` cookie and answers 200. */
  function Logout(env: Env): (o: Outcome)
    ensures o.Respond? && o.response.status == 200 && o.response.success
    ensures o.response.cookie.ClearCookie? && o.response.cookie.name == "token"
    ensures o.response.cookie.options.httpOnly && o.response.cookie.options.sameSite == Strict
    ensures o.response.cookie.options.secure <==> IsProduction(env)
    ensures o.response.cookie.options.maxAge.None?
    ensures o.response.message == Some("Logged out successfully")
  {
    Respond(Response(200, ClearCookie("token", CookieOptions(true, Strict, IsProduction(env), None)),
                     true, Some("Logged out successfully"), NoData))
  }

  /** `getCurrentUser`: the user the gate attached, or 401 when there is none. */
  function GetCurrentUser(user: Option<PublicUser>): (o: Outcome)
    ensures o.Respond?
    ensures o.response.status == 200 <==> user.Some?
    ensures user.Some? ==> o.response.data == UserData(user.value) && o.response.success
    ensures user.None? ==> o.response == Failure(401, NotAuthenticated)
  {
    if user.None? then Respond(Failure(401, NotAuthenticated))
    else Respond(Response(200, NoCookie, true, None, UserData(user.value)))
  }

  // ---------------------------------------------------------------- properties

  /**
    A login attempt does not reveal whether the email is registered: an
    unknown email and a known email with the wrong password get the very same
    response.
  */
  lemma LoginFailuresAlike(users: seq<User>, unknown: string, known: string, password: string,
                           env: Env, now: int, hasher: Hasher, signer: Signer)
    requires FindByEmail(users, unknown).None?
    requires FindByEmail(users, known).Some? && !hasher.compare(password, FindByEmail(users, known).value.password)
    ensures Login(users, unknown, password, env, now, hasher, signer) ==
            Login(users, known, password, env, now, hasher, signer) ==
            Respond(Failure(400, BadCredentials))
  {
  }

  /**
    Whoever has just registered can log in with the same email and password,
    and gets a session for the account that was created.
  */
  lemma RegisterThenLogin(users: seq<User>, newId: ObjectId, name: string, email: string, password: string,
                          env: Env, now: int, hasher: Hasher, salt: string, signer: Signer)
    requires Verifies(hasher) && Truthy(env.jwtSecret)
    requires FindByEmail(users, email).None?
    ensures var u := NewUser(newId, name, email, password, hasher, salt);
      Login(users + [u], email, password, env, now, hasher, signer) ==
        Respond(Response(200, SetCookie("token", GenerateToken(IdString(newId), env, now, signer).value, GetCookieOptions(env)),
                         true, Some("Logged in successfully"), UserData(PublicUser(IdString(newId), email, name))))
  {
    var u := NewUser(newId, name, email, password, hasher, salt);
    FindByEmailAfterInsert(users, u);
    assert hasher.compare(password, hasher.hash(password, SALT_ROUNDS, salt));
  }

  /**
    A session token from `register` or `login` gets its user through the
    authentication gate for a day, where `me` then reports that user.
  */
  lemma SessionTokenVerifies(u: User, env: Env, issuedAt: int, now: int, signer: Signer)
    requires Sound(signer) && Truthy(env.jwtSecret)
    requires now < issuedAt + ONE_DAY_IN_SECONDS
    ensures Session(200, "Logged in successfully", u, env, issuedAt, signer).Respond?
    ensures var token := Session(200, "Logged in successfully", u, env, issuedAt, signer).response.cookie.value;
      VerifyToken(token, env, now, signer).Ok? &&
      VerifyToken(token, env, now, signer).value.userId == IdString(u.id)
  {
    IssuedTokenVerifies(IdString(u.id), env, issuedAt, now, signer);
  }

  /**
    Logging out clears the cookie that logging in sets: the same name and the
    same `secure` flag; its `sameSite` is always strict, unlike the session
    cookie's.
  */
  lemma LogoutClearsSessionCookie(env: Env)
    ensures Logout(env).response.cookie.options.secure == GetCookieOptions(env).secure
    ensures Logout(env).response.cookie.options.sameSite == Strict
    ensures Logout(env).response.cookie.options.sameSite != GetCookieOptions(env).sameSite
    ensures Logout(env).response.cookie.options.httpOnly == GetCookieOptions(env).httpOnly
    ensures Logout(env).response.cookie.options.maxAge == None
  {
  }
}
