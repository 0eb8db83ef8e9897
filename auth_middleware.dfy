/**
  The authentication gate in front of every task route and of logout and
  `me` (backend/src/middleware/auth.js). It reads the `token` cookie,
  verifies it, looks the user up, and either answers 401 or attaches the
  user to the request and calls `next()`.
*/
module AuthMiddleware {
  import opened Wrappers
  import opened Config
  import opened Models
  import opened Jwt
  import opened UserStore
  import opened Http

  const TokenMissing := "Authentication token missing"
  const UnknownUser := "Invalid authentication token"
  const TokenRejected := "Invalid or expired authentication token"

  datatype Verdict = Reject(message: string) | Admit(user: PublicUser)

  /**
    The gate's decision. A thrown `verifyToken` and a user id Mongoose cannot
    cast both land in the `catch` block; a well-formed id with no user is the
    separate "Invalid authentication token" case.
  */
  function Decide(token: Option<string>, env: Env, now: int, signer: Signer, users: seq<User>): (v: Verdict)
    ensures !Truthy(token) ==> v == Reject(TokenMissing)
    ensures v.Reject? ==> v.message == TokenMissing || v.message == TokenRejected || v.message == UnknownUser
    ensures v.Admit? <==>
      Truthy(token) && VerifyToken(token.value, env, now, signer).Ok? &&
      CastObjectId(VerifyToken(token.value, env, now, signer).value.userId).Some? &&
      FindById(users, CastObjectId(VerifyToken(token.value, env, now, signer).value.userId).value).Some?
    ensures v.Admit? ==> exists u :: u in users && v.user == Public(u)
  {
    if !Truthy(token) then Reject(TokenMissing)
    else
      match VerifyToken(token.value, env, now, signer)
      case Err(_) => Reject(TokenRejected)
      case Ok(claims) =>
        match CastObjectId(claims.userId)
        case None => Reject(TokenRejected)
        case Some(id) =>
          match FindById(users, id)
          case None => Reject(UnknownUser)
          case Some(u) => Admit(Public(u))
  }

  /** `authMiddleware`: either one 401 response and no `next()`, or `req.user` set and exactly one `next()`. */
  method Authenticate(ex: Exchange, env: Env, now: int, signer: Signer, store: UserCollection)
    modifies ex
    ensures match Decide(ex.token, env, now, signer, store.users)
      case Reject(m) =>
        ex.sent == old(ex.sent) + [Failure(401, m)] && ex.nextCalls == old(ex.nextCalls) && ex.user == old(ex.user)
      case Admit(u) =>
        ex.user == Some(u) && ex.nextCalls == old(ex.nextCalls) + 1 && ex.sent == old(ex.sent)
  {
    if !Truthy(ex.token) {
      ex.Send(Failure(401, TokenMissing));
      return;
    }
    var decoded := VerifyToken(ex.token.value, env, now, signer);
    if decoded.Err? {
      ex.Send(Failure(401, TokenRejected));
      return;
    }
    var id := CastObjectId(decoded.value.userId);
    if id.None? {
      ex.Send(Failure(401, TokenRejected));
      return;
    }
    var user := FindById(store.users, id.value);
    if user.None? {
      ex.Send(Failure(401, UnknownUser));
      return;
    }
    ex.user := Some(Public(user.value));
    ex.CallNext();
  }

  // ---------------------------------------------------------------- properties

  /** Without a token cookie the request is refused as missing its token. */
  lemma MissingTokenRejected(token: Option<string>, env: Env, now: int, signer: Signer, users: seq<User>)
    requires token == None || token == Some("")
    ensures Decide(token, env, now, signer, users) == Reject(TokenMissing)
  {
  }

  /** A token that fails verification (bad, expired, or no secret configured) is refused generically. */
  lemma UnverifiedTokenRejected(token: string, env: Env, now: int, signer: Signer, users: seq<User>)
    requires token != "" && VerifyToken(token, env, now, signer).Err?
    ensures Decide(Some(token), env, now, signer, users) == Reject(TokenRejected)
  {
  }

  /** With no signing secret configured, no request gets through. */
  lemma NoSecretNoEntry(token: Option<string>, env: Env, now: int, signer: Signer, users: seq<User>)
    requires !Truthy(env.jwtSecret)
    ensures Decide(token, env, now, signer, users).Reject?
  {
  }

  /** A verified token for a well-formed id that no user has is refused as invalid. */
  lemma UnknownUserRejected(token: string, env: Env, now: int, signer: Signer, users: seq<User>)
    requires token != "" && VerifyToken(token, env, now, signer).Ok?
    requires var id := CastObjectId(VerifyToken(token, env, now, signer).value.userId);
      id.Some? && forall i :: 0 <= i < |users| ==> users[i].id != id.value
    ensures Decide(Some(token), env, now, signer, users) == Reject(UnknownUser)
  {
  }

  /**
    Admission always names a stored user, exposes only their id, email and
    name, and needs a token that verifies to that user's id.
  */
  lemma AdmittedUserIsStored(token: Option<string>, env: Env, now: int, signer: Signer, users: seq<User>)
    requires Decide(token, env, now, signer, users).Admit?
    ensures exists u :: u in users && Decide(token, env, now, signer, users).user == Public(u) &&
              token.Some? && VerifyToken(token.value, env, now, signer).Ok? &&
              CastObjectId(VerifyToken(token.value, env, now, signer).value.userId) == Some(u.id)
  {
    var u := FindById(users, CastObjectId(VerifyToken(token.value, env, now, signer).value.userId).value).value;
    assert u in users;
  }

  /**
    End to end: a token issued for a stored user gets that user through the
    gate for 24 hours, and is refused afterwards.
  */
  lemma IssuedTokenAdmits(u: User, env: Env, issuedAt: int, now: int, signer: Signer, users: seq<User>)
    requires Sound(signer) && Truthy(env.jwtSecret)
    requires DistinctIds(users) && u in users && ValidObjectId(u.id)
    ensures GenerateToken(IdString(u.id), env, issuedAt, signer).Ok?
    ensures var token := GenerateToken(IdString(u.id), env, issuedAt, signer).value;
      Decide(Some(token), env, now, signer, users) ==
        if now < issuedAt + ONE_DAY_IN_SECONDS then Admit(Public(u)) else Reject(TokenRejected)
  {
    var token := GenerateToken(IdString(u.id), env, issuedAt, signer).value;
    var secret := env.jwtSecret.value;
    assert token == signer.sign(IssuedClaims(IdString(u.id), issuedAt), secret);
    assert token != "";
    IssuedTokenVerifies(IdString(u.id), env, issuedAt, now, signer);
    CastIdString(u.id);
    FindByIdOfMember(users, u);
  }
}
