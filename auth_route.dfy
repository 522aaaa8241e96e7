/** The authentication routes (`routers/auth_route.py`): resolving the bearer token to a user, and the
    logout endpoint that composes decoding, resolution and revocation. Register, login and refresh
    pass straight through to `AuthService`. */
module AuthRoute {
  import opened Wrappers
  import opened Http
  import opened Tokens
  import opened UserModel
  import UserRepository
  import Redis
  import Text
  import JwtHandler
  import UserService
  import AuthService

  /** The user a token's `sub` claim names. A payload without `sub` makes the lookup `payload["sub"]`
      raise, which escapes as a server error; a subject that is not a decimal id matches no user. */
  function SubjectUser(rows: seq<User>, sub: Option<string>): (r: Result<User, Error>)
    ensures sub.None? ==> r == Err(INTERNAL_SERVER_ERROR)
    ensures sub.Some? && Text.ParseNat(sub.value).None? ==> r == Err(NotFound(UserService.USER_NOT_FOUND))
    ensures sub.Some? && Text.ParseNat(sub.value).Some?
            ==> r == UserService.GetUserById(rows, Text.ParseNat(sub.value).value)
  {
    match sub
    case None => Err(INTERNAL_SERVER_ERROR)
    case Some(s) =>
      match Text.ParseNat(s)
      case None => Err(NotFound(UserService.USER_NOT_FOUND))
      case Some(id) => UserService.GetUserById(rows, id)
  }

  /** `get_current_user`: any decoding error (revoked, expired, invalid) is returned unchanged; a
      decoded token yields the user its subject names, or 404 when there is none. */
  function GetCurrentUser(rows: seq<User>, store: map<Redis.Key, Redis.Entry>, cfg: JwtHandler.Config,
                          token: Token, now: int): (r: Result<User, Error>)
    ensures JwtHandler.DecodeToken(cfg, store, token, now).Err?
            ==> r == Err(JwtHandler.DecodeToken(cfg, store, token, now).error)
    ensures JwtHandler.DecodeToken(cfg, store, token, now).Ok?
            ==> r == SubjectUser(rows, token.claims.sub)
    ensures r.Ok? ==> && r.value in rows && !JwtHandler.Revoked(store, token, now)
                      && token.claims.sub.Some? && Text.ParseNat(token.claims.sub.value) == Some(r.value.id)
  {
    match JwtHandler.DecodeToken(cfg, store, token, now)
    case Err(e) => Err(e)
    case Ok(payload) => SubjectUser(rows, payload.sub)
  }

  /** A token issued for a stored user names that user: while it is live and not blacklisted, it
      resolves to exactly that user. */
  lemma {:induction false} IssuedTokenIdentifiesUser(rows: seq<User>, nextId: nat, store: map<Redis.Key, Redis.Entry>,
                                                     cfg: JwtHandler.Config, u: User, issuedAt: nat, now: int)
    requires TableInvariant(rows, nextId) && u in rows
    requires issuedAt <= now < issuedAt + JwtHandler.AccessTokenLifetime(cfg)
    requires !JwtHandler.Revoked(store, JwtHandler.CreateAccessToken(cfg, Text.NatToString(u.id), u.username, issuedAt), now)
    ensures GetCurrentUser(rows, store, cfg, JwtHandler.CreateAccessToken(cfg, Text.NatToString(u.id), u.username, issuedAt), now) == Ok(u)
  {
    Text.ParseNatToString(u.id);
    UserRepository.GetByIdFindsRow(rows, u);
  }

  /** `logout_user`: the caller must be a current user; the token is then decoded again (at the same
      instant, so with the same outcome) for its `exp`, which the service needs as a number: a token
      without one makes the subtraction in the service fail before anything is written. */
  method Logout(repo: UserRepository.Repository, store: Redis.Store, cfg: JwtHandler.Config, token: Token, now: nat)
    returns (r: Result<AuthService.LogoutResponse, Error>)
    modifies store
    ensures GetCurrentUser(repo.rows, old(store.entries), cfg, token, now).Err?
            ==> r == Err(GetCurrentUser(repo.rows, old(store.entries), cfg, token, now).error)
                && store.entries == old(store.entries)
    ensures GetCurrentUser(repo.rows, old(store.entries), cfg, token, now).Ok? && token.claims.exp.None?
            ==> r == Err(INTERNAL_SERVER_ERROR) && store.entries == old(store.entries)
    ensures GetCurrentUser(repo.rows, old(store.entries), cfg, token, now).Ok? && token.claims.exp.Some?
            ==> && r == Ok(AuthService.LogoutResponse(AuthService.LOGGED_OUT, false, now))
                && store.entries == AuthService.AfterLogout(old(store.entries), token, token.claims.exp.value,
                                     GetCurrentUser(repo.rows, old(store.entries), cfg, token, now).value.id, now)
  {
    var current := GetCurrentUser(repo.rows, store.entries, cfg, token, now);
    if current.Err? {
      return Err(current.error);
    }
    var payload := JwtHandler.DecodeToken(cfg, store.entries, token, now);
    var exp := payload.value.exp;
    if exp.None? {
      return Err(INTERNAL_SERVER_ERROR);
    }
    var response := AuthService.LogoutUser(store, token, exp.value, current.value.id, now);
    r := Ok(response);
  }
}
