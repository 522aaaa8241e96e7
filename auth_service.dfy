/** The session manager (`services/auth_service.py`): registration, login, refresh and logout, over the
    users table and the key/value store. */
module AuthService {
  import opened Wrappers
  import opened Http
  import opened Tokens
  import opened UserModel
  import UserRepository
  import Redis
  import Text
  import Passwords
  import JwtHandler

  const EMAIL_TAKEN := "Email already registered"
  const USERNAME_TAKEN := "Username already taken"
  const REGISTERED := "User registered successfully"
  const INVALID_CREDENTIALS := "Invalid username or password"
  const LOGIN_OK := "Login successful"
  const INVALID_REFRESH_PAYLOAD := "Invalid refresh token payload"
  const LOGGED_OUT := "User logged out successfully"
  const BEARER := "bearer"

  /** What a login returns; `lastLogin` is the instant recorded in the presence register. */
  datatype LoginResponse = LoginResponse(message: string, accessToken: Token, refreshToken: Token,
                                         tokenType: string, isOnline: bool, lastLogin: nat)

  datatype RefreshResponse = RefreshResponse(accessToken: Token, tokenType: string)

  datatype LogoutResponse = LogoutResponse(message: string, isOnline: bool, offlineSince: nat)

  // ---------------------------------------------------------------------------------------------
  // Registration

  /** The result of a registration together with the table it leaves behind. */
  datatype Registration = Registration(result: Result<string, Error>, rows: seq<User>, nextId: nat)

  /** What `register_user_service` does to a table: the email is checked before the username, the
      password is hashed, and the insert may still be refused by the table's length constraints. */
  function RegisterOutcome(rows: seq<User>, nextId: nat, username: string, email: string, password: string): Registration
  {
    if UserRepository.GetByEmail(rows, email).Some? then Registration(Err(BadRequest(EMAIL_TAKEN)), rows, nextId)
    else if UserRepository.GetByUsername(rows, username).Some? then Registration(Err(BadRequest(USERNAME_TAKEN)), rows, nextId)
    else if UserRepository.ViolatesConstraints(rows, username, email, Passwords.Hash(password))
    then Registration(Err(INTERNAL_SERVER_ERROR), rows, nextId)
    else Registration(Ok(REGISTERED), rows + [User(nextId, username, email, Passwords.Hash(password))], nextId + 1)
  }

  /** `register_user_service`. */
  method RegisterUser(repo: UserRepository.Repository, username: string, email: string, password: string)
    returns (r: Result<string, Error>)
    requires repo.Valid()
    modifies repo
    ensures repo.Valid()
    ensures Registration(r, repo.rows, repo.nextId)
            == RegisterOutcome(old(repo.rows), old(repo.nextId), username, email, password)
  {
    if UserRepository.GetByEmail(repo.rows, email).Some? {
      return Err(BadRequest(EMAIL_TAKEN));
    }
    if UserRepository.GetByUsername(repo.rows, username).Some? {
      return Err(BadRequest(USERNAME_TAKEN));
    }
    var hashed := Passwords.Hash(password);
    var created := repo.CreateUser(username, hashed, email);
    if created.Err? {
      return Err(created.error);
    }
    r := Ok(REGISTERED);
  }

  /** A taken email is reported before anything else, and nothing is written. */
  lemma RegisterChecksEmailFirst(rows: seq<User>, nextId: nat, username: string, email: string, password: string)
    requires UserRepository.GetByEmail(rows, email).Some?
    ensures RegisterOutcome(rows, nextId, username, email, password) == Registration(Err(BadRequest(EMAIL_TAKEN)), rows, nextId)
  {
  }

  /** With the email free, a taken username is reported and nothing is written. */
  lemma RegisterChecksUsernameSecond(rows: seq<User>, nextId: nat, username: string, email: string, password: string)
    requires UserRepository.GetByEmail(rows, email).None? && UserRepository.GetByUsername(rows, username).Some?
    ensures RegisterOutcome(rows, nextId, username, email, password) == Registration(Err(BadRequest(USERNAME_TAKEN)), rows, nextId)
  {
  }

  /** A registration succeeds exactly when the email and username are free and both fit their columns;
      it then adds exactly one record, holding the hash of the password, which both lookups find, and
      the table's constraints still hold. */
  lemma {:induction false} RegisterSuccess(rows: seq<User>, nextId: nat, username: string, email: string, password: string)
    requires TableInvariant(rows, nextId)
    ensures var out := RegisterOutcome(rows, nextId, username, email, password);
            out.result.Ok? <==> && UserRepository.GetByEmail(rows, email).None?
                                && UserRepository.GetByUsername(rows, username).None?
                                && |username| <= USERNAME_LENGTH && |email| <= EMAIL_LENGTH
    ensures var out := RegisterOutcome(rows, nextId, username, email, password);
            out.result.Ok? ==> var u := User(nextId, username, email, Passwords.Hash(password));
                               && out.result.value == REGISTERED
                               && out.rows == rows + [u] && out.nextId == nextId + 1
                               && UserRepository.GetByUsername(out.rows, username) == Some(u)
                               && UserRepository.GetByEmail(out.rows, email) == Some(u)
    ensures TableInvariant(RegisterOutcome(rows, nextId, username, email, password).rows,
                           RegisterOutcome(rows, nextId, username, email, password).nextId)
  {
    var hashed := Passwords.Hash(password);
    assert |hashed| <= PASSWORD_HASH_LENGTH;
    if !UserRepository.ViolatesConstraints(rows, username, email, hashed) {
      UserRepository.InsertKeepsInvariant(rows, nextId, username, email, hashed);
    }
  }

  /** Registering a second time with the same username (under another email) or with the same email
      fails, and the table stays as the first registration left it. */
  lemma {:induction false} RegisterTwiceFails(rows: seq<User>, nextId: nat, username: string, email: string, password: string,
                                              email2: string, username2: string, password2: string)
    requires TableInvariant(rows, nextId)
    requires RegisterOutcome(rows, nextId, username, email, password).result.Ok?
    ensures var first := RegisterOutcome(rows, nextId, username, email, password);
            && RegisterOutcome(first.rows, first.nextId, username2, email, password2)
               == Registration(Err(BadRequest(EMAIL_TAKEN)), first.rows, first.nextId)
            && (UserRepository.GetByEmail(first.rows, email2).None? ==>
                RegisterOutcome(first.rows, first.nextId, username, email2, password2)
                == Registration(Err(BadRequest(USERNAME_TAKEN)), first.rows, first.nextId))
  {
    RegisterSuccess(rows, nextId, username, email, password);
  }

  // ---------------------------------------------------------------------------------------------
  // Login

  /** The credential check shared by both logins: an unknown username and a wrong password give the
      identical error. */
  function CheckCredentials(rows: seq<User>, username: string, password: string): (r: Result<User, Error>)
    ensures r.Ok? <==> && UserRepository.GetByUsername(rows, username).Some?
                       && Passwords.Verify(password, UserRepository.GetByUsername(rows, username).value.passwordHash)
    ensures r.Ok? ==> r.value in rows && r.value.username == username
                      && Passwords.Verify(password, r.value.passwordHash)
    ensures r.Err? ==> r.error == Unauthorized(INVALID_CREDENTIALS)
  {
    match UserRepository.GetByUsername(rows, username)
    case None => Err(Unauthorized(INVALID_CREDENTIALS))
    case Some(user) =>
      if Passwords.Verify(password, user.passwordHash) then Ok(user) else Err(Unauthorized(INVALID_CREDENTIALS))
  }

  /** No user enumeration: a login for a username nobody has fails with exactly the error of a login
      with a wrong password for one that exists. */
  lemma NoUserEnumeration(rows: seq<User>, unknown: string, password1: string, u: User, password2: string)
    requires UniqueUsernames(rows)
    requires UserRepository.GetByUsername(rows, unknown).None?
    requires u in rows && !Passwords.Verify(password2, u.passwordHash)
    ensures CheckCredentials(rows, unknown, password1) == CheckCredentials(rows, u.username, password2)
  {
    UserRepository.GetByUsernameFindsRow(rows, u);
  }

  /** The presence register after a login of `userId` at `now`: online, with the login instant. */
  function AfterLogin(store: map<Redis.Key, Redis.Entry>, userId: int, now: nat): map<Redis.Key, Redis.Entry>
  {
    store[Redis.IsOnline(userId) := Redis.Entry("1", None)]
         [Redis.LastLogin(userId) := Redis.Entry(Text.NatToString(now), None)]
  }

  /** `login_user_service`: on bad credentials nothing is written; otherwise tokens are issued for the
      user's id and username and the presence keys are written. */
  method LoginUser(repo: UserRepository.Repository, store: Redis.Store, cfg: JwtHandler.Config,
                   username: string, password: string, now: nat) returns (r: Result<LoginResponse, Error>)
    modifies store
    ensures CheckCredentials(repo.rows, username, password).Err?
            ==> r == Err(Unauthorized(INVALID_CREDENTIALS)) && store.entries == old(store.entries)
    ensures CheckCredentials(repo.rows, username, password).Ok?
            ==> var u := CheckCredentials(repo.rows, username, password).value;
                var subject := Text.NatToString(u.id);
                && r == Ok(LoginResponse(LOGIN_OK,
                                         JwtHandler.CreateAccessToken(cfg, subject, u.username, now),
                                         JwtHandler.CreateRefreshToken(cfg, subject, u.username, now),
                                         BEARER, true, now))
                && store.entries == AfterLogin(old(store.entries), u.id, now)
  {
    var checked := CheckCredentials(repo.rows, username, password);
    if checked.Err? {
      return Err(checked.error);
    }
    var user := checked.value;
    var accessToken := JwtHandler.CreateAccessToken(cfg, Text.NatToString(user.id), user.username, now);
    var refreshToken := JwtHandler.CreateRefreshToken(cfg, Text.NatToString(user.id), user.username, now);
    store.Set(Redis.IsOnline(user.id), "1");
    store.Set(Redis.LastLogin(user.id), Text.NatToString(now));
    r := Ok(LoginResponse(LOGIN_OK, accessToken, refreshToken, BEARER, true, now));
  }

  // ---------------------------------------------------------------------------------------------
  // Refresh

  /** The payload names a subject and a username, both non-empty. */
  predicate HasIdentity(claims: Claims)
  {
    claims.sub.Some? && claims.sub.value != "" && claims.username.Some? && claims.username.value != ""
  }

  /** `refresh_token_service`: decoding errors propagate, a payload without identity is refused, and
      otherwise a new access token is issued for the same subject and username. Nothing is stored, so
      the refresh token itself is neither rotated nor invalidated. */
  function RefreshToken(cfg: JwtHandler.Config, token: Token, now: nat): (r: Result<RefreshResponse, Error>)
    ensures JwtHandler.DecodeRefreshToken(cfg, token, now).Err?
            ==> r == Err(JwtHandler.DecodeRefreshToken(cfg, token, now).error)
    ensures r.Ok? <==> JwtHandler.DecodeRefreshToken(cfg, token, now).Ok? && HasIdentity(token.claims)
    ensures JwtHandler.DecodeRefreshToken(cfg, token, now).Ok? && !HasIdentity(token.claims)
            ==> r == Err(Unauthorized(INVALID_REFRESH_PAYLOAD))
    ensures r.Ok? ==> r.value.tokenType == BEARER && r.value.accessToken.Signed?
                      && r.value.accessToken.claims.sub == token.claims.sub
                      && r.value.accessToken.claims.username == token.claims.username
                      && r.value.accessToken.claims.iat == Some(now)
  {
    match JwtHandler.DecodeRefreshToken(cfg, token, now)
    case Err(e) => Err(e)
    case Ok(payload) =>
      if !HasIdentity(payload) then Err(Unauthorized(INVALID_REFRESH_PAYLOAD))
      else Ok(RefreshResponse(JwtHandler.CreateAccessToken(cfg, payload.sub.value, payload.username.value, now), BEARER))
  }

  /** The new access token is itself accepted, and decodes to the refreshed identity, for its whole
      lifetime unless it is blacklisted. */
  lemma RefreshedTokenAccepted(cfg: JwtHandler.Config, store: map<Redis.Key, Redis.Entry>, token: Token, now: nat, t: int)
    requires RefreshToken(cfg, token, now).Ok?
    requires now <= t < now + JwtHandler.AccessTokenLifetime(cfg)
    requires !JwtHandler.Revoked(store, RefreshToken(cfg, token, now).value.accessToken, t)
    ensures JwtHandler.DecodeToken(cfg, store, RefreshToken(cfg, token, now).value.accessToken, t).Ok?
    ensures var c := JwtHandler.DecodeToken(cfg, store, RefreshToken(cfg, token, now).value.accessToken, t).value;
            c.sub == token.claims.sub && c.username == token.claims.username
  {
  }

  /** No rotation: a token that refreshes once refreshes again at any later time before its own expiry. */
  lemma RefreshReusable(cfg: JwtHandler.Config, token: Token, t1: nat, t2: nat)
    requires RefreshToken(cfg, token, t1).Ok?
    requires t1 <= t2 && (token.claims.exp.None? || t2 < token.claims.exp.value)
    ensures RefreshToken(cfg, token, t2).Ok?
  {
  }

  // ---------------------------------------------------------------------------------------------
  // Logout

  /** The blacklist entry's time-to-live: the token's remaining lifetime, never negative. With one clock
      for both `exp` and `now` the entry expires exactly when the token does (or at once if it already
      has). */
  function RevocationTtl(exp: int, now: int): (ttl: nat)
    ensures exp >= now ==> now + ttl == exp
    ensures exp < now ==> ttl == 0
  {
    if exp - now < 0 then 0 else exp - now
  }

  /** The store after `token` (expiring at `exp`) is revoked and `userId` goes offline at `now`. */
  function AfterLogout(store: map<Redis.Key, Redis.Entry>, token: Token, exp: int, userId: int, now: nat)
    : map<Redis.Key, Redis.Entry>
  {
    store[Redis.Blacklist(token) := Redis.Entry("revoked", Some(now + RevocationTtl(exp, now)))]
         [Redis.IsOnline(userId) := Redis.Entry("0", None)]
         [Redis.OfflineSince(userId) := Redis.Entry(Text.NatToString(now), None)]
  }

  /** `logout_user_service`. */
  method LogoutUser(store: Redis.Store, token: Token, exp: int, userId: int, now: nat) returns (r: LogoutResponse)
    modifies store
    ensures store.entries == AfterLogout(old(store.entries), token, exp, userId, now)
    ensures r == LogoutResponse(LOGGED_OUT, false, now)
  {
    var ttl := exp - now;
    if ttl < 0 {
      ttl := 0;
    }
    store.SetEx(Redis.Blacklist(token), ttl, "revoked", now);
    store.Set(Redis.IsOnline(userId), "0");
    store.Set(Redis.OfflineSince(userId), Text.NatToString(now));
    r := LogoutResponse(LOGGED_OUT, false, now);
  }

  /** The blacklist entry is readable exactly until the token's own expiry: it neither outlives the token
      nor disappears before it. */
  lemma RevocationLastsUntilExpiry(store: map<Redis.Key, Redis.Entry>, token: Token, exp: int, userId: int, now: nat, t: int)
    requires now <= t
    ensures Redis.Get(AfterLogout(store, token, exp, userId, now), Redis.Blacklist(token), t).Some? <==> t < exp
    ensures t < exp ==> Redis.Get(AfterLogout(store, token, exp, userId, now), Redis.Blacklist(token), t) == Some("revoked")
  {
  }
}
