/** Properties of whole sessions: what logins and logouts do to later status queries, to later requests
    carrying the revoked token, and to refresh. */
module SessionProperties {
  import opened Wrappers
  import opened Http
  import opened Tokens
  import opened UserModel
  import Redis
  import Text
  import JwtHandler
  import AuthService
  import UserService
  import AuthRoute

  /** After a login the user is reported online, at any later instant, until something else writes the
      presence keys. */
  lemma LoginMarksOnline(store: map<Redis.Key, Redis.Entry>, userId: int, loginAt: nat, later: int)
    ensures UserService.GetUserStatus(AuthService.AfterLogin(store, userId, loginAt), userId, later)
            == Ok(UserService.UserStatus(userId, true, None))
  {
  }

  /** After a logout the user is reported offline, with the whole minutes elapsed since the logout:
      the instant written at logout reads back as the same number. */
  lemma {:induction false} LogoutMarksOffline(store: map<Redis.Key, Redis.Entry>, token: Token, exp: int, userId: int,
                                              logoutAt: nat, later: int)
    ensures UserService.GetUserStatus(AuthService.AfterLogout(store, token, exp, userId, logoutAt), userId, later)
            == Ok(UserService.UserStatus(userId, false, Some(UserService.MinutesSince(logoutAt, later))))
  {
    Text.ParseNatToString(logoutAt);
    var after := AuthService.AfterLogout(store, token, exp, userId, logoutAt);
    assert Redis.Get(after, Redis.IsOnline(userId), later) == Some("0");
    assert Redis.Get(after, Redis.OfflineSince(userId), later) == Some(Text.NatToString(logoutAt));
  }

  /** Login then logout leaves the user offline with a duration; logout then login leaves them online. */
  lemma {:induction false} PresenceFollowsTheLastEvent(store: map<Redis.Key, Redis.Entry>, token: Token, exp: int,
                                                       userId: int, first: nat, second: nat, later: int)
    requires first <= second <= later
    ensures UserService.GetUserStatus(
              AuthService.AfterLogout(AuthService.AfterLogin(store, userId, first), token, exp, userId, second), userId, later)
            == Ok(UserService.UserStatus(userId, false, Some(UserService.MinutesSince(second, later))))
    ensures UserService.MinutesSince(second, later) >= 0
    ensures UserService.GetUserStatus(
              AuthService.AfterLogin(AuthService.AfterLogout(store, token, exp, userId, first), userId, second), userId, later)
            == Ok(UserService.UserStatus(userId, true, None))
  {
    LogoutMarksOffline(AuthService.AfterLogin(store, userId, first), token, exp, userId, second, later);
    LoginMarksOnline(AuthService.AfterLogout(store, token, exp, userId, first), userId, second, later);
  }

  /** A login leaves the offline instant of every user as it was, and a logout leaves every last-login
      instant as it was. */
  lemma PresenceKeysKept(store: map<Redis.Key, Redis.Entry>, token: Token, exp: int, userId: int, other: int,
                         at: nat, now: int)
    ensures Redis.Get(AuthService.AfterLogin(store, userId, at), Redis.OfflineSince(other), now)
            == Redis.Get(store, Redis.OfflineSince(other), now)
    ensures Redis.Get(AuthService.AfterLogout(store, token, exp, userId, at), Redis.LastLogin(other), now)
            == Redis.Get(store, Redis.LastLogin(other), now)
  {
  }

  /** A token used to log out is refused at every later instant: as revoked while it would otherwise
      still be live, and as expired from its expiry on, when the blacklist entry has gone. So a second
      logout with it is refused before the service is reached. */
  lemma LoggedOutTokenRefused(rows: seq<User>, store: map<Redis.Key, Redis.Entry>, cfg: JwtHandler.Config,
                              token: Token, logoutAt: nat, later: int)
    requires AuthRoute.GetCurrentUser(rows, store, cfg, token, logoutAt).Ok? && token.claims.exp.Some?
    requires logoutAt <= later
    ensures var exp := token.claims.exp.value;
            var after := AuthService.AfterLogout(store, token, exp,
                           AuthRoute.GetCurrentUser(rows, store, cfg, token, logoutAt).value.id, logoutAt);
            AuthRoute.GetCurrentUser(rows, after, cfg, token, later)
            == Err(Unauthorized(if later < exp then JwtHandler.TOKEN_REVOKED else JwtHandler.TOKEN_EXPIRED))
  {
  }

  /** Logins and logouts of other tokens do not touch a token's blacklist entry. */
  lemma RevocationSurvives(store: map<Redis.Key, Redis.Entry>, token: Token, other: Token, exp: int, userId: int,
                           at: nat, now: int)
    requires other != token
    ensures JwtHandler.Revoked(AuthService.AfterLogin(store, userId, at), token, now) == JwtHandler.Revoked(store, token, now)
    ensures JwtHandler.Revoked(AuthService.AfterLogout(store, other, exp, userId, at), token, now)
            == JwtHandler.Revoked(store, token, now)
  {
  }

  /** Revocation is of the exact string: another spelling of the same signed token, which the decoder
      accepts just as well, is a different blacklist key, and stays accepted after the logout. */
  lemma RespelledTokenEscapesRevocation(store: map<Redis.Key, Redis.Entry>, cfg: JwtHandler.Config, token: Token,
                                        spelling: nat, userId: int, logoutAt: nat, later: int)
    requires token.Signed? && spelling != token.spelling
    requires JwtHandler.DecodeToken(cfg, store, token, logoutAt).Ok? && token.claims.exp.Some?
    requires !JwtHandler.Revoked(store, token.(spelling := spelling), later)
    requires logoutAt <= later < token.claims.exp.value
    ensures var after := AuthService.AfterLogout(store, token, token.claims.exp.value, userId, logoutAt);
            && JwtHandler.DecodeToken(cfg, after, token, later) == Err(Unauthorized(JwtHandler.TOKEN_REVOKED))
            && JwtHandler.DecodeToken(cfg, after, token.(spelling := spelling), later) == Ok(token.claims)
  {
  }

  /** Refresh never reads the blacklist: an access token refused as revoked after logout is still
      accepted by the refresh endpoint (which verifies with the access key), and mints a new access
      token for the same identity, until its own expiry. */
  lemma RevokedAccessTokenStillRefreshes(store: map<Redis.Key, Redis.Entry>, cfg: JwtHandler.Config, token: Token,
                                         userId: int, logoutAt: nat, later: nat)
    requires JwtHandler.DecodeToken(cfg, store, token, logoutAt).Ok?
    requires AuthService.HasIdentity(token.claims) && token.claims.exp.Some?
    requires logoutAt <= later < token.claims.exp.value
    ensures var after := AuthService.AfterLogout(store, token, token.claims.exp.value, userId, logoutAt);
            JwtHandler.DecodeToken(cfg, after, token, later) == Err(Unauthorized(JwtHandler.TOKEN_REVOKED))
    ensures AuthService.RefreshToken(cfg, token, later).Ok?
    ensures AuthService.RefreshToken(cfg, token, later).value.accessToken.claims.sub == token.claims.sub
  {
  }

  /** The access token a login issues resolves to the logged-in user for its whole lifetime, as long as
      it is not blacklisted. */
  lemma LoginTokenIdentifiesUser(rows: seq<User>, nextId: nat, store: map<Redis.Key, Redis.Entry>, cfg: JwtHandler.Config,
                                 username: string, password: string, loginAt: nat, now: int)
    requires TableInvariant(rows, nextId)
    requires AuthService.CheckCredentials(rows, username, password).Ok?
    requires loginAt <= now < loginAt + JwtHandler.AccessTokenLifetime(cfg)
    ensures var u := AuthService.CheckCredentials(rows, username, password).value;
            var token := JwtHandler.CreateAccessToken(cfg, Text.NatToString(u.id), u.username, loginAt);
            var after := AuthService.AfterLogin(store, u.id, loginAt);
            !JwtHandler.Revoked(store, token, now) ==> AuthRoute.GetCurrentUser(rows, after, cfg, token, now) == Ok(u)
  {
    var u := AuthService.CheckCredentials(rows, username, password).value;
    var token := JwtHandler.CreateAccessToken(cfg, Text.NatToString(u.id), u.username, loginAt);
    var after := AuthService.AfterLogin(store, u.id, loginAt);
    assert JwtHandler.Revoked(after, token, now) == JwtHandler.Revoked(store, token, now);
    if !JwtHandler.Revoked(store, token, now) {
      AuthRoute.IssuedTokenIdentifiesUser(rows, nextId, after, cfg, u, loginAt, now);
    }
  }
}
