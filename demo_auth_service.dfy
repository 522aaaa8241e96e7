/** The demo application's authentication services (`auth_api_demo/services/auth_service.py`): the same
    registration, credential and refresh rules as the session manager, with no presence register and no
    blacklist. Its token helpers are not part of this model; `JwtHandler` stands in for them. */
module DemoAuthService {
  import opened Wrappers
  import opened Http
  import opened Tokens
  import opened UserModel
  import UserRepository
  import Text
  import JwtHandler
  import AuthService
  import Passwords

  datatype LoginResponse = LoginResponse(message: string, accessToken: Token, refreshToken: Token, tokenType: string)

  /** `register_user_service`: email checked first, then username, then one record inserted with the
      hashed password. It makes the same decisions as the session manager's registration. */
  method RegisterUser(repo: UserRepository.Repository, username: string, email: string, password: string)
    returns (r: Result<string, Error>)
    requires repo.Valid()
    modifies repo
    ensures repo.Valid()
    ensures AuthService.Registration(r, repo.rows, repo.nextId)
            == AuthService.RegisterOutcome(old(repo.rows), old(repo.nextId), username, email, password)
  {
    if UserRepository.GetByEmail(repo.rows, email).Some? {
      return Err(BadRequest(AuthService.EMAIL_TAKEN));
    }
    if UserRepository.GetByUsername(repo.rows, username).Some? {
      return Err(BadRequest(AuthService.USERNAME_TAKEN));
    }
    var hashed := Passwords.Hash(password);
    var inserted := repo.CreateUser(username, hashed, email);
    if inserted.Err? {
      return Err(inserted.error);
    }
    r := Ok(AuthService.REGISTERED);
  }

  /** `login_user_service`: the shared credential check, then a token pair for the user's id and
      username. It reads the table only and writes nothing anywhere. */
  function LoginUser(rows: seq<User>, cfg: JwtHandler.Config, username: string, password: string, now: nat)
    : (r: Result<LoginResponse, Error>)
    ensures r.Ok? <==> AuthService.CheckCredentials(rows, username, password).Ok?
    ensures r.Err? ==> r.error == Unauthorized(AuthService.INVALID_CREDENTIALS)
    ensures r.Ok? ==> var u := AuthService.CheckCredentials(rows, username, password).value;
                      && r.value.message == AuthService.LOGIN_OK && r.value.tokenType == AuthService.BEARER
                      && r.value.accessToken == JwtHandler.CreateAccessToken(cfg, Text.NatToString(u.id), u.username, now)
                      && r.value.refreshToken == JwtHandler.CreateRefreshToken(cfg, Text.NatToString(u.id), u.username, now)
  {
    match AuthService.CheckCredentials(rows, username, password)
    case Err(e) => Err(e)
    case Ok(u) =>
      Ok(LoginResponse(AuthService.LOGIN_OK,
                       JwtHandler.CreateAccessToken(cfg, Text.NatToString(u.id), u.username, now),
                       JwtHandler.CreateRefreshToken(cfg, Text.NatToString(u.id), u.username, now),
                       AuthService.BEARER))
  }

  /** `refresh_token_service`, given what the demo's refresh decoder made of the token: its error is
      returned unchanged, a payload without identity is refused, and otherwise an access token is issued
      for the same subject and username. */
  function RefreshToken(cfg: JwtHandler.Config, decoded: Result<Claims, Error>, now: nat): (r: Result<AuthService.RefreshResponse, Error>)
    ensures decoded.Err? ==> r == Err(decoded.error)
    ensures decoded.Ok? && !AuthService.HasIdentity(decoded.value) ==> r == Err(Unauthorized(AuthService.INVALID_REFRESH_PAYLOAD))
    ensures decoded.Ok? && AuthService.HasIdentity(decoded.value)
            ==> r == Ok(AuthService.RefreshResponse(
                          JwtHandler.CreateAccessToken(cfg, decoded.value.sub.value, decoded.value.username.value, now),
                          AuthService.BEARER))
  {
    match decoded
    case Err(e) => Err(e)
    case Ok(payload) =>
      if !AuthService.HasIdentity(payload) then Err(Unauthorized(AuthService.INVALID_REFRESH_PAYLOAD))
      else Ok(AuthService.RefreshResponse(JwtHandler.CreateAccessToken(cfg, payload.sub.value, payload.username.value, now),
                                          AuthService.BEARER))
  }

  /** Given the session manager's refresh decoder, the demo's refresh makes exactly the session
      manager's decision. */
  lemma RefreshAgreesWithSessionManager(cfg: JwtHandler.Config, token: Token, now: nat)
    ensures RefreshToken(cfg, JwtHandler.DecodeRefreshToken(cfg, token, now), now) == AuthService.RefreshToken(cfg, token, now)
  {
  }

  /** `logout_user_service`: only the confirmation message; nothing is revoked. */
  function LogoutUser(): string
  {
    AuthService.LOGGED_OUT
  }

  /** Logout always succeeds with its message, and since nothing is ever blacklisted, a token accepted
      once stays accepted at every later instant before its expiry, whatever logouts happen in between. */
  lemma TokensSurviveLogout(cfg: JwtHandler.Config, token: Token, now: int, later: int)
    requires JwtHandler.DecodeToken(cfg, map[], token, now).Ok?
    requires now <= later && (token.claims.exp.None? || later < token.claims.exp.value)
    ensures LogoutUser() == AuthService.LOGGED_OUT
    ensures JwtHandler.DecodeToken(cfg, map[], token, later) == JwtHandler.DecodeToken(cfg, map[], token, now)
  {
  }
}
