/** Creating and validating the access and refresh tokens (`utils/jwt_handler.py`). Signing is abstract:
    a token verifies under a key exactly when it was signed with that key and the configured algorithm. */
module JwtHandler {
  import opened Wrappers
  import opened Http
  import opened Tokens
  import Redis

  const DEFAULT_ACCESS_TOKEN_EXPIRE_MINUTES: int := 60
  const DEFAULT_REFRESH_TOKEN_EXPIRE_DAYS: int := 7

  const TOKEN_REVOKED := "Token has been revoked"
  const TOKEN_EXPIRED := "Token has expired"
  const INVALID_TOKEN := "Invalid token"
  const REFRESH_TOKEN_EXPIRED := "Refresh token expired"
  const INVALID_REFRESH_TOKEN := "Invalid refresh token"

  /** The settings read from the environment once at start-up. */
  datatype Config = Config(
    secretKey: string,
    refreshSecretKey: string,
    algorithm: string,
    accessTokenExpireMinutes: int,
    refreshTokenExpireDays: int)

  /** The configuration when the two lifetimes are left unset. */
  function DefaultConfig(secretKey: string, refreshSecretKey: string, algorithm: string): Config
  {
    Config(secretKey, refreshSecretKey, algorithm, DEFAULT_ACCESS_TOKEN_EXPIRE_MINUTES, DEFAULT_REFRESH_TOKEN_EXPIRE_DAYS)
  }

  function AccessTokenLifetime(cfg: Config): int { cfg.accessTokenExpireMinutes * 60 }

  function RefreshTokenLifetime(cfg: Config): int { cfg.refreshTokenExpireDays * 24 * 3600 }

  /** `create_access_token` at time `now`; `subject` is `str(user_id)`. */
  function CreateAccessToken(cfg: Config, subject: string, username: string, now: nat): Token
  {
    Signed(Claims(Some(subject), Some(username), Some(now + AccessTokenLifetime(cfg)), Some(now)),
           cfg.secretKey, cfg.algorithm, 0)
  }

  /** `create_refresh_token` at time `now`: the same claims, a longer lifetime and the refresh key. */
  function CreateRefreshToken(cfg: Config, subject: string, username: string, now: nat): Token
  {
    Signed(Claims(Some(subject), Some(username), Some(now + RefreshTokenLifetime(cfg)), Some(now)),
           cfg.refreshSecretKey, cfg.algorithm, 0)
  }

  /** The two exceptions of the JWT library that the handlers catch. */
  datatype DecodeFailure = ExpiredSignature | InvalidToken

  /** The token's signature checks out under `key` with `algorithm`, however the token is spelled. */
  predicate VerifiesUnder(token: Token, key: string, algorithm: string)
  {
    token.Signed? && token.key == key && token.algorithm == algorithm
  }

  /** The library's own expiry test: a token is expired once `now` has reached its `exp`. */
  predicate LibraryExpired(claims: Claims, now: int)
  {
    claims.exp.Some? && claims.exp.value <= now
  }

  /** `jwt.decode(token, key, algorithms=[algorithm])`: the signature is checked first, then `exp`. */
  function LibraryDecode(token: Token, key: string, algorithm: string, now: int): Result<Claims, DecodeFailure>
  {
    if !VerifiesUnder(token, key, algorithm) then Err(InvalidToken)
    else if LibraryExpired(token.claims, now) then Err(ExpiredSignature)
    else Ok(token.claims)
  }

  /** The blacklist holds `blacklist:<token>` with a truthy value at time `now`. */
  predicate Revoked(store: map<Redis.Key, Redis.Entry>, token: Token, now: int)
  {
    Redis.Truthy(Redis.Get(store, Redis.Blacklist(token), now))
  }

  /** `decode_token`: the blacklist is consulted before anything about the token is checked; then the
      token must verify under the access key and must not be expired. */
  function DecodeToken(cfg: Config, store: map<Redis.Key, Redis.Entry>, token: Token, now: int): (r: Result<Claims, Error>)
    ensures Revoked(store, token, now) ==> r == Err(Unauthorized(TOKEN_REVOKED))
    ensures r.Ok? <==> !Revoked(store, token, now) && VerifiesUnder(token, cfg.secretKey, cfg.algorithm)
                       && !LibraryExpired(token.claims, now)
    ensures r.Ok? ==> r.value == token.claims
    ensures !Revoked(store, token, now) && !VerifiesUnder(token, cfg.secretKey, cfg.algorithm)
            ==> r == Err(Unauthorized(INVALID_TOKEN))
    ensures !Revoked(store, token, now) && VerifiesUnder(token, cfg.secretKey, cfg.algorithm) && LibraryExpired(token.claims, now)
            ==> r == Err(Unauthorized(TOKEN_EXPIRED))
    ensures r.Err? ==> r.error.status == UNAUTHORIZED
  {
    if Revoked(store, token, now) then Err(Unauthorized(TOKEN_REVOKED))
    else match LibraryDecode(token, cfg.secretKey, cfg.algorithm, now)
      case Ok(claims) => Ok(claims)
      case Err(ExpiredSignature) => Err(Unauthorized(TOKEN_EXPIRED))
      case Err(InvalidToken) => Err(Unauthorized(INVALID_TOKEN))
  }

  /** The explicit re-check after verification: a present, non-zero `exp` that lies before `now`. */
  predicate ExplicitlyExpired(claims: Claims, now: int)
  {
    claims.exp.Some? && claims.exp.value != 0 && claims.exp.value < now
  }

  /** `decode_refresh_token` with its module import corrected (see `DecodeRefreshTokenAsWritten`).
      It verifies with the ACCESS key, as the code does, and never looks at the blacklist. */
  function DecodeRefreshToken(cfg: Config, token: Token, now: int): (r: Result<Claims, Error>)
    ensures r.Ok? <==> VerifiesUnder(token, cfg.secretKey, cfg.algorithm) && !LibraryExpired(token.claims, now)
    ensures r.Ok? ==> r.value == token.claims
    ensures !VerifiesUnder(token, cfg.secretKey, cfg.algorithm) ==> r == Err(Unauthorized(INVALID_REFRESH_TOKEN))
    ensures VerifiesUnder(token, cfg.secretKey, cfg.algorithm) && LibraryExpired(token.claims, now)
            ==> r == Err(Unauthorized(REFRESH_TOKEN_EXPIRED))
    ensures r.Err? ==> r.error.status == UNAUTHORIZED
  {
    match LibraryDecode(token, cfg.secretKey, cfg.algorithm, now)
    case Ok(claims) =>
      if ExplicitlyExpired(claims, now) then Err(Unauthorized(REFRESH_TOKEN_EXPIRED)) else Ok(claims)
    case Err(ExpiredSignature) => Err(Unauthorized(REFRESH_TOKEN_EXPIRED))
    case Err(InvalidToken) => Err(Unauthorized(INVALID_REFRESH_TOKEN))
  }

  /** `decode_refresh_token` exactly as written: the module imports `datetime` as a module, so the call
      `datetime.utcfromtimestamp(exp)` in the re-check raises `AttributeError` whenever `exp` is truthy.
      That exception is neither of the two the handler catches, so it escapes as a server error. */
  function DecodeRefreshTokenAsWritten(cfg: Config, token: Token, now: int): (r: Result<Claims, Error>)
    ensures r.Ok? <==> VerifiesUnder(token, cfg.secretKey, cfg.algorithm) && !LibraryExpired(token.claims, now)
                       && (token.claims.exp.None? || token.claims.exp.value == 0)
  {
    match LibraryDecode(token, cfg.secretKey, cfg.algorithm, now)
    case Ok(claims) =>
      if claims.exp.Some? && claims.exp.value != 0 then Err(INTERNAL_SERVER_ERROR) else Ok(claims)
    case Err(ExpiredSignature) => Err(Unauthorized(REFRESH_TOKEN_EXPIRED))
    case Err(InvalidToken) => Err(Unauthorized(INVALID_REFRESH_TOKEN))
  }

  // ---------------------------------------------------------------------------------------------
  // Properties of the codec

  /** A fresh access token decodes to exactly the claims it was created with until its expiry,
      provided it has not been blacklisted. */
  lemma AccessTokenRoundTrip(cfg: Config, store: map<Redis.Key, Redis.Entry>, subject: string, username: string,
                             issuedAt: nat, now: int)
    requires now < issuedAt + AccessTokenLifetime(cfg)
    requires !Revoked(store, CreateAccessToken(cfg, subject, username, issuedAt), now)
    ensures DecodeToken(cfg, store, CreateAccessToken(cfg, subject, username, issuedAt), now)
            == Ok(Claims(Some(subject), Some(username), Some(issuedAt + AccessTokenLifetime(cfg)), Some(issuedAt)))
  {
  }

  /** A token whose signature is valid but whose `exp` has been reached is refused as expired. */
  lemma ExpiredTokenRefused(cfg: Config, store: map<Redis.Key, Redis.Entry>, token: Token, now: int)
    requires VerifiesUnder(token, cfg.secretKey, cfg.algorithm) && LibraryExpired(token.claims, now)
    requires !Revoked(store, token, now)
    ensures DecodeToken(cfg, store, token, now) == Err(Unauthorized(TOKEN_EXPIRED))
  {
  }

  /** A blacklisted token is refused as revoked whatever its signature and expiry. */
  lemma RevocationCheckedFirst(cfg: Config, store: map<Redis.Key, Redis.Entry>, token: Token, now: int)
    requires Redis.Get(store, Redis.Blacklist(token), now) == Some("revoked")
    ensures DecodeToken(cfg, store, token, now) == Err(Unauthorized(TOKEN_REVOKED))
  {
  }

  /** A refresh token fails as an access token when the two keys differ. */
  lemma KeyIsolation(cfg: Config, store: map<Redis.Key, Redis.Entry>, subject: string, username: string,
                     issuedAt: nat, now: int)
    requires cfg.secretKey != cfg.refreshSecretKey
    requires !Revoked(store, CreateRefreshToken(cfg, subject, username, issuedAt), now)
    ensures DecodeToken(cfg, store, CreateRefreshToken(cfg, subject, username, issuedAt), now)
            == Err(Unauthorized(INVALID_TOKEN))
  {
  }

  /** A correctly signed token whose `exp` has been reached is refused as an expired refresh token. */
  lemma ExpiredRefreshTokenRefused(cfg: Config, token: Token, now: int)
    requires VerifiesUnder(token, cfg.secretKey, cfg.algorithm) && LibraryExpired(token.claims, now)
    ensures DecodeRefreshToken(cfg, token, now) == Err(Unauthorized(REFRESH_TOKEN_EXPIRED))
  {
  }

  /** A token signed with any other key or algorithm is refused as invalid by both decoders (unless the
      access decoder finds it blacklisted), expired or not: the signature is checked before the expiry. */
  lemma BadSignatureInvalid(cfg: Config, store: map<Redis.Key, Redis.Entry>, token: Token, now: int)
    requires !Revoked(store, token, now) && !VerifiesUnder(token, cfg.secretKey, cfg.algorithm)
    ensures DecodeToken(cfg, store, token, now) == Err(Unauthorized(INVALID_TOKEN))
    ensures DecodeRefreshToken(cfg, token, now) == Err(Unauthorized(INVALID_REFRESH_TOKEN))
  {
  }

  /** A token that is not a well-formed signed token is refused as invalid, unless it is blacklisted. */
  lemma MalformedTokenInvalid(cfg: Config, store: map<Redis.Key, Redis.Entry>, text: string, now: int)
    requires !Revoked(store, Garbled(text), now)
    ensures DecodeToken(cfg, store, Garbled(text), now) == Err(Unauthorized(INVALID_TOKEN))
    ensures DecodeRefreshToken(cfg, Garbled(text), now) == Err(Unauthorized(INVALID_REFRESH_TOKEN))
  {
  }

  /** With the default lifetimes a refresh token outlives the access token issued with it. */
  lemma RefreshOutlivesAccess(secretKey: string, refreshSecretKey: string, algorithm: string,
                              subject: string, username: string, now: nat)
    ensures var cfg := DefaultConfig(secretKey, refreshSecretKey, algorithm);
            CreateAccessToken(cfg, subject, username, now).claims.exp.value == now + 3600
            && CreateRefreshToken(cfg, subject, username, now).claims.exp.value == now + 604800
  {
  }

  /** Because the refresh decoder uses the access key, a refresh token from `CreateRefreshToken` is
      rejected as invalid unless the two keys coincide ... */
  lemma RefreshTokenRejectedByRefreshDecoder(cfg: Config, subject: string, username: string, issuedAt: nat, now: int)
    requires cfg.secretKey != cfg.refreshSecretKey
    ensures DecodeRefreshToken(cfg, CreateRefreshToken(cfg, subject, username, issuedAt), now)
            == Err(Unauthorized(INVALID_REFRESH_TOKEN))
  {
  }

  /** ... while an access token is accepted by it for its whole lifetime. */
  lemma AccessTokenAcceptedByRefreshDecoder(cfg: Config, subject: string, username: string, issuedAt: nat, now: int)
    requires now < issuedAt + AccessTokenLifetime(cfg)
    ensures DecodeRefreshToken(cfg, CreateAccessToken(cfg, subject, username, issuedAt), now)
            == Ok(CreateAccessToken(cfg, subject, username, issuedAt).claims)
  {
  }

  /** Under the library's expiry boundary the explicit re-check can never reject: every token it would
      catch has already been refused by the library as expired. */
  lemma {:induction false} ExplicitRecheckNeverDecides(cfg: Config, token: Token, now: int)
    ensures DecodeRefreshToken(cfg, token, now).Ok?
            <==> LibraryDecode(token, cfg.secretKey, cfg.algorithm, now).Ok?
    ensures LibraryDecode(token, cfg.secretKey, cfg.algorithm, now).Ok? ==> !ExplicitlyExpired(token.claims, now)
  {
  }

  /** The defect in the code as written: a live token that the corrected decoder accepts, and that
      carries a non-zero `exp` as every token this code issues does, ends in a server error. */
  lemma RefreshAsWrittenFailsOnLiveTokens(cfg: Config, token: Token, now: int)
    requires DecodeRefreshToken(cfg, token, now).Ok?
    requires token.claims.exp.Some? && token.claims.exp.value != 0
    ensures DecodeRefreshTokenAsWritten(cfg, token, now) == Err(INTERNAL_SERVER_ERROR)
  {
  }

  /** A concrete instance: the access token issued to user 1 at time 1000 under the default lifetimes,
      presented for refresh one second later. */
  lemma RefreshAsWrittenCounterexample()
    ensures var cfg := DefaultConfig("k", "r", "HS256");
            var token := CreateAccessToken(cfg, "1", "alice", 1000);
            DecodeRefreshToken(cfg, token, 1001) == Ok(Claims(Some("1"), Some("alice"), Some(4600), Some(1000)))
            && DecodeRefreshTokenAsWritten(cfg, token, 1001) == Err(INTERNAL_SERVER_ERROR)
  {
  }
}
