# Session, presence and CRUD services of `jvb_backend` and `auth_api_demo`, in Dafny

This project models the authentication back end of the two FastAPI applications in the repository, and
proves properties of the model.

- **Token codec.** `JwtHandler` models `jvb_backend/utils/jwt_handler.py`.
  - A token is a value carrying its claims (`sub`, `username`, `exp`, `iat`), the key and algorithm
    that signed it, and which of the decoder's accepted spellings of that content it is. It verifies
    under a key exactly when it was signed with that key; the blacklist keys on the exact spelling.
  - `decode_token` consults the blacklist before anything else.
  - `decode_refresh_token` verifies with the *access* key, as the code does. It never reads the
    blacklist.
- **Session manager.** `AuthService` models `jvb_backend/services/auth_service.py` and `AuthRoute` models
  `jvb_backend/routers/auth_route.py`.
  - Registration checks the email before the username.
  - Login gives one error for an unknown user and a wrong password, then writes the presence register.
  - Refresh, once the `datetime` import at `jwt_handler.py:10` is corrected (see "## Findings"), mints a
    new access token and stores nothing.
  - Logout blacklists the token for its remaining lifetime and marks the user offline.
- **Presence query.** `UserService` models `jvb_backend/services/user_service.py` and the status route.
- **Tables.** `UserModel`, `UserRepository`, `ItemRepository` and `ItemService` model the users and items
  tables and their services.
- **Demo application.** `DemoAuthService` and `DemoItemService` model its services: the same rules, with
  no presence register and no revocation.

Clocks, the key/value store and the database are parameters or objects of the model:

- **Time** is an explicit integer `now` in seconds.
- **The key/value store** is `Redis.Store`, a map from keys to entries with an optional expiry instant.
  An entry reads as absent once `now` reaches its expiry.
- **Each table** is a class holding its rows in scan order and the next id the table will assign. Ids are
  never reused.
- **The database enforces the declared column constraints**: unique username and email, and the declared
  lengths. An insert or update that violates one is refused, the driver error escapes as a 500, and
  nothing is written.
- **Values in the store are strings.** Instants are written as decimal text and parsed back
  (`Text.ParseNatToString`).

Three behaviours of the code, modelled as written:

- The refresh endpoint verifies refresh tokens with `SECRET_KEY` (`jwt_handler.py:125`).
  - A token from `create_refresh_token` is therefore refused unless the two keys are equal.
  - Once the import at `jwt_handler.py:10` is corrected, any unexpired access token is accepted,
    including one that was revoked at logout (`SessionProperties.RevokedAccessTokenStillRefreshes`).
    As written, every such token gets a 500 instead (`JwtHandler.RefreshAsWrittenFailsOnLiveTokens`).
- The status route never answers 404 "User not found in system": `get_user_status` always returns a
  record, and a user with no presence keys is reported offline with no duration.
  `UserService.NeverLoggedInIsOffline` and `UserService.StatusRouteNeverNotFound` prove this.
- Refresh tokens are not rotated (`AuthService.RefreshReusable`).

## Model

| member | source | states |
|---|---|---|
| `Redis.Get` | jvb_backend/utils/jwt_handler.py:86 | A read finds a value exactly when the key is present and its expiry has not been reached; the value is the stored one. |
| `Redis.Store.Set` | jvb_backend/services/auth_service.py:98-99 | `SET` replaces the key's value, with no expiry, and changes no other key. |
| `Redis.Store.SetEx` | jvb_backend/services/auth_service.py:171 | `SETEX` stores the value readable strictly before `now + ttl`, and changes no other key. |
| `Passwords.Hash` | jvb_backend/utils/password_hash.py:17-27 | The stored digest has a fixed length (42 characters). |
| `Passwords.Verify` | jvb_backend/utils/password_hash.py:30-41 | Proved by `Passwords.HashVerifies`: the check accepts a password against the digest made from it. |
| `Passwords.HashVerifies` | jvb_backend/utils/password_hash.py:30-41 | A digest accepts the password it was made from, and fits the 128-character column. |
| `Text.ParseNatToString` | jvb_backend/services/user_service.py:72 | An instant written as decimal text parses back to the same number. |
| `JwtHandler.DecodeToken` | jvb_backend/utils/jwt_handler.py:84-105 | A blacklisted token gives "Token has been revoked", whatever its signature or expiry. Success holds exactly when the token is not blacklisted, verifies under the access key and is unexpired, and then yields its claims. Otherwise a bad signature gives "Invalid token" before expiry is looked at, and a verified, expired token gives "Token has expired". Every error is a 401. |
| `JwtHandler.CreateAccessToken` | jvb_backend/utils/jwt_handler.py:26-44 | Proved by `JwtHandler.AccessTokenRoundTrip`: the token is signed with the access key and decodes to `sub`, `username`, `iat = now` and `exp = now + minutes*60` until `exp`, unless it is blacklisted. |
| `JwtHandler.CreateRefreshToken` | jvb_backend/utils/jwt_handler.py:47-65 | Proved by `JwtHandler.KeyIsolation` and `JwtHandler.RefreshOutlivesAccess`: the token is signed with the refresh key, so the access decoder refuses it when the keys differ, and under the default lifetimes it expires 604800 s after issue. |
| `JwtHandler.DecodeRefreshToken` | jvb_backend/utils/jwt_handler.py:124-143 | Success holds exactly when the token verifies under the access key and is unexpired, and then yields its claims. A token that does not verify gives "Invalid refresh token", expired or not; a verified, expired one gives "Refresh token expired". It does not depend on the blacklist. Every error is a 401. |
| `JwtHandler.ExpiredRefreshTokenRefused` | jvb_backend/utils/jwt_handler.py:133-137 | A correctly signed token whose `exp` has been reached gives "Refresh token expired". |
| `JwtHandler.BadSignatureInvalid` | jvb_backend/utils/jwt_handler.py:100-105 | A token signed with any other key or algorithm gives "Invalid token" (when not blacklisted) and "Invalid refresh token", whatever its expiry. |
| `JwtHandler.DecodeRefreshTokenAsWritten` | jvb_backend/utils/jwt_handler.py:124-131 | As written, success holds exactly when the token verifies, is unexpired, and has no `exp` or an `exp` of zero. |
| `JwtHandler.AccessTokenRoundTrip` | jvb_backend/utils/jwt_handler.py:37-44 | A new access token carries `sub`, `username`, `iat = now` and `exp = now + minutes*60`. It decodes to exactly those claims until `exp`, unless it is blacklisted. |
| `JwtHandler.ExpiredTokenRefused` | jvb_backend/utils/jwt_handler.py:94-99 | A correctly signed token whose `exp` has been reached gives "Token has expired". |
| `JwtHandler.RevocationCheckedFirst` | jvb_backend/utils/jwt_handler.py:84-91 | A live blacklist entry makes decoding fail as revoked for any token. |
| `JwtHandler.MalformedTokenInvalid` | jvb_backend/utils/jwt_handler.py:100-105 | A malformed token gives "Invalid token" from the access decoder and "Invalid refresh token" from the refresh decoder. |
| `JwtHandler.KeyIsolation` | jvb_backend/utils/jwt_handler.py:58-65 | A refresh token, signed with the refresh key, is an invalid access token when the keys differ. |
| `JwtHandler.RefreshOutlivesAccess` | jvb_backend/utils/jwt_handler.py:22-23 | With the default lifetimes, access tokens expire after 3600 s and refresh tokens after 604800 s. |
| `JwtHandler.RefreshTokenRejectedByRefreshDecoder` | jvb_backend/utils/jwt_handler.py:125 | The refresh decoder refuses `create_refresh_token` output as "Invalid refresh token" whenever the two keys differ. |
| `JwtHandler.AccessTokenAcceptedByRefreshDecoder` | jvb_backend/utils/jwt_handler.py:124-132 | The refresh decoder accepts an access token, with its claims, for the token's whole lifetime. |
| `JwtHandler.ExplicitRecheckNeverDecides` | jvb_backend/utils/jwt_handler.py:126-137 | The explicit `exp < now` re-check never rejects a token that the library has accepted. |
| `JwtHandler.RefreshAsWrittenFailsOnLiveTokens` | jvb_backend/utils/jwt_handler.py:126-131 | As written, every live token with a non-zero `exp` ends in a server error. |
| `JwtHandler.RefreshAsWrittenCounterexample` | jvb_backend/utils/jwt_handler.py:126-131 | A concrete access token, one second old: the corrected decoder returns its claims, while the code as written returns a 500. |
| `UserModel.ReprRedactsHash` | jvb_backend/models/user_model.py:41-43 | The text of a record does not depend on its password hash, and it shows the username. |
| `UserModel.Repr` | jvb_backend/models/user_model.py:41-43 | Proved by `UserModel.ReprRedactsHash`: the text shows the username and does not depend on the password hash. |
| `UserRepository.GetByEmail` | jvb_backend/repositories/user_repository.py:11-12 | The result is a stored record with that email, or `None` when no record has it. |
| `UserRepository.GetByUsername` | jvb_backend/repositories/user_repository.py:14-15 | The result is a stored record with that username, or `None` when no record has it. |
| `UserRepository.GetById` | jvb_backend/repositories/user_repository.py:17-18 | The result is a stored record with that id, or `None` when no record has it. |
| `UserRepository.GetByIdFindsRow` | jvb_backend/models/user_model.py:30 | With unique ids, the lookup by id returns exactly the record that has the id. |
| `UserRepository.GetByUsernameFindsRow` | jvb_backend/models/user_model.py:33 | With unique usernames, the lookup by username returns exactly the record that has it. |
| `UserRepository.GetByEmailFindsRow` | jvb_backend/models/user_model.py:36 | With unique emails, the lookup by email returns exactly the record that has it. |
| `UserRepository.GetAllUsersAgreesWithLookups` | jvb_backend/repositories/user_repository.py:8-9 | The listing holds exactly the records that their own id looks up, and each of them is what its username and email look up. |
| `UserRepository.GetAllUsers` | jvb_backend/repositories/user_repository.py:8-9 | Proved by `UserRepository.GetAllUsersAgreesWithLookups`: the listing holds exactly the records their own id looks up. |
| `UserRepository.InsertKeepsInvariant` | jvb_backend/repositories/user_repository.py:20-29 | An accepted insert keeps ids unique and below the next id, usernames and emails unique, and values within their lengths. The new record is what its id, username and email look up. |
| `UserRepository.Repository.CreateUser` | jvb_backend/repositories/user_repository.py:20-29 | The method has no uniqueness check of its own. An insert the constraints refuse is a 500 with no change. Otherwise one record is added under the next id and returned, existing records stay as they were, and the new username and email look it up. |
| `ItemRepository.GetById` | jvb_backend/repositories/item_repository.py:45-50 | The result is a stored item with that id, or `None` when no item has it. |
| `ItemRepository.GetByIdFindsRow` | jvb_backend/models/items_model.py:24 | With unique ids, the lookup returns exactly the item that has the id. |
| `ItemRepository.GetAllAgreesWithGetById` | jvb_backend/repositories/item_repository.py:52-54 | The listing holds exactly the items that their own id looks up. |
| `ItemRepository.GetAll` | jvb_backend/repositories/item_repository.py:52-54 | Proved by `ItemRepository.GetAllAgreesWithGetById`: the listing holds exactly the items their own id looks up. |
| `ItemRepository.IndexOfAgreesWithGetById` | jvb_backend/repositories/item_repository.py:62 | The position lookup and the item lookup agree on presence and on the item found. |
| `ItemRepository.RenameOnlyThatItem` | jvb_backend/repositories/item_repository.py:62-67 | Renaming in place keeps the table's constraints. The item keeps its id and takes the new name, and every other id looks up as before. |
| `ItemRepository.RemoveOnlyThatItem` | jvb_backend/repositories/item_repository.py:74-78 | Deleting removes exactly one row. Its id then looks up as missing, every other id looks up as before, and the constraints hold. |
| `ItemRepository.ItemTable.Create` | jvb_backend/repositories/item_repository.py:29-43 | The method appends one item with the next id and that name and returns it. Other ids look up as before. A name over 100 characters is a 500 with no change. |
| `ItemRepository.ItemTable.Update` | jvb_backend/repositories/item_repository.py:56-67 | For an existing id, only that item's name changes, in place, and the item is returned with its id. For a missing id the result is `None` with no change. A name that is too long is a 500 with no change. |
| `ItemRepository.ItemTable.Delete` | jvb_backend/repositories/item_repository.py:69-78 | For an existing id, only that item is removed and it is returned; its id then looks up as missing. For a missing id the result is `None` with no change. |
| `ItemService.GetItemById` | jvb_backend/services/item_service.py:46-51 | The call succeeds exactly when some item has the id, returning a stored item with it; otherwise the result is 404 "Item not found". |
| `ItemService.GetItemByIdIsTheItem` | jvb_backend/services/item_service.py:46-51 | With unique ids, the service returns exactly the item that has the id. |
| `ItemService.GetAllItems` | jvb_backend/services/item_service.py:63-66 | The result holds every item, and nothing else. |
| `ItemService.CreateItem` | jvb_backend/services/item_service.py:24-30 | The result is "Item created successfully" with the new item. The new item is found by its id, and other ids are unaffected. |
| `ItemService.UpdateItem` | jvb_backend/services/item_service.py:83-94 | A missing id is a 404 with no change. Otherwise the result is "Item updated successfully" with the item carrying the new name, found by its id, and other ids are unaffected. |
| `ItemService.DeleteItem` | jvb_backend/services/item_service.py:110-118 | A missing id is a 404 with no change. Otherwise the result is "Item deleted successfully", only that item is removed, and its id then gives 404. |
| `AuthService.RegisterUser` | jvb_backend/services/auth_service.py:38-61 | The result and the new table are exactly those of `RegisterOutcome`, and the table's constraints are kept. |
| `AuthService.RegisterChecksEmailFirst` | jvb_backend/services/auth_service.py:40-44 | A taken email gives 400 "Email already registered" even when the username is also taken, and nothing is written. |
| `AuthService.RegisterChecksUsernameSecond` | jvb_backend/services/auth_service.py:46-50 | With the email free, a taken username gives 400 "Username already taken", and nothing is written. |
| `AuthService.RegisterSuccess` | jvb_backend/services/auth_service.py:53-61 | Registration succeeds exactly when the email and username are free and fit their columns. It then adds exactly one record holding the password's hash, returns "User registered successfully", and both lookups find the record. |
| `AuthService.RegisterTwiceFails` | jvb_backend/services/auth_service.py:40-50 | After a registration, registering the same email again, or the same username under a free email, fails with no change. |
| `AuthService.CheckCredentials` | jvb_backend/services/auth_service.py:83-89 | The check succeeds exactly when the username exists and the password verifies against its hash; otherwise the result is 401 "Invalid username or password". |
| `AuthService.NoUserEnumeration` | jvb_backend/services/auth_service.py:83-89 | An unknown username and a wrong password give the identical error. |
| `AuthService.LoginUser` | jvb_backend/services/auth_service.py:81-110 | Bad credentials give a 401 with no store write. Otherwise tokens are issued for `(str(id), username)` at `now`, and `is_online` is set to "1" and `last_login` to `now`, with no other key touched. The response reports online, with the login instant. |
| `AuthService.RefreshToken` | jvb_backend/services/auth_service.py:130-145 | Decoder errors propagate. A payload whose `sub` or `username` is missing or empty gives 401 "Invalid refresh token payload". Otherwise the result is a new bearer access token with the same `sub` and `username`, issued at `now`. |
| `AuthService.RefreshedTokenAccepted` | jvb_backend/services/auth_service.py:143-145 | The refreshed access token decodes to the refreshed identity for its whole lifetime, unless it is blacklisted. |
| `AuthService.RefreshReusable` | jvb_backend/services/auth_service.py:130-145 | There is no rotation: a token that refreshes once refreshes again at any later time before its expiry. |
| `AuthService.RevocationTtl` | jvb_backend/services/auth_service.py:165-168 | The TTL is `exp - now` when that is non-negative, and 0 otherwise, with one clock for both. |
| `AuthService.LogoutUser` | jvb_backend/services/auth_service.py:165-184 | The method writes `blacklist:<token>` = "revoked" for the remaining lifetime, `is_online` = "0" and `offline_since` = `now`. The response reports offline at `now`. |
| `AuthService.RevocationLastsUntilExpiry` | jvb_backend/services/auth_service.py:165-171 | After logout the blacklist entry reads "revoked" at every instant before the token's `exp`, and is gone from `exp` on. |
| `UserService.GetUserById` | jvb_backend/services/user_service.py:28-33 | The call succeeds exactly when a user has the id, returning that stored user; otherwise the result is 404 "User not found". |
| `UserService.GetAllUsers` | jvb_backend/services/user_service.py:45-48 | The result holds every user record, and nothing else. |
| `UserService.MinutesSince` | jvb_backend/services/user_service.py:73-75 | The result is the floor of the elapsed seconds over 60, so `60*m <= now - since < 60*(m+1)`. It is non-negative when `since <= now`. |
| `UserService.MinutesSinceMonotone` | jvb_backend/services/user_service.py:73-75 | The minute count never decreases as the clock advances. |
| `UserService.GetOfflineDuration` | jvb_backend/services/user_service.py:65-78 | The result is `None` exactly when no non-empty `offline_since` is stored. An unparsable value is a 500. Otherwise the result is the minutes since the stored instant. |
| `UserService.GetUserStatus` | jvb_backend/services/user_service.py:95-114 | The record always carries the requested id. It is online exactly when `is_online` reads "1", and then has no duration; otherwise it is offline with the computed duration. |
| `UserService.NeverLoggedInIsOffline` | jvb_backend/services/user_service.py:109-114 | A user with no presence keys is reported offline with no duration. |
| `UserService.CheckUserStatus` | jvb_backend/routers/user_route.py:25-32 | The route returns the record for the requested id. |
| `UserService.StatusRouteNeverNotFound` | jvb_backend/routers/user_route.py:29-30 | The 404 "User not found in system" can never be returned. The only possible error is a 500. |
| `AuthRoute.SubjectUser` | jvb_backend/routers/auth_route.py:21-23 | A missing `sub` is a 500. A `sub` naming no stored user is a 404 "User not found". Otherwise the result is the stored user with that id. |
| `AuthRoute.GetCurrentUser` | jvb_backend/routers/auth_route.py:21-23 | Revoked, expired and invalid errors propagate unchanged. A decoded token resolves to the stored user whose id its `sub` spells. |
| `AuthRoute.IssuedTokenIdentifiesUser` | jvb_backend/routers/auth_route.py:21-23 | An access token issued for a stored user resolves to that user while it is live and not blacklisted. |
| `AuthRoute.Logout` | jvb_backend/routers/auth_route.py:39-44 | The service runs only after the caller resolves to a user, with the token's own `exp` and that user's id; otherwise the error is returned with no write. A token without `exp` is a 500 before the store is written. |
| `DemoAuthService.RegisterUser` | auth_api_demo/services/auth_service.py:8-32 | The method makes exactly the registration decisions and table changes of the session manager: email first, then username, then one hashed record. |
| `DemoAuthService.LoginUser` | auth_api_demo/services/auth_service.py:34-51 | The login succeeds exactly when the credentials check. It then returns "Login successful", a bearer token pair for the user's id and username, and no presence state; otherwise the result is the shared 401. |
| `DemoAuthService.RefreshToken` | auth_api_demo/services/auth_service.py:53-69 | Decoder errors propagate. A missing `sub` or `username` gives 401 "Invalid refresh token payload". Otherwise the result is an access token with the same `sub` and `username`. |
| `DemoAuthService.RefreshAgreesWithSessionManager` | auth_api_demo/services/auth_service.py:56-69 | Given the same decoder, the demo's refresh decides exactly as the session manager's. |
| `DemoAuthService.TokensSurviveLogout` | auth_api_demo/services/auth_service.py:71-72 | Logout returns its message and revokes nothing: an accepted token stays accepted until its expiry. |
| `DemoAuthService.LogoutUser` | auth_api_demo/services/auth_service.py:71-72 | Proved by `DemoAuthService.TokensSurviveLogout`: logout returns "User logged out successfully" and revokes nothing: an accepted token stays accepted until its expiry. |
| `DemoItemService.GetItemById` | auth_api_demo/services/item_service.py:16-20 | The result is 404 "Item not found" exactly when no item has the id; otherwise it is a stored item with it. |
| `DemoItemService.GetItemByIdAgrees` | auth_api_demo/services/item_service.py:16-20 | The demo's lookup returns what the repository-backed service returns, on every table and id. |
| `DemoItemService.GetAllItems` | auth_api_demo/services/item_service.py:22-24 | The result holds every item, and nothing else. |
| `DemoItemService.CreateItem` | auth_api_demo/services/item_service.py:6-14 | The method adds one item with the next id and returns it with "Item created successfully"; the item is then found by its id. |
| `DemoItemService.UpdateItem` | auth_api_demo/services/item_service.py:26-36 | A missing id is a 404 with no change. Otherwise only that item's name is replaced, in place, and the item is returned with "Item updated successfully". |
| `DemoItemService.DeleteItem` | auth_api_demo/services/item_service.py:38-44 | A missing id is a 404 with no change. Otherwise only that item is removed, and its id then gives 404. |
| `SessionProperties.LoginMarksOnline` | jvb_backend/services/auth_service.py:98-99 | After a login, the status query reports the user online with no duration. |
| `SessionProperties.LogoutMarksOffline` | jvb_backend/services/auth_service.py:175-176 | After a logout, the status query reports the user offline with the whole minutes since the logout. |
| `SessionProperties.PresenceFollowsTheLastEvent` | jvb_backend/services/user_service.py:95-114 | Login then logout leaves the user offline with a non-negative duration; logout then login leaves the user online. |
| `SessionProperties.PresenceKeysKept` | jvb_backend/services/auth_service.py:174-176 | A login leaves every `offline_since` as it was, and a logout leaves every `last_login` as it was. |
| `SessionProperties.LoggedOutTokenRefused` | jvb_backend/routers/auth_route.py:39-44 | After logout the token is refused at every later instant: as revoked before its `exp`, and as expired from then on. A second logout with it therefore fails as revoked. |
| `SessionProperties.RevocationSurvives` | jvb_backend/services/auth_service.py:171 | Logins, and logouts of other tokens, leave a token's revocation status unchanged. |
| `SessionProperties.RespelledTokenEscapesRevocation` | jvb_backend/services/auth_service.py:171 | The blacklist holds the exact string: after logout the revoked spelling is refused, while another spelling of the same signed token is still accepted. |
| `SessionProperties.RevokedAccessTokenStillRefreshes` | jvb_backend/routers/auth_route.py:33-37 | An access token revoked at logout is refused by `decode_token`. The refresh endpoint still accepts it, and mints an access token for the same subject until it expires. |
| `SessionProperties.LoginTokenIdentifiesUser` | jvb_backend/services/auth_service.py:92-93 | The access token a login issues resolves to the logged-in user for its lifetime, unless it is blacklisted. |

## Left out

- JSON Web Token encoding and HMAC signatures. A token is a value tagged with its key and algorithm, and "verifies under K" means "was signed with K".
- `AuthService.RefreshToken`: uses the corrected refresh decoder `JwtHandler.DecodeRefreshToken`, and so do `AuthService.RefreshedTokenAccepted`, `AuthService.RefreshReusable`, `DemoAuthService.RefreshAgreesWithSessionManager` and `SessionProperties.RevokedAccessTokenStillRefreshes`. As written (`jwt_handler.py:10`, `127`), every live token this code issues fails at refresh. An access token is a 500 (`JwtHandler.RefreshAsWrittenFailsOnLiveTokens`). A refresh-key token is "Invalid refresh token" when the two keys differ, and a 500 when they are equal.
- `AuthService.RevocationTtl` and `AuthService.LogoutUser` assume a host whose local time zone is UTC. The token's `exp` is counted from `time.time()`, but the logout instant from `datetime.utcnow().timestamp()`, which reads a UTC wall-clock time as local time. East of UTC the blacklist entry outlives the token by the offset. West of UTC the TTL is shortened by the offset. If the offset is smaller than the token's remaining lifetime, the entry vanishes before `exp` and the revoked token is accepted again until then; this happens whenever the access lifetime exceeds the offset, which `Config` allows. If the offset is at least the remaining lifetime, the TTL becomes 0, Redis refuses the `SETEX`, and logout is a 500 with nothing revoked. `AuthService.RevocationLastsUntilExpiry` holds only on a UTC host.
- `JwtHandler.DecodeToken`: the library's expiry boundary is taken as `exp <= now` (PyJWT's, with zero leeway). Claims of the wrong type are not modelled. PyJWT's check that `iat` is not in the future is not modelled either, so `JwtHandler.AccessTokenRoundTrip` and `JwtHandler.AccessTokenAcceptedByRefreshDecoder` also accept a decode instant before the token's `iat`, where recent PyJWT releases answer "Invalid token". The two `time.time()` reads in `create_access_token` and `create_refresh_token` (`jwt_handler.py:40-41`) are modelled as one instant `now`.
- Argon2 and its random salt. `Passwords.Hash` is a deterministic stand-in, and verification compares digests.
- The Redis client, SQLAlchemy sessions (commit, refresh, rollback) and the dotenv/`getenv` configuration. These are modelled as in-memory state and a `Config` value.
- Real Redis refuses `SETEX` with a TTL of 0 (an already expired token at logout). Such an entry is modelled as unreadable at once.
- Float timestamps, `datetime.utcnow` and the ISO-8601 strings in the login and logout responses. Times are whole seconds, and the responses carry the instant itself.
- `UserService.GetOfflineDuration`: returns the minute count, not the text "<n> phút trước". It reads stored instants as decimal integers only, whereas Python's `float` also accepts forms such as `1e9`.
- `AuthRoute.SubjectUser`: a `sub` that is not a decimal number is modelled as matching no user (404). With a strict database the comparison fails and the error escapes as a 500.
- The check-then-insert race in registration, and concurrency in general. Operations run one at a time.
- FastAPI plumbing: routing, `Depends`, header parsing, the `WWW-Authenticate` header, `response_model` filtering and the `main.py` files.
  - The register, login and refresh routes pass straight through to the services, so they are not separate members.
  - The user, item and demo routers also pass straight through.
- Pydantic schemas and `EmailStr` validation. Record shapes are used as plain strings.
- Database id reuse after deletion. The model's ids only increase.
- `auth_api_demo/models/items_model.py`. Its `name` attribute is not declared as a mapped column, so the demo item services are modelled with the `items` table as `jvb_backend/models/items_model.py` declares it.
- The demo application's token helpers and user model are not part of this model. `JwtHandler` and `UserModel` stand in for them.
- `auth_api_demo/services/user_service.py` is a trivial lookup and is not modelled.

## Findings

| source | as written | input that shows it | evidently intended | confidence | as-written member | corrected member |
|---|---|---|---|---|---|---|
| jvb_backend/utils/jwt_handler.py:127 | Line 10 imports the `datetime` module, so `datetime.utcfromtimestamp(exp)` raises `AttributeError`. The handler does not catch it, so every live token with a non-zero `exp` ends in a 500. | The access token for user "1" issued at t=1000 (exp 4600), presented for refresh at t=1001 (`JwtHandler.RefreshAsWrittenCounterexample`; in general `JwtHandler.RefreshAsWrittenFailsOnLiveTokens`). | The class method `datetime.datetime.utcfromtimestamp`, so that a live token's claims are returned. | not executed | `JwtHandler.DecodeRefreshTokenAsWritten` | `JwtHandler.DecodeRefreshToken` |
