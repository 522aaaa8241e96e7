/** User lookups and the presence query (`services/user_service.py`), with the status route that sits on
    top of it (`routers/user_route.py`). */
module UserService {
  import opened Wrappers
  import opened Http
  import opened UserModel
  import UserRepository
  import Redis
  import Text

  const USER_NOT_FOUND := "User not found"
  const USER_NOT_IN_SYSTEM := "User not found in system"
  /** The `is_online` value a login writes. */
  const ONLINE := "1"

  /** `get_user_by_id`: the user with that id, or 404 "User not found". */
  function GetUserById(rows: seq<User>, id: int): (r: Result<User, Error>)
    ensures r.Ok? <==> exists u :: u in rows && u.id == id
    ensures r.Ok? ==> r.value in rows && r.value.id == id
    ensures r.Err? ==> r.error == NotFound(USER_NOT_FOUND)
  {
    match UserRepository.GetById(rows, id)
    case None => Err(NotFound(USER_NOT_FOUND))
    case Some(u) => Ok(u)
  }

  /** `get_all_users_service`: every user record. */
  function GetAllUsers(rows: seq<User>): (r: seq<User>)
    ensures forall u :: u in r <==> u in rows
    ensures |r| == |rows|
  {
    UserRepository.GetAllUsers(rows)
  }

  /** Whole minutes elapsed from `since` to `now`, rounded down as floor division does (so a clock
      that reads before `since` gives a negative count). */
  function MinutesSince(since: int, now: int): (m: int)
    ensures 60 * m <= now - since < 60 * (m + 1)
    ensures since <= now ==> m >= 0
  {
    (now - since) / 60
  }

  /** The count never decreases as the clock advances. */
  lemma MinutesSinceMonotone(since: int, t1: int, t2: int)
    requires t1 <= t2
    ensures MinutesSince(since, t1) <= MinutesSince(since, t2)
  {
  }

  /** `get_offline_duration`: `None` when no offline instant is stored (or it is empty); otherwise the
      whole minutes since that instant. A stored value that is not a number cannot be converted, and
      the conversion error escapes as a server error. */
  function GetOfflineDuration(store: map<Redis.Key, Redis.Entry>, userId: int, now: int): (r: Result<Option<int>, Error>)
    ensures !Redis.Truthy(Redis.Get(store, Redis.OfflineSince(userId), now)) <==> r == Ok(None)
    ensures r.Err? <==> Redis.Truthy(Redis.Get(store, Redis.OfflineSince(userId), now))
                        && Text.ParseNat(Redis.Get(store, Redis.OfflineSince(userId), now).value).None?
    ensures r.Err? ==> r.error == INTERNAL_SERVER_ERROR
    ensures r.Ok? && r.value.Some?
            ==> var since := Text.ParseNat(Redis.Get(store, Redis.OfflineSince(userId), now).value);
                since.Some? && r.value.value == MinutesSince(since.value, now)
  {
    var stored := Redis.Get(store, Redis.OfflineSince(userId), now);
    if !Redis.Truthy(stored) then Ok(None)
    else match Text.ParseNat(stored.value)
      case None => Err(INTERNAL_SERVER_ERROR)
      case Some(since) => Ok(Some(MinutesSince(since, now)))
  }

  /** The presence record `get_user_status` returns. */
  datatype UserStatus = UserStatus(userId: int, isOnline: bool, offlineDuration: Option<int>)

  /** `get_user_status`: online exactly when the stored `is_online` value is "1", and then without a
      duration; otherwise offline with whatever `get_offline_duration` computes. */
  function GetUserStatus(store: map<Redis.Key, Redis.Entry>, userId: int, now: int): (r: Result<UserStatus, Error>)
    ensures r.Ok? ==> r.value.userId == userId
    ensures r.Ok? ==> (r.value.isOnline <==> Redis.Get(store, Redis.IsOnline(userId), now) == Some(ONLINE))
    ensures Redis.Get(store, Redis.IsOnline(userId), now) == Some(ONLINE) ==> r == Ok(UserStatus(userId, true, None))
    ensures Redis.Get(store, Redis.IsOnline(userId), now) != Some(ONLINE)
            ==> match GetOfflineDuration(store, userId, now)
                case Ok(d) => r == Ok(UserStatus(userId, false, d))
                case Err(e) => r == Err(e)
  {
    if Redis.Get(store, Redis.IsOnline(userId), now) == Some(ONLINE) then Ok(UserStatus(userId, true, None))
    else match GetOfflineDuration(store, userId, now)
      case Err(e) => Err(e)
      case Ok(d) => Ok(UserStatus(userId, false, d))
  }

  /** A user with no presence keys at all (one who never logged in) is reported offline with no
      duration, not as missing. */
  lemma NeverLoggedInIsOffline(store: map<Redis.Key, Redis.Entry>, userId: int, now: int)
    requires Redis.IsOnline(userId) !in store && Redis.OfflineSince(userId) !in store
    ensures GetUserStatus(store, userId, now) == Ok(UserStatus(userId, false, None))
  {
  }

  /** `check_user_status`: the route raises 404 only when the service hands back an empty record. */
  function CheckUserStatus(store: map<Redis.Key, Redis.Entry>, userId: int, now: int): (r: Result<UserStatus, Error>)
    ensures r.Ok? ==> r.value.userId == userId
  {
    match GetUserStatus(store, userId, now)
    case Err(e) => Err(e)
    case Ok(status) => Ok(status)
  }

  /** The route's 404 can never be raised: the service always returns a record for the requested id,
      and the only error that can escape is the server error of an unreadable offline instant. */
  lemma StatusRouteNeverNotFound(store: map<Redis.Key, Redis.Entry>, userId: int, now: int)
    ensures CheckUserStatus(store, userId, now) != Err(NotFound(USER_NOT_IN_SYSTEM))
    ensures CheckUserStatus(store, userId, now).Err? ==> CheckUserStatus(store, userId, now).error == INTERNAL_SERVER_ERROR
    ensures CheckUserStatus(store, userId, now).Ok? ==> CheckUserStatus(store, userId, now) == GetUserStatus(store, userId, now)
  {
  }
}
