/** The key/value store with per-key expiry that holds the token blacklist and the presence register. */
module Redis {
  import opened Wrappers
  import opened Tokens

  /** The store's key namespace: `blacklist:<token>`, `user:<id>:is_online`,
      `user:<id>:last_login` and `user:<id>:offline_since`. */
  datatype Key = Blacklist(token: Token) | IsOnline(userId: int) | LastLogin(userId: int) | OfflineSince(userId: int)

  /** A stored string, and the instant at which it stops being readable (`None`: it never expires). */
  datatype Entry = Entry(value: string, expiresAt: Option<int>)

  predicate Live(e: Entry, now: int)
  {
    e.expiresAt.None? || now < e.expiresAt.value
  }

  /** `GET key` at time `now`: an entry whose time-to-live has run out reads as absent. */
  function Get(entries: map<Key, Entry>, k: Key, now: int): (r: Option<string>)
    ensures r.Some? <==> k in entries && Live(entries[k], now)
    ensures r.Some? ==> r.value == entries[k].value
  {
    if k in entries && Live(entries[k], now) then Some(entries[k].value) else None
  }

  /** Python truthiness of what `GET` returned: present and not the empty string. */
  predicate Truthy(v: Option<string>)
  {
    v.Some? && v.value != ""
  }

  /** The store behind the shared client. */
  class Store {
    var entries: map<Key, Entry>

    constructor ()
      ensures entries == map[]
    {
      entries := map[];
    }

    /** `SET key value`: stores the value with no expiry, replacing any earlier value and time-to-live. */
    method Set(k: Key, v: string)
      modifies this
      ensures entries == old(entries)[k := Entry(v, None)]
    {
      entries := entries[k := Entry(v, None)];
    }

    /** `SETEX key ttl value` at time `now`: the value is readable strictly before `now + ttl`,
        so a time-to-live of 0 leaves the key unreadable at once. */
    method SetEx(k: Key, ttl: nat, v: string, now: int)
      modifies this
      ensures entries == old(entries)[k := Entry(v, Some(now + ttl))]
    {
      entries := entries[k := Entry(v, Some(now + ttl))];
    }
  }
}
