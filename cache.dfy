/**
 * The distributed cache (a Redis instance behind IDistributedCache) and the two services over it:
 * RedisCacheService, the JSON object cache, and TokenBlacklistService, the revoked-token registry.
 * Both services share one store. Times are instants in seconds; an entry is live strictly before
 * its expiry instant. JSON serialisation is an exact round trip: what the object cache writes is
 * the value itself, tagged Serialized. `available` is false while the store cannot be reached; every
 * store call then throws.
 */
module Cache {
  import opened Wrappers

  /** What a key holds: text the JSON serializer wrote, or a raw string written directly. */
  datatype Stored<V> = Serialized(value: V) | Raw(text: string)

  datatype Entry<V> = Entry(stored: Stored<V>, expiresAt: int)

  /** The exception a store call raises. */
  datatype CacheError = StoreUnavailable | ExpirationNotInFuture

  /**
   * The validated token the bearer handler passes to its events: a JwtSecurityToken with its raw
   * text, or a token of another SecurityToken type (a JsonWebToken, say).
   */
  datatype SecurityToken = JwtSecurityToken(RawData: string) | OtherToken

  /** 00:15:00, the default entry lifetime when none is configured. */
  const DefaultExpiration: int := 15 * 60

  /** The instance name used when none is configured. */
  const DefaultInstanceName: string := "TaskManagementAPI"

  /** What the store returns for `key` at `now`. */
  function Lookup<V>(entries: map<string, Entry<V>>, key: string, now: int): Option<Stored<V>> {
    if key in entries && now < entries[key].expiresAt then Some(entries[key].stored) else None
  }

  /** GetAsync on a reachable store: the deserialized object, or null (absent, expired or not JSON). */
  function CacheGet<V>(entries: map<string, Entry<V>>, key: string, now: int): (r: Option<V>)
    ensures r.Some? <==> Lookup(entries, key, now).Some? && Lookup(entries, key, now).value.Serialized?
    ensures r.Some? ==> Lookup(entries, key, now) == Some(Serialized(r.value))
  {
    match Lookup(entries, key, now)
    case Some(Serialized(v)) => Some(v)
    case _ => None
  }

  /** The store after SetAsync with lifetime `ttl`: a non-positive lifetime is refused, and swallowed. */
  function CacheSet<V>(entries: map<string, Entry<V>>, key: string, value: V, ttl: int, now: int): map<string, Entry<V>> {
    if ttl > 0 then entries[key := Entry(Serialized(value), now + ttl)] else entries
  }

  /** The store after the blacklist entry for `token` is written with absolute expiry `expiresAt`. */
  function Blacklisted<V>(entries: map<string, Entry<V>>, token: string, expiresAt: int): map<string, Entry<V>> {
    entries[token := Entry(Raw(BlacklistMarker), expiresAt)]
  }

  const BlacklistMarker: string := "blacklisted"

  /** A value set with a positive lifetime is returned for its key until the lifetime ends, and not after. */
  lemma GetAfterSet<V>(entries: map<string, Entry<V>>, key: string, value: V, ttl: int, now: int, later: int)
    requires ttl > 0 && now <= later
    ensures CacheGet(CacheSet(entries, key, value, ttl, now), key, later) ==
            if later < now + ttl then Some(value) else None
  {
  }

  /** Setting one key leaves the lookups of every other key as they were. */
  lemma SetLeavesOtherKeys<V>(entries: map<string, Entry<V>>, key: string, value: V, ttl: int, now: int, other: string, at: int)
    requires other != key
    ensures Lookup(CacheSet(entries, key, value, ttl, now), other, at) == Lookup(entries, other, at)
  {
  }

  /** A removed key is a miss afterwards; every other key is unaffected. */
  lemma GetAfterRemove<V>(entries: map<string, Entry<V>>, key: string, other: string, at: int)
    ensures Lookup(entries - {key}, key, at) == None
    ensures other != key ==> Lookup(entries - {key}, other, at) == Lookup(entries, other, at)
  {
  }

  /** A blacklisted token is reported at every instant before the expiry it was given. */
  lemma BlacklistedUntilExpiry<V>(entries: map<string, Entry<V>>, token: string, expiresAt: int, at: int)
    ensures Lookup(Blacklisted(entries, token, expiresAt), token, at).Some? <==> at < expiresAt
  {
  }

  /** The store behind IDistributedCache. */
  class DistributedCache<V> {
    var entries: map<string, Entry<V>>
    var available: bool

    constructor (reachable: bool)
      ensures entries == map[] && available == reachable
    {
      entries, available := map[], reachable;
    }

    /** SetStringAsync: replace whatever `key` held. */
    method Put(key: string, stored: Stored<V>, expiresAt: int)
      modifies this
      ensures entries == old(entries)[key := Entry(stored, expiresAt)] && available == old(available)
    {
      entries := entries[key := Entry(stored, expiresAt)];
    }

    /** RemoveAsync: forget `key`. */
    method Delete(key: string)
      modifies this
      ensures entries == old(entries) - {key} && available == old(available)
    {
      entries := entries - {key};
    }
  }

  /** RedisCacheService: JSON objects under unprefixed string keys, with a default lifetime. */
  class RedisCacheService<V> {
    const store: DistributedCache<V>
    const defaultExpiration: int
    /** Read from the configuration and never used: keys go to the store unprefixed. */
    const instanceName: string

    constructor (distributedCache: DistributedCache<V>, configuredExpiration: Option<int>, configuredInstanceName: Option<string>)
      ensures store == distributedCache
      ensures defaultExpiration == configuredExpiration.GetOr(DefaultExpiration)
      ensures instanceName == configuredInstanceName.GetOr(DefaultInstanceName)
    {
      store := distributedCache;
      defaultExpiration := configuredExpiration.GetOr(DefaultExpiration);
      instanceName := configuredInstanceName.GetOr(DefaultInstanceName);
    }

    /** GetAsync: never throws; an unreachable store, a miss and a value that is not JSON all give null. */
    method GetAsync(key: string, now: int) returns (r: Option<V>)
      ensures r == if store.available then CacheGet(store.entries, key, now) else None
      ensures r.Some? ==> store.available && key in store.entries && now < store.entries[key].expiresAt
      ensures r.Some? ==> store.entries[key].stored == Serialized(r.value)
    {
      if !store.available {
        return None;
      }
      r := CacheGet(store.entries, key, now);
    }

    /**
     * SetAsync: store `value` under `key` until now + the lifetime (the default when none is
     * given). Failures are swallowed: an unreachable store, or a lifetime that is not positive,
     * which the entry options refuse, leave the store as it was.
     */
    method SetAsync(key: string, value: V, expiration: Option<int>, now: int)
      modifies store
      ensures store.available == old(store.available)
      ensures store.entries == if old(store.available)
                               then CacheSet(old(store.entries), key, value, expiration.GetOr(defaultExpiration), now)
                               else old(store.entries)
    {
      var ttl := expiration.GetOr(defaultExpiration);
      if !store.available || ttl <= 0 {
        return;
      }
      store.Put(key, Serialized(value), now + ttl);
    }

    /** RemoveAsync: forget `key`; failures are swallowed. */
    method RemoveAsync(key: string)
      modifies store
      ensures store.available == old(store.available)
      ensures store.entries == if old(store.available) then old(store.entries) - {key} else old(store.entries)
    {
      if !store.available {
        return;
      }
      store.Delete(key);
    }
  }

  /** TokenBlacklistService: entries keyed by the raw token; store failures reach the caller. */
  class TokenBlacklistService<V> {
    const store: DistributedCache<V>

    constructor (distributedCache: DistributedCache<V>)
      ensures store == distributedCache
    {
      store := distributedCache;
    }

    /**
     * AddTokenToBlacklistAsync: mark `token` until the absolute instant `expiresAt`. The store
     * refuses an absolute expiration that is not in the future.
     */
    method AddTokenToBlacklistAsync(token: string, expiresAt: int, now: int) returns (r: Outcome<CacheError>)
      modifies store
      ensures store.available == old(store.available)
      ensures r == if !old(store.available) then Fail(StoreUnavailable)
                   else if expiresAt <= now then Fail(ExpirationNotInFuture) else Pass
      ensures store.entries == if r.Pass? then Blacklisted(old(store.entries), token, expiresAt) else old(store.entries)
    {
      if !store.available {
        return Fail(StoreUnavailable);
      }
      if expiresAt <= now {
        return Fail(ExpirationNotInFuture);
      }
      store.Put(token, Raw(BlacklistMarker), expiresAt);
      r := Pass;
    }

    /** IsTokenBlacklistedAsync: whether any live value is stored under the token. */
    method IsTokenBlacklistedAsync(token: string, now: int) returns (r: Result<bool, CacheError>)
      ensures r.Failure? <==> !store.available
      ensures r.Failure? ==> r.error == StoreUnavailable
      ensures r.Success? ==> (r.value <==> token in store.entries && now < store.entries[token].expiresAt)
      ensures r.Success? ==> (r.value <==> Lookup(store.entries, token, now).Some?)
    {
      if !store.available {
        return Failure(StoreUnavailable);
      }
      var value := Lookup(store.entries, token, now);
      r := Success(value != None);
    }

    /**
     * The OnTokenValidated hook of the bearer-token handler. It looks the token up only when the
     * handler's validated token is a JwtSecurityToken, by its raw text; a validated token of any
     * other type is accepted without a lookup. A looked-up token is refused exactly when it is
     * blacklisted. When the store cannot be read the exception makes the authentication fail, so
     * an unreachable store refuses every JwtSecurityToken.
     */
    method OnTokenValidated(token: SecurityToken, now: int) returns (accepted: bool)
      ensures token.OtherToken? ==> accepted
      ensures token.JwtSecurityToken? ==>
                (accepted <==> store.available && Lookup(store.entries, token.RawData, now).None?)
    {
      if token.OtherToken? {
        return true;
      }
      var blacklisted := IsTokenBlacklistedAsync(token.RawData, now);
      match blacklisted
      case Failure(_) => accepted := false;
      case Success(listed) => accepted := !listed;
    }
  }
}
