/** The autocomplete cache of collection names: a map from a fingerprint of
    the request to the names the store offered, thrown away whole once its
    expiry moment has passed. The clock and the store are handed in. */
module AutoComplete {
  import opened Common

  /** How long a freshly emptied cache lives, in seconds. */
  const DefaultExpiry: int := 15

  /** The cache key: the server id and the typed input, concatenated with
      nothing between them. */
  function Fingerprint(serverId: string, input: string): (key: string)
    ensures |key| == |serverId| + |input|
    ensures key[..|serverId|] == serverId && key[|serverId|..] == input
  {
    serverId + input
  }

  /** The cache's state: the entries and the moment after which they are
      all discarded. */
  datatype Cache = Cache(entries: map<string, seq<string>>, expires: Time)

  /** What a lookup returns and the state it leaves. */
  datatype Answer = Answer(result: Result<seq<string>>, cache: Cache)

  /** The expiry check that opens every lookup: past the expiry moment the
      entries are dropped and a new expiry is set fifteen seconds out. */
  function Expire(c: Cache, now: Time): (r: Cache)
    ensures now <= r.expires
    ensures now > c.expires ==> r == Cache(map[], now + DefaultExpiry)
    ensures now <= c.expires ==> r == c
  {
    if now > c.expires then Cache(map[], now + DefaultExpiry) else c
  }

  /** A lookup: after the expiry check, a cached key answers from the
      cache; a missing key asks the store, and keeps its answer only when
      the store succeeded. */
  function Complete(c: Cache, serverId: string, input: string, now: Time,
                    store: (string, string) -> Result<seq<string>>): Answer
  {
    var key := Fingerprint(serverId, input);
    var live := Expire(c, now);
    if key in live.entries then Answer(Ok(live.entries[key]), live)
    else
      match store(serverId, input)
      case Err(e) => Answer(Err(e), live)
      case Ok(matches) => Answer(Ok(matches), live.(entries := live.entries[key := matches]))
  }

  /** Whatever the lookup, the cache is live at `now` afterwards. */
  lemma CompleteLeavesLive(c: Cache, serverId: string, input: string, now: Time,
                           store: (string, string) -> Result<seq<string>>)
    ensures now <= Complete(c, serverId, input, now, store).cache.expires
    ensures Complete(c, serverId, input, now, store).cache.expires == Expire(c, now).expires
  {
  }

  /** An expired cache keeps at most the one entry this lookup stored. */
  lemma ExpiredCacheCleared(c: Cache, serverId: string, input: string, now: Time,
                            store: (string, string) -> Result<seq<string>>)
    requires now > c.expires
    ensures var r := Complete(c, serverId, input, now, store).cache;
      && r.expires == now + DefaultExpiry
      && forall k :: k in r.entries ==> k == Fingerprint(serverId, input)
  {
  }

  /** A hit answers from the cache, leaves it as the expiry check left it,
      and is the same whatever the store would have said. */
  lemma HitIgnoresStore(c: Cache, serverId: string, input: string, now: Time,
                        store: (string, string) -> Result<seq<string>>,
                        other: (string, string) -> Result<seq<string>>)
    requires Fingerprint(serverId, input) in Expire(c, now).entries
    ensures Complete(c, serverId, input, now, store) == Complete(c, serverId, input, now, other)
    ensures Complete(c, serverId, input, now, store) ==
      Answer(Ok(Expire(c, now).entries[Fingerprint(serverId, input)]), Expire(c, now))
  {
  }

  /** A miss returns the store's answer. A successful answer is kept under
      the fingerprint; a failure adds no entry, though the expiry check
      may already have emptied the cache. */
  lemma MissAsksStore(c: Cache, serverId: string, input: string, now: Time,
                      store: (string, string) -> Result<seq<string>>)
    requires Fingerprint(serverId, input) !in Expire(c, now).entries
    ensures var a := Complete(c, serverId, input, now, store);
      && a.result == store(serverId, input)
      && a.cache.expires == Expire(c, now).expires
      && (store(serverId, input).Ok? ==>
            a.cache.entries == Expire(c, now).entries[Fingerprint(serverId, input) := store(serverId, input).value])
      && (store(serverId, input).Err? ==> a.cache.entries == Expire(c, now).entries)
  {
  }

  /** Two requests whose server id and input concatenate to the same text
      share one entry: after the first succeeds, the second, made before
      the cache expires, gets the first one's names without asking the
      store. */
  lemma SharedFingerprint(c: Cache, serverId: string, input: string, serverId': string, input': string,
                          now: Time, later: Time,
                          store: (string, string) -> Result<seq<string>>,
                          store': (string, string) -> Result<seq<string>>)
    requires serverId + input == serverId' + input'
    requires Complete(c, serverId, input, now, store).result.Ok?
    requires later <= Complete(c, serverId, input, now, store).cache.expires
    ensures var first := Complete(c, serverId, input, now, store);
      Complete(first.cache, serverId', input', later, store').result == first.result
  {
    var first := Complete(c, serverId, input, now, store);
    assert Fingerprint(serverId, input) in first.cache.entries;
  }

  /** The bot's `AutoCompletions`. */
  class AutoCompletions {
    var ac: map<string, seq<string>>
    var expires: Time

    /** A new cache is empty and already expired. */
    constructor ()
      ensures ac == map[] && expires == ZeroTime
    {
      ac := map[];
      expires := ZeroTime;
    }

    /** `CollectionNames(serverID, input)` at the clock reading `now`, with
        the store's lookup as an oracle. */
    method CollectionNames(serverId: string, input: string, now: Time,
                           store: (string, string) -> Result<seq<string>>) returns (r: Result<seq<string>>)
      modifies this
      ensures now <= expires
      ensures Answer(r, Cache(ac, expires)) == Complete(Cache(old(ac), old(expires)), serverId, input, now, store)
    {
      var fingerprint := Fingerprint(serverId, input);
      if now > expires {
        ac := map[];
        expires := now + DefaultExpiry;
      }
      if fingerprint in ac {
        return Ok(ac[fingerprint]);
      }
      var matches := store(serverId, input);
      if matches.Err? {
        return Err(matches.error);
      }
      ac := ac[fingerprint := matches.value];
      r := Ok(matches.value);
    }
  }
}
