/**
 * The star counter behind the gallery's header badge
 * (src/composables/useStars.ts): `fetchStars` answers from a cache entry
 * younger than a day, otherwise asks the GitHub fetcher and caches the
 * answer, and falls back to the cached count, however old, when that fails.
 * The fetcher, the clock and the storage are parameters of the model.
 */
module Stars {

  /** 24 hours, in milliseconds. */
  const CacheDuration: int := 24 * 60 * 60 * 1000

  /**
   * The entry under "github_stars_cache" as `JSON.parse` sees it: nothing
   * stored (or an empty string), text whose parse throws, or a count with the
   * time it was fetched.
   */
  datatype CacheEntry = NoEntry | Unparsable | Cached(count: int, timestamp: int)

  /** What the awaited `getStarsCount()` does: resolve with a count, or reject. */
  datatype FetchOutcome = Fetched(count: nat) | FetchFailed

  /** How the promise returned by `fetchStars` settles. */
  datatype Settlement = Resolved | Rejected

  /** Everything one call of `fetchStars` determines. */
  datatype Effect = Effect(stars: int, cache: CacheEntry, fetcherCalled: bool, settled: Settlement)

  /**
   * The entry can answer without a fetch: strictly younger than `CacheDuration`
   * at `now`. Only a cached count is ever fresh; it is fresh from its timestamp
   * on (and before it) and stale from one day after it.
   */
  predicate IsFresh(entry: CacheEntry, now: int): (r: bool)
    ensures r ==> entry.Cached?
    ensures entry.Cached? && now <= entry.timestamp ==> r
    ensures entry.Cached? && now >= entry.timestamp + 86_400_000 ==> !r
  {
    entry.Cached? && now - entry.timestamp < CacheDuration
  }

  /** The count shown after a failed refresh: the cached one if any, else the previous value. */
  function Fallback(entry: CacheEntry, stars: int): (r: int)
    ensures entry.Cached? ==> r == entry.count
    ensures !entry.Cached? ==> r == stars
  {
    if entry.Cached? then entry.count else stars
  }

  /**
   * The effect of `fetchStars` on the displayed count `stars` and the cache
   * entry, when the clock reads `now` at the freshness check and `storedAt`
   * when the fetched count is stored, and `setItemOk` says whether storing
   * succeeds.
   */
  function FetchStarsEffect(stars: int, entry: CacheEntry, now: int, fetch: FetchOutcome,
                            storedAt: int, setItemOk: bool): (e: Effect)
    ensures e.fetcherCalled <==> !entry.Unparsable? && !IsFresh(entry, now)
    ensures e.settled == Rejected <==> entry.Unparsable?
    ensures e.cache != entry ==> fetch.Fetched? && setItemOk && e.cache == Cached(fetch.count, storedAt)
  {
    if entry.Unparsable? then Effect(stars, entry, false, Rejected)
    else if IsFresh(entry, now) then Effect(entry.count, entry, false, Resolved)
    else if fetch.Fetched? && setItemOk then Effect(fetch.count, Cached(fetch.count, storedAt), true, Resolved)
    else Effect(Fallback(entry, stars), entry, true, Resolved)
  }

  /** The `stars` ref of one `useStars()` and the storage entry it caches into. */
  class StarsCounter {
    var stars: int
    var cache: CacheEntry

    /** `useStars()`: the count starts at 0. */
    constructor(entry: CacheEntry)
      ensures stars == 0 && cache == entry
    {
      stars := 0;
      cache := entry;
    }

    /**
     * `fetchStars()`: the `try` block, then the `catch` block when the
     * parse, the fetch or the store threw. In the `catch` block the entry is
     * parsed again, so an unparsable entry makes the promise reject.
     */
    method FetchStars(now: int, fetch: FetchOutcome, storedAt: int, setItemOk: bool)
      returns (fetcherCalled: bool, settled: Settlement)
      modifies this
      ensures Effect(stars, cache, fetcherCalled, settled)
           == FetchStarsEffect(old(stars), old(cache), now, fetch, storedAt, setItemOk)
    {
      fetcherCalled, settled := false, Resolved;
      var thrown := false;
      match cache {
        case Unparsable =>
          thrown := true;
        case Cached(count, timestamp) =>
          if now - timestamp < CacheDuration {
            stars := count;
            return;
          }
        case NoEntry =>
      }
      if !thrown {
        fetcherCalled := true;
        match fetch {
          case FetchFailed =>
            thrown := true;
          case Fetched(count) =>
            if setItemOk {
              cache := Cached(count, storedAt);
              stars := count;
            } else {
              thrown := true;
            }
        }
      }
      if thrown {
        match cache {
          case Unparsable =>
            settled := Rejected;
          case Cached(count, _) =>
            stars := count;
          case NoEntry =>
        }
      }
    }
  }

  // ---------------------------------------------------------------------
  // Properties of one call.

  /** The window is one day in milliseconds. */
  lemma CacheDurationIsOneDay()
    ensures CacheDuration == 86_400_000
  {
  }

  /** A fresh entry answers: the count is shown, nothing is fetched, the cache stays. */
  lemma FreshEntryAnswers(stars: int, count: int, timestamp: int, now: int, fetch: FetchOutcome,
                          storedAt: int, setItemOk: bool)
    requires now - timestamp < CacheDuration
    ensures FetchStarsEffect(stars, Cached(count, timestamp), now, fetch, storedAt, setItemOk)
         == Effect(count, Cached(count, timestamp), false, Resolved)
  {
  }

  /** An entry exactly one window old is stale; one stamped in the future is fresh. */
  lemma WindowBoundary(count: int, timestamp: int)
    ensures !IsFresh(Cached(count, timestamp), timestamp + CacheDuration)
    ensures forall now :: now < timestamp ==> IsFresh(Cached(count, timestamp), now)
  {
  }

  /** A successful fetch and store caches the count with the store time and shows it. */
  lemma FetchStoresCount(stars: int, entry: CacheEntry, now: int, count: nat, storedAt: int)
    requires !entry.Unparsable? && !IsFresh(entry, now)
    ensures FetchStarsEffect(stars, entry, now, Fetched(count), storedAt, true)
         == Effect(count, Cached(count, storedAt), true, Resolved)
  {
  }

  /**
   * When the fetch fails, or storing its answer does, the cache is left alone
   * and the cached count is shown however old it is; with no entry the count
   * keeps its value and the failure is not passed on.
   */
  lemma FailureFallsBack(stars: int, entry: CacheEntry, now: int, fetch: FetchOutcome,
                         storedAt: int, setItemOk: bool)
    requires !entry.Unparsable? && !IsFresh(entry, now)
    requires fetch.FetchFailed? || !setItemOk
    ensures var e := FetchStarsEffect(stars, entry, now, fetch, storedAt, setItemOk);
      && e.cache == entry
      && e.settled == Resolved
      && (entry.Cached? ==> e.stars == entry.count)
      && (entry.NoEntry? ==> e.stars == stars)
  {
  }

  /** An unparsable entry rejects the call without fetching and changes nothing. */
  lemma UnparsableEntryRejects(stars: int, now: int, fetch: FetchOutcome, storedAt: int, setItemOk: bool)
    ensures FetchStarsEffect(stars, Unparsable, now, fetch, storedAt, setItemOk)
         == Effect(stars, Unparsable, false, Rejected)
  {
  }

  /**
   * With a clock that does not run backwards, the cached timestamp never
   * decreases: a rewrite happens only for a stale entry, stamped at least a
   * window before `now`.
   */
  lemma TimestampMonotone(stars: int, count: int, timestamp: int, now: int, fetch: FetchOutcome,
                          storedAt: int, setItemOk: bool)
    requires now <= storedAt
    ensures var e := FetchStarsEffect(stars, Cached(count, timestamp), now, fetch, storedAt, setItemOk);
      e.cache.Cached? && timestamp <= e.cache.timestamp
  {
  }

  // ---------------------------------------------------------------------
  // A day in the life of the cache.

  /**
   * A count of 42 fetched at time `t` is served without a fetch a millisecond
   * before the window closes; a millisecond after it the fetcher is called,
   * and if it fails 42 is still shown.
   */
  method CacheAcrossTheWindow(t: int) returns (early: int, earlyFetched: bool, late: int, lateFetched: bool)
    ensures early == 42 && !earlyFetched
    ensures late == 42 && lateFetched
  {
    var counter := new StarsCounter(NoEntry);
    var _, _ := counter.FetchStars(t, Fetched(42), t, true);
    var settled;
    earlyFetched, settled := counter.FetchStars(t + CacheDuration - 1, FetchFailed, t + CacheDuration - 1, true);
    early := counter.stars;
    lateFetched, settled := counter.FetchStars(t + CacheDuration + 1, FetchFailed, t + CacheDuration + 1, true);
    late := counter.stars;
  }
}
