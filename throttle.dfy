/** The stateful throttle: the cache it keeps its histories in, and
    `SimpleRateThrottle` with its fields `key`, `history` and `now`, whose
    `allow_request` prunes and extends the history in place. */
module Throttling {
  import opened Base
  import opened Rates
  import opened Identity
  import opened SlidingWindow

  /** The cache behind `cache.get` and `cache.set`: each key holds a stored
      history and the TTL it was stored with. */
  class Store {
    var entries: map<string, Entry>

    constructor ()
      ensures entries == map[]
    {
      entries := map[];
    }

    /** `cache.get(key)`: the stored history, or `None` for a missing key. */
    method Get(key: string) returns (v: Option<seq<real>>)
      ensures v.Some? <==> key in entries
      ensures v.Some? ==> v.value == entries[key].history
    {
      if key in entries {
        v := Some(entries[key].history);
      } else {
        v := None;
      }
    }

    /** `cache.set(key, value, ttl)`: replaces the entry under `key` and no
        other. */
    method Set(key: string, value: seq<real>, ttl: int)
      modifies this
      ensures entries == old(entries)[key := Entry(value, ttl)]
    {
      entries := entries[key := Entry(value, ttl)];
    }
  }

  class SimpleRateThrottle {
    /** `self.rate`, and `(self.num_requests, self.duration)` parsed from it. */
    const rate: Option<string>
    const limit: Option<Rate>
    const cache: Store
    /** `self.key`, `self.history` and `self.now`, as `allow_request` leaves
        them; `sampled` records that `history` and `now` have been assigned,
        which `wait` needs. */
    var key: Option<string>
    var history: seq<real>
    var now: real
    var sampled: bool

    /** The configuration is consistent: no limit exactly when no rate, a
        positive duration, and a sampled history only under a limit. */
    ghost predicate Valid()
      reads this
    {
      && (rate.None? <==> limit.None?)
      && (limit.Some? ==> limit.value.duration > 0)
      && (sampled ==> limit.Some?)
    }

    /** The object `__init__` builds from a configuration it accepted. */
    constructor (setup: Setup, store: Store)
      requires setup.rate.None? <==> setup.limit.None?
      requires setup.limit.Some? ==> setup.limit.value.duration > 0
      ensures Valid()
      ensures rate == setup.rate && limit == setup.limit && cache == store
      ensures key.None? && history == [] && !sampled
    {
      rate := setup.rate;
      limit := setup.limit;
      cache := store;
      key := None;
      history := [];
      now := 0.0;
      sampled := false;
    }

    /** `SimpleRateThrottle()` for a class with the given `rate` attribute,
        `scope` and `THROTTLE_RATES`: the configuration error `__init__`
        raises, or a new throttle with the parsed rate. */
    static method New(rateAttr: Option<string>, scope: Option<string>, rates: map<string, Option<string>>, store: Store)
      returns (r: Result<SimpleRateThrottle, Error>)
      ensures r.Ok? <==> Init(rateAttr, scope, rates).Ok?
      ensures r.Err? ==> r.error == Init(rateAttr, scope, rates).error
      ensures r.Ok? ==> fresh(r.value) && r.value.Valid() && !r.value.sampled && r.value.cache == store
      ensures r.Ok? ==> r.value.rate == Init(rateAttr, scope, rates).value.rate
      ensures r.Ok? ==> r.value.limit == Init(rateAttr, scope, rates).value.limit
    {
      match Init(rateAttr, scope, rates)
      case Err(e) =>
        r := Err(e);
      case Ok(setup) =>
        var t := new SimpleRateThrottle(setup, store);
        r := Ok(t);
    }

    /** `allow_request` once `get_cache_key` has produced `requestKey` and
        the timer reads `t`. Without a rate, or without a key, the request
        is admitted untouched; otherwise the history stored under the key is
        loaded, its expired tail is popped, and the request is denied when
        the quota is used up, or recorded and admitted. */
    method AllowRequest(requestKey: Option<string>, t: real) returns (admitted: bool)
      requires Valid()
      modifies this, cache
      ensures Valid()
      ensures limit.None? ==> admitted && unchanged(this) && unchanged(cache)
      ensures limit.Some? && requestKey.None? ==>
        && admitted && key.None? && unchanged(cache)
        && history == old(history) && now == old(now) && sampled == old(sampled)
      // with a key, the verdict, the history and the cache are one `Step`
      ensures limit.Some? && requestKey.Some? ==>
        var o := Step(old(cache.entries), limit.value, requestKey.value, t);
        && key == requestKey && now == t && sampled
        && admitted == o.admitted && history == o.history && cache.entries == o.entries
      // no stored history ever exceeds the quota once none does
      ensures limit.Some? && Bounded(old(cache.entries), limit.value.numRequests) ==>
        Bounded(cache.entries, limit.value.numRequests)
      // an admission always leaves a wait estimate
      ensures limit.Some? && requestKey.Some? && admitted ==> Wait().Some?
      // on a history kept newest first and not ahead of the clock, any
      // estimate lies in (0, duration]
      ensures (&& limit.Some? && requestKey.Some?
               && NewestFirst(Loaded(old(cache.entries), requestKey.value))
               && NotAfter(Loaded(old(cache.entries), requestKey.value), t)) ==>
        Wait().Some? ==> 0.0 < Wait().value <= limit.value.duration as real
    {
      if rate.None? {
        return true;
      }
      key := requestKey;
      if key.None? {
        return true;
      }
      var stored := cache.Get(key.value);
      history := if stored.None? || stored.value == [] then [] else stored.value;
      now := t;
      sampled := true;

      ghost var loaded := Loaded(cache.entries, key.value);
      ghost var dc := Decide(loaded, limit.value, t);
      assert history == loaded;
      PruneExpired(now - limit.value.duration as real);

      if |history| >= limit.value.numRequests {
        admitted := ThrottleFailure();
        assert !dc.admitted && history == dc.history;
      } else {
        admitted := ThrottleSuccess();
        assert dc.admitted && history == dc.history;
      }
      if NewestFirst(loaded) && NotAfter(loaded, t) {
        WaitAfterDecide(loaded, limit.value, t);
      }
    }

    /** The `while` loop of `allow_request`: pop the newest-last entries
        that are at or before `cutoff`, leaving exactly `Prune`. */
    method PruneExpired(cutoff: real)
      modifies this
      ensures history == Prune(old(history), cutoff)
      ensures key == old(key) && now == old(now) && sampled == old(sampled)
    {
      ghost var loaded := history;
      while history != [] && history[|history| - 1] <= cutoff
        invariant |history| <= |loaded| && history == loaded[..|history|]
        invariant Kept(loaded, cutoff, |history|) == Kept(loaded, cutoff, |loaded|)
        invariant key == old(key) && now == old(now) && sampled == old(sampled)
        decreases |history|
      {
        history := history[..|history| - 1];
      }
    }

    /** `throttle_success`: record `now` as the newest request and store the
        history under the key, with the window length as TTL. */
    method ThrottleSuccess() returns (admitted: bool)
      requires key.Some? && limit.Some?
      modifies this, cache
      ensures admitted
      ensures key == old(key) && now == old(now) && sampled == old(sampled)
      ensures history == [old(now)] + old(history)
      ensures cache.entries == old(cache.entries)[key.value := Entry(history, limit.value.duration)]
    {
      history := [now] + history;
      cache.Set(key.value, history, limit.value.duration);
      return true;
    }

    /** `throttle_failure`: deny, storing nothing. */
    method ThrottleFailure() returns (admitted: bool)
      ensures !admitted
    {
      return false;
    }

    /** `wait()` after a request has been sampled: no estimate exactly when
        the history holds more than `num_requests` timestamps. */
    function Wait(): (r: Option<real>)
      reads this
      requires Valid() && sampled
      ensures r.None? <==> |history| > limit.value.numRequests
    {
      WaitEstimate(history, now, limit.value)
    }

    /** `UserRateThrottle.allow_request`: the key is `get_cache_key`, which
        is only consulted under a rate and whose exception propagates with
        nothing changed. */
    method AllowUserRequest(request: Request, numProxies: Option<int>, t: real) returns (r: Result<bool, Error>)
      requires Valid()
      modifies this, cache
      ensures Valid()
      ensures limit.None? ==> r == Ok(true) && unchanged(this) && unchanged(cache)
      ensures limit.Some? ==> (r.Err? <==> UserCacheKey(request, numProxies).Err?)
      ensures limit.Some? && r.Err? ==> r.error == IndexError && unchanged(this) && unchanged(cache)
      ensures limit.Some? && r.Ok? ==>
        var o := Step(old(cache.entries), limit.value, UserCacheKey(request, numProxies).value, t);
        && key == Some(UserCacheKey(request, numProxies).value) && now == t && sampled
        && r.value == o.admitted && history == o.history && cache.entries == o.entries
      // an admission always leaves a wait estimate
      ensures limit.Some? && r == Ok(true) ==> Wait().Some?
      // on a history kept newest first and not ahead of the clock, any
      // estimate lies in (0, duration]
      ensures (&& limit.Some? && r.Ok?
               && NewestFirst(Loaded(old(cache.entries), UserCacheKey(request, numProxies).value))
               && NotAfter(Loaded(old(cache.entries), UserCacheKey(request, numProxies).value), t)) ==>
        Wait().Some? ==> 0.0 < Wait().value <= limit.value.duration as real
    {
      if rate.None? {
        return Ok(true);
      }
      match UserCacheKey(request, numProxies)
      case Err(e) =>
        r := Err(e);
      case Ok(k) =>
        var admitted := AllowRequest(Some(k), t);
        r := Ok(admitted);
    }
  }
}
