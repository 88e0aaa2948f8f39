/** Caller identity and cache keys: `BaseThrottle.get_ident` and
    `UserRateThrottle.get_cache_key`. */
module Identity {
  import opened Base
  import opened Text

  /** What the throttle reads from a request: whether the user is
      authenticated, the user's id, and the `HTTP_X_FORWARDED_FOR` and
      `REMOTE_ADDR` entries of `request.META`. */
  datatype Request = Request(authenticated: bool, uid: string, forwardedFor: Option<string>, remoteAddr: string)

  /** Python's `s[i]`: a negative index counts from the end; `None` where
      Python raises `IndexError`. */
  function PyIndex<T>(s: seq<T>, i: int): (r: Option<T>)
    ensures r.Some? <==> -|s| <= i < |s|
  {
    if 0 <= i < |s| then Some(s[i])
    else if -|s| <= i < 0 then Some(s[|s| + i])
    else None
  }

  lemma PyIndexFromEnd<T>(s: seq<T>, m: int)
    requires 1 <= m <= |s|
    ensures PyIndex(s, -m) == Some(s[|s| - m])
  {
  }

  /** `get_ident` over its three inputs: with a proxy count, the address that
      many hops from the right of the comma-separated forwarded chain
      (stripped), or the peer address when the count is 0 or there is no
      chain; without a proxy count, the whole chain with its whitespace
      removed, or the peer address when the chain is empty. */
  function GetIdent(xff: Option<string>, remoteAddr: string, numProxies: Option<int>): (r: Result<string, Error>)
    // only a negative proxy count that reaches past the chain raises (IndexError)
    ensures r.Err? <==> numProxies.Some? && numProxies.value < 0 && xff.Some? && -numProxies.value >= |Split(xff.value, ',')|
    ensures r.Err? ==> r.error == IndexError
  {
    match numProxies
    case Some(n) =>
      if n == 0 || xff.None? then Ok(remoteAddr)
      else
        var addrs := Split(xff.value, ',');
        (match PyIndex(addrs, -Min(n, |addrs|))
         case None => Err(IndexError)
         case Some(a) => Ok(Strip(a)))
    case None =>
      if xff.Some? && xff.value != [] then Ok(Concat(SplitSpace(xff.value))) else Ok(remoteAddr)
  }

  /** A proxy count of 0, or no forwarded header, identifies the caller by
      the peer address. */
  lemma GetIdentDirect(xff: Option<string>, remoteAddr: string, n: int)
    requires n == 0 || xff.None?
    ensures GetIdent(xff, remoteAddr, Some(n)) == Ok(remoteAddr)
  {
  }

  /** With `n >= 1` trusted proxies the caller is the `n`-th address from the
      right of the chain, or the leftmost one when the chain is shorter;
      the result is one piece of the chain with its surrounding whitespace
      removed. */
  lemma GetIdentTrustedHop(xff: string, remoteAddr: string, n: int)
    requires n >= 1
    ensures GetIdent(Some(xff), remoteAddr, Some(n)) == Ok(Strip(TrustedHop(Split(xff, ','), n)))
    ensures ',' !in TrustedHop(Split(xff, ','), n)
  {
    var addrs := Split(xff, ',');
    var m := Min(n, |addrs|);
    PyIndexFromEnd(addrs, m);
    SplitPiecesLackSeparator(xff, ',');
  }

  /** A negative proxy count `n` within the chain indexes from the left:
      `-min(n, len(addrs))` is `-n`, so the caller is the stripped piece at
      position `-n`. */
  lemma GetIdentNegativeCount(xff: string, remoteAddr: string, n: int)
    requires n < 0 && -n < |Split(xff, ',')|
    ensures GetIdent(Some(xff), remoteAddr, Some(n)) == Ok(Strip(Split(xff, ',')[-n]))
  {
  }

  /** The `n`-th address from the right of `addrs`, or the leftmost one when
      there are fewer than `n`. */
  function TrustedHop(addrs: seq<string>, n: int): string
    requires n >= 1 && |addrs| > 0
  {
    if n >= |addrs| then addrs[0] else addrs[|addrs| - n]
  }

  /** Without a proxy count the identity is the forwarded header with every
      whitespace character removed (`''.join(xff.split())`), or the peer
      address when the header is missing or empty. */
  lemma GetIdentWithoutProxyCount(xff: Option<string>, remoteAddr: string)
    ensures GetIdent(xff, remoteAddr, None) ==
      Ok(if xff.Some? && xff.value != [] then RemoveSpace(xff.value) else remoteAddr)
  {
    if xff.Some? && xff.value != [] {
      JoinSplitSpace(xff.value);
    }
  }

  /** `get_ident(request)` as written: `xff`, `remote_addr` and
      `num_proxies` are the literals `'HTTP_X_FORWARDED_FOR'`,
      `'REMOTE_ADDR'` and `1`, and the request is not read. */
  function GetIdentAsWritten(request: Request): Result<string, Error> {
    GetIdent(Some("HTTP_X_FORWARDED_FOR"), "REMOTE_ADDR", Some(1))
  }

  /** With one trusted proxy, a header that is a single address without
      surrounding whitespace is itself the identity. */
  lemma GetIdentSingleHop(h: string, remoteAddr: string)
    requires ',' !in h && h != [] && !IsSpace(h[0]) && !IsSpace(h[|h| - 1])
    ensures GetIdent(Some(h), remoteAddr, Some(1)) == Ok(h)
  {
    SplitWhole(h, ',');
    StripUnchanged(h);
  }

  /** As written, every request gets the identity `'HTTP_X_FORWARDED_FOR'`. */
  lemma GetIdentAsWrittenIsConstant(request: Request)
    ensures GetIdentAsWritten(request) == Ok("HTTP_X_FORWARDED_FOR")
  {
    var h := "HTTP_X_FORWARDED_FOR";
    assert ',' !in h by {
      assert forall i :: 0 <= i < |h| ==> h[i] != ',';
    }
    GetIdentSingleHop(h, "REMOTE_ADDR");
  }

  /** The identity read from the request's own metadata, as the commented-out
      `request.META` lookups intend. */
  function RequestIdent(request: Request, numProxies: Option<int>): Result<string, Error> {
    GetIdent(request.forwardedFor, request.remoteAddr, numProxies)
  }

  // ---------------------------------------------------------------------------
  // cache keys

  const KeyPrefix: string := "throttle_"

  /** `cache_format % {'scope': scope, 'ident': ident}` with
      `cache_format = 'throttle_%(scope)s_%(ident)s'`. */
  function CacheKey(scope: string, ident: string): (k: string)
    ensures |k| == |KeyPrefix| + |scope| + 1 + |ident|
    ensures k[..|KeyPrefix|] == KeyPrefix && k[|KeyPrefix| + |scope|] == '_'
    ensures k[|KeyPrefix|..|KeyPrefix| + |scope|] == scope && k[|KeyPrefix| + |scope| + 1..] == ident
  {
    KeyPrefix + scope + "_" + ident
  }

  /** Within one scope, distinct identities get distinct keys. */
  lemma CacheKeyInjective(scope: string, a: string, b: string)
    ensures CacheKey(scope, a) == CacheKey(scope, b) <==> a == b
  {
    if CacheKey(scope, a) == CacheKey(scope, b) {
      var n := |KeyPrefix| + |scope| + 1;
      assert a == CacheKey(scope, a)[n..];
    }
  }

  /** Across scopes the format is ambiguous: a scope containing `_` can share
      keys with another scope. */
  lemma CacheKeyScopesCanCollide()
    ensures CacheKey("a", "b_c") == CacheKey("a_b", "c")
  {
  }

  /** `UserRateThrottle.get_cache_key` with the identity read from the
      request: an authenticated user is keyed by `request.uid`, anyone else
      by `get_ident`; the scope is `'user'`. */
  function UserCacheKey(request: Request, numProxies: Option<int>): (r: Result<string, Error>)
    ensures request.authenticated ==> r == Ok(CacheKey("user", request.uid))
    ensures !request.authenticated ==> (r.Ok? <==> RequestIdent(request, numProxies).Ok?)
    // anyone else is keyed by the identity resolved from the request, whose error propagates
    ensures !request.authenticated && r.Ok? ==> r == Ok(CacheKey("user", RequestIdent(request, numProxies).value))
    ensures r.Err? ==> r.error == RequestIdent(request, numProxies).error
    ensures r.Ok? ==> |r.value| >= 14 && r.value[..14] == "throttle_user_"
  {
    var ident := if request.authenticated then Ok(request.uid) else RequestIdent(request, numProxies);
    match ident
    case Err(e) => Err(e)
    case Ok(id) =>
      assert CacheKey("user", id) == "throttle_user_" + id;
      Ok(CacheKey("user", id))
  }

  /** `UserRateThrottle.get_cache_key` as written, over `GetIdentAsWritten`. */
  function UserCacheKeyAsWritten(request: Request): (r: Result<string, Error>)
    ensures request.authenticated ==> r == Ok(CacheKey("user", request.uid))
  {
    var ident := if request.authenticated then Ok(request.uid) else GetIdentAsWritten(request);
    match ident
    case Err(e) => Err(e)
    case Ok(id) => Ok(CacheKey("user", id))
  }

  lemma AsWrittenAnonymousKey(request: Request)
    requires !request.authenticated
    ensures UserCacheKeyAsWritten(request) == Ok(CacheKey("user", "HTTP_X_FORWARDED_FOR"))
  {
    GetIdentAsWrittenIsConstant(request);
  }

  /** The key as written is the request-reading key of a request whose
      forwarded header and peer address are the two literals, with one
      trusted proxy. */
  lemma UserCacheKeyAsWrittenReadsLiterals(request: Request)
    ensures UserCacheKeyAsWritten(request) ==
      UserCacheKey(request.(forwardedFor := Some("HTTP_X_FORWARDED_FOR"), remoteAddr := "REMOTE_ADDR"), Some(1))
  {
  }

  /** As written, all anonymous callers share the single key
      `throttle_user_HTTP_X_FORWARDED_FOR`, hence a single quota. */
  lemma AnonymousCallersShareKeyAsWritten(a: Request, b: Request)
    requires !a.authenticated && !b.authenticated
    ensures UserCacheKeyAsWritten(a) == UserCacheKeyAsWritten(b) == Ok("throttle_user_HTTP_X_FORWARDED_FOR")
  {
    assert CacheKey("user", "HTTP_X_FORWARDED_FOR") == "throttle_user_HTTP_X_FORWARDED_FOR" by {
      assert KeyPrefix + "user" + "_" == "throttle_user_";
    }
    AsWrittenAnonymousKey(a);
    AsWrittenAnonymousKey(b);
  }

  /** Reading the request's metadata, two anonymous callers that connect
      directly from different addresses get different keys, and so do two
      authenticated users with different ids. */
  lemma UserCacheKeySeparatesCallers(a: Request, b: Request, numProxies: Option<int>)
    requires a.authenticated == b.authenticated
    requires a.authenticated ==> a.uid != b.uid
    requires !a.authenticated ==> a.forwardedFor.None? && b.forwardedFor.None? && a.remoteAddr != b.remoteAddr
    ensures UserCacheKey(a, numProxies).Ok? && UserCacheKey(b, numProxies).Ok?
    ensures UserCacheKey(a, numProxies) != UserCacheKey(b, numProxies)
  {
    if a.authenticated {
      CacheKeyInjective("user", a.uid, b.uid);
    } else {
      CacheKeyInjective("user", a.remoteAddr, b.remoteAddr);
    }
  }
}
