# Sliding-window request throttle

A Dafny model of the request throttle in `seckilling.py`. `throttling.py` is a
byte-for-byte copy, so one model serves both files. The throttle keeps a
newest-first list of request timestamps per caller in a shared cache. On each
request it drops the timestamps that have left the window. It denies the request
when `num_requests` of them remain, and otherwise records the request and writes
the list back. `wait()` estimates how long the caller should wait before retrying.

Modules:

- `Base`: `Option`, `Result`, and the exceptions the code raises.
- `Text`: the Python string operations the code relies on: `str.split(sep)`,
  `str.split()`, `str.strip()`, `''.join`, `int()` and `str()` on integers.
- `Rates`: `parse_rate`, `get_rate`, and the rate part of `__init__`.
- `Identity`: `BaseThrottle.get_ident`, the cache key format, and
  `UserRateThrottle.get_cache_key`.
- `SlidingWindow`: the admission algorithm stated on values:
  - the prune loop (`Prune`);
  - one admission decision (`Decide`);
  - one call against the cache contents (`Step`);
  - a run of calls on one key (`Run`);
  - the `wait()` estimate (`WaitEstimate`).

  The main theorem is `RunAdmitsIffWindowHasRoom`. In any chronological run of
  requests on one key that starts from an empty stored history, a request is
  admitted exactly when fewer than `num_requests` earlier requests inside its
  window were admitted. So no `duration`-second window `(a, a + duration]`,
  wherever it lies, holds more than `num_requests` admissions
  (`AtMostQuotaInAnyWindow`). For a run that starts from a stored list,
  `RunWindow` gives the same verdict rule. The stored list must be the pruned
  form of an earlier newest-first log, and the count adds that log's
  timestamps inside the window to the run's own admissions there.
- `Throttling`: the stateful objects.
  - The cache is a class `Store` with a map from keys to stored lists.
  - `SimpleRateThrottle` has the fields `key`, `history` and `now`.
  - `AllowRequest` loads the history, pops its expired tail in a `while` loop
    (`PruneExpired`) and calls `ThrottleSuccess` or `ThrottleFailure`.
  - Each method is proved against the value-level functions above. The verdict,
    the new `history` and the new cache contents of `AllowRequest` are exactly
    `SlidingWindow.Step`.

Inputs outside the code are parameters:

- The clock reading (`time.time()`) is the argument `t`.
- The class attributes `rate`, `scope` and `THROTTLE_RATES` are the arguments
  of `New`.
- The request is the datatype `Identity.Request`.
- The number of trusted proxies is an argument.

In three places the code departs from a textbook sliding-window throttle; the model follows the code:

- A denied request writes nothing back to the cache. The stored list stays
  unpruned until the next admission (`SlidingWindow.Step`, `StepPerKey`).
- Only a `None` cache key admits without consulting the cache. An empty
  identity still yields the key `throttle_user_` and is throttled like any
  other.
- `get_ident` does not read the request at all (see Findings). The model keeps
  both that behaviour and the one its commented-out lines describe.
  `AllowUserRequest` runs on the request-reading key `UserCacheKey`.
  `UserCacheKeyAsWrittenReadsLiterals` shows that the key as written is that key
  for a request whose forwarded header and peer address are the literals
  `'HTTP_X_FORWARDED_FOR'` and `'REMOTE_ADDR'`, with one trusted proxy. On such a
  request, `AllowUserRequest` is the code as written.

## Model

| member | source | states |
|---|---|---|
| Rates.UnitSeconds | seckilling.py:92 | the table knows exactly the units `s`, `m`, `h`, `d`, each a positive number of seconds |
| Rates.ParseRate | seckilling.py:86-93 | `None` parses to `(None, None)` and nothing else does; a parsed duration is one of 1, 60, 3600, 86400 |
| Rates.ParseRateUnpack | seckilling.py:90 | unpacking `num, period` fails exactly when the string does not contain exactly one `/` |
| Rates.ParseRateFields | seckilling.py:90-93 | for `num/period`: `ValueError` when `int(num)` fails, `IndexError` for an empty period, `KeyError` for an unknown unit, else `(int(num), seconds of the unit)` |
| Rates.ParseRateFirstCharOnly | throttling.py:92 | only the period's first character matters: two periods with the same first character parse alike |
| Rates.ParseRateFormatted | seckilling.py:90-93 | round trip: `str(n) + "/" + unit` parses back to `n` requests per unit for every integer `n` (no interpreter digit limit) |
| Rates.ParseRateTenPerMinute | seckilling.py:86-93 | `"10/min"` parses to `(10, 60)` |
| Rates.GetRate | seckilling.py:75-84 | `ImproperlyConfigured` exactly when the scope is falsy or unmapped; otherwise the mapped rate |
| Rates.Init | seckilling.py:67-70 | a truthy `rate` attribute is used without consulting the scope; otherwise the rate mapped to the scope is used, and scope errors propagate; either rate's parse error is the error raised; the stored rate parses to the stored limit, no limit iff no rate, duration positive |
| Rates.UserRateThrottleUnconfigured | seckilling.py:134-136 | `UserRateThrottle()` with its empty `THROTTLE_RATES` raises `ImproperlyConfigured` for the unmapped scope |
| Text.SplitJoin | seckilling.py:90 | joining the pieces of `s.split(sep)` with `sep` gives `s` back |
| Text.SplitPiecesLackSeparator | seckilling.py:46 | no piece of `s.split(sep)` contains `sep` |
| Text.SplitCount | seckilling.py:90 | `s.split(sep)` has one more piece than `s` has separators |
| Text.SplitAfterPiece | seckilling.py:90 | splitting `a + sep + b`, `a` free of `sep`, gives `a` followed by the pieces of `b` |
| Text.SplitWhole | seckilling.py:46 | a string without the separator splits into itself alone |
| Text.Strip | seckilling.py:48 | the result neither starts nor ends with whitespace |
| Text.StripInfix | seckilling.py:48 | the result is a contiguous piece of the input and everything removed around it is whitespace |
| Text.StripUnchanged | seckilling.py:48 | a string already free of surrounding whitespace is its own strip |
| Text.JoinSplitSpace | seckilling.py:50 | `''.join(s.split())` is `s` with every whitespace character removed |
| Text.SplitSpaceWords | seckilling.py:50 | every word of `s.split()` is non-empty and free of whitespace |
| Text.Split | seckilling.py:90 | `s.split(sep)` has at least one piece; `SplitJoin`, `SplitPiecesLackSeparator` and `SplitCount` characterize it |
| Text.SplitSpace | seckilling.py:50 | `s.split()`; no contract of its own. Its only use, `''.join(s.split())`, is characterized by `JoinSplitSpace`, and `SplitSpaceWords` gives its words non-empty and free of whitespace |
| Text.Concat | seckilling.py:50 | `''.join(parts)`; no contract of its own, characterized by `JoinSplitSpace` |
| Text.IntStrip | seckilling.py:91 | the whitespace `int()` skips (the `isspace` set without U+001C..U+001F) is gone from both ends, and a first character it does not skip stays first |
| Text.IntStripInfix | seckilling.py:91 | what `int()` keeps is a contiguous piece of the input, and only its whitespace lies on either side |
| Text.IntStripPrefix | seckilling.py:91 | leading `int()` whitespace does not change the strip |
| Text.IntStripSuffix | seckilling.py:91 | trailing `int()` whitespace does not change the strip |
| Text.ParseInt | seckilling.py:91 | `int(s)` accepts exactly a digit run with an optional sign once `int()`'s own whitespace is stripped, and the sign decides the sign of the value; the value itself is given by `ParseIntOfDigitRun`, `ParseIntSigned` and `ParseIntIgnoresPadding` together with `IntStripInfix`; no digit-count limit (see Left out) |
| Text.ParseIntRejectsSeparator | seckilling.py:91 | a leading U+001C..U+001F makes `int()` fail although `str.strip` removes it |
| Text.ParseIntOfDigitRun | seckilling.py:91 | an unsigned digit run parses to the value of its digits, leading zeros and underscores included: `int("010") == int("1_0") == 10` |
| Text.ParseIntSigned | seckilling.py:91 | a `+` before a digit run keeps its value and a `-` negates it |
| Text.ParseIntIgnoresPadding | seckilling.py:91 | `int()` whitespace around a string changes neither acceptance nor value |
| Text.IntToString | seckilling.py:91 | `str(n)`: a `-` for negatives, then `NatToString` of the magnitude; no contract of its own, and `ParseIntToString` gives `int(str(n)) == n` |
| Text.NatToString | seckilling.py:91 | `str(n)` of a natural number is a non-empty run of decimal digits whose first digit is `0` only for 0 |
| Text.ParseIntToString | seckilling.py:91 | `int(str(n)) == n` for every integer, with no interpreter digit limit |
| Identity.PyIndex | seckilling.py:47 | Python indexing succeeds exactly for `-len <= i < len` |
| Identity.PyIndexFromEnd | seckilling.py:47 | `s[-m]` is the `m`-th element from the right |
| Identity.GetIdent | throttling.py:43-50 | the only failure is `IndexError`, exactly when a negative proxy count reaches past the chain |
| Identity.GetIdentNegativeCount | throttling.py:46-48 | a negative proxy count `n` within the chain picks the stripped piece at index `-n`, counted from the left |
| Identity.GetIdentDirect | throttling.py:44-45 | a proxy count of 0, or no forwarded header, yields the peer address |
| Identity.GetIdentTrustedHop | throttling.py:46-48 | with `n >= 1` proxies the identity is the stripped `n`-th address from the right, or the leftmost of a shorter chain, and contains no comma |
| Identity.GetIdentSingleHop | throttling.py:46-48 | with one proxy, a single address without surrounding whitespace is the identity itself |
| Identity.GetIdentWithoutProxyCount | throttling.py:50 | without a proxy count the identity is the header with all whitespace removed, or the peer address for a missing or empty header |
| Identity.GetIdentAsWritten | seckilling.py:38-48 | `get_ident` as written, over the literals; no contract of its own, characterized by `GetIdentAsWrittenIsConstant` |
| Identity.RequestIdent | seckilling.py:38-41 | `get_ident` over the request's own metadata, as the commented-out lookups read it; no contract of its own, characterized through `GetIdent` |
| Identity.GetIdentAsWrittenIsConstant | seckilling.py:38-48 | as written, every request has the identity `HTTP_X_FORWARDED_FOR` |
| Identity.CacheKey | seckilling.py:62 | the key is `throttle_`, then the scope, `_`, then the identity, each at its fixed position |
| Identity.CacheKeyInjective | seckilling.py:145 | within one scope, keys are equal iff identities are equal |
| Identity.CacheKeyScopesCanCollide | seckilling.py:62 | across scopes the format is ambiguous: scope `a` with `b_c` and scope `a_b` with `c` share a key |
| Identity.UserCacheKey | throttling.py:138-145 | an authenticated user is keyed by uid; anyone else by `throttle_user_` plus the identity resolved from the request, whose `IndexError` propagates; every key starts `throttle_user_` |
| Identity.UserCacheKeyAsWritten | seckilling.py:138-145 | as written, an authenticated user is still keyed by uid |
| Identity.UserCacheKeyAsWrittenReadsLiterals | seckilling.py:38-48 | the key as written is the request-reading key of a request carrying the literals `'HTTP_X_FORWARDED_FOR'` and `'REMOTE_ADDR'`, with one trusted proxy |
| Identity.AsWrittenAnonymousKey | seckilling.py:143 | as written, an anonymous request gets the key of identity `HTTP_X_FORWARDED_FOR` |
| Identity.AnonymousCallersShareKeyAsWritten | seckilling.py:139-145 | as written, any two anonymous callers share the key `throttle_user_HTTP_X_FORWARDED_FOR` |
| Identity.UserCacheKeySeparatesCallers | throttling.py:138-145 | reading the request, distinct uids, or distinct peer addresses without a forwarded header, get distinct keys |
| SlidingWindow.Kept | seckilling.py:108-109 | the loop keeps a prefix whose last entry is after the cutoff |
| SlidingWindow.Prune | seckilling.py:108-109 | pruning never grows the list, and what is kept is empty or ends strictly after `now - duration` |
| SlidingWindow.PruneDropsOnlyExpired | seckilling.py:108-109 | the result is a prefix of the input and every removed entry is at or before the cutoff |
| SlidingWindow.PruneNewestFirst | seckilling.py:108-109 | on a newest-first list, pruning keeps exactly the entries strictly after the cutoff |
| SlidingWindow.PruneCompose | seckilling.py:108-109 | pruning at a cutoff and then a later one is pruning at the later one, so pruning is idempotent |
| SlidingWindow.PrunePrepend | seckilling.py:108-115 | a front entry inside the window survives a later prune and the rest prunes as before |
| SlidingWindow.Loaded | seckilling.py:103-105 | `cache.get(key)` followed by `if not self.history: self.history = []`; no contract of its own, used by `Step` and `AllowRequest` |
| SlidingWindow.Decide | seckilling.py:108-117 | an admission puts `now` first and leaves at most `num_requests` entries; a denial means at least `num_requests` remain |
| SlidingWindow.DecideCountsPruned | seckilling.py:110-111 | admitted iff the pruned list is shorter than `num_requests` |
| SlidingWindow.DecideOnWindow | seckilling.py:108-117 | on a newest-first list: admitted iff fewer than `num_requests` stored entries lie in the window; the new history is those entries, with `now` in front on admission |
| SlidingWindow.DecideKeepsOrder | seckilling.py:108-117 | with a clock not behind the stored entries, the new history stays newest first, not after `now`, and inside the window |
| SlidingWindow.Step | seckilling.py:99-121 | a denial leaves the cache unchanged; an admission stores the new history under the key with TTL `duration`; no stored list exceeds `num_requests` once none did |
| SlidingWindow.StepPerKey | seckilling.py:103-117 | a call on one key decides on that key's stored list alone and changes no other key |
| SlidingWindow.Run | seckilling.py:95-117 | one verdict per request |
| SlidingWindow.RunWindow | seckilling.py:108-117 | in a chronological run, the verdict on request `i` counts the logged admissions inside its window, from any consistent starting log |
| SlidingWindow.RunAdmitsIffWindowHasRoom | seckilling.py:95-117 | from an empty history, request `i` is admitted iff fewer than `num_requests` earlier admissions lie in its window |
| SlidingWindow.RunAtMostQuotaPerWindow | seckilling.py:95-117 | no window ending at an admitted request holds more than `num_requests` admissions |
| SlidingWindow.AtMostQuotaInAnyWindow | seckilling.py:95-117 | no window `(a, a + duration]`, wherever it lies, holds more than `num_requests` admissions (none at all for a quota of zero or less) |
| SlidingWindow.BoundaryIsPruned | seckilling.py:108-109 | at one request per 60 seconds, a request exactly 60 seconds after an admitted one is admitted |
| SlidingWindow.WaitEstimate | seckilling.py:123-131 | no estimate exactly when the history holds more than `num_requests` entries |
| SlidingWindow.WaitWithinWindow | seckilling.py:123-131 | for a history inside the window and not after `now`, any estimate lies in `(0, duration]` |
| SlidingWindow.WaitAfterAdmission | seckilling.py:110-131 | after an admission there is always an estimate, whatever was stored |
| SlidingWindow.WaitAfterDecide | seckilling.py:110-131 | on a newest-first stored list not ahead of the clock, an estimate after any decision lies in `(0, duration]` |
| SlidingWindow.TwoPerMinuteScenario | seckilling.py:95-131 | at two per minute, requests at 0 and 10 are admitted; the one at 20 is denied, writes nothing, and waits 40 seconds |
| Throttling.Store.Get | seckilling.py:103 | `cache.get` returns the stored list, or `None` exactly for a missing key |
| Throttling.Store.Set | seckilling.py:116 | `cache.set` replaces the entry under the key and no other |
| Throttling.SimpleRateThrottle.constructor | seckilling.py:66-70 | the new throttle holds the accepted rate and limit, no key, an empty history, and nothing sampled |
| Throttling.SimpleRateThrottle.New | seckilling.py:66-70 | construction fails exactly with the configuration error of `Init`; otherwise it returns a fresh, consistent throttle with the parsed rate |
| Throttling.SimpleRateThrottle.AllowRequest | seckilling.py:95-112 | no rate or no key admits with the cache untouched; otherwise verdict, `history` and cache are `Step`; the quota bound on stored lists is kept; an admission always leaves a wait estimate; on newest-first data any estimate lies in `(0, duration]` |
| Throttling.SimpleRateThrottle.PruneExpired | seckilling.py:108-109 | the pop loop leaves exactly `Prune(history, cutoff)` |
| Throttling.SimpleRateThrottle.ThrottleSuccess | seckilling.py:114-117 | `now` is inserted at index 0 and the list is stored under the key with TTL `duration`; other keys are untouched |
| Throttling.SimpleRateThrottle.ThrottleFailure | seckilling.py:120-121 | the request is denied |
| Throttling.SimpleRateThrottle.Wait | seckilling.py:123-131 | no estimate exactly when the history holds more than `num_requests` entries |
| Throttling.SimpleRateThrottle.AllowUserRequest | seckilling.py:138-145 | on the request-reading key `UserCacheKey`: the key is computed only under a rate, and its `IndexError` propagates with nothing changed; with a key, `key`, `now` and `sampled` are set and the call is `Step` on that key; an admission leaves a `wait()` estimate, in (0, duration] on an ordered history |

## Left out

- `Cache` and the redis connection pool are not modelled: they are network I/O.
  The cache is a `Store` holding timestamp lists, which is the contract the
  throttle assumes. The redis client in `Cache` would accept no list and return
  none, and `get_connection_pool` returns `None`.
- Cache expiry is not modelled. `Store` records the TTL passed to `cache.set`,
  but entries never vanish on their own.
- `time.time()` is the parameter `t` of `AllowRequest`. Monotonicity is a
  precondition of the run theorems (`Chronological`), never of a single call.
- Timestamps and `wait()` use exact `real` arithmetic, not IEEE doubles.
- The cross-process read-modify-write race on a cache key is not modelled. The
  model is one sequential caller, and aliasing between `self.history` and the
  object the cache returned is not modelled either.
- `BuyRequest`, `BaseView` and `BuyView` are not modelled: they are data holders
  and stubs with no logic.
- The `NotImplementedError` stubs (`BaseThrottle.allow_request`,
  `SimpleRateThrottle.get_cache_key`) are not modelled. `AllowRequest` takes the
  key that `get_cache_key` produced.
- `BaseThrottle.wait` is not modelled: it returns `None` and is overridden.
- `request.user.id_authenticated` is modelled as the boolean
  `Request.authenticated`. Whether a real user object has that attribute is not
  modelled.
- Text.ParseInt accepts ASCII decimal digits only. Python's `int()` also accepts
  other Unicode decimal digits.
- Text.ParseInt and Text.IntToString have no digit limit. CPython 3.11 and later
  (and the 3.10.7, 3.9.14 and 3.8.14 security releases) raise `ValueError` in
  `int(s)` and `str(n)` beyond `sys.get_int_max_str_digits()` digits (4300 by
  default, configurable). So `parse_rate` of a 4301-digit count raises there,
  while `ParseRate` returns the rate. `ParseRateFormatted` and `ParseIntToString`
  hold only below that limit on such interpreters.
- Rate values in `THROTTLE_RATES` are strings or `None`. Other Python values, and
  their `AttributeError` in `parse_rate`, are not modelled.
- Throttling.SimpleRateThrottle.Wait requires a sampled history. Calling
  `wait()` before any `allow_request` has assigned `self.history` raises
  `AttributeError` in Python, and that path is not modelled.
- SlidingWindow.RunAdmitsIffWindowHasRoom and SlidingWindow.AtMostQuotaInAnyWindow are stated for calls on one key over
  the value-level `Run`, not over a sequence of `AllowRequest` calls. The link is
  `AllowRequest` (each call is one `Step`) together with `StepPerKey` (a step on
  a key is `Decide` on that key's list).

## Findings

| source | as written | input that shows it | evidently intended | confidence | as-written member | corrected member |
|---|---|---|---|---|---|---|
| seckilling.py:38-42 | `get_ident` uses the literals `'HTTP_X_FORWARDED_FOR'` and `'REMOTE_ADDR'` instead of reading `request.META`, with one trusted proxy | two anonymous requests from 10.0.0.1 and 10.0.0.2, no forwarded header: both get the key `throttle_user_HTTP_X_FORWARDED_FOR` and share one quota | read both values from `request.META`, as the commented-out lines do, so that distinct callers get distinct keys | medium, not executed | Identity.AnonymousCallersShareKeyAsWritten | Identity.UserCacheKeySeparatesCallers |
