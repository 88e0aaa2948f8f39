/** The sliding-window algorithm of `SimpleRateThrottle.allow_request`,
    `throttle_success`, `throttle_failure` and `wait`, stated on values:
    pruning a newest-first timestamp list, one admission step against the
    cache contents, a run of steps, and the retry-after estimate. */
module SlidingWindow {
  import opened Base
  import opened Rates

  /** One cache record: a timestamp list and the TTL it was stored with
      (`cache.set(key, history, duration)`). Expiry itself is not modelled. */
  datatype Entry = Entry(history: seq<real>, ttl: int)

  /** Newest first: no timestamp is older than one stored after it. */
  predicate NewestFirst(h: seq<real>) {
    forall i, j :: 0 <= i < j < |h| ==> h[i] >= h[j]
  }

  /** Every timestamp of `h` is at or before `now`. */
  predicate NotAfter(h: seq<real>, now: real) {
    forall i :: 0 <= i < |h| ==> h[i] <= now
  }

  // ---------------------------------------------------------------------------
  // pruning

  /** How many of the first `n` timestamps of `h` the prune loop keeps: it
      pops the last one while that is at or before `cutoff`. */
  function Kept(h: seq<real>, cutoff: real, n: nat): (k: nat)
    requires n <= |h|
    ensures k <= n && (k == 0 || h[k - 1] > cutoff)
    decreases n
  {
    if n > 0 && h[n - 1] <= cutoff then Kept(h, cutoff, n - 1) else n
  }

  /** The prune loop of `allow_request`: only a suffix of `h` goes, the
      boundary itself is dropped, and what is kept ends strictly after
      `cutoff` (`PruneDropsOnlyExpired` says what was removed). */
  function Prune(h: seq<real>, cutoff: real): (r: seq<real>)
    ensures |r| <= |h| && (r == [] || r[|r| - 1] > cutoff)
  {
    h[..Kept(h, cutoff, |h|)]
  }

  lemma {:induction false} KeptDropsOnlyExpired(h: seq<real>, cutoff: real, n: nat)
    requires n <= |h|
    ensures forall i :: Kept(h, cutoff, n) <= i < n ==> h[i] <= cutoff
    decreases n
  {
    if n > 0 && h[n - 1] <= cutoff {
      KeptDropsOnlyExpired(h, cutoff, n - 1);
    }
  }

  /** Everything the prune loop removes is at or before the cutoff. */
  lemma PruneDropsOnlyExpired(h: seq<real>, cutoff: real)
    ensures Prune(h, cutoff) == h[..|Prune(h, cutoff)|]
    ensures forall i :: |Prune(h, cutoff)| <= i < |h| ==> h[i] <= cutoff
  {
    KeptDropsOnlyExpired(h, cutoff, |h|);
  }

  /** The timestamps of `s` strictly after `c`, in order. */
  function Above(s: seq<real>, c: real): seq<real> {
    if s == [] then [] else (if s[0] > c then [s[0]] else []) + Above(s[1..], c)
  }

  lemma {:induction false} AboveSnoc(s: seq<real>, x: real, c: real)
    ensures Above(s + [x], c) == Above(s, c) + (if x > c then [x] else [])
  {
    if s == [] {
      assert s + [x] == [x];
    } else {
      assert (s + [x])[0] == s[0];
      assert (s + [x])[1..] == s[1..] + [x];
      AboveSnoc(s[1..], x, c);
    }
  }

  lemma {:induction false} AboveAll(s: seq<real>, c: real)
    requires forall i :: 0 <= i < |s| ==> s[i] > c
    ensures Above(s, c) == s
  {
    if s != [] {
      AboveAll(s[1..], c);
    }
  }

  lemma {:induction false} KeptNewestFirst(h: seq<real>, c: real, n: nat)
    requires NewestFirst(h) && n <= |h|
    ensures h[..Kept(h, c, n)] == Above(h[..n], c)
    decreases n
  {
    if n > 0 {
      assert h[..n] == h[..n - 1] + [h[n - 1]];
      AboveSnoc(h[..n - 1], h[n - 1], c);
      if h[n - 1] <= c {
        KeptNewestFirst(h, c, n - 1);
      } else {
        AboveAll(h[..n], c);
      }
    }
  }

  /** On a newest-first list, pruning keeps exactly the timestamps strictly
      after the cutoff: the tail-only loop loses nothing in the window and
      keeps nothing outside it. */
  lemma PruneNewestFirst(h: seq<real>, c: real)
    requires NewestFirst(h)
    ensures Prune(h, c) == Above(h, c)
  {
    KeptNewestFirst(h, c, |h|);
    assert h[..|h|] == h;
  }

  lemma {:induction false} KeptOfPrefix(h: seq<real>, m: nat, c: real, n: nat)
    requires n <= m <= |h|
    ensures Kept(h[..m], c, n) == Kept(h, c, n)
    decreases n
  {
    if n > 0 {
      assert h[..m][n - 1] == h[n - 1];
      KeptOfPrefix(h, m, c, n - 1);
    }
  }

  lemma {:induction false} KeptCompose(h: seq<real>, c1: real, c2: real, n: nat)
    requires c1 <= c2 && n <= |h|
    ensures Kept(h, c2, Kept(h, c1, n)) == Kept(h, c2, n)
    decreases n
  {
    if n > 0 && h[n - 1] <= c1 {
      KeptCompose(h, c1, c2, n - 1);
    }
  }

  /** Pruning at an earlier cutoff and then at a later one is pruning at the
      later one; in particular pruning twice at the same cutoff changes
      nothing the second time. */
  lemma PruneCompose(h: seq<real>, c1: real, c2: real)
    requires c1 <= c2
    ensures Prune(Prune(h, c1), c2) == Prune(h, c2)
  {
    var k1 := Kept(h, c1, |h|);
    KeptOfPrefix(h, k1, c2, k1);
    KeptCompose(h, c1, c2, |h|);
  }

  lemma {:induction false} KeptPrepend(t: real, h: seq<real>, c: real, n: nat)
    requires t > c && n <= |h|
    ensures Kept([t] + h, c, n + 1) == Kept(h, c, n) + 1
    decreases n
  {
    if n > 0 {
      assert ([t] + h)[n] == h[n - 1];
      KeptPrepend(t, h, c, n - 1);
    }
  }

  /** A timestamp after the cutoff at the front survives, and pruning goes on
      behind it as before. */
  lemma PrunePrepend(t: real, h: seq<real>, c: real)
    requires t > c
    ensures Prune([t] + h, c) == [t] + Prune(h, c)
  {
    KeptPrepend(t, h, c, |h|);
    var k := Kept(h, c, |h|);
    assert ([t] + h)[..k + 1] == [t] + h[..k];
  }

  /** `log` is newest first and nothing in it is after `last`, stated link
      by link. */
  predicate LogUpTo(log: seq<real>, last: real) {
    log == [] || (log[0] <= last && LogUpTo(log[1..], log[0]))
  }

  lemma {:induction false} LogUpToIsNewestFirst(log: seq<real>, last: real)
    requires LogUpTo(log, last)
    ensures NewestFirst(log) && NotAfter(log, last)
  {
    if log != [] {
      LogUpToIsNewestFirst(log[1..], log[0]);
      assert forall i :: 0 < i < |log| ==> log[i] == log[1..][i - 1];
    }
  }

  lemma LogUpToPrepend(t: real, log: seq<real>, last: real)
    requires LogUpTo(log, last) && last <= t
    ensures LogUpTo([t] + log, t)
  {
    assert ([t] + log)[1..] == log;
  }

  lemma AbovePrepend(t: real, log: seq<real>, c: real)
    ensures |Above([t] + log, c)| == |Above(log, c)| + (if t > c then 1 else 0)
  {
    assert ([t] + log)[1..] == log;
  }

  /** A log pruned at one cutoff and then at a later one holds exactly the
      logged timestamps after the later cutoff. */
  lemma LogRepruned(log: seq<real>, last: real, h: seq<real>, c: real, c0: real)
    requires LogUpTo(log, last) && c0 <= c && h == Prune(log, c0)
    ensures Prune(h, c) == Above(log, c)
  {
    PruneCompose(log, c0, c);
    LogUpToIsNewestFirst(log, last);
    PruneNewestFirst(log, c);
  }

  // ---------------------------------------------------------------------------
  // one admission decision

  /** The verdict of `allow_request` and the value of `self.history` after it. */
  datatype Decision = Decision(admitted: bool, history: seq<real>)

  /** The body of `allow_request` once the history is loaded: prune it at
      `now - duration`; deny if it still holds `num_requests` or more
      entries, otherwise put `now` in front. */
  function Decide(stored: seq<real>, rate: Rate, now: real): (dc: Decision)
    // an admission records `now` first and keeps the history within the quota
    ensures dc.admitted ==> 0 < |dc.history| <= rate.numRequests && dc.history[0] == now
    // a denial means the quota is used up
    ensures !dc.admitted ==> |dc.history| >= rate.numRequests
  {
    var pruned := Prune(stored, now - rate.duration as real);
    if |pruned| >= rate.numRequests then Decision(false, pruned) else Decision(true, [now] + pruned)
  }

  /** The decision counts only the stored timestamps inside the window, and
      the history it leaves is exactly those, plus `now` on an admission. */
  lemma DecideOnWindow(stored: seq<real>, rate: Rate, now: real)
    requires NewestFirst(stored)
    ensures var dc := Decide(stored, rate, now);
      var inWindow := Above(stored, now - rate.duration as real);
      && (dc.admitted <==> |inWindow| < rate.numRequests)
      && dc.history == (if dc.admitted then [now] + inWindow else inWindow)
  {
    PruneNewestFirst(stored, now - rate.duration as real);
  }

  /** Newest-first order is kept when the clock has not gone back, and the
      history after a decision lies within the window ending at `now`. */
  lemma DecideKeepsOrder(stored: seq<real>, rate: Rate, now: real)
    requires rate.duration > 0
    requires NewestFirst(stored) && NotAfter(stored, now)
    ensures var h := Decide(stored, rate, now).history;
      && NewestFirst(h) && NotAfter(h, now)
      && (h == [] || h[|h| - 1] > now - rate.duration as real)
  {
    var p := Prune(stored, now - rate.duration as real);
    assert forall i :: 0 <= i < |p| ==> p[i] == stored[i];
  }

  // ---------------------------------------------------------------------------
  // one step against the cache

  /** `self.history` after `cache.get(key)` and `if not self.history:
      self.history = []`. */
  function Loaded(entries: map<string, Entry>, key: string): seq<real> {
    if key in entries then entries[key].history else []
  }

  /** The verdict, the value of `self.history` afterwards, and the cache
      contents afterwards. */
  datatype Outcome = Outcome(admitted: bool, history: seq<real>, entries: map<string, Entry>)

  /** Every stored history holds at most `bound` timestamps. */
  predicate Bounded(entries: map<string, Entry>, bound: int) {
    forall k :: k in entries ==> |entries[k].history| <= bound
  }

  /** One `allow_request` with a rate and a key: decide on the history stored
      under `key`; a denial (`throttle_failure`) writes nothing back, an
      admission (`throttle_success`) stores the new history under `key` with
      TTL `duration`. */
  function Step(entries: map<string, Entry>, rate: Rate, key: string, now: real): (o: Outcome)
    ensures !o.admitted ==> o.entries == entries
    ensures o.admitted ==> o.entries == entries[key := Entry(o.history, rate.duration)]
    // the quota bound on every stored history is kept
    ensures Bounded(entries, rate.numRequests) ==> Bounded(o.entries, rate.numRequests)
  {
    var dc := Decide(Loaded(entries, key), rate, now);
    Outcome(dc.admitted, dc.history,
            if dc.admitted then entries[key := Entry(dc.history, rate.duration)] else entries)
  }

  /** Seen from any one key, a step on that key is `Decide` on its stored
      history, after which the key holds the new history if admitted and
      the old one, unpruned, if denied; a step on another key leaves it
      alone. */
  lemma StepPerKey(entries: map<string, Entry>, rate: Rate, k: string, now: real, key: string)
    ensures var o := Step(entries, rate, k, now);
      var dc := Decide(Loaded(entries, k), rate, now);
      && (k == key ==> o.admitted == dc.admitted && o.history == dc.history)
      && Loaded(o.entries, key) == (if k == key && o.admitted then o.history else Loaded(entries, key))
  {
  }

  // ---------------------------------------------------------------------------
  // a run of requests on one key

  /** The clock never goes back during the run. */
  predicate Chronological(times: seq<real>) {
    |times| <= 1 || (times[0] <= times[1] && Chronological(times[1..]))
  }

  /** The verdicts for requests on one key at `times`, starting from the
      stored history `stored`: each admission replaces the stored history,
      each denial leaves it as it was. */
  function Run(stored: seq<real>, rate: Rate, times: seq<real>): (verdicts: seq<bool>)
    ensures |verdicts| == |times|
    decreases times
  {
    if times == [] then []
    else
      var dc := Decide(stored, rate, times[0]);
      [dc.admitted] + Run(if dc.admitted then dc.history else stored, rate, times[1..])
  }

  /** How many of the requests were admitted at a time strictly after `c`. */
  function AdmittedAfter(times: seq<real>, verdicts: seq<bool>, c: real): nat
    requires |verdicts| == |times|
  {
    if times == [] then 0
    else
      var here: nat := if verdicts[0] && times[0] > c then 1 else 0;
      here + AdmittedAfter(times[1..], verdicts[1..], c)
  }

  lemma {:induction false} AdmittedAfterSnoc(times: seq<real>, verdicts: seq<bool>, c: real, n: nat)
    requires |verdicts| == |times| && n < |times|
    ensures AdmittedAfter(times[..n + 1], verdicts[..n + 1], c) ==
      AdmittedAfter(times[..n], verdicts[..n], c) + (if verdicts[n] && times[n] > c then 1 else 0)
  {
    if n > 0 {
      assert times[..n + 1][1..] == times[1..][..n];
      assert verdicts[..n + 1][1..] == verdicts[1..][..n];
      assert times[..n][1..] == times[1..][..n - 1];
      assert verdicts[..n][1..] == verdicts[1..][..n - 1];
      AdmittedAfterSnoc(times[1..], verdicts[1..], c, n - 1);
    }
  }

  /** Request `i > 0` of a run is request `i - 1` of the run after the first
      request, and the admissions before it split the same way. */
  lemma RunShift(stored: seq<real>, rate: Rate, times: seq<real>, c: real, i: nat)
    requires 0 < i < |times|
    ensures var dc := Decide(stored, rate, times[0]);
      var verdicts := Run(stored, rate, times);
      var rest := Run(if dc.admitted then dc.history else stored, rate, times[1..]);
      && verdicts[i] == rest[i - 1]
      && AdmittedAfter(times[..i], verdicts[..i], c) ==
         (if dc.admitted && times[0] > c then 1 else 0) + AdmittedAfter(times[1..][..i - 1], rest[..i - 1], c)
  {
    var verdicts := Run(stored, rate, times);
    assert times[..i][1..] == times[1..][..i - 1];
    assert verdicts[..i][1..] == verdicts[1..][..i - 1];
  }

  lemma RunHead(stored: seq<real>, rate: Rate, times: seq<real>)
    requires times != []
    ensures Run(stored, rate, times)[0] == Decide(stored, rate, times[0]).admitted
  {
  }

  /** With a newest-first log behind the stored history, a decision at `t`
      counts the logged timestamps inside the window ending at `t`. */
  lemma DecideByLog(stored: seq<real>, rate: Rate, t: real, log: seq<real>, last: real)
    requires last <= t
    requires LogUpTo(log, last) && stored == Prune(log, last - rate.duration as real)
    ensures Decide(stored, rate, t).admitted <==> |Above(log, t - rate.duration as real)| < rate.numRequests
  {
    DecideCountsPruned(stored, rate, t);
    assert |Prune(stored, t - rate.duration as real)| == |Above(log, t - rate.duration as real)| by {
      LogRepruned(log, last, stored, t - rate.duration as real, last - rate.duration as real);
    }
  }

  lemma DecideCountsPruned(stored: seq<real>, rate: Rate, now: real)
    ensures Decide(stored, rate, now).admitted <==>
      |Prune(stored, now - rate.duration as real)| < rate.numRequests
  {
  }

  /** An admission at `t` stores the log grown by `t`, pruned at `t`. */
  lemma DecideExtendsLog(stored: seq<real>, rate: Rate, t: real, log: seq<real>, last: real)
    requires rate.duration > 0 && last <= t
    requires LogUpTo(log, last) && stored == Prune(log, last - rate.duration as real)
    requires Decide(stored, rate, t).admitted
    ensures Decide(stored, rate, t).history == Prune([t] + log, t - rate.duration as real)
    ensures LogUpTo([t] + log, t)
  {
    DecideAdmittedHistory(stored, rate, t);
    PruneGrownLog(stored, log, t, last - rate.duration as real, t - rate.duration as real);
    LogUpToPrepend(t, log, last);
  }

  lemma DecideAdmittedHistory(stored: seq<real>, rate: Rate, now: real)
    requires Decide(stored, rate, now).admitted
    ensures Decide(stored, rate, now).history == [now] + Prune(stored, now - rate.duration as real)
  {
  }

  lemma PruneGrownLog(stored: seq<real>, log: seq<real>, t: real, c0: real, c: real)
    requires c0 <= c < t && stored == Prune(log, c0)
    ensures [t] + Prune(stored, c) == Prune([t] + log, c)
  {
    PruneCompose(log, c0, c);
    PrunePrepend(t, log, c);
  }

  /** The invariant behind the sliding window: if the stored history is the
      newest-first list `log` of earlier admissions pruned at
      `last - duration`, then request `i` is admitted exactly when the
      admissions in `log` and in the requests before it that fall strictly
      inside its window number fewer than `num_requests`. */
  lemma {:induction false} RunWindow(stored: seq<real>, rate: Rate, times: seq<real>,
                                     log: seq<real>, last: real, i: nat, c: real)
    requires rate.duration > 0
    requires Chronological(times) && i < |times|
    requires LogUpTo(log, last) && last <= times[0]
    requires stored == Prune(log, last - rate.duration as real)
    requires c == times[i] - rate.duration as real
    ensures var verdicts := Run(stored, rate, times);
      verdicts[i] <==> |Above(log, c)| + AdmittedAfter(times[..i], verdicts[..i], c) < rate.numRequests
    decreases i
  {
    var t := times[0];
    var dc := Decide(stored, rate, t);
    if i == 0 {
      RunHead(stored, rate, times);
      DecideByLog(stored, rate, t, log, last);
    } else {
      assert times[1..][0] == times[1] && times[1..][i - 1] == times[i];
      RunShift(stored, rate, times, c, i);
      if dc.admitted {
        DecideExtendsLog(stored, rate, t, log, last);
        RunWindow(dc.history, rate, times[1..], [t] + log, t, i - 1, c);
        AbovePrepend(t, log, c);
      } else {
        RunWindow(stored, rate, times[1..], log, last, i - 1, c);
      }
    }
  }

  /** The sliding-window guarantee for a key with no stored history: with a
      clock that never goes back, a request is admitted exactly when fewer
      than `num_requests` earlier requests were admitted less than
      `duration` seconds before it. */
  lemma RunAdmitsIffWindowHasRoom(rate: Rate, times: seq<real>, i: nat)
    requires rate.duration > 0
    requires Chronological(times) && i < |times|
    ensures var verdicts := Run([], rate, times);
      verdicts[i] <==> AdmittedAfter(times[..i], verdicts[..i], times[i] - rate.duration as real) < rate.numRequests
  {
    RunWindow([], rate, times, [], times[0], i, times[i] - rate.duration as real);
  }

  /** Hence at most `num_requests` requests are admitted within any
      `duration`-second window ending at an admitted request. */
  lemma RunAtMostQuotaPerWindow(rate: Rate, times: seq<real>, i: nat)
    requires rate.duration > 0
    requires Chronological(times) && i < |times|
    requires Run([], rate, times)[i]
    ensures var verdicts := Run([], rate, times);
      AdmittedAfter(times[..i + 1], verdicts[..i + 1], times[i] - rate.duration as real) <= rate.numRequests
  {
    RunAdmitsIffWindowHasRoom(rate, times, i);
    AdmittedAfterSnoc(times, Run([], rate, times), times[i] - rate.duration as real, i);
  }

  /** How many of the requests were admitted at a time in `(lo, hi]`. */
  function AdmittedWithin(times: seq<real>, verdicts: seq<bool>, lo: real, hi: real): nat
    requires |verdicts| == |times|
  {
    if times == [] then 0
    else
      var here: nat := if verdicts[0] && lo < times[0] <= hi then 1 else 0;
      here + AdmittedWithin(times[1..], verdicts[1..], lo, hi)
  }

  lemma {:induction false} AdmittedWithinSnoc(times: seq<real>, verdicts: seq<bool>, lo: real, hi: real, n: nat)
    requires |verdicts| == |times| && n < |times|
    ensures AdmittedWithin(times[..n + 1], verdicts[..n + 1], lo, hi) ==
      AdmittedWithin(times[..n], verdicts[..n], lo, hi) + (if verdicts[n] && lo < times[n] <= hi then 1 else 0)
  {
    if n > 0 {
      assert times[..n + 1][1..] == times[1..][..n];
      assert verdicts[..n + 1][1..] == verdicts[1..][..n];
      assert times[..n][1..] == times[1..][..n - 1];
      assert verdicts[..n][1..] == verdicts[1..][..n - 1];
      AdmittedWithinSnoc(times[1..], verdicts[1..], lo, hi, n - 1);
    }
  }

  /** Admissions in `(lo, hi]` are among the admissions after any `c <= lo`. */
  lemma {:induction false} AdmittedWithinAtMostAfter(times: seq<real>, verdicts: seq<bool>, lo: real, hi: real, c: real)
    requires |verdicts| == |times| && c <= lo
    ensures AdmittedWithin(times, verdicts, lo, hi) <= AdmittedAfter(times, verdicts, c)
  {
    if times != [] {
      AdmittedWithinAtMostAfter(times[1..], verdicts[1..], lo, hi, c);
    }
  }

  lemma {:induction false} PrefixAtMostQuotaPerWindow(rate: Rate, times: seq<real>, a: real, n: nat)
    requires rate.duration > 0
    requires Chronological(times) && n <= |times|
    ensures var verdicts := Run([], rate, times);
      var k := AdmittedWithin(times[..n], verdicts[..n], a, a + rate.duration as real);
      k == 0 || k <= rate.numRequests
    decreases n
  {
    if n > 0 {
      var verdicts := Run([], rate, times);
      var hi := a + rate.duration as real;
      AdmittedWithinSnoc(times, verdicts, a, hi, n - 1);
      if verdicts[n - 1] && a < times[n - 1] <= hi {
        AdmittedWithinAtMostAfter(times[..n], verdicts[..n], a, hi, times[n - 1] - rate.duration as real);
        RunAtMostQuotaPerWindow(rate, times, n - 1);
      } else {
        PrefixAtMostQuotaPerWindow(rate, times, a, n - 1);
      }
    }
  }

  /** Hence no `duration`-second window `(a, a + duration]`, wherever it
      lies, holds more than `num_requests` admissions (and a quota of zero
      or less admits nothing at all). */
  lemma AtMostQuotaInAnyWindow(rate: Rate, times: seq<real>, a: real)
    requires rate.duration > 0
    requires Chronological(times)
    ensures var k := AdmittedWithin(times, Run([], rate, times), a, a + rate.duration as real);
      k == 0 || k <= rate.numRequests
  {
    PrefixAtMostQuotaPerWindow(rate, times, a, |times|);
    assert times[..|times|] == times;
    assert Run([], rate, times)[..|times|] == Run([], rate, times);
  }

  // ---------------------------------------------------------------------------
  // retry-after estimate

  /** `wait()`: the time left until the oldest retained timestamp leaves the
      window (the whole `duration` for an empty history), spread over the
      `num_requests - len(history) + 1` slots; no estimate when that count is
      not positive. */
  function WaitEstimate(history: seq<real>, now: real, rate: Rate): (r: Option<real>)
    ensures r.None? <==> |history| > rate.numRequests
  {
    var remaining := if history != [] then rate.duration as real - (now - history[|history| - 1])
                     else rate.duration as real;
    var available := rate.numRequests - |history| + 1;
    if available <= 0 then None else Some(remaining / available as real)
  }

  lemma DivideByAtLeastOne(x: real, a: real)
    requires x > 0.0 && a >= 1.0
    ensures 0.0 < x / a <= x
  {
    assert x / a * a == x;
  }

  /** For a pruned history within the clock, the estimate, when there is one,
      is positive and at most `duration`. */
  lemma WaitWithinWindow(history: seq<real>, now: real, rate: Rate)
    requires rate.duration > 0
    requires NotAfter(history, now)
    requires history == [] || history[|history| - 1] > now - rate.duration as real
    requires WaitEstimate(history, now, rate).Some?
    ensures 0.0 < WaitEstimate(history, now, rate).value <= rate.duration as real
  {
    var remaining := if history != [] then rate.duration as real - (now - history[|history| - 1])
                     else rate.duration as real;
    var available := rate.numRequests - |history| + 1;
    assert 0.0 < remaining <= rate.duration as real;
    DivideByAtLeastOne(remaining, available as real);
  }

  /** After an admission there is always an estimate, whatever was stored:
      `wait()` is never `None` after a successful `allow_request`. */
  lemma WaitAfterAdmission(stored: seq<real>, rate: Rate, now: real)
    requires Decide(stored, rate, now).admitted
    ensures WaitEstimate(Decide(stored, rate, now).history, now, rate).Some?
  {
  }

  /** After any decision, admitted or not, the estimate on the resulting
      history is positive and at most `duration` whenever there is one. */
  lemma WaitAfterDecide(stored: seq<real>, rate: Rate, now: real)
    requires rate.duration > 0
    requires NewestFirst(stored) && NotAfter(stored, now)
    ensures var dc := Decide(stored, rate, now);
      WaitEstimate(dc.history, now, rate).Some? ==>
        0.0 < WaitEstimate(dc.history, now, rate).value <= rate.duration as real
  {
    var dc := Decide(stored, rate, now);
    DecideKeepsOrder(stored, rate, now);
    if WaitEstimate(dc.history, now, rate).Some? {
      WaitWithinWindow(dc.history, now, rate);
    }
  }

  // ---------------------------------------------------------------------------
  // scenarios

  /** Two per minute on one key of an empty cache: requests at 0 and 10 are
      admitted, the one at 20 is denied, writes nothing, and is told to wait
      40 seconds. */
  lemma TwoPerMinuteScenario(key: string)
    ensures var r := Rate(2, 60);
      var o0 := Step(map[], r, key, 0.0);
      var o1 := Step(o0.entries, r, key, 10.0);
      var o2 := Step(o1.entries, r, key, 20.0);
      && o0.admitted && o1.admitted && !o2.admitted
      && o2.entries == o1.entries && Loaded(o2.entries, key) == [10.0, 0.0]
      && WaitEstimate(o2.history, 20.0, r) == Some(40.0)
  {
    var r := Rate(2, 60);
    assert Prune([], -60.0) == [];
    var o0 := Step(map[], r, key, 0.0);
    assert Loaded(o0.entries, key) == [0.0];
    assert Prune([0.0], -50.0) == [0.0];
    var o1 := Step(o0.entries, r, key, 10.0);
    assert Loaded(o1.entries, key) == [10.0, 0.0];
    assert Prune([10.0, 0.0], -40.0) == [10.0, 0.0];
  }

  /** The boundary is not retained: with one request per minute, a request
      exactly 60 seconds after an admitted one is admitted. */
  lemma BoundaryIsPruned()
    ensures Run([], Rate(1, 60), [0.0, 60.0]) == [true, true]
  {
    assert Prune([], -60.0) == [];
    assert Prune([0.0], 0.0) == Prune([], 0.0) == [];
    assert [0.0, 60.0][1..] == [60.0];
  }
}
