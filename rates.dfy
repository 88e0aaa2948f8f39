/** Rate configuration of `SimpleRateThrottle`: `parse_rate`, `get_rate`
    and the rate part of `__init__`. */
module Rates {
  import opened Base
  import opened Text

  /** A parsed quota: at most `numRequests` requests per `duration` seconds
      (`self.num_requests`, `self.duration`). `int()` accepts a sign, so
      `numRequests` may be zero or negative; such a quota admits nothing. */
  datatype Rate = Rate(numRequests: int, duration: nat)

  /** The configured rate (`self.rate`) and what it parsed to; `limit` is
      `None` exactly when `rate` is `None` ("no throttling"). */
  datatype Setup = Setup(rate: Option<string>, limit: Option<Rate>)

  /** The unit table `{'s': 1, 'm': 60, 'h': 3600, 'd': 86400}`. */
  function UnitSeconds(c: char): (r: Option<nat>)
    ensures r.Some? <==> IsUnit(c)
    ensures r.Some? ==> r.value > 0
  {
    if c == 's' then Some(1)
    else if c == 'm' then Some(60)
    else if c == 'h' then Some(3600)
    else if c == 'd' then Some(86400)
    else None
  }

  predicate IsUnit(c: char) { c == 's' || c == 'm' || c == 'h' || c == 'd' }

  /** `parse_rate(rate)`: `None` gives `(None, None)`; otherwise the rate is
      split on `/` into exactly a count and a period, the count goes through
      `int()` and the period's first character is looked up in the unit
      table. Each failure is the exception Python raises at that step. */
  function ParseRate(rate: Option<string>): (r: Result<Option<Rate>, Error>)
    ensures rate.None? <==> r == Ok(None)
    ensures r.Ok? && r.value.Some? ==> r.value.value.duration in {1, 60, 3600, 86400}
  {
    match rate
    case None => Ok(None)
    case Some(s) =>
      var parts := Split(s, '/');
      if |parts| != 2 then Err(UnpackError)
      else
        match ParseInt(parts[0])
        case None => Err(IntLiteralError)
        case Some(n) =>
          var period := parts[1];
          if period == [] then Err(IndexError)
          else
            match UnitSeconds(period[0])
            case None => Err(KeyError)
            case Some(d) => Ok(Some(Rate(n, d)))
  }

  /** A rate string that does not contain exactly one `/` fails to unpack,
      and one that does always gets past the unpacking. */
  lemma ParseRateUnpack(s: string)
    ensures ParseRate(Some(s)) == Err(UnpackError) <==> Occurrences(s, '/') != 1
  {
    SplitCount(s, '/');
  }

  /** The outcome for a string `num/period` with a single slash, case by case:
      a bad count, an empty period, an unknown unit, or the parsed rate. */
  lemma ParseRateFields(num: string, period: string)
    requires '/' !in num && '/' !in period
    ensures var r := ParseRate(Some(num + "/" + period));
      && (ParseInt(num).None? ==> r == Err(IntLiteralError))
      && (ParseInt(num).Some? && period == [] ==> r == Err(IndexError))
      && (ParseInt(num).Some? && period != [] && !IsUnit(period[0]) ==> r == Err(KeyError))
      && (ParseInt(num).Some? && period != [] && IsUnit(period[0]) ==>
            r == Ok(Some(Rate(ParseInt(num).value, UnitSeconds(period[0]).value))))
  {
    SplitAfterPiece(num, '/', period);
    SplitWhole(period, '/');
    assert num + "/" + period == num + ['/'] + period;
  }

  /** Only the first character of the period counts: `"10/m"`, `"10/min"`
      and `"10/minute"` parse alike. */
  lemma ParseRateFirstCharOnly(num: string, p1: string, p2: string)
    requires '/' !in num && '/' !in p1 && '/' !in p2
    requires p1 != [] && p2 != [] && p1[0] == p2[0]
    ensures ParseRate(Some(num + "/" + p1)) == ParseRate(Some(num + "/" + p2))
  {
    ParseRateFields(num, p1);
    ParseRateFields(num, p2);
  }

  /** Round trip: the rate string `str(n) + "/" + unit` parses back to `n`
      requests per unit, for every integer `n` and every unit word. */
  lemma ParseRateFormatted(n: int, unit: string)
    requires unit != [] && IsUnit(unit[0]) && '/' !in unit
    ensures ParseRate(Some(IntToString(n) + "/" + unit)) == Ok(Some(Rate(n, UnitSeconds(unit[0]).value)))
  {
    var num := IntToString(n);
    assert '/' !in num by {
      var d := NatToString(if n < 0 then -n else n);
      assert forall i :: 0 <= i < |d| ==> d[i] != '/';
      if n < 0 {
        assert num == ['-'] + d;
        assert forall i :: 0 < i < |num| ==> num[i] == d[i - 1];
      }
    }
    ParseIntToString(n);
    ParseRateFields(num, unit);
  }

  /** `parse_rate("10/min") == (10, 60)`. */
  lemma ParseRateTenPerMinute()
    ensures ParseRate(Some("10/min")) == Ok(Some(Rate(10, 60)))
  {
    assert DigitChar(1) == '1' && DigitChar(0) == '0';
    assert NatToString(1) == "1";
    assert NatToString(10) == NatToString(1) + [DigitChar(0)];
    assert IntToString(10) + "/" + "min" == "10/min";
    ParseRateFormatted(10, "min");
  }

  /** `get_rate()`: a falsy scope (`None` or empty) is a configuration error,
      so is a scope missing from `THROTTLE_RATES`; otherwise the mapped rate,
      which may itself be `None`. */
  function GetRate(scope: Option<string>, rates: map<string, Option<string>>): (r: Result<Option<string>, Error>)
    ensures r == Err(ImproperlyConfigured(ScopeUnset)) <==> scope.None? || scope.value == []
    ensures r == Err(ImproperlyConfigured(NoRateForScope)) <==> scope.Some? && scope.value != [] && scope.value !in rates
    ensures r.Ok? <==> scope.Some? && scope.value in rates && scope.value != []
    ensures r.Ok? ==> r.value == rates[scope.value]
  {
    if scope.None? || scope.value == [] then Err(ImproperlyConfigured(ScopeUnset))
    else if scope.value !in rates then Err(ImproperlyConfigured(NoRateForScope))
    else Ok(rates[scope.value])
  }

  /** The rate part of `__init__`: a falsy `rate` attribute is replaced by
      `get_rate()`, then the rate is parsed. */
  function Init(rateAttr: Option<string>, scope: Option<string>, rates: map<string, Option<string>>): (r: Result<Setup, Error>)
    ensures r.Ok? ==> (r.value.rate.None? <==> r.value.limit.None?)
    ensures r.Ok? && r.value.rate.Some? ==> ParseRate(r.value.rate) == Ok(r.value.limit)
    ensures r.Ok? && r.value.limit.Some? ==> r.value.limit.value.duration > 0
    // an explicit, non-empty rate is used as is and the scope registry is not consulted
    ensures rateAttr.Some? && rateAttr.value != [] ==>
      && (r.Ok? <==> ParseRate(rateAttr).Ok?) && (r.Ok? ==> r.value.rate == rateAttr)
      && (r.Err? ==> r.error == ParseRate(rateAttr).error)
    // without an explicit rate, the rate mapped to the scope is used and parsed
    ensures (rateAttr.None? || rateAttr.value == []) && GetRate(scope, rates).Ok? ==>
      && (r.Ok? <==> ParseRate(GetRate(scope, rates).value).Ok?)
      && (r.Ok? ==> r.value.rate == GetRate(scope, rates).value)
      && (r.Err? ==> r.error == ParseRate(GetRate(scope, rates).value).error)
    // without an explicit rate, a missing or unmapped scope is a configuration error
    ensures (rateAttr.None? || rateAttr.value == []) && (scope.None? || scope.value == []) ==>
      r == Err(ImproperlyConfigured(ScopeUnset))
    ensures (rateAttr.None? || rateAttr.value == []) && scope.Some? && scope.value != [] && scope.value !in rates ==>
      r == Err(ImproperlyConfigured(NoRateForScope))
  {
    var rate := if rateAttr.None? || rateAttr.value == [] then GetRate(scope, rates) else Ok(rateAttr);
    match rate
    case Err(e) => Err(e)
    case Ok(rv) =>
      match ParseRate(rv)
      case Err(e) => Err(e)
      case Ok(limit) => Ok(Setup(rv, limit))
  }

  /** `UserRateThrottle()` as shipped: scope `'user'` over an empty
      `THROTTLE_RATES` and no `rate` attribute, so construction raises
      `ImproperlyConfigured`. */
  lemma UserRateThrottleUnconfigured()
    ensures Init(None, Some("user"), map[]) == Err(ImproperlyConfigured(NoRateForScope))
  {
  }
}
