/**
 * Retry-After handling for rate-limited replies (`_parse_retry_after`,
 * `_rate_limit_wait_details` in downloader.py): section 10.2.3 of RFC 9110
 * for status 429 (section 4 of RFC 6585) and 503 (section 15.6.4 of RFC 9110).
 * Seconds are modelled as `real`; the clock and the HTTP-date parser are parameters.
 */
module RateLimit {
  import opened Common
  import opened Text

  /** The settings the fetch code reads from env.py. */
  datatype Config = Config(maxRetry: int, defaultSleep: real, rateLimitMaxSleep: real, useCfBypass: bool)

  /** `RATE_LIMIT_STATUS_CODES`. */
  const RateLimitStatusCodes: set<int> := {429, 503}

  function Max(a: real, b: real): real { if a >= b then a else b }

  function Min(a: real, b: real): real { if a <= b then a else b }

  /** `str.isdigit()`: non-empty and every character a decimal digit. */
  predicate IsDigitString(s: string) { |s| > 0 && AllDigits(s) }

  /**
   * `_parse_retry_after(header)`. `parseDate` stands for
   * `parsedate_to_datetime` followed by the conversion to UTC seconds; it
   * yields None when the parser raises or returns None. `now` is the current
   * UTC time in the same unit.
   */
  function ParseRetryAfter(header: Option<string>, parseDate: string -> Option<real>, now: real): (r: Option<real>)
    ensures header.None? ==> r.None?
    ensures header.Some? && Strip(header.value) == [] ==> r.None?
    ensures header.Some? && IsDigitString(Strip(header.value)) ==> r == Some(DigitsValue(Strip(header.value)) as real)
    ensures header.Some? && !IsDigitString(Strip(header.value)) ==>
      (r.Some? <==> Strip(header.value) != [] && parseDate(Strip(header.value)).Some?)
    ensures r.Some? && !IsDigitString(Strip(header.value)) ==>
      var t := parseDate(Strip(header.value)).value;
      r.value >= t - now && (r.value == t - now || r.value == 0.0)
    ensures r.Some? ==> r.value >= 0.0
  {
    if header.None? || header.value == [] then None
    else
      var v := Strip(header.value);
      if v == [] then None
      else if IsDigitString(v) then Some(DigitsValue(v) as real)
      else match parseDate(v)
        case None => None
        case Some(t) => Some(Max(t - now, 0.0))
  }

  /** A header written as a whole number of seconds, with any surrounding blanks, reads back as that number. */
  lemma SecondsRoundTrip(n: nat, before: string, after: string, parseDate: string -> Option<real>, now: real)
    requires forall i :: 0 <= i < |before| ==> IsSpace(before[i])
    requires forall i :: 0 <= i < |after| ==> IsSpace(after[i])
    ensures ParseRetryAfter(Some(before + DecimalString(n) + after), parseDate, now) == Some(n as real)
  {
    var d := DecimalString(n);
    var s := before + d + after;
    TrimPadded(before, d, after, IsSpace);
    DecimalRoundTrip(n);
  }

  /** `max(0.0, min(w, hi))`. */
  function Clamp(w: real, hi: real): (r: real)
    ensures 0.0 <= r && r <= Max(0.0, hi)
    ensures 0.0 <= w <= hi ==> r == w
    ensures r <= Max(w, 0.0)
  {
    Max(0.0, Min(w, hi))
  }

  /** Clamping keeps order. */
  lemma ClampMonotone(a: real, b: real, hi: real)
    requires a <= b
    ensures Clamp(a, hi) <= Clamp(b, hi)
  {
  }

  /** `2 ** k`. */
  function Pow2(k: nat): (r: nat)
    ensures r >= 1
  {
    if k == 0 then 1 else 2 * Pow2(k - 1)
  }

  /** The exponential fallback wait, `DEFAULT_SLEEP * 2 ** attempts`, doubling once per attempt. */
  function Backoff(cfg: Config, attempts: nat): real {
    if attempts == 0 then cfg.defaultSleep else 2.0 * Backoff(cfg, attempts - 1)
  }

  /** The doubling wait is the closed form `DEFAULT_SLEEP * 2 ** attempts` of the source. */
  lemma {:induction false} BackoffFormula(cfg: Config, attempts: nat)
    ensures Backoff(cfg, attempts) == cfg.defaultSleep * Pow2(attempts) as real
  {
    if attempts > 0 {
      BackoffFormula(cfg, attempts - 1);
      var p := Pow2(attempts - 1) as real;
      assert Pow2(attempts) as real == 2.0 * p;
      assert cfg.defaultSleep * (2.0 * p) == 2.0 * (cfg.defaultSleep * p);
    }
  }

  /**
   * `_rate_limit_wait_details(response, consecutive_attempts)` for a reply
   * with `status` and Retry-After header `header`: None unless the status is
   * 429 or 503; otherwise the wait and the header as given.
   */
  function RateLimitWait(status: int, header: Option<string>, attempts: nat, cfg: Config,
                         parseDate: string -> Option<real>, now: real): (r: Option<(real, Option<string>)>)
    ensures r.None? <==> status !in RateLimitStatusCodes
    ensures r.Some? ==> r.value.1 == header
    ensures r.Some? ==> 0.0 <= r.value.0 <= Max(0.0, cfg.rateLimitMaxSleep)
    ensures r.Some? && ParseRetryAfter(header, parseDate, now).Some? ==>
      r.value.0 == Clamp(ParseRetryAfter(header, parseDate, now).value, cfg.rateLimitMaxSleep)
    ensures r.Some? && ParseRetryAfter(header, parseDate, now).None? ==>
      r.value.0 == Clamp(Backoff(cfg, attempts), cfg.rateLimitMaxSleep)
  {
    if status !in RateLimitStatusCodes then None
    else
      var parsed := if header.Some? then ParseRetryAfter(header, parseDate, now) else None;
      var w := if parsed.Some? then parsed.value else Backoff(cfg, attempts);
      Some((Clamp(w, cfg.rateLimitMaxSleep), header))
  }

  lemma {:induction false} BackoffNonNegative(cfg: Config, k: nat)
    requires cfg.defaultSleep >= 0.0
    ensures Backoff(cfg, k) >= 0.0
  {
    if k > 0 {
      BackoffNonNegative(cfg, k - 1);
    }
  }

  lemma {:induction false} BackoffMonotone(cfg: Config, j: nat, k: nat)
    requires cfg.defaultSleep >= 0.0 && j <= k
    ensures Backoff(cfg, j) <= Backoff(cfg, k)
    decreases k
  {
    if j < k {
      BackoffMonotone(cfg, j, k - 1);
      BackoffNonNegative(cfg, k - 1);
    }
  }

  /**
   * Without a usable Retry-After header, the wait never shrinks as the
   * consecutive rate-limited attempts pile up (for a non-negative DEFAULT_SLEEP).
   */
  lemma BackoffGrows(status: int, header: Option<string>, j: nat, k: nat, cfg: Config,
                     parseDate: string -> Option<real>, now: real)
    requires status in RateLimitStatusCodes && ParseRetryAfter(header, parseDate, now).None?
    requires cfg.defaultSleep >= 0.0 && j <= k
    ensures RateLimitWait(status, header, j, cfg, parseDate, now).value.0
         <= RateLimitWait(status, header, k, cfg, parseDate, now).value.0
  {
    BackoffMonotone(cfg, j, k);
    ClampMonotone(Backoff(cfg, j), Backoff(cfg, k), cfg.rateLimitMaxSleep);
  }

  /** A Retry-After header within the cap is obeyed exactly. */
  lemma HeaderObeyed(status: int, n: nat, attempts: nat, cfg: Config, parseDate: string -> Option<real>, now: real)
    requires status in RateLimitStatusCodes && n as real <= cfg.rateLimitMaxSleep
    ensures RateLimitWait(status, Some(DecimalString(n)), attempts, cfg, parseDate, now) == Some((n as real, Some(DecimalString(n))))
  {
    var h := DecimalString(n);
    assert ParseRetryAfter(Some(h), parseDate, now) == Some(n as real) by {
      SecondsRoundTrip(n, [], [], parseDate, now);
      assert [] + h + [] == h;
    }
    assert Clamp(n as real, cfg.rateLimitMaxSleep) == n as real;
  }
}
