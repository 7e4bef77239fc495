/**
 * The retry, bypass and backoff loop of `html_get_page` (downloader.py).
 * The network is a function from the index of an attempt to its reply, so
 * a run is determined by the settings and those replies; `Run` is the
 * reference semantics and `HtmlGetPage` the loop proved equal to it.
 */
module PageFetch {
  import opened Common
  import opened RateLimit

  /** What `requests.get` gives for one attempt: a response, or an exception before any response. */
  datatype Reply = Response(status: int, retryAfter: Option<string>, text: string) | ConnectionFailed

  /**
   * Everything the loop consults besides its own variables. For attempt k:
   * `net(k)` is the reply of a plain GET, `bypass(k)` the page the Cloudflare
   * bypasser returns (None when it raises), `now(k)` the clock when a
   * Retry-After date is read. `parseDate` stands for `parsedate_to_datetime`.
   * `wait(k, status, header, attempts)` is what `_rate_limit_wait_details`
   * gives for reply k; `Consistent` ties it to `RateLimitWait`.
   */
  datatype Env = Env(cfg: Config, net: nat -> Reply, bypass: nat -> Option<string>, now: nat -> real,
                     parseDate: string -> Option<real>,
                     wait: (nat, int, Option<string>, nat) -> Option<(real, Option<string>)>)

  /** The loop's rate-limit check is `_rate_limit_wait_details` with this environment's settings and clock. */
  ghost predicate Consistent(env: Env) {
    forall k: nat, status: int, header: Option<string>, attempts: nat
      {:trigger RateLimitWait(status, header, attempts, env.cfg, env.parseDate, env.now(k))} ::
      env.wait(k, status, header, attempts)
        == RateLimitWait(status, header, attempts, env.cfg, env.parseDate, env.now(k))
  }

  /** The environment of a call, with the rate-limit check wired to `RateLimitWait`. */
  function MakeEnv(cfg: Config, net: nat -> Reply, bypass: nat -> Option<string>, now: nat -> real,
                   parseDate: string -> Option<real>): (env: Env)
    ensures Consistent(env)
    ensures env.cfg == cfg && env.net == net && env.bypass == bypass && env.now == now
    ensures env.parseDate == parseDate
  {
    Env(cfg, net, bypass, now, parseDate,
        (k: nat, status: int, header: Option<string>, attempts: nat) =>
          RateLimitWait(status, header, attempts, cfg, parseDate, now(k)))
  }

  /** The loop variables, the attempt counter and the `time.sleep` calls made so far. */
  datatype Loop = Loop(retries: int, rateLimitAttempts: nat, useBypasser: bool, attempt: nat, sleeps: seq<real>)

  /**
   * How a call ends: a `return` inside the loop (the page, possibly ""); the
   * `while` condition failing, after which the final `return ""` runs; or the
   * ValueError of `time.sleep` with a negative time.
   */
  datatype Exit = Returned(page: string, sleeps: seq<real>) | FellThrough(sleeps: seq<real>) | SleepRaised(sleeps: seq<real>)

  /** The string `html_get_page` returns; None when it raises. */
  function ReturnValue(e: Exit): (r: Option<string>)
    ensures r.None? <==> e.SleepRaised?
    ensures e.FellThrough? ==> r == Some("")
    ensures e.Returned? ==> r == Some(e.page)
  {
    match e
    case Returned(page, _) => Some(page)
    case FellThrough(_) => Some("")
    case SleepRaised(_) => None
  }

  datatype Next = Continue(state: Loop) | Stop(exit: Exit)

  function Start(retry: int, useBypasser: bool): Loop {
    Loop(retry, 0, useBypasser, 0, [])
  }

  /** `raise_for_status()` raises for client and server errors. */
  predicate IsHttpError(status: int) { 400 <= status < 600 }

  /** The wait `_rate_limit_wait_details` gives for reply `k`, None when it is not rate-limited. */
  function WaitFor(env: Env, s: Loop): Option<(real, Option<string>)>
    requires env.net(s.attempt).Response?
  {
    var reply := env.net(s.attempt);
    env.wait(s.attempt, reply.status, reply.retryAfter, s.rateLimitAttempts)
  }

  /** In a consistent environment the loop's wait is `RateLimitWait` of the reply. */
  lemma WaitForIs(env: Env, s: Loop)
    requires Consistent(env) && env.net(s.attempt).Response?
    ensures var reply := env.net(s.attempt);
      WaitFor(env, s)
        == RateLimitWait(reply.status, reply.retryAfter, s.rateLimitAttempts, env.cfg, env.parseDate, env.now(s.attempt))
  {
  }

  /** Whether the bypasser is used for this attempt. */
  predicate Bypassing(env: Env, s: Loop) { s.useBypasser && env.cfg.useCfBypass }

  /** The linear backoff of the exception handler, `DEFAULT_SLEEP * (MAX_RETRY - retries_remaining + 1)`. */
  function LinearBackoff(cfg: Config, retries: int): real {
    cfg.defaultSleep * (cfg.maxRetry - retries + 1) as real
  }

  /** The `except` block, for an exception raised with `status` the status of the response, if any. */
  function Handle(env: Env, s: Loop, status: Option<int>): Next {
    if s.retries == 0 then Stop(Returned("", s.sleeps))
    else if !Bypassing(env, s) && status == Some(404) then Stop(Returned("", s.sleeps))
    else if !Bypassing(env, s) && status == Some(403) then
      Continue(Loop(s.retries - 1, 0, true, s.attempt + 1, s.sleeps))
    else
      var t := LinearBackoff(env.cfg, s.retries);
      if t < 0.0 then Stop(SleepRaised(s.sleeps))
      else Continue(Loop(s.retries - 1, 0, s.useBypasser, s.attempt + 1, s.sleeps + [t]))
  }

  /** One pass through the body of the `while` loop. */
  function Step(env: Env, s: Loop): Next {
    if Bypassing(env, s) then
      match env.bypass(s.attempt)
      case Some(page) => Stop(Returned(page, s.sleeps))
      case None => Handle(env, s, None)
    else
      match env.net(s.attempt)
      case ConnectionFailed => Handle(env, s, None)
      case Response(status, _, text) =>
        var wait := WaitFor(env, s);
        if wait.Some? then
          var w := wait.value.0;
          Continue(Loop(s.retries, s.rateLimitAttempts + 1, s.useBypasser, s.attempt + 1,
                        if w > 0.0 then s.sleeps + [w] else s.sleeps))
        else if IsHttpError(status) then Handle(env, s.(rateLimitAttempts := 0), Some(status))
        else Stop(Returned(text, s.sleeps + [1.0]))
  }

  /** The loop run for at most `fuel` passes; None when the passes run out first. */
  function Run(env: Env, s: Loop, fuel: nat): Option<Exit>
    decreases fuel
  {
    if s.retries < 0 then Some(FellThrough(s.sleeps))
    else if fuel == 0 then None
    else match Step(env, s)
      case Stop(e) => Some(e)
      case Continue(next) => Run(env, next, fuel - 1)
  }

  /** One pass of `Run`. */
  lemma RunStep(env: Env, s: Loop, fuel: nat)
    requires s.retries >= 0 && fuel > 0
    ensures Step(env, s).Stop? ==> Run(env, s, fuel) == Some(Step(env, s).exit)
    ensures Step(env, s).Continue? ==> Run(env, s, fuel) == Run(env, Step(env, s).state, fuel - 1)
  {
  }

  /** A rate-limited reply keeps the retry budget and counts one more consecutive rate-limited attempt. */
  lemma RateLimitedStep(env: Env, s: Loop)
    requires !Bypassing(env, s) && env.net(s.attempt).Response? && WaitFor(env, s).Some?
    ensures var w := WaitFor(env, s).value.0;
      Step(env, s) == Continue(Loop(s.retries, s.rateLimitAttempts + 1, s.useBypasser, s.attempt + 1,
                                    if w > 0.0 then s.sleeps + [w] else s.sleeps))
  {
  }

  /** Reply `k` is a 429 or 503 on the plain path. */
  predicate RateLimitedAt(env: Env, k: nat) {
    env.net(k).Response? && env.net(k).status in RateLimitStatusCodes
  }

  /** An upper bound on the passes left when no reply from attempt `n` on is rate-limited. */
  function Measure(s: Loop, n: nat): nat {
    (if s.retries >= 0 then s.retries + 1 else 0) + (if s.attempt < n then n - s.attempt else 0)
  }

  /** Every pass that continues lowers `Measure`. */
  lemma StepDecreases(env: Env, s: Loop, n: nat)
    requires Consistent(env) && s.retries >= 0
    requires forall k :: n <= k ==> !RateLimitedAt(env, k)
    ensures Step(env, s).Continue? ==> Measure(Step(env, s).state, n) < Measure(s, n)
    ensures Step(env, s).Continue? ==> Step(env, s).state.attempt == s.attempt + 1
  {
    if !Bypassing(env, s) && env.net(s.attempt).Response? && WaitFor(env, s).Some? {
      WaitForIs(env, s);
      assert RateLimitedAt(env, s.attempt);
    }
  }

  /** One more pass never changes a result already reached. */
  lemma {:induction false} RunOneMore(env: Env, s: Loop, fuel: nat)
    requires Run(env, s, fuel).Some?
    ensures Run(env, s, fuel + 1) == Run(env, s, fuel)
    decreases fuel
  {
    if s.retries >= 0 {
      RunStep(env, s, fuel);
      RunStep(env, s, fuel + 1);
      var next := Step(env, s);
      if next.Continue? {
        RunOneMore(env, next.state, fuel - 1);
      }
    }
  }

  /** More passes never change a result already reached. */
  lemma {:induction false} RunFuelMonotone(env: Env, s: Loop, fuel: nat, more: nat)
    requires Run(env, s, fuel).Some?
    requires fuel <= more
    ensures Run(env, s, more) == Run(env, s, fuel)
    decreases more - fuel
  {
    if fuel < more {
      RunOneMore(env, s, fuel);
      RunFuelMonotone(env, s, fuel + 1, more);
    }
  }

  /**
   * When every reply from now on is a 429 or 503 and the bypasser is off,
   * no number of passes ends the loop: rate-limited replies never use up
   * the retry budget.
   */
  lemma {:induction false} RateLimitedForever(env: Env, s: Loop, fuel: nat)
    requires Consistent(env) && s.retries >= 0 && !Bypassing(env, s)
    requires forall k :: s.attempt <= k ==> RateLimitedAt(env, k)
    ensures Run(env, s, fuel) == None
    decreases fuel
  {
    if fuel > 0 {
      RateLimitedContinues(env, s);
      RunStep(env, s, fuel);
      RateLimitedForever(env, Step(env, s).state, fuel - 1);
    }
  }

  /** A 429 or 503 on the plain path moves on to the next attempt with the same budget and no bypasser. */
  lemma RateLimitedContinues(env: Env, s: Loop)
    requires Consistent(env) && !Bypassing(env, s) && RateLimitedAt(env, s.attempt)
    ensures Step(env, s).Continue?
    ensures Step(env, s).state.retries == s.retries && Step(env, s).state.attempt == s.attempt + 1
    ensures !Bypassing(env, Step(env, s).state)
  {
    WaitForIs(env, s);
    RateLimitedStep(env, s);
  }

  /** Every `time.sleep` call recorded is non-negative, and the first one asked for a negative time raises. */
  predicate NonNegative(sleeps: seq<real>) {
    forall i :: 0 <= i < |sleeps| ==> sleeps[i] >= 0.0
  }

  lemma {:induction false} SleepsNonNegative(env: Env, s: Loop, fuel: nat)
    requires NonNegative(s.sleeps)
    requires Run(env, s, fuel).Some?
    ensures NonNegative(Run(env, s, fuel).value.sleeps)
    decreases fuel
  {
    if s.retries >= 0 && Step(env, s).Continue? {
      SleepsNonNegative(env, Step(env, s).state, fuel - 1);
    }
  }

  /**
   * With a non-negative DEFAULT_SLEEP and a retry budget of at most
   * MAX_RETRY + 1, the backoff is never negative, so the call never raises.
   */
  lemma {:induction false} NeverRaisesWithinBudget(env: Env, s: Loop, fuel: nat)
    requires env.cfg.defaultSleep >= 0.0 && s.retries <= env.cfg.maxRetry + 1
    requires Run(env, s, fuel).Some?
    ensures !Run(env, s, fuel).value.SleepRaised?
    decreases fuel
  {
    if s.retries >= 0 {
      var k := (env.cfg.maxRetry - s.retries + 1) as real;
      assert k >= 0.0;
      assert LinearBackoff(env.cfg, s.retries) == env.cfg.defaultSleep * k;
      assert LinearBackoff(env.cfg, s.retries) >= 0.0;
      if Step(env, s).Continue? {
        NeverRaisesWithinBudget(env, Step(env, s).state, fuel - 1);
      }
    }
  }

  /** A loop entered with a non-negative budget ends in a `return` inside it or a raise, never through its condition. */
  lemma {:induction false} NeverFallsThrough(env: Env, s: Loop, fuel: nat)
    requires s.retries >= 0
    requires Run(env, s, fuel).Some?
    ensures !Run(env, s, fuel).value.FellThrough?
    decreases fuel
  {
    RunStep(env, s, fuel);
    StepKeepsBudget(env, s);
    if Step(env, s).Continue? {
      NeverFallsThrough(env, Step(env, s).state, fuel - 1);
    }
  }

  /** A pass never stops through the loop condition, and a pass that goes on leaves a non-negative budget. */
  lemma StepKeepsBudget(env: Env, s: Loop)
    requires s.retries >= 0
    ensures Step(env, s).Stop? ==> !Step(env, s).exit.FellThrough?
    ensures Step(env, s).Continue? ==> Step(env, s).state.retries >= 0
  {
  }

  /**
   * A budget above MAX_RETRY + 1 with a positive DEFAULT_SLEEP makes the
   * first failed plain attempt compute a negative backoff, so `time.sleep`
   * raises out of `html_get_page`.
   */
  lemma OverBudgetRaises(env: Env, retry: int, fuel: nat)
    requires env.cfg.maxRetry >= 0 && env.cfg.defaultSleep > 0.0 && retry > env.cfg.maxRetry + 1 && fuel > 0
    requires env.net(0).ConnectionFailed?
    ensures Run(env, Start(retry, false), fuel) == Some(SleepRaised([]))
  {
    var k := (env.cfg.maxRetry - retry + 1) as real;
    assert k < 0.0;
    assert LinearBackoff(env.cfg, retry) == env.cfg.defaultSleep * k;
  }

  /** The page a call returns is "", the body of a successful plain reply, or a page from the bypasser. */
  ghost predicate PageFrom(env: Env, from: nat, page: string) {
    page == [] ||
    exists k :: from <= k &&
      ((env.net(k).Response? && env.net(k).text == page && !IsHttpError(env.net(k).status)) ||
       env.bypass(k) == Some(page))
  }

  lemma {:induction false} ReturnedPageOrigin(env: Env, s: Loop, fuel: nat)
    requires Run(env, s, fuel).Some? && Run(env, s, fuel).value.Returned?
    ensures PageFrom(env, s.attempt, Run(env, s, fuel).value.page)
    decreases fuel
  {
    if s.retries >= 0 {
      var next := Step(env, s);
      if next.Continue? {
        StepDecreasesAttempt(env, s);
        ReturnedPageOrigin(env, next.state, fuel - 1);
      } else if next.exit.page != [] {
        assert PageFrom(env, s.attempt, next.exit.page) by {
          if Bypassing(env, s) {
            assert env.bypass(s.attempt) == Some(next.exit.page);
          } else {
            assert env.net(s.attempt).text == next.exit.page;
          }
        }
      }
    }
  }

  /** Every pass that goes on moves to the next attempt. */
  lemma StepDecreasesAttempt(env: Env, s: Loop)
    requires Step(env, s).Continue?
    ensures Step(env, s).state.attempt == s.attempt + 1
  {
  }

  /**
   * One pass through the `try`/`except` body of `html_get_page`'s loop, from
   * the loop variables at its top: either the call returns (or raises), or
   * the loop goes on with the updated variables.
   */
  method Pass(env: Env, retriesRemaining: int, rateLimitAttempts: nat, currentUseBypasser: bool, attempt: nat,
              sleeps: seq<real>) returns (next: Next)
    requires retriesRemaining >= 0
    ensures next == Step(env, Loop(retriesRemaining, rateLimitAttempts, currentUseBypasser, attempt, sleeps))
  {
    if currentUseBypasser && env.cfg.useCfBypass {
      var page := env.bypass(attempt);
      if page.Some? {
        return Stop(Returned(page.value, sleeps));
      }
      // the bypasser raised
      next := Except(env, retriesRemaining, rateLimitAttempts, currentUseBypasser, attempt, sleeps, None);
      return;
    }
    next := PlainGet(env, retriesRemaining, rateLimitAttempts, currentUseBypasser, attempt, sleeps);
  }

  /** The part of a pass that fetches the page with `requests.get`, when the bypasser is not in use. */
  method PlainGet(env: Env, retriesRemaining: int, rateLimitAttempts: nat, currentUseBypasser: bool, attempt: nat,
                  sleeps: seq<real>) returns (next: Next)
    requires retriesRemaining >= 0 && !(currentUseBypasser && env.cfg.useCfBypass)
    ensures next == Step(env, Loop(retriesRemaining, rateLimitAttempts, currentUseBypasser, attempt, sleeps))
  {
    var reply := env.net(attempt);
    if reply.ConnectionFailed? {
      // `requests.get` raised before any response
      next := Except(env, retriesRemaining, rateLimitAttempts, currentUseBypasser, attempt, sleeps, None);
      return;
    }
    next := Respond(env, retriesRemaining, rateLimitAttempts, currentUseBypasser, attempt, sleeps);
  }

  /** What a pass does with the response `requests.get` returned: wait out a rate limit, return the page, or fail. */
  method Respond(env: Env, retriesRemaining: int, rateLimitAttempts: nat, currentUseBypasser: bool, attempt: nat,
                 sleeps: seq<real>) returns (next: Next)
    requires retriesRemaining >= 0 && !(currentUseBypasser && env.cfg.useCfBypass)
    requires env.net(attempt).Response?
    ensures next == Step(env, Loop(retriesRemaining, rateLimitAttempts, currentUseBypasser, attempt, sleeps))
  {
    var reply := env.net(attempt);
    var waitDetails := WaitFor(env, Loop(retriesRemaining, rateLimitAttempts, currentUseBypasser, attempt, sleeps));
    if waitDetails.Some? {
      var waitSeconds := waitDetails.value.0;
      var sleeps := sleeps;
      if waitSeconds > 0.0 {
        sleeps := sleeps + [waitSeconds];
      }
      return Continue(Loop(retriesRemaining, rateLimitAttempts + 1, currentUseBypasser, attempt + 1, sleeps));
    }
    var rateLimitAttempts := 0;
    if !IsHttpError(reply.status) {
      return Stop(Returned(reply.text, sleeps + [1.0]));
    }
    // `raise_for_status` raised
    next := Except(env, retriesRemaining, rateLimitAttempts, currentUseBypasser, attempt, sleeps, Some(reply.status));
  }

  /**
   * The `except` block of the loop, entered with the status of the failed
   * response if there was one: give up, switch to the bypasser, or back off.
   */
  method Except(env: Env, retriesRemaining: int, rateLimitAttempts: nat, currentUseBypasser: bool, attempt: nat,
                sleeps: seq<real>, failedStatus: Option<int>) returns (next: Next)
    ensures next == Handle(env, Loop(retriesRemaining, rateLimitAttempts, currentUseBypasser, attempt, sleeps),
                           failedStatus)
  {
    if retriesRemaining == 0 {
      return Stop(Returned("", sleeps));
    }
    if !(currentUseBypasser && env.cfg.useCfBypass) && failedStatus == Some(404) {
      return Stop(Returned("", sleeps));
    } else if !(currentUseBypasser && env.cfg.useCfBypass) && failedStatus == Some(403) {
      return Continue(Loop(retriesRemaining - 1, 0, true, attempt + 1, sleeps));
    }
    var sleepTime := LinearBackoff(env.cfg, retriesRemaining);
    if sleepTime < 0.0 {
      return Stop(SleepRaised(sleeps));
    }
    return Continue(Loop(retriesRemaining - 1, 0, currentUseBypasser, attempt + 1, sleeps + [sleepTime]));
  }

  /**
   * `html_get_page(url, retry, use_bypasser)`. `ghost n` is an attempt from
   * which on no reply is rate-limited: the loop does not consume a retry for
   * a rate-limited reply, so it ends only when such an attempt exists
   * (`RateLimitedForever`).
   */
  method HtmlGetPage(env: Env, retry: int, useBypasser: bool, ghost n: nat) returns (exit: Exit)
    requires Consistent(env)
    requires forall k :: n <= k ==> !RateLimitedAt(env, k)
    ensures Run(env, Start(retry, useBypasser), Measure(Start(retry, useBypasser), n) + 1) == Some(exit)
    ensures retry < 0 ==> exit == FellThrough([]) && ReturnValue(exit) == Some("")
  {
    ghost var start := Start(retry, useBypasser);
    ghost var fuel: nat := Measure(start, n) + 1;
    var retriesRemaining := retry;
    var rateLimitAttempts: nat := 0;
    var currentUseBypasser := useBypasser;
    var attempt: nat := 0;
    var sleeps: seq<real> := [];
    while retriesRemaining >= 0
      invariant Run(env, Loop(retriesRemaining, rateLimitAttempts, currentUseBypasser, attempt, sleeps), fuel)
             == Run(env, start, Measure(start, n) + 1)
      invariant fuel > Measure(Loop(retriesRemaining, rateLimitAttempts, currentUseBypasser, attempt, sleeps), n)
      decreases Measure(Loop(retriesRemaining, rateLimitAttempts, currentUseBypasser, attempt, sleeps), n)
    {
      ghost var s := Loop(retriesRemaining, rateLimitAttempts, currentUseBypasser, attempt, sleeps);
      StepDecreases(env, s, n);
      RunStep(env, s, fuel);
      var next := Pass(env, retriesRemaining, rateLimitAttempts, currentUseBypasser, attempt, sleeps);
      if next.Stop? {
        return next.exit;
      }
      retriesRemaining := next.state.retries;
      rateLimitAttempts := next.state.rateLimitAttempts;
      currentUseBypasser := next.state.useBypasser;
      attempt := next.state.attempt;
      sleeps := next.state.sleeps;
      fuel := fuel - 1;
    }
    return FellThrough(sleeps);
  }
}
