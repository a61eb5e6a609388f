/** When the daemon runs its next cycle (`src/daemon.rs`). All durations are whole seconds. */
module Schedule {
  import opened Text
  import opened Reports
  import opened Configuration
  import opened Arithmetic
  import Versions

  const INITIAL_BACKOFF := 5
  const MAX_BACKOFF := 300
  const U64_MAX := 0xFFFF_FFFF_FFFF_FFFF

  function Max(a: nat, b: nat): nat {
    if a < b then b else a
  }

  function Clamp(x: nat, low: nat, high: nat): nat
    requires low <= high
  {
    Max(low, Min(x, high))
  }

  function Pow2(n: nat): (r: nat)
    ensures r > 0
  {
    if n == 0 then 1 else 2 * Pow2(n - 1)
  }

  /** Exponent of the backoff: one less than the number of failures, at most 31. */
  function Exponent(failures: nat): nat {
    Min(if failures == 0 then 0 else failures - 1, 31)
  }

  /** `calculate_backoff`, with its saturating 64-bit products. */
  function CalculateBackoff(failures: nat, initial: nat, maximum: nat, jitterPercent: nat): nat {
    var uncapped := Min(Multiple(initial, Pow2(Exponent(failures))), U64_MAX);
    var capped := Min(uncapped, maximum);
    var jittered := Min(Multiple(capped, Clamp(jitterPercent, 50, 100)), U64_MAX) / 100;
    Min(Max(jittered, 1), maximum)
  }

  function BackoffDelay(failures: nat, jitterPercent: nat): nat {
    CalculateBackoff(failures, INITIAL_BACKOFF, MAX_BACKOFF, jitterPercent)
  }

  function RetryDelay(report: CycleReport, failures: nat, interval: nat, jitterPercent: nat): nat {
    var policy :=
      if report.HasAuthenticationFailure() then MAX_BACKOFF
      else if report.HasRetryableFailure() then BackoffDelay(failures, jitterPercent)
      else interval;
    match LongestRetryAfter(report.failures)
    case None => policy
    case Some(asked) => Max(policy, asked)
  }

  lemma {:induction false} Pow2Monotone(a: nat, b: nat)
    requires a <= b
    ensures Pow2(a) <= Pow2(b)
  {
    if a < b {
      Pow2Monotone(a, b - 1);
    }
  }

  /** The same with products, as the code has them. */
  lemma BackoffFormula(failures: nat, initial: nat, maximum: nat, jitterPercent: nat)
    ensures var uncapped := Min(initial * Pow2(Exponent(failures)), U64_MAX);
            var jittered := Min(Min(uncapped, maximum) * Clamp(jitterPercent, 50, 100), U64_MAX) / 100;
            CalculateBackoff(failures, initial, maximum, jitterPercent) == Min(Max(jittered, 1), maximum)
  {
    MultipleIsProduct(initial, Pow2(Exponent(failures)));
    MultipleIsProduct(
      Min(Min(initial * Pow2(Exponent(failures)), U64_MAX), maximum), Clamp(jitterPercent, 50, 100));
  }

  /** For fixed jitter, more failures never shorten the backoff. */
  lemma BackoffMonotone(m: nat, n: nat, initial: nat, maximum: nat, jitterPercent: nat)
    requires m <= n
    ensures CalculateBackoff(m, initial, maximum, jitterPercent) <= CalculateBackoff(n, initial, maximum, jitterPercent)
  {
    Pow2Monotone(Exponent(m), Exponent(n));
    MultipleGrows(initial, Pow2(Exponent(m)), Pow2(Exponent(n)));
    var a := Min(Min(Multiple(initial, Pow2(Exponent(m))), U64_MAX), maximum);
    var b := Min(Min(Multiple(initial, Pow2(Exponent(n))), U64_MAX), maximum);
    MultipleMonotone(a, b, Clamp(jitterPercent, 50, 100));
  }

  /** The backoff lies between two and three hundred seconds. */
  lemma BackoffBounds(failures: nat, jitterPercent: nat)
    ensures 2 <= BackoffDelay(failures, jitterPercent) <= MAX_BACKOFF
  {
    var jitter := Clamp(jitterPercent, 50, 100);
    MultipleGrows(INITIAL_BACKOFF, 1, Pow2(Exponent(failures)));
    assert Multiple(INITIAL_BACKOFF, 1) == Multiple(INITIAL_BACKOFF, 0) + INITIAL_BACKOFF;
    var capped := Min(Min(Multiple(INITIAL_BACKOFF, Pow2(Exponent(failures))), U64_MAX), MAX_BACKOFF);
    MultipleMonotone(5, capped, jitter);
    MultipleMonotone(capped, 300, jitter);
    MultipleIsProduct(5, jitter);
    MultipleIsProduct(300, jitter);
  }

  /** The largest multiplier that matters: from the seventh failure on, the delay is at its cap. */
  lemma Saturates(n: nat)
    requires 33 <= n
    ensures Pow2(31) >= 64 && Pow2(n - 1) >= 64
  {
    assert Pow2(6) == 64;
    Pow2Monotone(6, 31);
    Pow2Monotone(6, n - 1);
  }

  /** The exponent that stops at 31, and products that stop at 64 bits, do not show under the cap. */
  lemma CapHidesSaturation(n: nat)
    requires 0 < n
    ensures Min(Min(5 * Pow2(Exponent(n)), U64_MAX), 300) == Min(5 * Pow2(n - 1), 300)
  {
    if n >= 33 {
      Saturates(n);
    } else {
      Pow2Monotone(n - 1, 31);
      Pow2At31();
    }
  }

  /** A percentage of a small number of seconds. */
  lemma SmallProduct(seconds: nat, percent: nat)
    requires 5 <= seconds <= 300 && 50 <= percent <= 100
    ensures 250 <= seconds * percent <= 30000
  {
    MulMonotone(5, seconds, percent);
    MulMonotone(seconds, 300, percent);
  }

  /**
   * The delay after `n` failures in a row is the given percentage of five seconds doubled `n - 1`
   * times, at most 300.
   */
  lemma BackoffExactly(n: nat, percent: nat)
    requires 0 < n
    ensures BackoffDelay(n, percent) ==
            Min(5 * Pow2(n - 1), 300) * (if percent < 50 then 50 else if percent > 100 then 100 else percent) / 100
  {
    var jitter := Clamp(percent, 50, 100);
    var seconds := Min(5 * Pow2(n - 1), 300);
    BackoffFormula(n, 5, 300, percent);
    CapHidesSaturation(n);
    SmallProduct(seconds, jitter);
  }

  lemma Pow2At31()
    ensures Pow2(31) == 0x8000_0000
  {
    assert Pow2(8) == 256;
    assert Pow2(16) == 0x1_0000;
    assert Pow2(24) == 0x100_0000;
  }

  // ----- Server retry delays -----

  /** The digits of a header value: white space around it and one leading plus are ignored. */
  function DigitsOf(header: string): string {
    var text := Trim(header);
    if text != "" && text[0] == '+' then text[1..] else text
  }

  function Digits(s: string, acc: nat): nat
    requires AllDigits(s)
  {
    if s == "" then acc else Digits(s[1..], acc * 10 + DigitValue(s[0]))
  }

  /**
   * The delay-seconds form of `Retry-After` (section 10.2.3 of RFC 9110): an unsigned decimal that
   * fits 64 bits, capped at one hour. Like the standard library parser it allows one leading plus.
   */
  function ParseRetryAfter(header: string): Option<Delay> {
    var digits := DigitsOf(header);
    if digits == "" || !AllDigits(digits) then None
    else if Digits(digits, 0) > U64_MAX then None
    else Some(Min(Digits(digits, 0), MAX_RETRY_AFTER))
  }

  lemma {:induction false} DigitsSnoc(s: string, c: char, acc: nat)
    requires AllDigits(s) && IsDigit(c)
    ensures Digits(s + [c], acc) == Digits(s, acc) * 10 + DigitValue(c)
  {
    if s == "" {
      assert s + [c] == [c];
      assert [c][1..] == "";
    } else {
      DigitsSnoc(s[1..], c, acc * 10 + DigitValue(s[0]));
      assert (s + [c])[1..] == s[1..] + [c];
    }
  }

  lemma {:induction false} DigitsOfDecimal(n: nat)
    ensures Digits(Versions.Decimal(n), 0) == n
  {
    if n < 10 {
      assert Versions.Decimal(n)[1..] == "";
    } else {
      DigitsOfDecimal(n / 10);
      DigitsSnoc(Versions.Decimal(n / 10), DigitChar(n % 10), 0);
    }
  }

  /**
   * Every decimal delay is understood, with white space around it and with or without a plus: up to
   * one hour as it is, beyond that as one hour.
   */
  lemma DelaySecondsAreUnderstood(n: nat, before: string, plus: bool, after: string)
    requires AllSpace(before) && AllSpace(after)
    ensures var header := before + ((if plus then "+" else "") + Versions.Decimal(n)) + after;
            ParseRetryAfter(header) == if n <= U64_MAX then Some(Min(n, 3600)) else None
  {
    var digits := Versions.Decimal(n);
    var text := (if plus then "+" else "") + digits;
    assert IsDigit(digits[0]) && text[|text| - 1] == digits[|digits| - 1];
    TrimExactly(before, text, after);
    assert DigitsOf(before + text + after) == digits;
    DigitsOfDecimal(n);
  }

  lemma {:induction false} DigitsAreValue(s: string)
    requires AllDigits(s)
    ensures Digits(s, 0) == Versions.Value(s)
  {
    if s != "" {
      var front, last := s[..|s| - 1], s[|s| - 1];
      DigitsAreValue(front);
      DigitsSnoc(front, last, 0);
      assert s == front + [last];
    }
  }

  /**
   * A header is understood exactly when it holds a decimal number of at most 64 bits, and then the
   * delay is that number, capped at one hour.
   */
  lemma RetryAfterExactly(header: string)
    ensures ParseRetryAfter(header).Some? <==>
            DigitsOf(header) != "" && AllDigits(DigitsOf(header)) && Versions.Value(DigitsOf(header)) <= U64_MAX
    ensures ParseRetryAfter(header).Some? ==>
            ParseRetryAfter(header).value == Min(Versions.Value(DigitsOf(header)), MAX_RETRY_AFTER)
  {
    if AllDigits(DigitsOf(header)) {
      DigitsAreValue(DigitsOf(header));
    }
  }

  // ----- The daemon loop -----

  /** Failed cycles since the last success, without saturation. */
  function FailuresSinceSuccess(reports: seq<CycleReport>): nat {
    if reports == [] || reports[|reports| - 1].IsSuccess() then 0
    else 1 + FailuresSinceSuccess(reports[..|reports| - 1])
  }

  /** The last `n` cycles failed, and the one before them, if any, succeeded. */
  predicate FailedSince(reports: seq<CycleReport>, n: nat) {
    && n <= |reports| && (forall i :: |reports| - n <= i < |reports| ==> !reports[i].IsSuccess())
    && (n < |reports| ==> reports[|reports| - n - 1].IsSuccess())
  }

  lemma {:induction false} FailuresExactly(reports: seq<CycleReport>, n: nat)
    ensures FailuresSinceSuccess(reports) == n <==> FailedSince(reports, n)
  {
    if reports != [] && !reports[|reports| - 1].IsSuccess() {
      var rest := reports[..|reports| - 1];
      if n > 0 {
        FailuresExactly(rest, n - 1);
      }
    }
  }

  /** The wait is within its bounds, and no shorter than any delay a server asked for. */
  ghost predicate WaitFits(report: CycleReport, interval: nat, wait: nat) {
    && 2 <= wait <= Max(interval, 3600)
    && forall i :: 0 <= i < |report.failures| && report.failures[i].retryAfter.Some? ==>
                     report.failures[i].retryAfter.value <= wait
  }

  /** The wait that follows a cycle, given the failure counter after it. */
  function WaitAfter(report: CycleReport, counter: nat, interval: nat, jitterPercent: nat): nat {
    if report.IsSuccess() then interval else RetryDelay(report, counter, interval, jitterPercent)
  }

  lemma WaitAfterFits(report: CycleReport, counter: nat, interval: nat, jitterPercent: nat)
    requires MIN_INTERVAL_SECONDS <= interval
    ensures WaitFits(report, interval, WaitAfter(report, counter, interval, jitterPercent))
  {
    if !report.IsSuccess() {
      RetryDelayBounds(report, counter, interval, jitterPercent);
    }
  }

  lemma RetryDelayBounds(report: CycleReport, failures: nat, interval: nat, jitterPercent: nat)
    requires MIN_INTERVAL_SECONDS <= interval
    ensures WaitFits(report, interval, RetryDelay(report, failures, interval, jitterPercent))
  {
    BackoffBounds(failures, jitterPercent);
    var asked := LongestRetryAfter(report.failures);
    forall i | 0 <= i < |report.failures| && report.failures[i].retryAfter.Some?
      ensures report.failures[i].retryAfter.value <= RetryDelay(report, failures, interval, jitterPercent)
    {
      assert report.failures[i] in report.failures;
    }
    if asked.Some? {
      var f :| f in report.failures && f.retryAfter == asked;
      var i :| 0 <= i < |report.failures| && report.failures[i] == f;
    }
  }

  /** The delay after one cycle, from the counter that includes it. */
  method NextDelay(report: CycleReport, consecutive: nat, interval: nat, jitterPercent: nat) returns (wait: nat)
    requires MIN_INTERVAL_SECONDS <= interval
    ensures Follows(report, consecutive, interval, jitterPercent, wait)
  {
    wait := if report.IsSuccess() then interval else RetryDelay(report, consecutive, interval, jitterPercent);
    WaitIsDue(report, consecutive, interval, jitterPercent);
    WaitAfterFits(report, consecutive, interval, jitterPercent);
  }

  /** Some failure of the report is of this kind. */
  ghost predicate HasKind(report: CycleReport, kind: FailureKind) {
    exists i :: 0 <= i < |report.failures| && report.failures[i].kind == kind
  }

  /**
   * The wait is the interval after a success; otherwise five minutes if the token was refused, the
   * backoff if something may pass by itself, and else the interval, or the longest delay that a
   * server asked for, if that is longer.
   */
  ghost predicate Due(report: CycleReport, counter: nat, interval: nat, jitterPercent: nat, wait: nat) {
    if report.failures == [] && !report.interrupted then wait == interval
    else
      var least :=
        if HasKind(report, Authentication) then 300
        else if HasKind(report, RateLimited) || HasKind(report, Transient) then BackoffDelay(counter, jitterPercent)
        else interval;
      && least <= wait
      && (wait == least || exists i :: 0 <= i < |report.failures| && report.failures[i].retryAfter == Some(wait))
  }

  lemma WaitIsDue(report: CycleReport, counter: nat, interval: nat, jitterPercent: nat)
    ensures Due(report, counter, interval, jitterPercent, WaitAfter(report, counter, interval, jitterPercent))
  {
    assert report.HasAuthenticationFailure() <==> HasKind(report, Authentication);
    assert report.HasRetryableFailure() <==> HasKind(report, RateLimited) || HasKind(report, Transient);
    var asked := LongestRetryAfter(report.failures);
    if asked.Some? {
      var f :| f in report.failures && f.retryAfter == asked;
      var i :| 0 <= i < |report.failures| && report.failures[i] == f;
    }
  }

  /** The wait is the one that the report and the counter call for, and it is within its bounds. */
  ghost predicate Follows(report: CycleReport, counter: nat, interval: nat, jitterPercent: nat, wait: nat) {
    Due(report, counter, interval, jitterPercent, wait) && WaitFits(report, interval, wait)
  }

  /** The first `k` waits follow from the reports, with the saturated failure counters. */
  ghost predicate Scheduled(
    interval: nat, reports: seq<CycleReport>, jitter: seq<nat>, counters: seq<nat>, waits: seq<nat>, k: nat)
    requires k <= |reports| == |jitter| && k <= |counters| == |waits|
  {
    k == 0 || (
      && Scheduled(interval, reports, jitter, counters, waits, k - 1)
      && counters[k - 1] == Min(FailuresSinceSuccess(reports[..k]), U32_MAX)
      && Follows(reports[k - 1], counters[k - 1], interval, jitter[k - 1], waits[k - 1]))
  }

  lemma {:induction false} ScheduledAt(
      interval: nat, reports: seq<CycleReport>, jitter: seq<nat>, counters: seq<nat>, waits: seq<nat>, k: nat, i: nat)
    requires i < k <= |reports| == |jitter| && k <= |counters| == |waits|
    requires Scheduled(interval, reports, jitter, counters, waits, k)
    ensures counters[i] == Min(FailuresSinceSuccess(reports[..i + 1]), U32_MAX)
    ensures Due(reports[i], counters[i], interval, jitter[i], waits[i])
    ensures WaitFits(reports[i], interval, waits[i])
  {
    if i < k - 1 {
      ScheduledAt(interval, reports, jitter, counters, waits, k - 1, i);
    }
  }

  lemma {:induction false} ScheduledAppend(
      interval: nat, reports: seq<CycleReport>, jitter: seq<nat>, counters: seq<nat>, waits: seq<nat>,
      c: nat, w: nat, k: nat)
    requires k <= |reports| == |jitter| && k <= |counters| == |waits|
    requires Scheduled(interval, reports, jitter, counters, waits, k)
    ensures Scheduled(interval, reports, jitter, counters + [c], waits + [w], k)
  {
    if k > 0 {
      ScheduledAppend(interval, reports, jitter, counters, waits, c, w, k - 1);
    }
  }

  /** One more cycle on the schedule. */
  lemma ScheduledNext(
      interval: nat, reports: seq<CycleReport>, jitter: seq<nat>, counters: seq<nat>, waits: seq<nat>, c: nat, w: nat)
    requires |counters| == |waits| < |reports| == |jitter|
    requires Scheduled(interval, reports, jitter, counters, waits, |waits|)
    requires c == Min(FailuresSinceSuccess(reports[..|waits| + 1]), U32_MAX)
    requires Follows(reports[|waits|], c, interval, jitter[|waits|], w)
    ensures Scheduled(interval, reports, jitter, counters + [c], waits + [w], |waits| + 1)
  {
    ScheduledAppend(interval, reports, jitter, counters, waits, c, w, |waits|);
  }

  /** How the counter goes on from one cycle to the next. */
  lemma CounterAfter(reports: seq<CycleReport>, i: nat)
    requires i < |reports|
    ensures FailuresSinceSuccess(reports[..i + 1])
         == if reports[i].IsSuccess() then 0 else FailuresSinceSuccess(reports[..i]) + 1
  {
    assert reports[..i + 1][..i] == reports[..i];
  }

  /** What the loop does with the report of one cycle. */
  method AfterCycle(
      interval: nat, reports: seq<CycleReport>, jitter: seq<nat>, counters: seq<nat>, waits: seq<nat>, consecutive: nat)
    returns (consecutive': nat, counters': seq<nat>, waits': seq<nat>)
    requires MIN_INTERVAL_SECONDS <= interval && |counters| == |waits| < |reports| == |jitter|
    requires consecutive == Min(FailuresSinceSuccess(reports[..|waits|]), U32_MAX)
    requires Scheduled(interval, reports, jitter, counters, waits, |waits|)
    ensures |counters'| == |waits'| == |waits| + 1
    ensures consecutive' == Min(FailuresSinceSuccess(reports[..|waits| + 1]), U32_MAX)
    ensures Scheduled(interval, reports, jitter, counters', waits', |waits| + 1)
  {
    var i := |waits|;
    CounterAfter(reports, i);
    consecutive' := if reports[i].IsSuccess() then 0 else Min(consecutive + 1, U32_MAX);
    var wait := NextDelay(reports[i], consecutive', interval, jitter[i]);
    ScheduledNext(interval, reports, jitter, counters, waits, consecutive', wait);
    counters', waits' := counters + [consecutive'], waits + [wait];
  }

  /**
   * The waits that `run_loop` computes from the reports of its cycles and the jitter drawn after
   * each. Every wait is between two seconds and the larger of the interval and one hour, is at
   * least what any server asked for, and the failure counter is the saturated number of failed
   * cycles since the last success.
   */
  method RunLoop(interval: nat, reports: seq<CycleReport>, jitter: seq<nat>)
    returns (waits: seq<nat>, counters: seq<nat>)
    requires MIN_INTERVAL_SECONDS <= interval && |jitter| == |reports|
    ensures |waits| == |counters| == |reports|
    ensures Scheduled(interval, reports, jitter, counters, waits, |reports|)
  {
    waits, counters := [], [];
    var consecutive := 0;
    while |waits| < |reports|
      invariant |counters| == |waits| <= |reports|
      invariant consecutive == Min(FailuresSinceSuccess(reports[..|waits|]), U32_MAX)
      invariant Scheduled(interval, reports, jitter, counters, waits, |waits|)
    {
      consecutive, counters, waits := AfterCycle(interval, reports, jitter, counters, waits, consecutive);
    }
  }
}
