/** Public address discovery (`src/public_ip.rs`): provider order and the shared time budget. */
module Discovery {
  import opened Text
  import opened DnsStore
  import opened Arithmetic

  datatype ProviderError = TimedOut | Rejected(reason: string)

  /**
   * One provider as a call meets it: how long it takes to reply, what its reply is worth once
   * parsed, and how much later than that (or than its time limit) the caller resumes. Times are in
   * nanoseconds.
   */
  datatype Provider = Provider(latency: nat, answer: Result<Address, ProviderError>, lag: nat)

  datatype DiscoveryError =
    | NoProviders
    | DeadlineExceeded(failures: seq<ProviderError>)
    | AllProvidersFailed(failures: seq<ProviderError>)

  /** What an attempt that may take `share` comes to. */
  function Attempt(p: Provider, share: nat): Result<Address, ProviderError> {
    if p.latency <= share then p.answer else Err(TimedOut)
  }

  /** Every attempt ends when it should. */
  predicate Punctual(providers: seq<Provider>) {
    forall i :: 0 <= i < |providers| ==> providers[i].lag == 0
  }

  /** The provider gave this answer within its share. */
  predicate Answered(p: Provider, share: nat, address: Address) {
    p.latency <= share && p.answer == Ok(address)
  }

  /** The provider answered within its share with this error, or took longer, which is a timeout. */
  predicate Failed(p: Provider, share: nat, error: ProviderError) {
    if share < p.latency then error == TimedOut else p.answer == Err(error)
  }

  /** The first attempts, with these shares, failed in these ways. */
  predicate FailedAttempts(providers: seq<Provider>, shares: seq<nat>, failures: seq<ProviderError>) {
    && |failures| <= |shares| <= |providers|
    && forall i :: 0 <= i < |failures| ==> Failed(providers[i], shares[i], failures[i])
  }

  /** The shares never shrink and none is below the fair one. */
  predicate FairShares(shares: seq<nat>, fair: nat) {
    shares == [] ||
    var before, last := shares[..|shares| - 1], shares[|shares| - 1];
    && FairShares(before, fair) && fair <= last
    && (before != [] ==> before[|before| - 1] <= last)
  }

  lemma {:induction false} FairSharesAreOrdered(shares: seq<nat>, fair: nat, i: nat, j: nat)
    requires FairShares(shares, fair) && i <= j < |shares|
    ensures fair <= shares[i] <= shares[j]
  {
    if j < |shares| - 1 {
      FairSharesAreOrdered(shares[..|shares| - 1], fair, i, j);
    } else if i < j {
      FairSharesAreOrdered(shares[..|shares| - 1], fair, i, j - 1);
    }
  }

  lemma FairSharesGrow(shares: seq<nat>, fair: nat, share: nat)
    requires FairShares(shares, fair) && fair <= share
    requires shares != [] ==> shares[|shares| - 1] <= share
    ensures FairShares(shares + [share], fair)
  {
    assert (shares + [share])[..|shares|] == shares;
  }

  lemma {:induction false} ShareIsPositive(remaining: nat, left: nat)
    requires 0 < left
    ensures Times(remaining, left) <= remaining
    ensures Times(remaining, left) > 0 <==> remaining >= left
  {
    if remaining >= left {
      ShareIsPositive(remaining - left, left);
    }
  }

  /** Whoever takes no more than its share leaves at least that share for each of the others. */
  lemma {:induction false} NextShareIsNoSmaller(remaining: nat, left: nat, after: nat)
    requires 1 < left && remaining <= after + Times(remaining, left)
    ensures Times(remaining, left) <= Times(after, left - 1)
  {
    if remaining >= left {
      ShareIsPositive(remaining - left, left);
      NextShareIsNoSmaller(remaining - left, left, after - (left - 1));
    }
  }

  /** The time one attempt may take: an equal part of what is left. */
  method ShareOf(remaining: nat, left: nat) returns (share: nat)
    requires 0 < left
    ensures share <= remaining
    ensures share == Times(remaining, Min(left, U32_MAX))
  {
    var divisor := Min(left, U32_MAX);
    share := remaining / divisor;
    TimesIsDivision(remaining, divisor);
    ShareIsPositive(remaining, divisor);
  }

  /** The time that the first `i` attempts took. */
  function Spent(providers: seq<Provider>, shares: seq<nat>, i: nat): nat
    requires i <= |shares| <= |providers|
  {
    if i == 0 then 0
    else Spent(providers, shares, i - 1) + Min(providers[i - 1].latency, shares[i - 1]) + providers[i - 1].lag
  }

  /** What the next attempt may take: an equal part of what is left of the timeout. */
  function NextShare(timeout: nat, elapsed: nat, left: nat): nat
    requires 0 < left
  {
    Times(if elapsed < timeout then timeout - elapsed else 0, Min(left, U32_MAX))
  }

  /** Each of the first `i` shares was the next share when its attempt began, and not zero. */
  predicate SharesFollow(timeout: nat, providers: seq<Provider>, shares: seq<nat>, i: nat)
    requires i <= |shares| <= |providers|
  {
    i == 0 || (
      && SharesFollow(timeout, providers, shares, i - 1)
      && shares[i - 1] > 0
      && shares[i - 1] == NextShare(timeout, Spent(providers, shares, i - 1), |providers| - (i - 1)))
  }

  lemma {:induction false} LongerShares(timeout: nat, providers: seq<Provider>, shares: seq<nat>, share: nat, i: nat)
    requires i <= |shares| < |providers|
    ensures Spent(providers, shares + [share], i) == Spent(providers, shares, i)
    ensures SharesFollow(timeout, providers, shares, i) ==> SharesFollow(timeout, providers, shares + [share], i)
  {
    if i > 0 {
      LongerShares(timeout, providers, shares, share, i - 1);
    }
  }

  lemma OneMoreShare(timeout: nat, providers: seq<Provider>, shares: seq<nat>, share: nat)
    requires |shares| < |providers| && SharesFollow(timeout, providers, shares, |shares|)
    requires 0 < share == NextShare(timeout, Spent(providers, shares, |shares|), |providers| - |shares|)
    ensures SharesFollow(timeout, providers, shares + [share], |shares| + 1)
    ensures var p := providers[|shares|];
            Spent(providers, shares + [share], |shares| + 1) ==
              Spent(providers, shares, |shares|) + Min(p.latency, share) + p.lag
  {
    LongerShares(timeout, providers, shares, share, |shares|);
  }

  /** The provider loop. */
  method TryInOrder(timeout: nat, providers: seq<Provider>)
    returns (r: Result<Address, DiscoveryError>, failures: seq<ProviderError>, shares: seq<nat>, elapsed: nat)
    requires providers != []
    ensures |shares| <= |providers| && r != Err(NoProviders)
    ensures r.Ok? ==>
              && shares != [] && Answered(providers[|shares| - 1], shares[|shares| - 1], r.value)
              && |failures| == |shares| - 1
    ensures FailedAttempts(providers, shares, failures)
    ensures r.Err? ==> r.error.failures == failures && |failures| == |shares|
    ensures r.Err? && r.error.AllProvidersFailed? ==> |shares| == |providers|
    ensures SharesFollow(timeout, providers, shares, |shares|) && elapsed == Spent(providers, shares, |shares|)
    ensures r.Err? && r.error.DeadlineExceeded? ==>
              |shares| < |providers| && NextShare(timeout, elapsed, |providers| - |shares|) == 0
    ensures elapsed <= timeout + if shares == [] then 0 else providers[|shares| - 1].lag
  {
    failures, shares, elapsed := [], [], 0;
    var n := |providers|;
    var i := 0;
    while i < n
      invariant 0 <= i <= n && |shares| == |failures| == i
      invariant FailedAttempts(providers, shares, failures)
      invariant SharesFollow(timeout, providers, shares, i) && elapsed == Spent(providers, shares, i)
      invariant elapsed <= timeout + if i == 0 then 0 else providers[i - 1].lag
    {
      var remaining := if elapsed < timeout then timeout - elapsed else 0;
      var share := ShareOf(remaining, n - i);
      if share == 0 {
        return Err(DeadlineExceeded(failures)), failures, shares, elapsed;
      }
      var attempt := Attempt(providers[i], share);
      OneMoreShare(timeout, providers, shares, share);
      shares := shares + [share];
      elapsed := elapsed + Min(providers[i].latency, share) + providers[i].lag;
      if attempt.Ok? {
        return Ok(attempt.value), failures, shares, elapsed;
      }
      failures := failures + [attempt.error];
      i := i + 1;
    }
    r := Err(AllProvidersFailed(failures));
  }

  /** When attempts end on time, time never runs out and the next share is never less than the last or the fair one. */
  lemma {:induction false} NextIsFair(timeout: nat, providers: seq<Provider>, shares: seq<nat>, i: nat)
    requires Punctual(providers) && 0 < |providers| <= U32_MAX
    requires i <= |shares| <= |providers| && SharesFollow(timeout, providers, shares, i)
    ensures Spent(providers, shares, i) <= timeout
    ensures i < |providers| ==>
              var next := NextShare(timeout, Spent(providers, shares, i), |providers| - i);
              Times(timeout, |providers|) <= next && (i > 0 ==> shares[i - 1] <= next)
  {
    if i > 0 {
      NextIsFair(timeout, providers, shares, i - 1);
      var elapsed, left := Spent(providers, shares, i - 1), |providers| - (i - 1);
      FairTurn(timeout, elapsed, left, Min(providers[i - 1].latency, shares[i - 1]));
    }
  }

  /** Fairness of all the shares of a call whose attempts end on time. */
  lemma {:induction false} PunctualSharesAreFair(timeout: nat, providers: seq<Provider>, shares: seq<nat>, i: nat)
    requires Punctual(providers) && 0 < |providers| <= U32_MAX
    requires i <= |shares| <= |providers| && SharesFollow(timeout, providers, shares, i)
    ensures Spent(providers, shares, i) <= timeout
    ensures FairShares(shares[..i], Times(timeout, |providers|))
    ensures i < |providers| ==>
              var next := NextShare(timeout, Spent(providers, shares, i), |providers| - i);
              Times(timeout, |providers|) <= next && (i > 0 ==> shares[i - 1] <= next)
  {
    NextIsFair(timeout, providers, shares, i);
    if i > 0 {
      NextIsFair(timeout, providers, shares, i - 1);
      PunctualSharesAreFair(timeout, providers, shares, i - 1);
      assert shares[..i] == shares[..i - 1] + [shares[i - 1]];
      FairSharesGrow(shares[..i - 1], Times(timeout, |providers|), shares[i - 1]);
    }
  }

  /** One attempt that keeps to its share. */
  lemma FairTurn(timeout: nat, elapsed: nat, left: nat, cost: nat)
    requires elapsed <= timeout && 0 < left <= U32_MAX && cost <= NextShare(timeout, elapsed, left)
    ensures elapsed + cost <= timeout
    ensures left > 1 ==> NextShare(timeout, elapsed, left) <= NextShare(timeout, elapsed + cost, left - 1)
  {
    ShareIsPositive(timeout - elapsed, left);
    if left > 1 {
      NextShareIsNoSmaller(timeout - elapsed, left, timeout - elapsed - cost);
    }
  }

  /** On punctual attempts the call gives up early exactly when there are fewer nanoseconds than providers. */
  lemma GivesUpExactly(timeout: nat, providers: seq<Provider>, shares: seq<nat>)
    requires Punctual(providers) && 0 < |providers| <= U32_MAX
    requires |shares| < |providers| && SharesFollow(timeout, providers, shares, |shares|)
    ensures NextShare(timeout, Spent(providers, shares, |shares|), |providers| - |shares|) == 0
            <==> timeout < |providers|
    ensures timeout < |providers| ==> shares == []
  {
    PunctualSharesAreFair(timeout, providers, shares, |shares|);
    ShareIsPositive(timeout, |providers|);
    if timeout < |providers| && shares != [] {
      FirstShare(timeout, providers, shares, |shares|);
    }
  }

  lemma {:induction false} FirstShare(timeout: nat, providers: seq<Provider>, shares: seq<nat>, i: nat)
    requires 0 < i <= |shares| <= |providers| && SharesFollow(timeout, providers, shares, i)
    ensures shares[0] > 0 && shares[0] == Times(timeout, Min(|providers|, U32_MAX))
  {
    if i > 1 {
      FirstShare(timeout, providers, shares, i - 1);
    }
  }

  /**
   * Tries the providers in order. `shares` lists the time given to each attempt made.
   *
   * The result is the answer of the first provider whose attempt succeeds, after failed attempts
   * at all those before it. Each share is the next share at its moment, and the call gives up
   * early only when the next share would be nothing. It overruns its timeout by no more than the
   * lag of its last attempt. When attempts end on time, the shares never shrink, none is below the
   * timeout divided by the number of providers, and the deadline error occurs exactly when the
   * timeout has fewer nanoseconds than there are providers.
   */
  method Discover(timeout: nat, providers: seq<Provider>)
    returns (r: Result<Address, DiscoveryError>, failures: seq<ProviderError>, shares: seq<nat>, elapsed: nat)
    ensures |shares| <= |providers|
    ensures providers == [] <==> r == Err(NoProviders)
    ensures r.Ok? ==>
              && shares != [] && Answered(providers[|shares| - 1], shares[|shares| - 1], r.value)
              && |failures| == |shares| - 1
    ensures FailedAttempts(providers, shares, failures)
    ensures r.Err? && !r.error.NoProviders? ==> r.error.failures == failures && |failures| == |shares|
    ensures r.Err? && r.error.AllProvidersFailed? ==> |shares| == |providers|
    ensures SharesFollow(timeout, providers, shares, |shares|) && elapsed == Spent(providers, shares, |shares|)
    ensures r.Err? && r.error.DeadlineExceeded? ==>
              |shares| < |providers| && NextShare(timeout, elapsed, |providers| - |shares|) == 0
    ensures elapsed <= timeout + if shares == [] then 0 else providers[|shares| - 1].lag
    ensures Punctual(providers) && 0 < |providers| <= U32_MAX ==>
              && FairShares(shares, Times(timeout, |providers|))
              && ((r.Err? && r.error.DeadlineExceeded?) <==> timeout < |providers|)
              && (timeout < |providers| ==> shares == [])
  {
    if providers == [] {
      return Err(NoProviders), [], [], 0;
    }
    r, failures, shares, elapsed := TryInOrder(timeout, providers);
    if Punctual(providers) && |providers| <= U32_MAX {
      PunctualSharesAreFair(timeout, providers, shares, |shares|);
      assert shares[..|shares|] == shares;
      if |shares| < |providers| {
        GivesUpExactly(timeout, providers, shares);
      }
      if shares != [] {
        FirstShare(timeout, providers, shares, |shares|);
        ShareIsPositive(timeout, |providers|);
      }
    }
  }

  /** Providers that never answer in time. */
  function Silent(n: nat, latency: nat): (ps: seq<Provider>)
    ensures |ps| == n && forall i :: 0 <= i < n ==> ps[i] == Provider(latency, Err(TimedOut), 0)
  {
    seq(n, _ => Provider(latency, Err(TimedOut), 0))
  }

  /**
   * The divisor saturates at 32 bits, and fairness ends there: for every larger number of
   * providers, a call in which none answers gives its second provider less than its first. A
   * configuration allows eight.
   */
  method SaturationBreaksFairness(n: nat) returns (shares: seq<nat>)
    requires n > U32_MAX
    ensures |shares| >= 2 && shares[1] < shares[0]
  {
    var timeout := 2 * U32_MAX;
    var providers := Silent(n, timeout);
    var r, failures, elapsed;
    r, failures, shares, elapsed := Discover(timeout, providers);
    assert providers[0].answer.Err? && providers[1].answer.Err?;
    TimesIsDivision(timeout, U32_MAX);
    TimesIsDivision(timeout - 2, U32_MAX);
    SharesOfTwo(timeout, providers, shares, |shares|);
    if r.Ok? {
      assert false;
    }
  }

  lemma {:induction false} SharesOfTwo(timeout: nat, providers: seq<Provider>, shares: seq<nat>, i: nat)
    requires i <= |shares| <= |providers| && SharesFollow(timeout, providers, shares, i)
    ensures i >= 1 ==> shares[0] == NextShare(timeout, 0, |providers|)
    ensures i >= 2 ==>
              shares[1] == NextShare(timeout, Min(providers[0].latency, shares[0]) + providers[0].lag, |providers| - 1)
  {
    if i > 2 {
      SharesOfTwo(timeout, providers, shares, i - 1);
    } else if i == 2 {
      SharesOfTwo(timeout, providers, shares, 1);
      assert Spent(providers, shares, 1) ==
             Spent(providers, shares, 0) + Min(providers[0].latency, shares[0]) + providers[0].lag;
    }
  }

  /**
   * A provider that would give a usable answer within the fair share is never passed over: the
   * call succeeds, with its answer or an earlier one.
   */
  lemma ResponsiveProviderIsEnough(
      timeout: nat, providers: seq<Provider>, shares: seq<nat>, failures: seq<ProviderError>, good: nat)
    requires Punctual(providers) && 0 < |providers| <= U32_MAX
    requires |shares| <= |providers| && SharesFollow(timeout, providers, shares, |shares|)
    requires FailedAttempts(providers, shares, failures)
    requires good < |providers| && providers[good].latency <= Times(timeout, |providers|) && providers[good].answer.Ok?
    ensures |failures| <= good
  {
    if good < |failures| {
      PunctualSharesAreFair(timeout, providers, shares, |shares|);
      assert shares[..|shares|] == shares;
      FairSharesAreOrdered(shares, Times(timeout, |providers|), good, good);
      assert false;
    }
  }
}
