/** API errors, their classification, and the reports built from them. */
module Reports {
  import opened Text

  const MAX_RETRY_AFTER := 3600

  /** A delay that a server asked for, in whole seconds, as the parser of its header caps it. */
  type Delay = n: nat | n <= MAX_RETRY_AFTER

  datatype ApiError =
    | Unauthorized
    | TokenInactive
    | PermissionDenied
    | RateLimitedBy(retryAfter: Option<Delay>)
    | Status(code: nat, retryAfter: Option<Delay>)
    | RequestFailed
    | Malformed
    | TooLarge
    | MissingResult
    | AmbiguousRecord
    | RecordNotFound
    | AmbiguousZone
    | ZoneNotFound
    | ZoneNotActive(status: string)
    | ZoneNameMismatch
    | ZoneIdMismatch
    | PaginationLimit

  predicate IsAuthentication(e: ApiError) {
    e.Unauthorized? || e.TokenInactive?
  }

  predicate IsRateLimited(e: ApiError) {
    e.RateLimitedBy?
  }

  predicate IsNotFound(e: ApiError) {
    e.Status? && e.code == 404
  }

  predicate IsTransient(e: ApiError) {
    || e.RequestFailed? || e.RateLimitedBy? || e.Malformed? || e.TooLarge? || e.MissingResult?
    || (e.Status? && (500 <= e.code < 600 || e.code == 408 || e.code == 409))
  }

  function RetryAfterOf(e: ApiError): Option<Delay> {
    if e.RateLimitedBy? || e.Status? then e.retryAfter else None
  }

  /** The failures after which a cycle or check stops visiting records. */
  predicate Aborts(e: ApiError) {
    IsAuthentication(e) || IsRateLimited(e)
  }

  datatype FailureKind = Coordination | Authentication | RateLimited | Transient | Permanent

  datatype FailureStage =
    | RuntimeCoordination
    | CycleDeadline
    | Discovery
    | TokenCheck
    | ZoneLookup
    | RecordLookup
    | RecordUpdate
    | Creation
    | EditPermission

  datatype Failure = Failure(stage: FailureStage, kind: FailureKind, retryAfter: Option<Delay>)

  function ApiFailure(stage: FailureStage, e: ApiError): Failure {
    var kind :=
      if IsAuthentication(e) then Authentication
      else if IsRateLimited(e) then RateLimited
      else if IsTransient(e) then Transient
      else Permanent;
    Failure(stage, kind, RetryAfterOf(e))
  }

  /**
   * The kind and the delay of a failure, error by error: a refused token is a matter of
   * authentication, a rate limit is one, what the network or the server spoiled may pass by itself,
   * and everything else is permanent. Only rate limits and other statuses can carry a delay.
   */
  lemma ClassifiedExactly(stage: FailureStage, e: ApiError)
    ensures var f := ApiFailure(stage, e);
            && f.stage == stage
            && (f.kind == Authentication <==> e in {Unauthorized, TokenInactive})
            && (f.kind == RateLimited <==> e.RateLimitedBy?)
            && (f.kind == Transient <==>
                || e in {RequestFailed, Malformed, TooLarge, MissingResult}
                || (e.Status? && (e.code == 408 || e.code == 409 || (500 <= e.code && e.code <= 599))))
            && match e {
                 case RateLimitedBy(delay) => f.retryAfter == delay
                 case Status(_, delay) => f.retryAfter == delay
                 case _ => f.retryAfter == None
               }
  {
  }

  /** After a failure of this kind no further record is worth a visit. */
  predicate Stopping(f: Failure) {
    f.stage == CycleDeadline || f.kind == Authentication || f.kind == RateLimited
  }

  /** None of these failures calls for a stop. */
  predicate GoesOn(failures: seq<Failure>) {
    failures == [] || (GoesOn(failures[..|failures| - 1]) && !Stopping(failures[|failures| - 1]))
  }

  lemma {:induction false} GoesOnAt(failures: seq<Failure>, i: nat)
    requires GoesOn(failures) && i < |failures|
    ensures !Stopping(failures[i])
  {
    if i < |failures| - 1 {
      GoesOnAt(failures[..|failures| - 1], i);
    }
  }

  /** Only the last of these failures may call for a stop, and it does exactly if `stop`. */
  predicate StopsAtLast(failures: seq<Failure>, stop: bool) {
    if stop then
      failures != [] && GoesOn(failures[..|failures| - 1]) && Stopping(failures[|failures| - 1])
    else GoesOn(failures)
  }

  lemma StopsNext(failures: seq<Failure>, f: Failure)
    requires GoesOn(failures)
    ensures StopsAtLast(failures + [f], Stopping(f))
  {
    assert (failures + [f])[..|failures|] == failures;
  }

  function DeadlineFailure(): Failure {
    Failure(CycleDeadline, Transient, None)
  }

  datatype CycleReport = CycleReport(
    records: nat,
    kept: nat,
    updated: nat,
    created: nat,
    interrupted: bool,
    failures: seq<Failure>)
  {
    predicate IsSuccess() {
      failures == [] && !interrupted
    }

    predicate HasAuthenticationFailure() {
      exists f <- failures :: f.kind == Authentication
    }

    predicate HasRetryableFailure() {
      exists f <- failures :: f.kind == RateLimited || f.kind == Transient
    }
  }

  function EmptyReport(records: nat): CycleReport {
    CycleReport(records, 0, 0, 0, false, [])
  }

  /** Longest delay that any failure asks for. */
  function LongestRetryAfter(failures: seq<Failure>): (r: Option<Delay>)
    ensures r.None? <==> forall f :: f in failures ==> f.retryAfter.None?
    ensures r.Some? ==> exists f :: f in failures && f.retryAfter == r
    ensures r.Some? ==> forall f :: f in failures && f.retryAfter.Some? ==> f.retryAfter.value <= r.value
  {
    if failures == [] then None
    else
      var rest := LongestRetryAfter(failures[1..]);
      var first := failures[0].retryAfter;
      assert failures == [failures[0]] + failures[1..];
      if first.None? || (rest.Some? && rest.value >= first.value) then rest else first
  }
}
